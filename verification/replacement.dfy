/** Path resolution when a directory entry is created or replaced: which paths see the new node,
    which are undisturbed, and which break. */
module Replacement {
  import opened Wrappers
  import opened FileSystem
  import opened Resolution

  /** Whether resolving the path looks up the name `n` in directory `d` on the way. */
  predicate Uses(t: Tree, cur: Ino, segs: seq<Name>, hops: nat, d: Ino, n: Name)
    decreases hops, |segs|
  {
    if |segs| == 0 || !t.IsDir(cur) then false
    else if cur == d && segs[0] == n then true
    else
      match Lookup(t, cur, segs[0])
      case None => false
      case Some(next) =>
        if t.IsLink(next) then
          hops > 0 &&
          var target := t.nodes[next].target;
          Uses(t, Origin(t, target.abs, cur), target.segs + segs[1..], hops - 1, d, n)
        else Uses(t, next, segs[1..], hops, d, n)
  }

  predicate PathUses(t: Tree, p: Path, d: Ino, n: Name) {
    Uses(t, Origin(t, p.abs, t.cwd), p.segs, MAX_HOPS, d, n)
  }

  lemma NextIsNode(t: Tree, i: Ino, segs: seq<Name>, hops: nat, follow: bool)
    ensures i !in t.nodes ==> Walk(t, i, segs, hops, follow) == Fail(ENOENT)
  {}

  /** A node created where resolution ended in a missing name is what the path then leads to. */
  lemma {:induction false} AddedIsFound(t: Tree, t': Tree, cur: Ino, segs: seq<Name>, hops: nat, follow: bool, f: Ino)
    requires Sound(t) && Grows(t, t') && Walk(t, cur, segs, hops, follow).Missing?
    requires f in t'.nodes && !t'.IsLink(f)
    requires var r := Walk(t, cur, segs, hops, follow);
      && t'.IsDir(r.dir) && r.name in t'.Entries(r.dir) && t'.Entries(r.dir)[r.name] == f
      && r.name != "." && r.name != ".."
    ensures Walk(t', cur, segs, hops, follow).Found? && Walk(t', cur, segs, hops, follow).ino == f
    decreases hops, |segs|
  {
    assert KindGrows(t.nodes[cur], t'.nodes[cur]);
    if Lookup(t, cur, segs[0]).Some? {
      var next := Lookup(t, cur, segs[0]).value;
      NextIsNode(t, next, segs[1..], hops, follow);
      assert KindGrows(t.nodes[next], t'.nodes[next]);
      if t.IsLink(next) && (|segs| > 1 || follow) {
        var target := t.nodes[next].target;
        AddedIsFound(t, t', Origin(t, target.abs, cur), target.segs + segs[1..], hops - 1, follow, f);
      } else {
        AddedIsFound(t, t', next, segs[1..], hops, follow, f);
      }
    }
  }

  /** Growth does not change which entries a resolving path uses. */
  lemma {:induction false} UsesGrows(t: Tree, t': Tree, cur: Ino, segs: seq<Name>, hops: nat, d: Ino, n: Name)
    requires Sound(t) && Grows(t, t') && d in t.nodes
    requires var r := Walk(t, cur, segs, hops, true);
      r.Found? || (r.Missing? && r.name in t'.Entries(r.dir) && !t'.IsLink(t'.Entries(r.dir)[r.name]))
    ensures Uses(t', cur, segs, hops, d, n) == Uses(t, cur, segs, hops, d, n)
    decreases hops, |segs|
  {
    assert KindGrows(t.nodes[cur], t'.nodes[cur]);
    if |segs| > 0 && t.IsDir(cur) && Lookup(t, cur, segs[0]).Some? {
      var next := Lookup(t, cur, segs[0]).value;
      NextIsNode(t, next, segs[1..], hops, true);
      assert KindGrows(t.nodes[next], t'.nodes[next]);
      if t.IsLink(next) {
        var target := t.nodes[next].target;
        UsesGrows(t, t', Origin(t, target.abs, cur), target.segs + segs[1..], hops - 1, d, n);
      } else {
        UsesGrows(t, t', next, segs[1..], hops, d, n);
      }
    }
  }

  /** `t'` is `t` with the entry `n` of `d` pointing to a new file `f`. */
  ghost predicate Replaces(t: Tree, t': Tree, d: Ino, n: Name, f: Ino) {
    && t.IsDir(d) && n != "." && n != ".." && f !in t.nodes && t'.IsFile(f)
    && t'.root == t.root && t'.cwd == t.cwd
    && t'.nodes.Keys == t.nodes.Keys + {f}
    && t'.nodes[d] == Dir(t.nodes[d].entries[n := f], t.nodes[d].parent)
    && (forall i :: i in t.nodes && i != d ==> t'.nodes[i] == t.nodes[i])
  }

  /** Paths that do not use the entry are undisturbed. */
  lemma {:induction false} ReplaceKeeps(t: Tree, t': Tree, d: Ino, n: Name, f: Ino, cur: Ino, segs: seq<Name>,
                                        hops: nat)
    requires Replaces(t, t', d, n, f)
    requires Walk(t, cur, segs, hops, true).Found? && !Uses(t, cur, segs, hops, d, n)
    ensures Walk(t', cur, segs, hops, true) == Walk(t, cur, segs, hops, true)
    decreases hops, |segs|
  {
    if |segs| > 0 {
      var next := Lookup(t, cur, segs[0]).value;
      NextIsNode(t, next, segs[1..], hops, true);
      if t.IsLink(next) {
        var target := t.nodes[next].target;
        ReplaceKeeps(t, t', d, n, f, Origin(t, target.abs, cur), target.segs + segs[1..], hops - 1);
      } else {
        ReplaceKeeps(t, t', d, n, f, next, segs[1..], hops);
      }
    }
  }

  /** Paths that use the entry lead to the new file or nowhere. */
  lemma {:induction false} ReplaceBreaks(t: Tree, t': Tree, d: Ino, n: Name, f: Ino, cur: Ino, segs: seq<Name>,
                                         hops: nat)
    requires Sound(t) && Replaces(t, t', d, n, f) && Uses(t, cur, segs, hops, d, n)
    ensures var r := Walk(t', cur, segs, hops, true); r.Found? ==> r.ino == f
    decreases hops, |segs|
  {
    if cur == d && segs[0] == n {
      if |segs| > 1 { assert Walk(t', f, segs[1..], hops, true) == Fail(ENOTDIR); }
    } else {
      var next := Lookup(t, cur, segs[0]).value;
      if t.IsLink(next) {
        var target := t.nodes[next].target;
        ReplaceBreaks(t, t', d, n, f, Origin(t, target.abs, cur), target.segs + segs[1..], hops - 1);
      } else {
        ReplaceBreaks(t, t', d, n, f, next, segs[1..], hops);
      }
    }
  }

  /** A path that looks up a name leading to a file ends at that file or fails. */
  lemma {:induction false} UsesEndsThere(t: Tree, d: Ino, n: Name, end: nat, i: Ino, cur: Ino, segs: seq<Name>,
                                         hops: nat)
    requires t.IsDir(d) && t.IsFile(i) && Walk(t, d, [n], end, true).Found? && Walk(t, d, [n], end, true).ino == i
    requires Uses(t, cur, segs, hops, d, n)
    ensures var r := Walk(t, cur, segs, hops, true); r.Fail? || (r.Found? && r.ino == i)
    decreases hops, |segs|
  {
    if cur == d && segs[0] == n {
      if Walk(t, d, [n], hops, true) != Fail(ELOOP) {
        if hops <= end { MoreHops(t, d, [n], hops, end, true); } else { MoreHops(t, d, [n], end, hops, true); }
      }
      assert segs == [n] + segs[1..];
      if |segs| > 1 { WalkAppend(t, d, [n], segs[1..], hops, true); }
    } else {
      var next := Lookup(t, cur, segs[0]).value;
      if t.IsLink(next) {
        var target := t.nodes[next].target;
        UsesEndsThere(t, d, n, end, i, Origin(t, target.abs, cur), target.segs + segs[1..], hops - 1);
      } else {
        UsesEndsThere(t, d, n, end, i, next, segs[1..], hops);
      }
    }
  }

  /** If the entry does not lead to a directory, then no path to its own directory uses it. */
  lemma {:induction false} NotThroughItself(t: Tree, d: Ino, n: Name, end: nat, cur: Ino, segs: seq<Name>, hops: nat)
    requires Walk(t, cur, segs, hops, true) == Found(d, end) && t.IsDir(d)
    requires var r := Walk(t, d, [n], end, true); r != Fail(ELOOP) && (r.Found? ==> !t.IsDir(r.ino))
    ensures !Uses(t, cur, segs, hops, d, n)
    decreases hops, |segs|
  {
    HopsShrink(t, cur, segs, hops, true);
    if |segs| > 0 {
      var next := Lookup(t, cur, segs[0]).value;
      if t.IsLink(next) {
        var target := t.nodes[next].target;
        var start := Origin(t, target.abs, cur);
        assert target.segs + [n][1..] == target.segs;
        if |segs| == 1 { assert target.segs + segs[1..] == target.segs; }
        if cur == d && segs[0] == n {
          MoreHops(t, start, target.segs, end - 1, hops - 1, true);
          if |segs| > 1 { WalkAppend(t, start, target.segs, segs[1..], hops - 1, true); }
          assert false;
        }
        NotThroughItself(t, d, n, end, start, target.segs + segs[1..], hops - 1);
      } else {
        if cur == d && segs[0] == n {
          assert false;
        }
        NotThroughItself(t, d, n, end, next, segs[1..], hops);
      }
    }
  }
}
