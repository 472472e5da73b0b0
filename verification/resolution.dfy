/** Laws of path resolution that the operations rely on. */
module Resolution {
  import opened Wrappers
  import opened FileSystem

  /** Resolving `a` and then `b` from where it led is resolving `a + b`. */
  lemma {:induction false} WalkAppend(t: Tree, cur: Ino, a: seq<Name>, b: seq<Name>, hops: nat, follow: bool)
    requires |b| > 0
    ensures Walk(t, cur, a + b, hops, follow) ==
              match Walk(t, cur, a, hops, true)
              case Found(d, h) => Walk(t, d, b, h, follow)
              case Missing(_, _) => Fail(ENOENT)
              case Fail(e) => Fail(e)
    decreases hops, |a|
  {
    if cur !in t.nodes {
    } else if |a| == 0 {
      assert a + b == b;
    } else {
      assert (a + b)[0] == a[0] && (a + b)[1..] == a[1..] + b;
      if t.IsDir(cur) && Lookup(t, cur, a[0]).Some? {
        var next := Lookup(t, cur, a[0]).value;
        if t.IsLink(next) {
          if hops > 0 {
            var target := t.nodes[next].target;
            WalkAppend(t, Origin(t, target.abs, cur), target.segs + a[1..], b, hops - 1, follow);
            assert (target.segs + a[1..]) + b == target.segs + (a[1..] + b);
          }
        } else {
          WalkAppend(t, next, a[1..], b, hops, follow);
        }
      }
    }
  }

  /** A larger symlink budget changes no outcome but ELOOP. */
  lemma {:induction false} MoreHops(t: Tree, cur: Ino, segs: seq<Name>, hops: nat, more: nat, follow: bool)
    requires hops <= more
    requires Walk(t, cur, segs, hops, follow) != Fail(ELOOP)
    ensures Walk(t, cur, segs, more, follow) ==
              match Walk(t, cur, segs, hops, follow)
              case Found(i, h) => Found(i, h + (more - hops))
              case r => r
    decreases hops, |segs|
  {
    if t.IsDir(cur) && |segs| > 0 && Lookup(t, cur, segs[0]).Some? {
      var next := Lookup(t, cur, segs[0]).value;
      if t.IsLink(next) && (|segs| > 1 || follow) {
        var target := t.nodes[next].target;
        MoreHops(t, Origin(t, target.abs, cur), target.segs + segs[1..], hops - 1, more - 1, follow);
      } else {
        MoreHops(t, next, segs[1..], hops, more, follow);
      }
    }
  }

  lemma {:induction false} HopsShrink(t: Tree, cur: Ino, segs: seq<Name>, hops: nat, follow: bool)
    ensures var r := Walk(t, cur, segs, hops, follow);
      r.Found? ==> r.ino in t.nodes && r.hops <= hops
    decreases hops, |segs|
  {
    if t.IsDir(cur) && |segs| > 0 && Lookup(t, cur, segs[0]).Some? {
      var next := Lookup(t, cur, segs[0]).value;
      if t.IsLink(next) && (|segs| > 1 || follow) {
        if hops > 0 {
          var target := t.nodes[next].target;
          HopsShrink(t, Origin(t, target.abs, cur), target.segs + segs[1..], hops - 1, follow);
        }
      } else {
        HopsShrink(t, next, segs[1..], hops, follow);
      }
    }
  }

  /** Where a create may happen is an existing directory without that name. */
  lemma {:induction false} MissingPlace(t: Tree, cur: Ino, segs: seq<Name>, hops: nat, follow: bool)
    ensures var r := Walk(t, cur, segs, hops, follow);
      r.Missing? ==> t.IsDir(r.dir) && r.name !in t.Entries(r.dir) && r.name != "." && r.name != ".."
    decreases hops, |segs|
  {
    if t.IsDir(cur) && |segs| > 0 && Lookup(t, cur, segs[0]).Some? {
      var next := Lookup(t, cur, segs[0]).value;
      if t.IsLink(next) && (|segs| > 1 || follow) {
        if hops > 0 {
          var target := t.nodes[next].target;
          MissingPlace(t, Origin(t, target.abs, cur), target.segs + segs[1..], hops - 1, follow);
        }
      } else {
        MissingPlace(t, next, segs[1..], hops, follow);
      }
    }
  }

  /** What a child of a resolved directory resolves to depends on the path only through that
      directory and the budget left there. */
  lemma ChildResolve(t: Tree, p: Path, name: Name, follow: bool)
    requires Stat(t, p).Found?
    ensures Resolve(t, p.Join(name), follow) == Walk(t, Stat(t, p).ino, [name], Stat(t, p).hops, follow)
    ensures Stat(t, p).ino in t.nodes && Stat(t, p).hops <= MAX_HOPS
  {
    var start := Origin(t, p.abs, t.cwd);
    WalkAppend(t, start, p.segs, [name], MAX_HOPS, follow);
    HopsShrink(t, start, p.segs, MAX_HOPS, true);
  }

  lemma PrefixJoin(p: Path, k: nat)
    requires k < |p.segs|
    ensures p.Prefix(k + 1) == p.Prefix(k).Join(p.segs[k])
  {
    assert p.segs[..k + 1] == p.segs[..k] + [p.segs[k]];
  }

  /** A directory is reached only through reachable directories. */
  lemma ParentResolves(t: Tree, p: Path, name: Name, follow: bool)
    requires Resolve(t, p.Join(name), follow).Found? || Resolve(t, p.Join(name), follow).Missing?
    ensures Stat(t, p).Found? && t.IsDir(Stat(t, p).ino)
  {
    WalkAppend(t, Origin(t, p.abs, t.cwd), p.segs, [name], MAX_HOPS, follow);
  }

  lemma GrowsTransitive(a: Tree, b: Tree, c: Tree)
    requires Grows(a, b) && Grows(b, c)
    ensures Grows(a, c)
  {
    forall i | i in a.nodes
      ensures i in c.nodes && KindGrows(a.nodes[i], c.nodes[i])
    {
      assert KindGrows(a.nodes[i], b.nodes[i]) && KindGrows(b.nodes[i], c.nodes[i]);
    }
  }

  /** Growth never takes a resolved path away or moves it. */
  lemma {:induction false} GrowsKeepsFound(t: Tree, t': Tree, cur: Ino, segs: seq<Name>, hops: nat, follow: bool)
    requires Grows(t, t') && Walk(t, cur, segs, hops, follow).Found?
    ensures Walk(t', cur, segs, hops, follow) == Walk(t, cur, segs, hops, follow)
    decreases hops, |segs|
  {
    assert KindGrows(t.nodes[cur], t'.nodes[cur]);
    if |segs| > 0 {
      var next := Lookup(t, cur, segs[0]).value;
      if t.IsLink(next) && (|segs| > 1 || follow) {
        var target := t.nodes[next].target;
        assert KindGrows(t.nodes[next], t'.nodes[next]);
        GrowsKeepsFound(t, t', Origin(t, target.abs, cur), target.segs + segs[1..], hops - 1, follow);
      } else {
        assert next in t.nodes by { assert Walk(t, next, segs[1..], hops, follow).Found?; }
        assert KindGrows(t.nodes[next], t'.nodes[next]);
        GrowsKeepsFound(t, t', next, segs[1..], hops, follow);
      }
    }
  }

  lemma GrowsKeepsResolve(t: Tree, t': Tree, p: Path, follow: bool)
    requires Grows(t, t') && Resolve(t, p, follow).Found?
    ensures Resolve(t', p, follow) == Resolve(t, p, follow)
  {
    GrowsKeepsFound(t, t', Origin(t, p.abs, t.cwd), p.segs, MAX_HOPS, follow);
  }

  lemma AddNodeGrows(fs: Fs, d: Ino, n: Name, kind: Kind, attr: Attr)
    requires Valid(fs) && fs.tree.IsDir(d) && n !in fs.tree.Entries(d)
    ensures Grows(fs.tree, AddNode(fs, d, n, kind, attr).tree)
  {
    var t' := AddNode(fs, d, n, kind, attr).tree;
    forall i | i in fs.tree.nodes
      ensures i in t'.nodes && KindGrows(fs.tree.nodes[i], t'.nodes[i])
    {
      assert i < fs.next;
    }
  }

  lemma AddNodeValid(fs: Fs, d: Ino, n: Name, kind: Kind, attr: Attr)
    requires Valid(fs) && fs.tree.IsDir(d)
    requires n != "." && n != ".."
    requires kind.Dir? ==> kind.entries == map[]
    ensures Valid(AddNode(fs, d, n, kind, attr))
  {
    var fs' := AddNode(fs, d, n, kind, attr);
    assert fs.next !in fs.tree.nodes;
    forall x, m | fs'.tree.IsDir(x) && m in fs'.tree.Entries(x)
      ensures fs'.tree.Entries(x)[m] in fs'.tree.nodes && m != "." && m != ".."
    {
      if x != fs.next {
        assert fs.tree.IsDir(x);
        if m in fs.tree.Entries(x) { assert fs.tree.Entries(x)[m] in fs.tree.nodes; }
      }
    }
  }

  /** The entry a directory lists is what lstat finds under the joined path, with the same
      symlink budget; stat agrees unless the entry is a symlink. */
  lemma ChildEntry(t: Tree, p: Path, name: Name)
    requires Sound(t) && Stat(t, p).Found? && name in t.Entries(Stat(t, p).ino)
    ensures var i := t.Entries(Stat(t, p).ino)[name];
      && i in t.nodes
      && Lstat(t, p.Join(name)) == Found(i, Stat(t, p).hops)
      && (!t.IsLink(i) ==> Stat(t, p.Join(name)) == Found(i, Stat(t, p).hops))
  {
    ChildResolve(t, p, name, true);
    ChildResolve(t, p, name, false);
  }

  /** Not following the last symlink only matters when the last thing is a symlink. */
  lemma {:induction false} LstatIsStat(t: Tree, cur: Ino, segs: seq<Name>, hops: nat)
    requires Walk(t, cur, segs, hops, false).Found? && !t.IsLink(Walk(t, cur, segs, hops, false).ino)
    ensures Walk(t, cur, segs, hops, true) == Walk(t, cur, segs, hops, false)
    decreases hops, |segs|
  {
    if |segs| > 0 {
      var next := Lookup(t, cur, segs[0]).value;
      if t.IsLink(next) && |segs| > 1 {
        var target := t.nodes[next].target;
        LstatIsStat(t, Origin(t, target.abs, cur), target.segs + segs[1..], hops - 1);
      } else {
        LstatIsStat(t, next, segs[1..], hops);
      }
    }
  }

  /** The same outcome, whatever is left of the budget. */
  predicate SameEnd(a: Res, b: Res) {
    match a
    case Found(i, _) => b.Found? && b.ino == i
    case r => b == r
  }

  /** Following a symlink is following its text: from the directory it lies in, or from the root. */
  lemma LinkIsItsText(t: Tree, p: Path, name: Name)
    requires Sound(t) && Stat(t, p).Found? && name in t.Entries(Stat(t, p).ino)
    requires t.IsLink(t.Entries(Stat(t, p).ino)[name])
    ensures var target := t.nodes[t.Entries(Stat(t, p).ino)[name]].target;
      var text := if target.abs then target else Path(p.abs, p.segs + target.segs);
      Stat(t, p.Join(name)) == Fail(ELOOP) || SameEnd(Stat(t, p.Join(name)), Stat(t, text))
  {
    var d, h := Stat(t, p).ino, Stat(t, p).hops;
    var target := t.nodes[t.Entries(d)[name]].target;
    ChildResolve(t, p, name, true);
    if h > 0 {
      assert target.segs + [name][1..] == target.segs;
      if target.abs {
        if Stat(t, p.Join(name)) != Fail(ELOOP) { MoreHops(t, t.root, target.segs, h - 1, MAX_HOPS, true); }
      } else if Stat(t, p.Join(name)) != Fail(ELOOP) {
        MoreHops(t, d, target.segs, h - 1, h, true);
        if |target.segs| > 0 {
          WalkAppend(t, Origin(t, p.abs, t.cwd), p.segs, target.segs, MAX_HOPS, true);
        } else {
          assert p.segs + target.segs == p.segs;
        }
      }
    }
  }

  /** A symlink to itself leads nowhere. */
  lemma {:induction false} SelfLinkLoops(t: Tree, d: Ino, name: Name, hops: nat)
    requires t.IsDir(d) && name in t.Entries(d) && name != "." && name != ".."
    requires t.IsLink(t.Entries(d)[name]) && t.nodes[t.Entries(d)[name]].target == Path(false, [name])
    ensures Walk(t, d, [name], hops, true) == Fail(ELOOP)
  {
    if hops > 0 {
      assert [name] + [name][1..] == [name];
      SelfLinkLoops(t, d, name, hops - 1);
    }
  }

  /** Every resolution starts with a budget of 40 symlinks. */
  lemma FreshBudget(t: Tree)
    requires Sound(t)
    ensures Stat(t, Path(true, [])) == Found(t.root, 40) && Stat(t, Path(false, [])) == Found(t.cwd, 40)
  {}
}
