/** state=file and state=absent. */
module FileStates {
  import opened Wrappers
  import opened FileSystem
  import opened Resolution
  import opened Attributes
  import opened Directories
  import opened WriteFiles
  import WalkTheorems

  /** handleFileFile: only the attributes of an existing non-directory. */
  function FileFile(fs: Fs, path: Path, job: Job): DirOutcome {
    match Stat(fs.tree, path)
    case Found(i, _) =>
      if fs.tree.IsDir(i) then DirOutcome(fs, false, Some(IsADirectory))
      else
        var a := Apply(fs.tree, fs.attrs, path, job, false);
        DirOutcome(fs.(attrs := a.attrs), a.changed, a.err)
    case r =>
      var e := ErrnoOf(r);
      DirOutcome(fs, false, Some(if e == ENOENT then NotThere else Sys(e)))
  }

  /** Take one name out of its directory: unlink for a file or symlink, and what os.RemoveAll
      leaves of a directory, whose whole subtree goes with the name. */
  function RemoveName(fs: Fs, d: Ino, n: Name): Fs
    requires fs.tree.IsDir(d)
  {
    SetEntries(fs, d, fs.tree.Entries(d) - {n})
  }

  /** What os.RemoveAll may leave of a directory when it gives up: any names may be gone from it and
      from the directories below it, which symlinks do not lead to. */
  ghost predicate PartlyRemoved(t: Tree, left: Tree, top: Ino) {
    && left.root == t.root && left.cwd == t.cwd && left.nodes.Keys == t.nodes.Keys
    && (forall i :: i in t.nodes ==>
        left.nodes[i] == t.nodes[i] || (Below(t, top, i) && Thinned(t.nodes[i], left.nodes[i])))
  }

  ghost predicate Below(t: Tree, top: Ino, i: Ino) { t.IsDir(i) && WalkTheorems.Reachable(t, false, top, i) }

  ghost predicate Thinned(k: Kind, k': Kind) {
    && k.Dir? && k'.Dir? && k'.parent == k.parent
    && (forall n :: n in k'.entries ==> n in k.entries && k'.entries[n] == k.entries[n])
  }

  /** handleFileAbsent: a symlink is removed, not followed. `left` is the tree that a recursive
      removal leaves if it fails. */
  function FileAbsent(fs: Fs, path: Path, faults: set<Fault>, left: Tree): DirOutcome {
    match Lstat(fs.tree, path)
    case Found(i, _) =>
      var at := PlaceOf(fs.tree, path);
      if at.NoPlace? then DirOutcome(fs, false, Some(Sys(at.err)))
      else if Fault(RemoveCall, path) in faults || !fs.tree.IsDir(at.dir) then
        DirOutcome(if fs.tree.IsDir(i) then fs.(tree := left) else fs, false, Some(Sys(EIO)))
      else DirOutcome(RemoveName(fs, at.dir, at.name), true, None)
    case r =>
      var e := ErrnoOf(r);
      DirOutcome(fs, false, if e == ENOENT then None else Some(Sys(e)))
  }

  /** The environment's part: a failing recursive removal stays below what it was to remove. */
  ghost predicate LeavesTheRest(t: Tree, path: Path, left: Tree) {
    Lstat(t, path).Found? && t.IsDir(Lstat(t, path).ino) ==> PartlyRemoved(t, left, Lstat(t, path).ino)
  }

  /** Where names are only taken away, a path leads where it did or nowhere. */
  lemma {:induction false} ThinnedWalk(t: Tree, t': Tree, cur: Ino, segs: seq<Name>, hops: nat, follow: bool)
    requires t'.root == t.root && t'.nodes.Keys == t.nodes.Keys
    requires forall i :: i in t.nodes ==> t'.nodes[i] == t.nodes[i] || Thinned(t.nodes[i], t'.nodes[i])
    ensures var r' := Walk(t', cur, segs, hops, follow); r'.Found? ==> r' == Walk(t, cur, segs, hops, follow)
    decreases hops, |segs|
  {
    if |segs| > 0 && t'.IsDir(cur) && Lookup(t', cur, segs[0]).Some? {
      var next := Lookup(t', cur, segs[0]).value;
      assert Lookup(t, cur, segs[0]) == Some(next);
      if t'.IsLink(next) && (|segs| > 1 || follow) {
        if hops > 0 {
          var target := t.nodes[next].target;
          ThinnedWalk(t, t', Origin(t, target.abs, cur), target.segs + segs[1..], hops - 1, follow);
        }
      } else {
        ThinnedWalk(t, t', next, segs[1..], hops, follow);
      }
    }
  }

  /** A request that fails, even half-way through a directory, has changed no attributes and no
      file's bytes, no directory that is not below the path, and has led no path elsewhere; what
      it leaves is well formed. */
  lemma AbsentFailing(fs: Fs, path: Path, faults: set<Fault>, left: Tree)
    requires Valid(fs) && LeavesTheRest(fs.tree, path, left) && FileAbsent(fs, path, faults, left).err.Some?
    ensures var r := FileAbsent(fs, path, faults, left);
      && !r.changed && Valid(r.fs) && r.fs.attrs == fs.attrs && r.fs.next == fs.next
      && (forall i :: i in fs.tree.nodes && r.fs.tree.nodes[i] != fs.tree.nodes[i] ==>
            Lstat(fs.tree, path).Found? && Below(fs.tree, Lstat(fs.tree, path).ino, i))
      && (forall p, follow :: Resolve(r.fs.tree, p, follow).Found? ==>
            Resolve(r.fs.tree, p, follow) == Resolve(fs.tree, p, follow))
  {
    var t' := FileAbsent(fs, path, faults, left).fs.tree;
    forall p, follow | Resolve(t', p, follow).Found?
      ensures Resolve(t', p, follow) == Resolve(fs.tree, p, follow)
    {
      ThinnedWalk(fs.tree, t', Origin(fs.tree, p.abs, fs.tree.cwd), p.segs, MAX_HOPS, follow);
    }
    forall d, n | t'.IsDir(d) && n in t'.Entries(d)
      ensures t'.Entries(d)[n] in t'.nodes && n != "." && n != ".."
    {
      assert fs.tree.IsDir(d) && n in fs.tree.Entries(d) && t'.Entries(d)[n] == fs.tree.Entries(d)[n];
    }
  }

  /** `t'` is `t` without the name `n` in `d`. */
  ghost predicate Without(t: Tree, t': Tree, d: Ino, n: Name) {
    && t.IsDir(d) && n != "." && n != ".." && t'.root == t.root && t'.cwd == t.cwd && t'.nodes.Keys == t.nodes.Keys
    && t'.nodes[d] == Dir(t.nodes[d].entries - {n}, t.nodes[d].parent)
    && (forall i :: i in t.nodes && i != d ==> t'.nodes[i] == t.nodes[i])
  }

  lemma WithoutLookup(t: Tree, t': Tree, d: Ino, n: Name, cur: Ino, name: Name)
    requires Without(t, t', d, n) && t.IsDir(cur)
    ensures t'.IsDir(cur)
    ensures Lookup(t', cur, name) == if cur == d && name == n then None else Lookup(t, cur, name)
  {}

  /** Removing a name never turns a missing path into an existing one: resolution either is
      undisturbed or ends at the removed name. */
  lemma {:induction false} RemovedWalk(t: Tree, t': Tree, d: Ino, n: Name, cur: Ino, segs: seq<Name>, hops: nat,
                                       follow: bool)
    requires Without(t, t', d, n)
    ensures var r' := Walk(t', cur, segs, hops, follow);
      || r' == Walk(t, cur, segs, hops, follow)
      || r' == Missing(d, n) || r' == Fail(ENOENT)
    decreases hops, |segs|
  {
    if |segs| > 0 && t.IsDir(cur) {
      WithoutLookup(t, t', d, n, cur, segs[0]);
      if !(cur == d && segs[0] == n) && Lookup(t, cur, segs[0]).Some? {
        var next := Lookup(t, cur, segs[0]).value;
        assert t'.IsLink(next) == t.IsLink(next);
        if t.IsLink(next) && (|segs| > 1 || follow) {
          if hops > 0 {
            var target := t.nodes[next].target;
            RemovedWalk(t, t', d, n, Origin(t, target.abs, cur), target.segs + segs[1..], hops - 1, follow);
          }
        } else {
          RemovedWalk(t, t', d, n, next, segs[1..], hops, follow);
        }
      }
    }
  }

  /** After a successful request the path is gone, whatever led to it before, no inode's attributes
      changed, no file's bytes changed, and asking again changes nothing. */
  lemma AbsentIsGone(fs: Fs, path: Path, faults: set<Fault>, left: Tree, again: set<Fault>)
    requires Valid(fs) && path.Clean() && FileAbsent(fs, path, faults, left).err.None?
    ensures var r := FileAbsent(fs, path, faults, left);
      && (r.changed <==> Lstat(fs.tree, path).Found?)
      && !Lstat(r.fs.tree, path).Found? && ErrnoOf(Lstat(r.fs.tree, path)) == ENOENT
      && r.fs.attrs == fs.attrs
      && (forall i :: i in fs.tree.nodes && !fs.tree.IsDir(i) ==>
          i in r.fs.tree.nodes && r.fs.tree.nodes[i] == fs.tree.nodes[i])
      && FileAbsent(r.fs, path, again, left) == DirOutcome(r.fs, false, None)
  {
    if Lstat(fs.tree, path).Found? {
      var at := PlaceOf(fs.tree, path);
      var d, n := at.dir, at.name;
      var t' := RemoveName(fs, d, n).tree;
      var parent := path.Parent();
      assert path.segs == parent.segs + [n];
      var start := Origin(fs.tree, path.abs, fs.tree.cwd);
      RemovedWalk(fs.tree, t', d, n, start, parent.segs, MAX_HOPS, true);
      WalkAppend(t', start, parent.segs, [n], MAX_HOPS, false);
    }
  }

  /** state=absent, decided: what is not there is fine, what is there is removed unless the removal
      fails, and "/" and "." cannot be removed. */
  lemma AbsentDecided(fs: Fs, path: Path, faults: set<Fault>, left: Tree)
    requires Valid(fs) && path.Clean()
    ensures var r := FileAbsent(fs, path, faults, left); var st := Lstat(fs.tree, path);
      if !st.Found? then
        r == DirOutcome(fs, false, if ErrnoOf(st) == ENOENT then None else Some(Sys(ErrnoOf(st))))
      else
        && (r.err.None? <==> |path.segs| > 0 && Fault(RemoveCall, path) !in faults)
        && (r.err.None? ==> r.changed)
        && (path.segs == [] ==> r == DirOutcome(fs, false, Some(Sys(EBUSY))))
        && (r.err.Some? && !fs.tree.IsDir(st.ino) ==> r.fs == fs)
        && (r.err.Some? && fs.tree.IsDir(st.ino) && |path.segs| > 0 ==> r.fs == fs.(tree := left))
  {
    if |path.segs| > 0 && Lstat(fs.tree, path).Found? {
      assert path == path.Parent().Join(path.Base());
      ParentResolves(fs.tree, path.Parent(), path.Base(), false);
      assert path.Base() == path.segs[|path.segs| - 1];
    }
  }

  /** A removal takes one name out of one directory, the one the path's parent leads to. */
  lemma AbsentTakesOneName(fs: Fs, path: Path, faults: set<Fault>, left: Tree)
    requires Valid(fs) && path.Clean() && |path.segs| > 0 && Lstat(fs.tree, path).Found?
    requires FileAbsent(fs, path, faults, left).err.None?
    ensures Stat(fs.tree, path.Parent()).Found? && fs.tree.IsDir(Stat(fs.tree, path.Parent()).ino)
    ensures var r := FileAbsent(fs, path, faults, left).fs; var d := Stat(fs.tree, path.Parent()).ino;
      && r.tree.nodes.Keys == fs.tree.nodes.Keys && r.attrs == fs.attrs && r.next == fs.next
      && r.tree.nodes[d] == Dir(fs.tree.Entries(d) - {path.segs[|path.segs| - 1]}, fs.tree.nodes[d].parent)
      && (forall i :: i in fs.tree.nodes && i != d ==> r.tree.nodes[i] == fs.tree.nodes[i])
  {
    assert path == path.Parent().Join(path.Base());
    ParentResolves(fs.tree, path.Parent(), path.Base(), false);
  }
}
