/** The write handler as a whole: the destination's bytes over time, the backup, and what a
    successful call leaves. */
module WriteHandlerTheorems {
  import opened Wrappers
  import opened FileSystem
  import opened Resolution
  import opened Attributes
  import opened Directories
  import opened AttributeWalk
  import opened DirectoryTheorems
  import opened Replacement
  import opened WriteFiles
  import opened WriteTheorems

  /** `s` extends `fs`: nothing is lost, and of the old files only `o` may have other bytes. */
  ghost predicate ExtendsBut(fs: Fs, s: Fs, o: Ino) {
    && Valid(s) && Grows(fs.tree, s.tree)
    && (forall i :: fs.tree.IsFile(i) && i != o ==> s.tree.nodes[i] == fs.tree.nodes[i])
    && (forall i :: i in fs.attrs ==> i in s.attrs && s.attrs[i] == fs.attrs[i])
  }

  /** `s` extends `fs` and leaves the node `i` alone. */
  ghost predicate Keeps(fs: Fs, s: Fs, i: Ino) {
    && Valid(s) && Grows(fs.tree, s.tree)
    && i in fs.tree.nodes && s.tree.nodes[i] == fs.tree.nodes[i]
    && (forall j :: j in fs.attrs ==> j in s.attrs && s.attrs[j] == fs.attrs[j])
  }

  lemma FillExtends(fs: Fs, s: Fs, o: Ino, data: Bytes)
    requires ExtendsBut(fs, s, o) && s.tree.IsFile(o)
    ensures ExtendsBut(fs, SetContent(s, o, data), o)
    ensures Grows(s.tree, SetContent(s, o, data).tree)
  {
    var s' := SetContent(s, o, data);
    assert s'.tree.nodes.Keys == s.tree.nodes.Keys;
    forall d, n | s'.tree.IsDir(d) && n in s'.tree.Entries(d)
      ensures s'.tree.Entries(d)[n] in s'.tree.nodes && n != "." && n != ".."
    {
      assert s.tree.IsDir(d) && s.tree.Entries(d) == s'.tree.Entries(d);
    }
    forall i | i in s.tree.nodes
      ensures i in s'.tree.nodes && KindGrows(s.tree.nodes[i], s'.tree.nodes[i])
    {}
    GrowsTransitive(fs.tree, s.tree, s'.tree);
  }

  /** A successful open for writing yields an empty file, which is what the path then leads to. */
  lemma OpenExact(fs: Fs, p: Path, mode: Perm, host: Host, faults: set<Fault>)
    requires Valid(fs) && OpenForWriting(fs, p, mode, host, faults).Opened?
    ensures var r := OpenForWriting(fs, p, mode, host, faults);
      && ExtendsBut(fs, r.fs, r.ino)
      && r.fs.tree.IsFile(r.ino) && r.fs.tree.nodes[r.ino] == File([])
      && Stat(r.fs.tree, p).Found? && Stat(r.fs.tree, p).ino == r.ino
      && (if Stat(fs.tree, p).Found? then r.ino == Stat(fs.tree, p).ino else r.ino == fs.next)
      && (forall d, n :: d in fs.tree.nodes ==> PathUses(r.fs.tree, p, d, n) == PathUses(fs.tree, p, d, n))
  {
    var r := OpenForWriting(fs, p, mode, host, faults);
    var start := Origin(fs.tree, p.abs, fs.tree.cwd);
    GrowsReflexive(fs.tree);
    if Stat(fs.tree, p).Found? {
      FillExtends(fs, fs, r.ino, []);
      GrowsKeepsResolve(fs.tree, r.fs.tree, p, true);
    } else {
      var d, n := Stat(fs.tree, p).dir, Stat(fs.tree, p).name;
      MissingPlace(fs.tree, start, p.segs, MAX_HOPS, true);
      var attr := Attr(Masked(mode, host.umask), host.uid, host.gid);
      AddNodeValid(fs, d, n, File([]), attr);
      AddNodeGrows(fs, d, n, File([]), attr);
      AddedIsFound(fs.tree, r.fs.tree, start, p.segs, MAX_HOPS, true, fs.next);
    }
    forall d, n | d in fs.tree.nodes
      ensures PathUses(r.fs.tree, p, d, n) == PathUses(fs.tree, p, d, n)
    {
      UsesGrows(fs.tree, r.fs.tree, start, p.segs, MAX_HOPS, d, n);
    }
  }

  // ---------------------------------------------------------------- the backup

  /** Two names of one inode. */
  predicate SameFile(t: Tree, p: Path, q: Path) {
    Stat(t, p).Found? && Stat(t, q).Found? && Stat(t, p).ino == Stat(t, q).ino
  }

  /** Opening the copy's target empties its source before the source is read. */
  predicate Overwrites(fs: Fs, src: Path, dst: Path, faults: set<Fault>) {
    SameFile(fs.tree, src, dst) && Fault(OpenCall, dst) !in faults && ContentAt(fs.tree, src) != Some([])
  }

  /** A copy keeps its source at every moment and whatever fails, unless its target is the source
      under another name: that loses the bytes, if there are any and the target can be opened. */
  lemma CopyKeeps(fs: Fs, src: Path, dst: Path, short: nat, host: Host, faults: set<Fault>)
    requires Valid(fs) && Stat(fs.tree, src).Found? && fs.tree.IsFile(Stat(fs.tree, src).ino)
    ensures var c := CopyFile(fs, src, dst, short, host, faults); var i := Stat(fs.tree, src).ino;
      (forall s :: s in c.states ==> Keeps(fs, s, i)) <==> !Overwrites(fs, src, dst, faults)
  {
    var c := CopyFile(fs, src, dst, short, host, faults);
    var i := Stat(fs.tree, src).ino;
    var mode := fs.attrs[i].perm;
    var o := OpenForWriting(fs, dst, mode, host, faults);
    if o.Opened? {
      OpenExact(fs, dst, mode, host, faults);
      if SameFile(fs.tree, src, dst) {
        CopyOntoItself(fs, src, dst, short, host, faults);
        assert c.states[0] in c.states && c.states[0].tree.nodes[i] == File([]);
      } else {
        assert i < fs.next && o.ino != i;
        var data := o.fs.tree.nodes[i].content;
        var bytes := if Fault(CopyCall, dst) in faults then Short(data, short) else data;
        assert c.states == [o.fs, SetContent(o.fs, o.ino, bytes)];
        FillKeeps(fs, o.fs, o.ino, bytes, i);
      }
    }
  }

  lemma CopyOntoItself(fs: Fs, src: Path, dst: Path, short: nat, host: Host, faults: set<Fault>)
    requires Valid(fs) && SameFile(fs.tree, src, dst) && fs.tree.IsFile(Stat(fs.tree, src).ino)
    requires Fault(OpenCall, dst) !in faults
    ensures var c := CopyFile(fs, src, dst, short, host, faults); var i := Stat(fs.tree, src).ino;
      && c.states == [SetContent(fs, i, []), SetContent(fs, i, [])]
      && Valid(SetContent(fs, i, [])) && Grows(fs.tree, SetContent(fs, i, []).tree)
      && (ContentAt(fs.tree, src) == Some([]) ==> SetContent(fs, i, []) == fs)
  {
    var i := Stat(fs.tree, src).ino;
    GrowsReflexive(fs.tree);
    FillExtends(fs, fs, i, []);
    var fs1 := SetContent(fs, i, []);
    assert SetContent(fs1, i, []) == fs1;
    if ContentAt(fs.tree, src) == Some([]) {
      assert fs1.tree.nodes == fs.tree.nodes;
    }
  }

  lemma FillKeeps(fs: Fs, s: Fs, o: Ino, data: Bytes, i: Ino)
    requires ExtendsBut(fs, s, o) && s.tree.IsFile(o) && fs.tree.IsFile(i) && i != o
    ensures Keeps(fs, s, i) && Keeps(fs, SetContent(s, o, data), i)
  {
    FillExtends(fs, s, o, data);
  }

  /** On success the target's path leads to the source's bytes. */
  ghost predicate Copied(fs: Fs, src: Path, dst: Path, s: Fs) {
    && Stat(s.tree, dst).Found? && Stat(fs.tree, src).Found? && Stat(s.tree, dst).ino != Stat(fs.tree, src).ino
    && ContentAt(s.tree, dst) == ContentAt(fs.tree, src)
    && (forall d, n :: d in fs.tree.nodes ==> PathUses(s.tree, dst, d, n) == PathUses(fs.tree, dst, d, n))
  }

  lemma CopySucceeds(fs: Fs, src: Path, dst: Path, short: nat, host: Host, faults: set<Fault>)
    requires Valid(fs) && Stat(fs.tree, src).Found? && fs.tree.IsFile(Stat(fs.tree, src).ino)
    requires Stat(fs.tree, dst).Found? ==> Stat(fs.tree, dst).ino != Stat(fs.tree, src).ino
    requires CopyFile(fs, src, dst, short, host, faults).err.None?
    ensures Copied(fs, src, dst, CopyFile(fs, src, dst, short, host, faults).Last(fs))
  {
    var i := Stat(fs.tree, src).ino;
    var mode := fs.attrs[i].perm;
    var o := OpenForWriting(fs, dst, mode, host, faults);
    OpenExact(fs, dst, mode, host, faults);
    assert i < fs.next && o.ino != i;
    FillCopied(fs, src, dst, i, o.fs, o.ino);
  }

  lemma FillCopied(fs: Fs, src: Path, dst: Path, i: Ino, s: Fs, o: Ino)
    requires Stat(fs.tree, src).Found? && Stat(fs.tree, src).ino == i && fs.tree.IsFile(i) && o != i
    requires ExtendsBut(fs, s, o) && s.tree.IsFile(o) && Stat(s.tree, dst).Found? && Stat(s.tree, dst).ino == o
    requires forall d, n :: d in fs.tree.nodes ==> PathUses(s.tree, dst, d, n) == PathUses(fs.tree, dst, d, n)
    ensures Copied(fs, src, dst, SetContent(s, o, s.tree.nodes[i].content))
  {
    var s' := SetContent(s, o, s.tree.nodes[i].content);
    FillExtends(fs, s, o, s.tree.nodes[i].content);
    GrowsKeepsResolve(s.tree, s'.tree, dst, true);
    forall d, n | d in fs.tree.nodes
      ensures PathUses(s'.tree, dst, d, n) == PathUses(fs.tree, dst, d, n)
    {
      UsesGrows(s.tree, s'.tree, Origin(s.tree, dst.abs, s.tree.cwd), dst.segs, MAX_HOPS, d, n);
    }
  }

  /** The backup step, unless it is about to lose the bytes it is to save: every state it goes
      through keeps the destination, and on success a copy that is another file holds its bytes. */
  ghost predicate BackupOk(fs: Fs, p: WriteParams, chance: Chance, b: Steps) {
    && Stat(fs.tree, p.dest).Found?
    && (forall s :: s in b.states ==> Keeps(fs, s, Stat(fs.tree, p.dest).ino))
    && Keeps(fs, b.Last(fs), Stat(fs.tree, p.dest).ino)
    && (b.err.None? && p.backup && !SameFile(fs.tree, p.dest, BackupPath(p.dest, chance.stamp)) ==>
          Copied(fs, p.dest, BackupPath(p.dest, chance.stamp), b.Last(fs)))
  }

  lemma BackupExact(fs: Fs, p: WriteParams, chance: Chance, host: Host, faults: set<Fault>)
    requires Valid(fs) && ContentAt(fs.tree, p.dest).Some?
    requires p.backup ==> !Overwrites(fs, p.dest, BackupPath(p.dest, chance.stamp), faults)
    ensures BackupOk(fs, p, chance, Backup(fs, p, chance, host, faults))
  {
    var copy := BackupPath(p.dest, chance.stamp);
    var b := Backup(fs, p, chance, host, faults);
    GrowsReflexive(fs.tree);
    HopsShrink(fs.tree, Origin(fs.tree, p.dest.abs, fs.tree.cwd), p.dest.segs, MAX_HOPS, true);
    if p.backup {
      CopyKeeps(fs, p.dest, copy, chance.short, host, faults);
      if b.err.None? && !SameFile(fs.tree, p.dest, copy) {
        CopySucceeds(fs, p.dest, copy, chance.short, host, faults);
      }
    }
  }

  // ---------------------------------------------------------------- what a successful call leaves

  /** The destination is not a directory, and following it does not run out of symlink budget. */
  ghost predicate Writable(t: Tree, dest: Path) {
    && |dest.segs| > 0 && dest.Clean()
    && Stat(t, dest) != Fail(ELOOP) && (Stat(t, dest).Found? ==> t.IsFile(Stat(t, dest).ino))
  }

  /** The backup step loses nothing, even if its target is the destination itself. */
  lemma BackupGrows(fs: Fs, p: WriteParams, chance: Chance, host: Host, faults: set<Fault>)
    requires Valid(fs)
    ensures var s := Backup(fs, p, chance, host, faults).Last(fs); Valid(s) && Grows(fs.tree, s.tree)
  {
    GrowsReflexive(fs.tree);
    var b := Backup(fs, p, chance, host, faults);
    if |b.states| > 0 {
      var copy := BackupPath(p.dest, chance.stamp);
      var i := Stat(fs.tree, p.dest).ino;
      var mode := fs.attrs[i].perm;
      var o := OpenForWriting(fs, copy, mode, host, faults);
      OpenExact(fs, copy, mode, host, faults);
      if |b.states| == 2 {
        var data := o.fs.tree.nodes[i].content;
        var bytes := if Fault(CopyCall, copy) in faults then Short(data, chance.short) else data;
        assert b.states[1] == SetContent(o.fs, o.ino, bytes);
        FillExtends(fs, o.fs, o.ino, bytes);
      }
    }
  }

  /** After the parents were made, the destination's directory exists and the destination is still
      not a directory. */
  lemma ParentsReady(fs: Fs, dest: Path, host: Host, job: Job)
    requires Valid(fs) && Acyclic(fs.tree) && Writable(fs.tree, dest) && job.req.mode == ""
    requires MkdirAll(fs, dest.Parent(), host, job).err.None?
    ensures var m := MkdirAll(fs, dest.Parent(), host, job).fs;
      && Valid(m) && Acyclic(m.tree) && Grows(fs.tree, m.tree) && LeadsToDir(m.tree, dest.Parent())
      && Site(m.tree, dest, Stat(m.tree, dest.Parent()).ino)
      && Writable(m.tree, dest)
      && (LeadsToDir(fs.tree, dest.Parent()) ==> m == fs)
  {
    var parent := dest.Parent();
    var m := MkdirAll(fs, parent, host, job).fs;
    GrowsReflexive(fs.tree);
    assert dest == parent.Join(dest.Base());
    if !Stat(fs.tree, parent).Found? {
      MkdirAllIsEnsure(fs, parent, host, job);
      CreateExact(fs, parent, host, job);
      CreateSucceeds(fs, parent, host, job);
      CreatedIsEmpty(fs, parent, host, job);
      EnsureKeeps(fs, parent, host, job);
      assert parent.Prefix(|parent.segs|) == parent;
      assert LeadsToDir(m.tree, parent.Prefix(|parent.segs|));
      ChildResolve(m.tree, parent, dest.Base(), true);
      assert dest.Base() == dest.segs[|dest.segs| - 1];
    }
  }

  lemma SwappedValid(fs: Fs, s: Fs, d: Ino, base: Name, data: Bytes, host: Host)
    requires Valid(fs) && Swapped(fs, s, d, base, data, host)
    ensures Valid(s)
  {
    forall x, m | s.tree.IsDir(x) && m in s.tree.Entries(x)
      ensures s.tree.Entries(x)[m] in s.tree.nodes && m != "." && m != ".."
    {
      assert x != fs.next && fs.tree.IsDir(x);
      if x != d || m != base {
        assert m in fs.tree.Entries(x) && s.tree.Entries(x)[m] == fs.tree.Entries(x)[m];
      }
    }
  }

  /** A successful write has put the data under the destination, if it went directly to it or if a
      rename could not cut off its own way there. */
  lemma WriteDataLands(fs: Fs, p: WriteParams, data: Bytes, chance: Chance, host: Host, faults: set<Fault>)
    requires Valid(fs) && |p.dest.segs| > 0 && p.dest.Clean() && LeadsToDir(fs.tree, p.dest.Parent())
    requires WriteData(fs, p, data, chance, host, faults).err.None?
    ensures var s := WriteData(fs, p, data, chance, host, faults).Last(fs);
      && Valid(s)
      && if p.unsafeWrites || !OnItsOwnWay(fs.tree, p.dest)
         then ContentAt(s.tree, p.dest) == Some(data) && LeadsToDir(s.tree, p.dest.Parent())
         else !Stat(s.tree, p.dest).Found?
  {
    var w := WriteData(fs, p, data, chance, host, faults);
    if p.unsafeWrites {
      OpenExact(fs, p.dest, MODE_PLAIN, host, faults);
      var o := OpenForWriting(fs, p.dest, MODE_PLAIN, host, faults);
      FillExtends(fs, o.fs, o.ino, data);
      GrowsKeepsResolve(o.fs.tree, w.Last(fs).tree, p.dest, true);
      GrowsTransitive(fs.tree, o.fs.tree, w.Last(fs).tree);
      ExistingHasSite(w.Last(fs).tree, p.dest);
    } else {
      var d := Stat(fs.tree, p.dest.Parent()).ino;
      WriteByRenameTrace(fs, p.dest, d, data, chance, host, faults);
      AfterRename(fs, w.states[2], p.dest, d, data, host);
      SwappedValid(fs, w.states[2], d, p.dest.Base(), data, host);
    }
  }

  /** What a successful request left: the data, and attributes as requested. */
  ghost predicate Landed(fs: Fs, dest: Path, data: Bytes, job: Job) {
    && ContentAt(fs.tree, dest) == Some(data) && LeadsToDir(fs.tree, dest.Parent())
    && fs.tree.nodes.Keys <= fs.attrs.Keys && HasRequested(fs, dest, job)
  }

  /** A successful Replace leaves exactly the data under the destination, and the file there has the
      requested owner, group and mode, unless the rename cut off the way to the destination: then
      nothing is found there. This covers destinations that are missing, files, and symlinks that
      dangle, loop or lead to a directory. */
  lemma ReplaceSucceeds(fs: Fs, p: WriteParams, data: Bytes, chance: Chance, host: Host, acc: Accounts,
                        faults: set<Fault>)
    requires Valid(fs) && Acyclic(fs.tree) && |p.dest.segs| > 0 && p.dest.Clean()
    requires Replace(fs, p, data, chance, host, acc, faults).err.None?
    ensures var r := Replace(fs, p, data, chance, host, acc, faults);
      && r.changed
      && if p.unsafeWrites || !OnItsOwnWay(fs.tree, p.dest) then Landed(r.fs, p.dest, data, AttrJob(p, acc, faults))
         else !Stat(r.fs.tree, p.dest).Found?
  {
    var fs1 := Backup(fs, p, chance, host, faults).Last(fs);
    var m := MkdirAll(fs1, p.dest.Parent(), host, ParentJob(p, acc, faults)).fs;
    ReadyToWrite(fs, p, chance, host, acc, faults);
    WriteDataLands(m, p, data, chance, host, faults);
    var fs3 := WriteData(m, p, data, chance, host, faults).Last(m);
    if p.unsafeWrites || !OnItsOwnWay(fs.tree, p.dest) {
      AttrsLand(fs3, p.dest, AttrJob(p, acc, faults));
    }
  }

  /** Backing up and making the parents leads to a directory to write in, and does not change
      whether the destination lies on its own way. */
  lemma ReadyToWrite(fs: Fs, p: WriteParams, chance: Chance, host: Host, acc: Accounts, faults: set<Fault>)
    requires Valid(fs) && Acyclic(fs.tree) && |p.dest.segs| > 0 && p.dest.Clean()
    requires MkdirAll(Backup(fs, p, chance, host, faults).Last(fs), p.dest.Parent(), host,
        ParentJob(p, acc, faults)).err.None?
    ensures var fs1 := Backup(fs, p, chance, host, faults).Last(fs);
      var m := MkdirAll(fs1, p.dest.Parent(), host, ParentJob(p, acc, faults)).fs;
      Valid(m) && LeadsToDir(m.tree, p.dest.Parent()) && (OnItsOwnWay(m.tree, p.dest) <==> OnItsOwnWay(fs.tree, p.dest))
  {
    var fs1 := Backup(fs, p, chance, host, faults).Last(fs);
    var job := ParentJob(p, acc, faults);
    var parent := p.dest.Parent();
    BackupGrows(fs, p, chance, host, faults);
    if LeadsToDir(fs.tree, parent) {
      OnItsOwnWayGrows(fs.tree, fs1.tree, p.dest);
      assert MkdirAll(fs1, parent, host, job) == DirOutcome(fs1, false, None);
    } else {
      if Stat(fs.tree, p.dest).Found? { ExistingHasSite(fs.tree, p.dest); }
      assert fs1 == fs;
      MissingParent(fs.tree, p.dest);
      ParentsReady(fs, p.dest, host, job);
      var m := MkdirAll(fs, parent, host, job).fs;
      FileIsNotOnTheWay(m.tree, p.dest, Stat(m.tree, parent).ino);
    }
  }

  /** Below a missing directory nothing is found. */
  lemma MissingParent(t: Tree, dest: Path)
    requires |dest.segs| > 0 && dest.Clean()
    ensures !Stat(t, dest.Parent()).Found? && ErrnoOf(Stat(t, dest.Parent())) == ENOENT ==> Writable(t, dest)
  {
    assert dest.segs == dest.Parent().segs + [dest.Base()];
    WalkAppend(t, Origin(t, dest.abs, t.cwd), dest.Parent().segs, [dest.Base()], MAX_HOPS, true);
  }

  /** The file under the path carries the attributes asked for, as far as an inode can hold them. */
  ghost predicate HasRequested(fs: Fs, path: Path, job: Job) {
    && Stat(fs.tree, path).Found? && Stat(fs.tree, path).ino in fs.attrs && Stat(fs.tree, path).ino in fs.tree.nodes
    && var i := Stat(fs.tree, path).ino;
    && Understood(job)
    && Touch(fs.tree.nodes[i], fs.attrs[i], PlanOf(job)) == fs.attrs[i]
    && (Settles(PlanOf(job)) ==> AsRequested(fs.tree.nodes[i], fs.attrs[i], PlanOf(job)))
  }

  lemma AttrsLand(fs: Fs, path: Path, job: Job)
    requires ContentAt(fs.tree, path).Some? && fs.tree.nodes.Keys <= fs.attrs.Keys
    requires Apply(fs.tree, fs.attrs, path, job, false).err.None?
    ensures HasRequested(fs.(attrs := Apply(fs.tree, fs.attrs, path, job, false).attrs), path, job)
  {
    var i := Stat(fs.tree, path).ino;
    assert Addresses(fs.tree, path, false, i);
    ApplyExact(fs.tree, fs.attrs, path, job, false, i);
    TouchTwice(fs.tree.nodes[i], fs.attrs[i], PlanOf(job));
    TouchedAsRequested(fs.tree.nodes[i], fs.attrs[i], PlanOf(job));
  }

  /** Every edge of `t'` between directories is one of `t`. */
  ghost predicate SameEdges(t: Tree, t': Tree) {
    forall d, n :: t'.IsDir(d) && n in t'.Entries(d) && t'.IsDir(t'.Entries(d)[n]) ==>
      t.IsDir(d) && n in t.Entries(d) && t.Entries(d)[n] == t'.Entries(d)[n] && t.IsDir(t.Entries(d)[n])
  }

  lemma SameEdgesAcyclic(t: Tree, t': Tree)
    requires Acyclic(t) && SameEdges(t, t')
    ensures Acyclic(t')
  {
    var rank :| Ranked(t, rank);
    assert Ranked(t', rank);
  }

  /** Creating and filling files adds no edge between directories. */
  lemma OpenAddsNoEdge(fs: Fs, p: Path, mode: Perm, host: Host, faults: set<Fault>)
    requires Valid(fs) && OpenForWriting(fs, p, mode, host, faults).Opened?
    ensures SameEdges(fs.tree, OpenForWriting(fs, p, mode, host, faults).fs.tree)
  {
    if Stat(fs.tree, p).Found? {
      FillAddsNoEdge(fs, Stat(fs.tree, p).ino, []);
    } else {
      var d := Stat(fs.tree, p).dir;
      MissingPlace(fs.tree, Origin(fs.tree, p.abs, fs.tree.cwd), p.segs, MAX_HOPS, true);
      assert d != fs.next;
    }
  }

  lemma FillAddsNoEdge(fs: Fs, i: Ino, data: Bytes)
    ensures SameEdges(fs.tree, SetContent(fs, i, data).tree)
  {}

  lemma BackupAcyclic(fs: Fs, p: WriteParams, chance: Chance, host: Host, faults: set<Fault>)
    requires Valid(fs) && Acyclic(fs.tree)
    ensures Acyclic(Backup(fs, p, chance, host, faults).Last(fs).tree)
  {
    var b := Backup(fs, p, chance, host, faults);
    if |b.states| > 0 {
      var copy := BackupPath(p.dest, chance.stamp);
      var mode := fs.attrs[Stat(fs.tree, p.dest).ino].perm;
      var o := OpenForWriting(fs, copy, mode, host, faults);
      OpenAddsNoEdge(fs, copy, mode, host, faults);
      SameEdgesAcyclic(fs.tree, o.fs.tree);
      if |b.states| == 2 {
        var data :| b.states[1] == SetContent(o.fs, o.ino, data);
        FillAddsNoEdge(o.fs, o.ino, data);
        SameEdgesAcyclic(o.fs.tree, b.states[1].tree);
      }
    }
  }
}
