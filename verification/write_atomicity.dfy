/** Atomicity of the rename path, seen from outside: at every moment of a WriteFile call, and
    wherever it is cut short, a reader of the destination gets the old bytes or the new ones. */
module WriteAtomicity {
  import opened Wrappers
  import opened FileSystem
  import opened Resolution
  import opened Attributes
  import opened Directories
  import opened AttributeWalk
  import opened DirectoryTheorems
  import opened Replacement
  import opened WriteFiles
  import opened WriteTheorems
  import opened WriteHandlerTheorems

  /** The destination has the old bytes up to some point and the new ones from there on. */
  ghost predicate OldThenNew(states: seq<Fs>, dest: Path, before: Bytes, data: Bytes, k: nat) {
    && k <= |states|
    && (forall j :: 0 <= j < k ==> ContentAt(states[j].tree, dest) == Some(before))
    && (forall j :: k <= j < |states| ==> ContentAt(states[j].tree, dest) == Some(data))
  }

  lemma OldThenNewAppend(a: seq<Fs>, b: seq<Fs>, dest: Path, before: Bytes, data: Bytes, k: nat)
    requires OldThenNew(a, dest, before, data, |a|) && OldThenNew(b, dest, before, data, k)
    ensures OldThenNew(a + b, dest, before, data, |a| + k)
  {}

  lemma KeptBytes(fs: Fs, s: Fs, dest: Path)
    requires ContentAt(fs.tree, dest).Some? && Keeps(fs, s, Stat(fs.tree, dest).ino)
    ensures ContentAt(s.tree, dest) == ContentAt(fs.tree, dest)
    ensures Stat(s.tree, dest) == Stat(fs.tree, dest)
  {
    GrowsKeepsResolve(fs.tree, s.tree, dest, true);
  }

  /** The temporary-file write on its own. */
  lemma RenameAtomic(fs: Fs, dest: Path, data: Bytes, before: Bytes, chance: Chance, host: Host, faults: set<Fault>)
    requires Valid(fs) && Writable(fs.tree, dest) && ContentAt(fs.tree, dest) == Some(before)
    ensures var w := WriteByRename(fs, dest, data, chance, host, faults);
      OldThenNew(w.states, dest, before, data, if w.err.None? then 2 else |w.states|)
  {
    ExistingHasSite(fs.tree, dest);
    var d := Stat(fs.tree, dest.Parent()).ino;
    var w := WriteByRename(fs, dest, data, chance, host, faults);
    WriteByRenameTrace(fs, dest, d, data, chance, host, faults);
    BeforeRename(fs, dest, d, data, chance, host, faults);
    forall k | 0 <= k < |w.states| && (k < 2 || w.err.Some?)
      ensures ContentAt(w.states[k].tree, dest) == Some(before)
    {
      assert Harmless(fs, w.states[k], d, TempName(chance.random));
    }
    if w.err.None? {
      FileIsNotOnTheWay(fs.tree, dest, d);
      AfterRename(fs, w.states[2], dest, d, data, host);
    }
  }

  /** The request gets as far as a successful rename. */
  predicate Renames(fs: Fs, p: WriteParams, data: Bytes, chance: Chance, host: Host, faults: set<Fault>) {
    var b := Backup(fs, p, chance, host, faults);
    b.err.None? && WriteByRename(b.Last(fs), p.dest, data, chance, host, faults).err.None?
  }

  /** Every state a Replace by rename goes through, under any failures: the old bytes in all of them
      if the rename is not reached, and otherwise in all but the last two, which are the rename and
      the setting of attributes. Only a backup onto the destination itself can disturb this. */
  lemma ReplaceAtomic(fs: Fs, p: WriteParams, data: Bytes, before: Bytes, chance: Chance, host: Host, acc: Accounts,
                      faults: set<Fault>)
    requires Valid(fs) && Writable(fs.tree, p.dest) && ContentAt(fs.tree, p.dest) == Some(before) && !p.unsafeWrites
    requires p.backup ==> !Overwrites(fs, p.dest, BackupPath(p.dest, chance.stamp), faults)
    ensures var r := Replace(fs, p, data, chance, host, acc, faults);
      var renames := Renames(fs, p, data, chance, host, faults);
      && (renames ==> |r.states| >= 2)
      && OldThenNew(r.states, p.dest, before, data, if renames then |r.states| - 2 else |r.states|)
      && r.fs == (if |r.states| == 0 then fs else r.states[|r.states| - 1])
      && (r.err.None? ==> renames)
  {
    var b := Backup(fs, p, chance, host, faults);
    BackupExact(fs, p, chance, host, faults);
    BackupStates(fs, p, before, data, chance, b);
    KeptBytes(fs, b.Last(fs), p.dest);
    if b.err.None? { AtomicAfterBackup(fs, p, data, before, chance, host, acc, faults); }
  }

  /** From a backup that left the destination with some bytes, these are the old ones. */
  lemma AtomicAfterBackup(fs: Fs, p: WriteParams, data: Bytes, before: Bytes, chance: Chance, host: Host, acc: Accounts,
                          faults: set<Fault>)
    requires var b := Backup(fs, p, chance, host, faults);
      && b.err.None? && OldThenNew(b.states, p.dest, before, data, |b.states|)
      && Valid(b.Last(fs)) && ContentAt(b.Last(fs).tree, p.dest) == Some(before)
    requires |p.dest.segs| > 0 && p.dest.Clean() && !p.unsafeWrites
    ensures var r := Replace(fs, p, data, chance, host, acc, faults);
      var renames := Renames(fs, p, data, chance, host, faults);
      && |r.states| > (if renames then 2 else 0)
      && OldThenNew(r.states, p.dest, before, data, if renames then |r.states| - 2 else |r.states|)
      && r.fs == r.states[|r.states| - 1] && (r.err.None? ==> renames)
  {
    var b := Backup(fs, p, chance, host, faults);
    var tail := Tail(b.Last(fs), p, data, chance, host, acc, faults);
    TailAtomic(b.Last(fs), p, data, before, chance, host, acc, faults);
    TailIsReplace(fs, p, data, chance, host, acc, faults);
    TailAppended(b.states, tail, p.dest, before, data, Renames(fs, p, data, chance, host, faults));
  }

  lemma TailAppended(a: seq<Fs>, tail: seq<Fs>, dest: Path, before: Bytes, data: Bytes, renames: bool)
    requires |tail| > (if renames then 2 else 0) && OldThenNew(a, dest, before, data, |a|)
    requires OldThenNew(tail, dest, before, data, if renames then |tail| - 2 else |tail|)
    ensures var all := a + tail;
      && OldThenNew(all, dest, before, data, if renames then |all| - 2 else |all|)
      && all[|all| - 1] == tail[|tail| - 1]
  {
    OldThenNewAppend(a, tail, dest, before, data, if renames then |tail| - 2 else |tail|);
  }

  /** Atomicity, exactly: there are old bytes and then new ones at every moment if and only if the
      backup is not made onto the destination itself, under another name that can be opened, while
      both the old bytes and the new ones are some. */
  lemma ReplaceAtomicIff(fs: Fs, p: WriteParams, data: Bytes, before: Bytes, chance: Chance, host: Host, acc: Accounts,
                         faults: set<Fault>)
    requires Valid(fs) && Writable(fs.tree, p.dest) && ContentAt(fs.tree, p.dest) == Some(before) && !p.unsafeWrites
    ensures var r := Replace(fs, p, data, chance, host, acc, faults);
      (exists k :: OldThenNew(r.states, p.dest, before, data, k)) <==>
      !(p.backup && Overwrites(fs, p.dest, BackupPath(p.dest, chance.stamp), faults) && data != [])
  {
    var r := Replace(fs, p, data, chance, host, acc, faults);
    if !p.backup || !Overwrites(fs, p.dest, BackupPath(p.dest, chance.stamp), faults) {
      ReplaceAtomic(fs, p, data, before, chance, host, acc, faults);
    } else {
      EmptiedFirst(fs, p, data, chance, host, acc, faults);
      assert ContentAt(r.states[0].tree, p.dest) == Some([]);
      if data == [] { assert OldThenNew(r.states, p.dest, before, data, 0); }
    }
  }

  /** A backup onto the destination itself: from the first call on the old bytes are nowhere. */
  lemma EmptiedFirst(fs: Fs, p: WriteParams, data: Bytes, chance: Chance, host: Host, acc: Accounts, faults: set<Fault>)
    requires Valid(fs) && Writable(fs.tree, p.dest) && !p.unsafeWrites
    requires p.backup && Overwrites(fs, p.dest, BackupPath(p.dest, chance.stamp), faults)
    ensures var r := Replace(fs, p, data, chance, host, acc, faults);
      var renames := Renames(fs, p, data, chance, host, faults);
      && |r.states| > (if renames then 2 else 0)
      && OldThenNew(r.states, p.dest, [], data, if renames then |r.states| - 2 else |r.states|)
  {
    var i := Stat(fs.tree, p.dest).ino;
    var fs1 := SetContent(fs, i, []);
    var b := Backup(fs, p, chance, host, faults);
    CopyOntoItself(fs, p.dest, BackupPath(p.dest, chance.stamp), chance.short, host, faults);
    assert b.states == [fs1, fs1];
    GrowsKeepsResolve(fs.tree, fs1.tree, p.dest, true);
    assert OldThenNew(b.states, p.dest, [], data, 2);
    if b.err.None? { AtomicAfterBackup(fs, p, data, [], chance, host, acc, faults); }
  }

  lemma BackupStates(fs: Fs, p: WriteParams, before: Bytes, data: Bytes, chance: Chance, b: Steps)
    requires ContentAt(fs.tree, p.dest) == Some(before) && BackupOk(fs, p, chance, b)
    ensures OldThenNew(b.states, p.dest, before, data, |b.states|)
  {
    forall j | 0 <= j < |b.states|
      ensures ContentAt(b.states[j].tree, p.dest) == Some(before)
    {
      assert b.states[j] in b.states;
      KeptBytes(fs, b.states[j], p.dest);
    }
  }

  /** The states after the backup, when the destination's directory exists. */
  function Tail(fs: Fs, p: WriteParams, data: Bytes, chance: Chance, host: Host, acc: Accounts,
                faults: set<Fault>): seq<Fs>
  {
    var w := WriteByRename(fs, p.dest, data, chance, host, faults);
    var last := w.Last(fs);
    [fs] + w.states +
      if w.err.Some? then []
      else [last.(attrs := Apply(last.tree, last.attrs, p.dest, AttrJob(p, acc, faults), false).attrs)]
  }

  lemma TailAtomic(fs: Fs, p: WriteParams, data: Bytes, before: Bytes, chance: Chance, host: Host, acc: Accounts,
                   faults: set<Fault>)
    requires Valid(fs) && |p.dest.segs| > 0 && p.dest.Clean() && ContentAt(fs.tree, p.dest) == Some(before)
    ensures var tail := Tail(fs, p, data, chance, host, acc, faults);
      if WriteByRename(fs, p.dest, data, chance, host, faults).err.None?
      then |tail| > 2 && OldThenNew(tail, p.dest, before, data, |tail| - 2)
      else OldThenNew(tail, p.dest, before, data, |tail|)
  {
    assert Writable(fs.tree, p.dest);
    var w := WriteByRename(fs, p.dest, data, chance, host, faults);
    RenameAtomic(fs, p.dest, data, before, chance, host, faults);
    var k0 := if w.err.None? then 2 else |w.states|;
    OldThenNewAppend([fs], w.states, p.dest, before, data, k0);
    if w.err.None? {
      WriteNeedsStates(fs, p.dest, data, chance, host, faults);
      assert ContentAt(w.states[2].tree, p.dest) == Some(data);
    }
  }

  lemma TailIsReplace(fs: Fs, p: WriteParams, data: Bytes, chance: Chance, host: Host, acc: Accounts,
                      faults: set<Fault>)
    requires !p.unsafeWrites && Backup(fs, p, chance, host, faults).err.None? && p.dest.Clean() && |p.dest.segs| > 0
    requires Stat(Backup(fs, p, chance, host, faults).Last(fs).tree, p.dest).Found?
    ensures var b := Backup(fs, p, chance, host, faults);
      var r := Replace(fs, p, data, chance, host, acc, faults);
      var tail := Tail(b.Last(fs), p, data, chance, host, acc, faults);
      && r.states == b.states + tail
      && r.fs == tail[|tail| - 1]
      && (r.err.None? ==> WriteByRename(b.Last(fs), p.dest, data, chance, host, faults).err.None?)
  {
    var fs1 := Backup(fs, p, chance, host, faults).Last(fs);
    ExistingHasSite(fs1.tree, p.dest);
    assert MkdirAll(fs1, p.dest.Parent(), host, ParentJob(p, acc, faults)) == DirOutcome(fs1, false, None);
  }

  lemma WriteNeedsStates(fs: Fs, dest: Path, data: Bytes, chance: Chance, host: Host, faults: set<Fault>)
    ensures var w := WriteByRename(fs, dest, data, chance, host, faults); w.err.None? ==> |w.states| == 3
  {}

  /** A destination that was not there is still not there until the rename, provided the temporary
      name is not the destination's own. */
  lemma AbsentUntilRename(fs: Fs, dest: Path, d: Ino, data: Bytes, chance: Chance, host: Host, faults: set<Fault>)
    requires Valid(fs) && Site(fs.tree, dest, d)
    requires dest.Base() !in fs.tree.Entries(d) && dest.Base() != TempName(chance.random)
    ensures var w := WriteByRename(fs, dest, data, chance, host, faults);
      forall k :: 0 <= k < |w.states| && (k < 2 || w.err.Some?) ==> dest.Base() !in w.states[k].tree.Entries(d)
  {
    BeforeRename(fs, dest, d, data, chance, host, faults);
    var w := WriteByRename(fs, dest, data, chance, host, faults);
    forall k | 0 <= k < |w.states| && (k < 2 || w.err.Some?)
      ensures dest.Base() !in w.states[k].tree.Entries(d)
    {
      assert Harmless(fs, w.states[k], d, TempName(chance.random));
    }
  }

  /** However the temporary-file write ends, its directory holds no other name than before, except
      the destination's after a success and the temporary one if the clean-up unlink failed. */
  lemma NoTemporaryLeft(fs: Fs, dest: Path, d: Ino, data: Bytes, chance: Chance, host: Host, faults: set<Fault>)
    requires Valid(fs) && Site(fs.tree, dest, d)
    requires Fault(RemoveCall, TempPath(dest, chance.random)) !in faults
    ensures var w := WriteByRename(fs, dest, data, chance, host, faults);
      w.Last(fs).tree.Entries(d) ==
        if w.err.None? then fs.tree.Entries(d)[dest.Base() := fs.next] else fs.tree.Entries(d)
  {
    WriteByRenameTrace(fs, dest, d, data, chance, host, faults);
    BeforeRename(fs, dest, d, data, chance, host, faults);
    WriteNeedsStates(fs, dest, data, chance, host, faults);
  }

  /** What backing up and then writing leave under the backup's name. */
  lemma BackupHoldsOld(fs: Fs, p: WriteParams, data: Bytes, before: Bytes, chance: Chance, host: Host, acc: Accounts,
                       faults: set<Fault>)
    requires Valid(fs) && Writable(fs.tree, p.dest) && ContentAt(fs.tree, p.dest) == Some(before) && p.backup
    requires Replace(fs, p, data, chance, host, acc, faults).err.None?
    ensures var r := Replace(fs, p, data, chance, host, acc, faults); var copy := BackupPath(p.dest, chance.stamp);
      && r.backup == Some(copy)
      && (!SameFile(fs.tree, p.dest, copy) ==> ContentAt(r.fs.tree, copy) == Some(before))
      && (SameFile(fs.tree, p.dest, copy) ==> ContentAt(r.fs.tree, copy) in {None, Some([]), Some(data)})
  {
    var fs1 := Backup(fs, p, chance, host, faults).Last(fs);
    var copy := BackupPath(p.dest, chance.stamp);
    BackupMade(fs, p, before, chance, host, faults);
    ExistingHasSite(fs1.tree, p.dest);
    assert MkdirAll(fs1, p.dest.Parent(), host, ParentJob(p, acc, faults)) == DirOutcome(fs1, false, None);
    if p.unsafeWrites {
      CopyOutlivesOverwrite(fs1, p, data, copy, chance, host, faults);
    } else {
      CopyOutlivesRename(fs1, p, data, copy, chance, host, faults);
    }
  }

  /** After the backup's calls: the destination is where it was, and its bytes are under the copy's
      path in another file, or gone if the copy was made onto the destination itself. */
  lemma BackupMade(fs: Fs, p: WriteParams, before: Bytes, chance: Chance, host: Host, faults: set<Fault>)
    requires Valid(fs) && Writable(fs.tree, p.dest) && ContentAt(fs.tree, p.dest) == Some(before) && p.backup
    requires Backup(fs, p, chance, host, faults).err.None?
    ensures var fs1 := Backup(fs, p, chance, host, faults).Last(fs); var copy := BackupPath(p.dest, chance.stamp);
      && Valid(fs1) && Stat(fs1.tree, p.dest) == Stat(fs.tree, p.dest) && fs1.tree.IsFile(Stat(fs.tree, p.dest).ino)
      && (SameFile(fs1.tree, p.dest, copy) <==> SameFile(fs.tree, p.dest, copy))
      && ContentAt(fs1.tree, copy) == Some(if SameFile(fs.tree, p.dest, copy) then [] else before)
  {
    var fs1 := Backup(fs, p, chance, host, faults).Last(fs);
    var copy := BackupPath(p.dest, chance.stamp);
    if SameFile(fs.tree, p.dest, copy) {
      var i := Stat(fs.tree, p.dest).ino;
      CopyOntoItself(fs, p.dest, copy, chance.short, host, faults);
      assert fs1 == SetContent(fs, i, []);
      GrowsKeepsResolve(fs.tree, fs1.tree, p.dest, true);
      GrowsKeepsResolve(fs.tree, fs1.tree, copy, true);
    } else {
      BackupExact(fs, p, chance, host, faults);
      KeptBytes(fs, fs1, p.dest);
    }
  }

  /** Writing over the destination itself changes no other file. */
  lemma CopyOutlivesOverwrite(fs: Fs, p: WriteParams, data: Bytes, copy: Path, chance: Chance, host: Host,
                              faults: set<Fault>)
    requires Valid(fs) && ContentAt(fs.tree, p.dest).Some? && ContentAt(fs.tree, copy).Some?
    requires WriteInPlace(fs, p.dest, data, chance, host, faults).err.None?
    ensures ContentAt(WriteInPlace(fs, p.dest, data, chance, host, faults).Last(fs).tree, copy) ==
              if SameFile(fs.tree, p.dest, copy) then Some(data) else ContentAt(fs.tree, copy)
  {
    var o := OpenForWriting(fs, p.dest, MODE_PLAIN, host, faults);
    OpenExact(fs, p.dest, MODE_PLAIN, host, faults);
    FillExtends(fs, o.fs, o.ino, data);
    GrowsKeepsResolve(fs.tree, SetContent(o.fs, o.ino, data).tree, copy, true);
  }

  /** A rename changes no other file, and does not take the way to one either. */
  lemma CopyOutlivesRename(fs: Fs, p: WriteParams, data: Bytes, copy: Path, chance: Chance, host: Host,
                           faults: set<Fault>)
    requires Valid(fs) && |p.dest.segs| > 0 && p.dest.Clean()
    requires ContentAt(fs.tree, p.dest).Some? && ContentAt(fs.tree, copy).Some?
    requires WriteByRename(fs, p.dest, data, chance, host, faults).err.None?
    ensures var after := ContentAt(WriteByRename(fs, p.dest, data, chance, host, faults).Last(fs).tree, copy);
      if SameFile(fs.tree, p.dest, copy) then after in {None, ContentAt(fs.tree, copy), Some(data)}
      else after == ContentAt(fs.tree, copy)
  {
    ExistingHasSite(fs.tree, p.dest);
    var d := Stat(fs.tree, p.dest.Parent()).ino;
    var s := WriteByRename(fs, p.dest, data, chance, host, faults).Last(fs);
    WriteByRenameTrace(fs, p.dest, d, data, chance, host, faults);
    WriteNeedsStates(fs, p.dest, data, chance, host, faults);
    if PathUses(fs.tree, copy, d, p.dest.Base()) {
      CopyUsesDest(fs.tree, p.dest, copy, d);
    }
    CopyAfterSwap(fs, s, p.dest, d, data, host, copy);
  }

  /** A path that looks up the destination's name, if it leads anywhere, leads to the destination. */
  lemma CopyUsesDest(t: Tree, dest: Path, copy: Path, d: Ino)
    requires Site(t, dest, d) && ContentAt(t, dest).Some? && Stat(t, copy).Found? && PathUses(t, copy, d, dest.Base())
    ensures SameFile(t, dest, copy)
  {
    assert dest == dest.Parent().Join(dest.Base());
    ChildResolve(t, dest.Parent(), dest.Base(), true);
    UsesEndsThere(t, d, dest.Base(), Stat(t, dest.Parent()).hops, Stat(t, dest).ino,
                  Origin(t, copy.abs, t.cwd), copy.segs, MAX_HOPS);
  }

  lemma CopyAfterSwap(fs: Fs, s: Fs, dest: Path, d: Ino, data: Bytes, host: Host, copy: Path)
    requires Valid(fs) && |dest.segs| > 0 && ContentAt(fs.tree, copy).Some?
    requires Swapped(fs, s, d, dest.Base(), data, host)
    ensures if PathUses(fs.tree, copy, d, dest.Base()) then ContentAt(s.tree, copy) in {None, Some(data)}
            else ContentAt(s.tree, copy) == ContentAt(fs.tree, copy)
  {
    var start := Origin(fs.tree, copy.abs, fs.tree.cwd);
    if PathUses(fs.tree, copy, d, dest.Base()) {
      ReplaceBreaks(fs.tree, s.tree, d, dest.Base(), fs.next, start, copy.segs, MAX_HOPS);
    } else {
      ReplaceKeeps(fs.tree, s.tree, d, dest.Base(), fs.next, start, copy.segs, MAX_HOPS);
    }
  }

  /** A backup name that is not taken is not the destination's. */
  lemma FreeNameIsAnother(t: Tree, dest: Path, stamp: string)
    requires |dest.segs| > 0 && dest.Clean() && Stat(t, dest).Found? && Lstat(t, BackupPath(dest, stamp)).Missing?
    ensures !SameFile(t, dest, BackupPath(dest, stamp))
  {
    var n := dest.Base() + "." + stamp + "~";
    assert BackupPath(dest, stamp) == dest.Parent().Join(n);
    ExistingHasSite(t, dest);
    ChildResolve(t, dest.Parent(), n, false);
    ChildResolve(t, dest.Parent(), n, true);
    FreeWalk(t, Stat(t, dest.Parent()).ino, n, Stat(t, dest.Parent()).hops);
  }

  lemma FreeWalk(t: Tree, d: Ino, n: Name, hops: nat)
    requires t.IsDir(d)
    ensures Walk(t, d, [n], hops, false).Missing? ==> Walk(t, d, [n], hops, true).Missing?
  {
    if Lookup(t, d, n).Some? {
      assert Walk(t, d, [n], hops, false) == Walk(t, Lookup(t, d, n).value, [], hops, false);
    }
  }

  // ---------------------------------------------------------------- a backup that loses the file

  const ALIAS_ATTR := Attr(0x1A4, 0, 0)

  /** /f and /f.S~ are two hard links to one file. */
  const ALIAS_TREE := Tree(map[0 := Dir(map["f" := 1, "f.S~" := 1], 0), 1 := File([7])], 0, 0)
  const ALIAS_FS := Fs(ALIAS_TREE, map[0 := ALIAS_ATTR, 1 := ALIAS_ATTR], 2)

  lemma AliasWalks(hops: nat)
    ensures Walk(ALIAS_TREE, 0, ["f"], hops, true) == Found(1, hops)
    ensures Walk(ALIAS_TREE, 0, ["f.S~"], hops, true) == Found(1, hops)
  {
    assert ["f"][1..] == [] && ["f.S~"][1..] == [];
    assert Walk(ALIAS_TREE, 1, [], hops, true) == Found(1, hops);
  }

  /** Whatever the request writes, and however it ends, there is a moment at which the one byte of
      /f is in no file; and if the write fails then, it stays that way. */
  lemma AliasedBackupLosesOld(p: WriteParams, data: Bytes, chance: Chance, host: Host, acc: Accounts,
                              faults: set<Fault>)
    requires p.dest == Path(true, ["f"]) && chance.stamp == "S" && p.backup && !p.unsafeWrites && data != []
    requires Fault(OpenCall, Path(true, ["f.S~"])) !in faults
    ensures Valid(ALIAS_FS) && Writable(ALIAS_TREE, p.dest) && ContentAt(ALIAS_TREE, p.dest) == Some([7])
    ensures var r := Replace(ALIAS_FS, p, data, chance, host, acc, faults);
      && (forall k :: !OldThenNew(r.states, p.dest, [7], data, k))
      && (!Renames(ALIAS_FS, p, data, chance, host, faults) ==> ContentAt(r.fs.tree, p.dest) == Some([]))
  {
    AliasWalks(MAX_HOPS);
    var copy := BackupPath(p.dest, "S");
    assert "f" + "." + "S" + "~" == "f.S~" && p.dest.segs[..0] + ["f.S~"] == ["f.S~"];
    assert copy == Path(true, ["f.S~"]);
    assert SameFile(ALIAS_TREE, p.dest, copy);
    ReplaceAtomicIff(ALIAS_FS, p, data, [7], chance, host, acc, faults);
    EmptiedFirst(ALIAS_FS, p, data, chance, host, acc, faults);
    LastState(ALIAS_FS, p, data, chance, host, acc, faults);
  }

  lemma LastState(fs: Fs, p: WriteParams, data: Bytes, chance: Chance, host: Host, acc: Accounts, faults: set<Fault>)
    ensures var r := Replace(fs, p, data, chance, host, acc, faults);
      |r.states| > 0 ==> r.fs == r.states[|r.states| - 1]
  {}
}
