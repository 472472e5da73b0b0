/** When a write succeeds, what it answers, and exactly which inodes it leaves different. */
module WriteOutcomes {
  import opened Wrappers
  import opened FileSystem
  import opened Resolution
  import opened Attributes
  import opened SpelledRequests
  import opened Directories
  import opened AttributeWalk
  import opened DirectoryTheorems
  import opened DirectoryOutcome
  import opened Replacement
  import opened WriteFiles
  import opened WriteTheorems
  import opened WriteHandlerTheorems
  import opened FileStates

  // ---------------------------------------------------------------- the system calls

  /** open(2) for writing, decided. */
  lemma OpenDecided(fs: Fs, p: Path, mode: Perm, host: Host, faults: set<Fault>)
    ensures var o := OpenForWriting(fs, p, mode, host, faults); var st := Stat(fs.tree, p);
      && (o.Opened? <==> Fault(OpenCall, p) !in faults && (st.Missing? || (st.Found? && fs.tree.IsFile(st.ino))))
      && (o.Opened? && st.Found? ==> o.ino == st.ino && o.fs.attrs == fs.attrs && o.fs.next == fs.next)
      && (o.Opened? && st.Missing? ==>
            && o.ino == fs.next && o.fs.next == fs.next + 1
            && o.fs.attrs == fs.attrs[fs.next := Attr(Masked(mode, host.umask), host.uid, host.gid)])
  {
    MissingPlace(fs.tree, Origin(fs.tree, p.abs, fs.tree.cwd), p.segs, MAX_HOPS, true);
  }

  /** The temporary-file write in directory `d`, decided: it succeeds iff the temporary name is free,
      none of its calls fails, and the destination is not a directory itself. */
  lemma WriteByRenameDecided(fs: Fs, dest: Path, d: Ino, data: Bytes, chance: Chance, host: Host, faults: set<Fault>)
    requires Valid(fs) && Site(fs.tree, dest, d)
    ensures var tmp := dest.Parent().Join(".fastagent-" + chance.random);
      WriteByRename(fs, dest, data, chance, host, faults).err.None? <==>
        && ".fastagent-" + chance.random !in fs.tree.Entries(d)
        && Fault(CreateTempCall, tmp) !in faults && Fault(WriteCall, tmp) !in faults
        && Fault(CloseCall, tmp) !in faults && Fault(RenameCall, dest) !in faults
        && !(dest.Base() in fs.tree.Entries(d) && fs.tree.IsDir(fs.tree.Entries(d)[dest.Base()]))
  {
    var n := TempName(chance.random);
    var tmp := TempPath(dest, chance.random);
    assert |n| > 2;
    SiblingPlace(fs.tree, dest, d, n);
    if n in fs.tree.Entries(d) {
      ChildEntry(fs.tree, dest.Parent(), n);
    } else {
      MissingPlace(fs.tree, Origin(fs.tree, tmp.abs, fs.tree.cwd), tmp.segs, MAX_HOPS, false);
      var created := WithTemp(fs, d, n, [], host);
      WithTempGrows(fs, d, n, data, host);
      RenameDecided(fs, dest, d, data, chance, host, faults);
    }
  }

  lemma RenameDecided(fs: Fs, dest: Path, d: Ino, data: Bytes, chance: Chance, host: Host, faults: set<Fault>)
    requires Valid(fs) && Site(fs.tree, dest, d) && TempName(chance.random) !in fs.tree.Entries(d)
    ensures var s := WithTemp(fs, d, TempName(chance.random), data, host);
      Rename(s, TempPath(dest, chance.random), dest, faults).Renamed? <==>
        && Fault(RenameCall, dest) !in faults
        && !(dest.Base() in fs.tree.Entries(d) && fs.tree.IsDir(fs.tree.Entries(d)[dest.Base()]))
  {
    var n := TempName(chance.random);
    var s := WithTemp(fs, d, n, data, host);
    WithTempGrows(fs, d, n, data, host);
    SiteGrows(fs.tree, s.tree, dest, d);
    assert |n| > 2;
    SiblingPlace(s.tree, dest, d, n);
    assert d != fs.next && fs.next !in fs.tree.nodes;
    if dest.Base() in fs.tree.Entries(d) {
      assert fs.tree.Entries(d)[dest.Base()] in fs.tree.nodes;
    }
  }

  /** A write in place, decided; one that fails after opening leaves the beginning of the data. */
  lemma WriteInPlaceDecided(fs: Fs, dest: Path, data: Bytes, chance: Chance, host: Host, faults: set<Fault>)
    requires Valid(fs)
    ensures var w := WriteInPlace(fs, dest, data, chance, host, faults); var st := Stat(fs.tree, dest);
      && (w.err.None? <==>
            && Fault(OpenCall, dest) !in faults && Fault(WriteCall, dest) !in faults
            && (st.Missing? || (st.Found? && fs.tree.IsFile(st.ino))))
      && (w.err.Some? && |w.states| > 0 ==>
            exists k :: 0 <= k <= |data| && ContentAt(w.Last(fs).tree, dest) == Some(data[..k]))
  {
    OpenDecided(fs, dest, MODE_PLAIN, host, faults);
    var o := OpenForWriting(fs, dest, MODE_PLAIN, host, faults);
    if o.Opened? && Fault(WriteCall, dest) in faults {
      var part := Short(data, chance.short);
      OpenExact(fs, dest, MODE_PLAIN, host, faults);
      FillExtends(fs, o.fs, o.ino, part);
      GrowsKeepsResolve(o.fs.tree, SetContent(o.fs, o.ino, part).tree, dest, true);
      var k := if chance.short < |data| then chance.short else |data|;
      assert part == data[..k];
    }
  }

  /** The backup, decided. */
  lemma BackupDecided(fs: Fs, p: WriteParams, chance: Chance, host: Host, faults: set<Fault>)
    requires Valid(fs)
    ensures var copy := BackupPath(p.dest, chance.stamp); var st := Stat(fs.tree, p.dest); var c := Stat(fs.tree, copy);
      Backup(fs, p, chance, host, faults).err.None? <==>
        p.backup && st.Found? ==>
          && fs.tree.IsFile(st.ino) && (c.Missing? || (c.Found? && fs.tree.IsFile(c.ino)))
          && Fault(OpenCall, copy) !in faults && Fault(CopyCall, copy) !in faults
  {
    var copy := BackupPath(p.dest, chance.stamp);
    HopsShrink(fs.tree, Origin(fs.tree, p.dest.abs, fs.tree.cwd), p.dest.segs, MAX_HOPS, true);
    if p.backup && Stat(fs.tree, p.dest).Found? {
      var i := Stat(fs.tree, p.dest).ino;
      var mode := fs.attrs[i].perm;
      var o := OpenForWriting(fs, copy, mode, host, faults);
      OpenDecided(fs, copy, mode, host, faults);
      if o.Opened? {
        OpenExact(fs, copy, mode, host, faults);
        assert KindGrows(fs.tree.nodes[i], o.fs.tree.nodes[i]);
      }
    }
  }

  // ---------------------------------------------------------------- which inodes differ

  /** The backup step changes no inode's attributes and no file's bytes but those of the file that
      has the backup's name. */
  lemma BackupFrame(fs: Fs, p: WriteParams, chance: Chance, host: Host, faults: set<Fault>)
    requires Valid(fs)
    ensures var s := Backup(fs, p, chance, host, faults).Last(fs);
      var c := Stat(fs.tree, BackupPath(p.dest, chance.stamp));
      && fs.next <= s.next
      && (forall i :: i in fs.attrs ==> i in s.attrs && s.attrs[i] == fs.attrs[i])
      && (forall i :: fs.tree.IsFile(i) && !(p.backup && c.Found? && c.ino == i) ==>
          s.tree.nodes[i] == fs.tree.nodes[i])
  {
    var b := Backup(fs, p, chance, host, faults);
    if |b.states| > 0 {
      var copy := BackupPath(p.dest, chance.stamp);
      var mode := fs.attrs[Stat(fs.tree, p.dest).ino].perm;
      var o := OpenForWriting(fs, copy, mode, host, faults);
      OpenDecided(fs, copy, mode, host, faults);
      OpenExact(fs, copy, mode, host, faults);
      forall i | fs.tree.IsFile(i) && i != o.ino
        ensures b.Last(fs).tree.nodes[i] == fs.tree.nodes[i]
      {
        assert o.fs.tree.nodes[i] == fs.tree.nodes[i];
      }
    }
  }

  /** Everything before the write: the backup and the parents. */
  function Prepared(fs: Fs, p: WriteParams, chance: Chance, host: Host, acc: Accounts, faults: set<Fault>): Fs {
    MkdirAll(Backup(fs, p, chance, host, faults).Last(fs), p.dest.Parent(), host, ParentJob(p, acc, faults)).fs
  }

  lemma PreparedFrame(fs: Fs, p: WriteParams, chance: Chance, host: Host, acc: Accounts, faults: set<Fault>)
    requires Valid(fs) && |p.dest.segs| > 0 && p.dest.Clean()
    requires var fs1 := Backup(fs, p, chance, host, faults).Last(fs);
      MkdirAll(fs1, p.dest.Parent(), host, ParentJob(p, acc, faults)).err.None?
    ensures var m := Prepared(fs, p, chance, host, acc, faults);
      var c := Stat(fs.tree, BackupPath(p.dest, chance.stamp));
      && fs.next <= m.next
      && (forall i :: i in fs.attrs ==> i in m.attrs && m.attrs[i] == fs.attrs[i])
      && (forall i :: fs.tree.IsFile(i) && !(p.backup && c.Found? && c.ino == i) ==>
            i in m.tree.nodes && m.tree.nodes[i] == fs.tree.nodes[i])
  {
    var fs1 := Backup(fs, p, chance, host, faults).Last(fs);
    var parent := p.dest.Parent();
    var job := ParentJob(p, acc, faults);
    BackupFrame(fs, p, chance, host, faults);
    BackupGrows(fs, p, chance, host, faults);
    if IsMissing(fs1.tree, parent) { CreateFrame(fs1, parent, host, job); }
    forall i | fs.tree.IsFile(i)
      ensures fs1.tree.IsFile(i)
    {
      assert KindGrows(fs.tree.nodes[i], fs1.tree.nodes[i]);
    }
  }

  /** A successful request ends with the write and the attributes, from the prepared filesystem. */
  lemma ReplaceFinishes(fs: Fs, p: WriteParams, data: Bytes, chance: Chance, host: Host, acc: Accounts,
                        faults: set<Fault>)
    requires Replace(fs, p, data, chance, host, acc, faults).err.None?
    ensures var m := Prepared(fs, p, chance, host, acc, faults); var w := Finish(m, p, data, chance, host, acc, faults);
      && w.err.None? && Replace(fs, p, data, chance, host, acc, faults).fs == w.Last(m)
      && Backup(fs, p, chance, host, faults).err.None?
      && var fs1 := Backup(fs, p, chance, host, faults).Last(fs);
      MkdirAll(fs1, p.dest.Parent(), host, ParentJob(p, acc, faults)).err.None?
  {}

  /** The path leads to the inode `j` with the data and the attributes `attr`, no other attributes
      differ from `before`, and no other file does. */
  ghost predicate LandsAt(before: Fs, after: Fs, dest: Path, j: Ino, data: Bytes, attr: Attr) {
    && Stat(after.tree, dest).Found? && Stat(after.tree, dest).ino == j
    && j in after.tree.nodes && after.tree.nodes[j] == File(data)
    && after.attrs == before.attrs[j := attr]
    && (forall i :: before.tree.IsFile(i) && i != j ==>
        i in after.tree.nodes && after.tree.nodes[i] == before.tree.nodes[i])
  }

  lemma FinishByRename(m: Fs, p: WriteParams, data: Bytes, chance: Chance, host: Host, acc: Accounts,
                       faults: set<Fault>,
                       wish: Wish)
    requires Valid(m) && |p.dest.segs| > 0 && p.dest.Clean() && LeadsToDir(m.tree, p.dest.Parent())
    requires !p.unsafeWrites && !OnItsOwnWay(m.tree, p.dest) && Spells(AttrJob(p, acc, faults), wish)
    requires Finish(m, p, data, chance, host, acc, faults).err.None?
    ensures LandsAt(m, Finish(m, p, data, chance, host, acc, faults).Last(m), p.dest, m.next, data,
                    Granted(File(data), Attr(Masked(0x180, host.umask), host.uid, host.gid), wish))
  {
    var d := Stat(m.tree, p.dest.Parent()).ino;
    var w := WriteByRename(m, p.dest, data, chance, host, faults);
    var s := w.Last(m);
    WriteByRenameTrace(m, p.dest, d, data, chance, host, faults);
    AfterRename(m, s, p.dest, d, data, host);
    SetAfterWrite(m, s, p, m.next, data, TempAttr(host), acc, faults, wish);
  }

  /** Setting the attributes after the write. */
  lemma SetAfterWrite(m: Fs, s: Fs, p: WriteParams, j: Ino, data: Bytes, attr: Attr, acc: Accounts, faults: set<Fault>,
                      wish: Wish)
    requires LandsAt(m, s, p.dest, j, data, attr) && Spells(AttrJob(p, acc, faults), wish)
    requires Apply(s.tree, s.attrs, p.dest, AttrJob(p, acc, faults), false).err.None?
    ensures LandsAt(m, s.(attrs := Apply(s.tree, s.attrs, p.dest, AttrJob(p, acc, faults), false).attrs),
                    p.dest, j, data, Granted(File(data), attr, wish))
  {
    assert Addresses(s.tree, p.dest, false, j);
    ApplyGrants(s.tree, s.attrs, p.dest, AttrJob(p, acc, faults), false, j, wish);
  }

  /** The inode a write in place goes to, and the attributes it has before they are set. */
  function Target(m: Fs, dest: Path): Ino { if Stat(m.tree, dest).Found? then Stat(m.tree, dest).ino else m.next }

  function TargetAttr(m: Fs, dest: Path, host: Host): Attr {
    if Stat(m.tree, dest).Found? && Stat(m.tree, dest).ino in m.attrs then m.attrs[Stat(m.tree, dest).ino]
    else Attr(Masked(0x1A4, host.umask), host.uid, host.gid)
  }

  lemma InPlaceLands(m: Fs, dest: Path, data: Bytes, chance: Chance, host: Host, faults: set<Fault>)
    requires Valid(m) && WriteInPlace(m, dest, data, chance, host, faults).err.None?
    ensures LandsAt(m, WriteInPlace(m, dest, data, chance, host, faults).Last(m), dest, Target(m, dest), data,
                    TargetAttr(m, dest, host))
  {
    var o := OpenForWriting(m, dest, MODE_PLAIN, host, faults);
    OpenDecided(m, dest, MODE_PLAIN, host, faults);
    OpenExact(m, dest, MODE_PLAIN, host, faults);
    var s := SetContent(o.fs, o.ino, data);
    FillExtends(m, o.fs, o.ino, data);
    GrowsKeepsResolve(o.fs.tree, s.tree, dest, true);
    assert Stat(m.tree, dest).Found? ==> m.attrs[o.ino := m.attrs[o.ino]] == m.attrs;
  }

  lemma FinishInPlace(m: Fs, p: WriteParams, data: Bytes, chance: Chance, host: Host, acc: Accounts, faults: set<Fault>,
                      wish: Wish)
    requires Valid(m) && p.unsafeWrites && Spells(AttrJob(p, acc, faults), wish)
    requires Finish(m, p, data, chance, host, acc, faults).err.None?
    ensures LandsAt(m, Finish(m, p, data, chance, host, acc, faults).Last(m), p.dest, Target(m, p.dest), data,
                    Granted(File(data), TargetAttr(m, p.dest, host), wish))
  {
    InPlaceLands(m, p.dest, data, chance, host, faults);
    var s := WriteInPlace(m, p.dest, data, chance, host, faults).Last(m);
    SetAfterWrite(m, s, p, Target(m, p.dest), data, TargetAttr(m, p.dest, host), acc, faults, wish);
  }

  /** No file that was there has other bytes, but perhaps `j` and one that had the backup's name. */
  ghost predicate FilesKept(fs: Fs, after: Fs, p: WriteParams, chance: Chance, j: Ino) {
    var c := Stat(fs.tree, BackupPath(p.dest, chance.stamp));
    && (forall i :: i in fs.attrs && i != j ==> i in after.attrs && after.attrs[i] == fs.attrs[i])
    && (forall i :: fs.tree.IsFile(i) && i != j && !(p.backup && c.Found? && c.ino == i) ==>
          i in after.tree.nodes && after.tree.nodes[i] == fs.tree.nodes[i])
  }

  /** A rename-based write that reached its destination, exactly: a new inode with the data and with
      what was spelled, or 0600 without the umask and the agent's ids; every file that was there
      before keeps its bytes and attributes, except one that had the backup's name. */
  lemma RenameGrants(fs: Fs, p: WriteParams, data: Bytes, chance: Chance, host: Host, acc: Accounts, faults: set<Fault>,
                     wish: Wish)
    requires Valid(fs) && Acyclic(fs.tree) && |p.dest.segs| > 0 && p.dest.Clean()
    requires !p.unsafeWrites && !OnItsOwnWay(fs.tree, p.dest) && Spells(AttrJob(p, acc, faults), wish)
    requires Replace(fs, p, data, chance, host, acc, faults).err.None?
    ensures var r := Replace(fs, p, data, chance, host, acc, faults).fs;
      && Stat(r.tree, p.dest).Found?
      && var j := Stat(r.tree, p.dest).ino;
      && j !in fs.tree.nodes && j in r.tree.nodes && r.tree.nodes[j] == File(data) && j in r.attrs
      && r.attrs[j] == Granted(File(data), Attr(Masked(0x180, host.umask), host.uid, host.gid), wish)
      && FilesKept(fs, r, p, chance, j)
  {
    var m := Prepared(fs, p, chance, host, acc, faults);
    ReplaceFinishes(fs, p, data, chance, host, acc, faults);
    ReadyToWrite(fs, p, chance, host, acc, faults);
    PreparedFrame(fs, p, chance, host, acc, faults);
    FinishByRename(m, p, data, chance, host, acc, faults, wish);
    KeptThrough(fs, m, Replace(fs, p, data, chance, host, acc, faults).fs, p, chance, m.next, data,
                Granted(File(data), TempAttr(host), wish));
  }

  lemma KeptThrough(fs: Fs, m: Fs, after: Fs, p: WriteParams, chance: Chance, j: Ino, data: Bytes, attr: Attr)
    requires Valid(fs) && fs.next <= m.next && LandsAt(m, after, p.dest, j, data, attr)
    requires forall i :: i in fs.attrs ==> i in m.attrs && m.attrs[i] == fs.attrs[i]
    requires var c := Stat(fs.tree, BackupPath(p.dest, chance.stamp));
      forall i :: fs.tree.IsFile(i) && !(p.backup && c.Found? && c.ino == i) ==>
        i in m.tree.nodes && m.tree.nodes[i] == fs.tree.nodes[i]
    ensures FilesKept(fs, after, p, chance, j)
  {}

  /** A write in place, exactly: an existing file keeps its inode and its other attributes, a new one
      has 0644 without the umask and the agent's ids where nothing was spelled. */
  lemma InPlaceGrants(fs: Fs, p: WriteParams, data: Bytes, chance: Chance, host: Host, acc: Accounts,
                      faults: set<Fault>,
                      wish: Wish)
    requires Valid(fs) && Acyclic(fs.tree) && |p.dest.segs| > 0 && p.dest.Clean()
    requires p.unsafeWrites && Spells(AttrJob(p, acc, faults), wish)
    requires Replace(fs, p, data, chance, host, acc, faults).err.None?
    ensures var r := Replace(fs, p, data, chance, host, acc, faults).fs; var st := Stat(fs.tree, p.dest);
      && Stat(r.tree, p.dest).Found?
      && var j := Stat(r.tree, p.dest).ino;
      && (if st.Found? then j == st.ino && j in fs.attrs else j !in fs.tree.nodes)
      && j in r.tree.nodes && r.tree.nodes[j] == File(data) && j in r.attrs
      && r.attrs[j] == Granted(File(data),
           if st.Found? then fs.attrs[j] else Attr(Masked(0x1A4, host.umask), host.uid, host.gid), wish)
      && FilesKept(fs, r, p, chance, j)
  {
    var m := Prepared(fs, p, chance, host, acc, faults);
    ReplaceFinishes(fs, p, data, chance, host, acc, faults);
    ReadyToWrite(fs, p, chance, host, acc, faults);
    PreparedFrame(fs, p, chance, host, acc, faults);
    PreparedStat(fs, p, chance, host, acc, faults);
    HopsShrink(fs.tree, Origin(fs.tree, p.dest.abs, fs.tree.cwd), p.dest.segs, MAX_HOPS, true);
    FinishInPlace(m, p, data, chance, host, acc, faults, wish);
    var r := Replace(fs, p, data, chance, host, acc, faults).fs;
    var j := Stat(r.tree, p.dest).ino;
    KeptThrough(fs, m, r, p, chance, j, data, r.attrs[j]);
  }

  /** Preparing leaves an existing destination where it was and makes no other one exist. */
  lemma PreparedStat(fs: Fs, p: WriteParams, chance: Chance, host: Host, acc: Accounts, faults: set<Fault>)
    requires Valid(fs) && Acyclic(fs.tree) && |p.dest.segs| > 0 && p.dest.Clean()
    requires var fs1 := Backup(fs, p, chance, host, faults).Last(fs);
      MkdirAll(fs1, p.dest.Parent(), host, ParentJob(p, acc, faults)).err.None?
    ensures var m := Prepared(fs, p, chance, host, acc, faults);
      if Stat(fs.tree, p.dest).Found? then Stat(m.tree, p.dest) == Stat(fs.tree, p.dest)
      else !Stat(m.tree, p.dest).Found?
  {
    var fs1 := Backup(fs, p, chance, host, faults).Last(fs);
    var parent := p.dest.Parent();
    var job := ParentJob(p, acc, faults);
    BackupGrows(fs, p, chance, host, faults);
    if Stat(fs.tree, p.dest).Found? {
      GrowsKeepsResolve(fs.tree, fs1.tree, p.dest, true);
      ExistingHasSite(fs1.tree, p.dest);
    } else if !LeadsToDir(fs.tree, parent) {
      var m := Prepared(fs, p, chance, host, acc, faults);
      CreatedIsEmpty(fs, parent, host, job);
      CreateSucceeds(fs, parent, host, job);
      ChildResolve(m.tree, parent, p.dest.Base(), true);
      assert p.dest == parent.Join(p.dest.Base());
      assert p.dest.Base() == p.dest.segs[|p.dest.segs| - 1];
    }
  }

  // ---------------------------------------------------------------- when a request succeeds

  /** A directory that is there, or can be made. */
  ghost predicate CanBeThere(t: Tree, dir: Path) {
    LeadsToDir(t, dir) ||
    (IsMissing(t, dir) && var m := Reached(t, dir, 0);
     m < |dir.segs| && LeadsToDir(t, dir.Prefix(m)) && dir.segs[m] !in t.Entries(Stat(t, dir.Prefix(m)).ino))
  }

  /** Nothing is in the way in the destination's directory `d`. */
  ghost predicate Unobstructed(t: Tree, p: WriteParams, chance: Chance, d: Ino)
    requires |p.dest.segs| > 0
  {
    if p.unsafeWrites then Stat(t, p.dest).Missing? || (Stat(t, p.dest).Found? && t.IsFile(Stat(t, p.dest).ino))
    else
      && ".fastagent-" + chance.random !in t.Entries(d)
      && !(p.dest.Base() in t.Entries(d) && t.IsDir(t.Entries(d)[p.dest.Base()]))
  }

  /** What a request needs of the host to succeed if no call fails. */
  ghost predicate Doable(t: Tree, p: WriteParams, chance: Chance) {
    && |p.dest.segs| > 0 && p.dest.Clean() && CanBeThere(t, p.dest.Parent())
    && (LeadsToDir(t, p.dest.Parent()) ==> Unobstructed(t, p, chance, Stat(t, p.dest.Parent()).ino))
    && (!p.unsafeWrites ==> !OnItsOwnWay(t, p.dest))
    && (p.backup && Stat(t, p.dest).Found? ==>
          && t.IsFile(Stat(t, p.dest).ino) && Lstat(t, BackupPath(p.dest, chance.stamp)).Missing?
          && BackupPath(p.dest, chance.stamp).Base() != ".fastagent-" + chance.random)
  }

  /** A new backup adds its own name to the directory, and nothing else. */
  lemma BackupAdds(fs: Fs, p: WriteParams, chance: Chance, host: Host)
    requires Valid(fs) && |p.dest.segs| > 0 && p.dest.Clean() && p.backup && Stat(fs.tree, p.dest).Found?
    requires fs.tree.IsFile(Stat(fs.tree, p.dest).ino) && Lstat(fs.tree, BackupPath(p.dest, chance.stamp)).Missing?
    ensures LeadsToDir(fs.tree, p.dest.Parent()) && Backup(fs, p, chance, host, {}).err.None?
    ensures var d := Stat(fs.tree, p.dest.Parent()).ino; var s := Backup(fs, p, chance, host, {}).Last(fs);
      && s.tree.Entries(d) == fs.tree.Entries(d)[BackupPath(p.dest, chance.stamp).Base() := fs.next]
      && (forall i :: i in fs.tree.nodes ==> s.tree.IsDir(i) == fs.tree.IsDir(i))
  {
    var copy := BackupPath(p.dest, chance.stamp);
    var n := p.dest.Base() + "." + chance.stamp + "~";
    assert copy == p.dest.Parent().Join(n) && copy.Base() == n;
    ExistingHasSite(fs.tree, p.dest);
    var d := Stat(fs.tree, p.dest.Parent()).ino;
    ChildResolve(fs.tree, p.dest.Parent(), n, false);
    ChildResolve(fs.tree, p.dest.Parent(), n, true);
    MissingChild(fs.tree, d, n, Stat(fs.tree, p.dest.Parent()).hops);
    BackupDecided(fs, p, chance, host, {});
    var mode := fs.attrs[Stat(fs.tree, p.dest).ino].perm;
    var o := OpenForWriting(fs, copy, mode, host, {});
    assert o.fs == AddNode(fs, d, n, File([]), Attr(Masked(mode, host.umask), host.uid, host.gid));
    assert d != fs.next;
  }

  lemma MissingChild(t: Tree, d: Ino, n: Name, hops: nat)
    requires t.IsDir(d)
    ensures Walk(t, d, [n], hops, false).Missing? ==>
              Walk(t, d, [n], hops, true) == Missing(d, n) && n !in t.Entries(d)
  {
    if Lookup(t, d, n).Some? {
      assert Walk(t, d, [n], hops, false) == Walk(t, Lookup(t, d, n).value, [], hops, false);
    }
  }

  lemma ParentSpelled(p: WriteParams, acc: Accounts, faults: set<Fault>, wish: Wish)
    requires Spells(AttrJob(p, acc, faults), wish)
    ensures Spells(ParentJob(p, acc, faults), wish.(mode := None))
  {}

  /** A request whose way is free succeeds when no call fails. */
  lemma ReplaceWorks(fs: Fs, p: WriteParams, data: Bytes, chance: Chance, host: Host, acc: Accounts, wish: Wish)
    requires Valid(fs) && Acyclic(fs.tree) && Doable(fs.tree, p, chance) && Spells(AttrJob(p, acc, {}), wish)
    ensures Replace(fs, p, data, chance, host, acc, {}).err.None?
  {
    var m := Prepared(fs, p, chance, host, acc, {});
    PreparedWorks(fs, p, chance, host, acc, wish);
    ReadyToWrite(fs, p, chance, host, acc, {});
    WriteDataWorks(m, p, data, chance, host);
    WriteDataLands(m, p, data, chance, host, {});
    var s := WriteData(m, p, data, chance, host, {}).Last(m);
    var i := Stat(s.tree, p.dest).ino;
    assert Addresses(s.tree, p.dest, false, i);
    ApplyGrants(s.tree, s.attrs, p.dest, AttrJob(p, acc, {}), false, i, wish);
  }

  lemma WriteDataWorks(m: Fs, p: WriteParams, data: Bytes, chance: Chance, host: Host)
    requires Valid(m) && |p.dest.segs| > 0 && p.dest.Clean() && LeadsToDir(m.tree, p.dest.Parent())
    requires Unobstructed(m.tree, p, chance, Stat(m.tree, p.dest.Parent()).ino)
    ensures WriteData(m, p, data, chance, host, {}).err.None?
  {
    if p.unsafeWrites {
      WriteInPlaceDecided(m, p.dest, data, chance, host, {});
    } else {
      WriteByRenameDecided(m, p.dest, Stat(m.tree, p.dest.Parent()).ino, data, chance, host, {});
    }
  }

  lemma PreparedWorks(fs: Fs, p: WriteParams, chance: Chance, host: Host, acc: Accounts, wish: Wish)
    requires Valid(fs) && Acyclic(fs.tree) && Doable(fs.tree, p, chance) && Spells(AttrJob(p, acc, {}), wish)
    ensures var m := Prepared(fs, p, chance, host, acc, {});
      var fs1 := Backup(fs, p, chance, host, {}).Last(fs);
      && Backup(fs, p, chance, host, {}).err.None?
      && MkdirAll(fs1, p.dest.Parent(), host, ParentJob(p, acc, {})).err.None?
      && LeadsToDir(m.tree, p.dest.Parent()) && Unobstructed(m.tree, p, chance, Stat(m.tree, p.dest.Parent()).ino)
  {
    var parent := p.dest.Parent();
    ParentSpelled(p, acc, {}, wish);
    if LeadsToDir(fs.tree, parent) {
      var fs1 := Backup(fs, p, chance, host, {}).Last(fs);
      BackupGrows(fs, p, chance, host, {});
      GrowsKeepsResolve(fs.tree, fs1.tree, parent, true);
      var d := Stat(fs.tree, parent).ino;
      assert KindGrows(fs.tree.nodes[d], fs1.tree.nodes[d]);
      ParentsDecided(fs1, parent, host, ParentJob(p, acc, {}), wish.(mode := None));
      StillUnobstructed(fs, p, chance, host, d);
    } else {
      if Stat(fs.tree, p.dest).Found? { ExistingHasSite(fs.tree, p.dest); }
      ParentsDecided(fs, parent, host, ParentJob(p, acc, {}), wish.(mode := None));
      MadeIsEmpty(fs, p, chance, host, acc);
    }
  }

  lemma StillUnobstructed(fs: Fs, p: WriteParams, chance: Chance, host: Host, d: Ino)
    requires Valid(fs) && Doable(fs.tree, p, chance) && LeadsToDir(fs.tree, p.dest.Parent())
    requires d == Stat(fs.tree, p.dest.Parent()).ino
    ensures Backup(fs, p, chance, host, {}).err.None?
    ensures Unobstructed(Backup(fs, p, chance, host, {}).Last(fs).tree, p, chance, d)
  {
    if p.backup && Stat(fs.tree, p.dest).Found? {
      BackupAdds(fs, p, chance, host);
      BackupGrows(fs, p, chance, host, {});
      var s := Backup(fs, p, chance, host, {}).Last(fs);
      var i := Stat(fs.tree, p.dest).ino;
      GrowsKeepsResolve(fs.tree, s.tree, p.dest, true);
      assert KindGrows(fs.tree.nodes[i], s.tree.nodes[i]);
      var n := p.dest.Base() + "." + chance.stamp + "~";
      assert BackupPath(p.dest, chance.stamp).Base() == n && |n| > |p.dest.Base()|;
      if p.dest.Base() in fs.tree.Entries(d) { assert fs.tree.Entries(d)[p.dest.Base()] in fs.tree.nodes; }
    }
  }

  lemma MadeIsEmpty(fs: Fs, p: WriteParams, chance: Chance, host: Host, acc: Accounts)
    requires Valid(fs) && |p.dest.segs| > 0 && p.dest.Clean() && IsMissing(fs.tree, p.dest.Parent())
    requires MkdirAll(fs, p.dest.Parent(), host, ParentJob(p, acc, {})).err.None?
    ensures var t := MkdirAll(fs, p.dest.Parent(), host, ParentJob(p, acc, {})).fs.tree;
      LeadsToDir(t, p.dest.Parent()) && Unobstructed(t, p, chance, Stat(t, p.dest.Parent()).ino)
  {
    var parent := p.dest.Parent();
    var job := ParentJob(p, acc, {});
    var t := MkdirAll(fs, parent, host, job).fs.tree;
    CreatedIsEmpty(fs, parent, host, job);
    CreateSucceeds(fs, parent, host, job);
    assert parent.Prefix(|parent.segs|) == parent;
    assert LeadsToDir(t, parent.Prefix(|parent.segs|));
    EmptyIsUnobstructed(t, p, chance);
  }

  lemma EmptyIsUnobstructed(t: Tree, p: WriteParams, chance: Chance)
    requires |p.dest.segs| > 0 && p.dest.Clean() && LeadsToDir(t, p.dest.Parent())
    requires t.Entries(Stat(t, p.dest.Parent()).ino) == map[]
    ensures Unobstructed(t, p, chance, Stat(t, p.dest.Parent()).ino)
  {
    var parent := p.dest.Parent();
    ChildResolve(t, parent, p.dest.Base(), true);
    assert p.dest == parent.Join(p.dest.Base()) && p.dest.Base() == p.dest.segs[|p.dest.segs| - 1];
  }

  // ---------------------------------------------------------------- what a request answers

  /** The whole request, decided: content that does not decode is refused; content that is there
      already is left and only the attributes are set, a change being reported iff one differed;
      anything else is written and reported as a change. A backup is named iff one was asked for
      and there was something to back up. */
  lemma WriteFileAnswers(fs: Fs, p: WriteParams, chance: Chance, host: Host, acc: Accounts, codec: Codec,
                         faults: set<Fault>,
                         wish: Wish)
    requires Valid(fs) && GoodCodec(codec) && Spells(AttrJob(p, acc, faults), wish)
    requires p.checksum == "" || p.checksum == DigestAt(fs.tree, p.dest, codec)
    ensures var r := WriteFile(fs, p, chance, host, acc, codec, faults); var before := ContentAt(fs.tree, p.dest);
      && (codec.dec(p.content) == None ==> r == WriteOutcome(fs, false, None, Some(BadContent), []))
      && (codec.dec(p.content).Some? ==>
            var data := codec.dec(p.content).value;
            if before.Some? && codec.sha(before.value) == codec.sha(data) then
              var i := Stat(fs.tree, p.dest).ino;
              && r.fs.tree == fs.tree && r.backup == None
              && (r.err.None? ==>
                    && r.fs.attrs == fs.attrs[i := Granted(fs.tree.nodes[i], fs.attrs[i], wish)]
                    && (r.changed <==> r.fs.attrs != fs.attrs))
            else
              && r.changed == r.err.None?
              && r.backup == (if r.err.None? && p.backup && Stat(fs.tree, p.dest).Found?
                              then Some(BackupPath(p.dest, chance.stamp)) else None))
  {
    var before := ContentAt(fs.tree, p.dest);
    if codec.dec(p.content).Some? && before.Some? {
      var data := codec.dec(p.content).value;
      var i := Stat(fs.tree, p.dest).ino;
      if codec.sha(before.value) == codec.sha(data) {
        assert Addresses(fs.tree, p.dest, false, i);
        ApplyGrants(fs.tree, fs.attrs, p.dest, AttrJob(p, acc, faults), false, i, wish);
      }
    }
  }

  /** state=file, decided. */
  lemma FileFileDecided(fs: Fs, path: Path, job: Job, wish: Wish)
    requires Valid(fs) && Spells(job, wish)
    ensures var r := FileFile(fs, path, job); var st := Stat(fs.tree, path);
      if !st.Found? then r == DirOutcome(fs, false, Some(if ErrnoOf(st) == ENOENT then NotThere else Sys(ErrnoOf(st))))
      else if fs.tree.IsDir(st.ino) then r == DirOutcome(fs, false, Some(IsADirectory))
      else
        && r.fs.tree == fs.tree && r.fs.next == fs.next && st.ino in fs.attrs
        && (job.faults == {} ==> r.err.None?)
        && (r.err.None? ==>
              && r.fs.attrs == fs.attrs[st.ino := Granted(fs.tree.nodes[st.ino], fs.attrs[st.ino], wish)]
              && (r.changed <==> r.fs != fs))
  {
    var st := Stat(fs.tree, path);
    HopsShrink(fs.tree, Origin(fs.tree, path.abs, fs.tree.cwd), path.segs, MAX_HOPS, true);
    FoundIsNoLink(fs, path);
    if st.Found? && !fs.tree.IsDir(st.ino) {
      assert Addresses(fs.tree, path, false, st.ino);
      ApplyGrants(fs.tree, fs.attrs, path, job, false, st.ino, wish);
    }
  }

  lemma FoundIsNoLink(fs: Fs, path: Path)
    requires Valid(fs)
    ensures Stat(fs.tree, path).Found? ==> !fs.tree.IsLink(Stat(fs.tree, path).ino)
  {
    EndsNotAtLink(fs.tree, Origin(fs.tree, path.abs, fs.tree.cwd), path.segs, MAX_HOPS);
  }

  /** Following a path to its end never stops at a symlink. */
  lemma {:induction false} EndsNotAtLink(t: Tree, cur: Ino, segs: seq<Name>, hops: nat)
    requires !t.IsLink(cur) && !t.IsLink(t.root)
    ensures var r := Walk(t, cur, segs, hops, true); r.Found? ==> !t.IsLink(r.ino)
    decreases hops, |segs|
  {
    if |segs| > 0 && t.IsDir(cur) && Lookup(t, cur, segs[0]).Some? {
      var next := Lookup(t, cur, segs[0]).value;
      if t.IsLink(next) {
        if hops > 0 {
          var target := t.nodes[next].target;
          EndsNotAtLink(t, Origin(t, target.abs, cur), target.segs + segs[1..], hops - 1);
        }
      } else {
        EndsNotAtLink(t, next, segs[1..], hops);
      }
    }
  }

  // ---------------------------------------------------------------- what failures leave

  /** The error of the temporary-file write, and when it is which. */
  lemma RenameErrors(fs: Fs, dest: Path, d: Ino, data: Bytes, chance: Chance, host: Host, faults: set<Fault>)
    requires Valid(fs) && Site(fs.tree, dest, d)
    ensures var tmp := dest.Parent().Join(".fastagent-" + chance.random);
      var isDir := dest.Base() in fs.tree.Entries(d) && fs.tree.IsDir(fs.tree.Entries(d)[dest.Base()]);
      WriteByRename(fs, dest, data, chance, host, faults).err ==
        if ".fastagent-" + chance.random in fs.tree.Entries(d) then Some(Sys(EEXIST))
        else if Fault(CreateTempCall, tmp) in faults || Fault(WriteCall, tmp) in faults
                || Fault(CloseCall, tmp) in faults || Fault(RenameCall, dest) in faults then Some(Sys(EIO))
        else if isDir then Some(Sys(EISDIR))
        else None
  {
    var n := TempName(chance.random);
    var tmp := TempPath(dest, chance.random);
    WriteByRenameDecided(fs, dest, d, data, chance, host, faults);
    assert |n| > 2;
    SiblingPlace(fs.tree, dest, d, n);
    if n in fs.tree.Entries(d) {
      ChildEntry(fs.tree, dest.Parent(), n);
    } else {
      WithTempGrows(fs, d, n, data, host);
      RenameError(fs, dest, d, data, chance, host, faults);
    }
  }

  lemma RenameError(fs: Fs, dest: Path, d: Ino, data: Bytes, chance: Chance, host: Host, faults: set<Fault>)
    requires Valid(fs) && Site(fs.tree, dest, d) && TempName(chance.random) !in fs.tree.Entries(d)
    ensures var s := WithTemp(fs, d, TempName(chance.random), data, host);
      var r := Rename(s, TempPath(dest, chance.random), dest, faults);
      r.NotRenamed? ==> r.err == if Fault(RenameCall, dest) in faults then EIO else EISDIR
  {
    var n := TempName(chance.random);
    var s := WithTemp(fs, d, n, data, host);
    WithTempGrows(fs, d, n, data, host);
    SiteGrows(fs.tree, s.tree, dest, d);
    assert |n| > 2;
    SiblingPlace(s.tree, dest, d, n);
    assert d != fs.next;
  }

  /** A request whose parents cannot all be made stops there: those that were made stay, there is no
      destination, and no backup is named. */
  lemma ParentsStop(fs: Fs, p: WriteParams, data: Bytes, chance: Chance, host: Host, acc: Accounts, faults: set<Fault>,
                    wish: Wish)
    requires Valid(fs) && |p.dest.segs| > 0 && p.dest.Clean() && Spells(AttrJob(p, acc, faults), wish)
    requires CanBeThere(fs.tree, p.dest.Parent()) && IsMissing(fs.tree, p.dest.Parent())
    requires var m := Reached(fs.tree, p.dest.Parent(), 0);
      !AllMade(p.dest.Parent(), host, ParentJob(p, acc, faults), wish.(mode := None), m)
    ensures var r := Replace(fs, p, data, chance, host, acc, faults); var m := Reached(fs.tree, p.dest.Parent(), 0);
      && r.err == Some(Sys(EIO)) && !r.changed && r.backup == None
      && r.fs.next == fs.next + Makes(p.dest.Parent(), host, ParentJob(p, acc, faults), wish.(mode := None), m)
      && r.states == [r.fs]
  {
    ParentSpelled(p, acc, faults, wish);
    CreateDecided(fs, p.dest.Parent(), host, ParentJob(p, acc, faults), wish.(mode := None));
    if Stat(fs.tree, p.dest).Found? { ExistingHasSite(fs.tree, p.dest); }
  }

  /** A checksum the caller passes along is believed: the right one means that nothing is written,
      a wrong one that everything is, without looking at the destination. */
  lemma ChecksumIsBelieved(fs: Fs, p: WriteParams, data: Bytes, chance: Chance, host: Host, acc: Accounts, codec: Codec,
                           faults: set<Fault>)
    requires codec.dec(p.content) == Some(data) && p.checksum != ""
    ensures var r := WriteFile(fs, p, chance, host, acc, codec, faults);
      && (p.checksum == codec.sha(data) ==> r.fs.tree == fs.tree && r.fs.next == fs.next && r.backup == None)
      && (p.checksum != codec.sha(data) ==> r == Replace(fs, p, data, chance, host, acc, faults))
  {}

  /** A new backup has the original's permissions without the umask, and the agent's ids; one that is
      cut short has the beginning of the bytes. */
  lemma BackupGrants(fs: Fs, p: WriteParams, chance: Chance, host: Host, faults: set<Fault>)
    requires Valid(fs) && p.backup && ContentAt(fs.tree, p.dest).Some?
    requires Stat(fs.tree, BackupPath(p.dest, chance.stamp)).Missing?
    ensures var i := Stat(fs.tree, p.dest).ino; var b := Backup(fs, p, chance, host, faults);
      var copy := BackupPath(p.dest, chance.stamp); var s := b.Last(fs); var bytes := ContentAt(fs.tree, p.dest).value;
      && i in fs.attrs
      && (|b.states| > 0 ==>
            && s.attrs == fs.attrs[fs.next := Attr(Masked(fs.attrs[i].perm, host.umask), host.uid, host.gid)]
            && ContentAt(s.tree, copy) ==
                 Some(if b.err.Some? && chance.short < |bytes| then bytes[..chance.short] else bytes))
  {
    var copy := BackupPath(p.dest, chance.stamp);
    HopsShrink(fs.tree, Origin(fs.tree, p.dest.abs, fs.tree.cwd), p.dest.segs, MAX_HOPS, true);
    var i := Stat(fs.tree, p.dest).ino;
    var mode := fs.attrs[i].perm;
    var o := OpenForWriting(fs, copy, mode, host, faults);
    OpenDecided(fs, copy, mode, host, faults);
    if o.Opened? {
      OpenExact(fs, copy, mode, host, faults);
      var bytes := o.fs.tree.nodes[i].content;
      var put := if Fault(CopyCall, copy) in faults then Short(bytes, chance.short) else bytes;
      FillExtends(fs, o.fs, o.ino, put);
      GrowsKeepsResolve(o.fs.tree, SetContent(o.fs, o.ino, put).tree, copy, true);
    }
  }

  /** Backing up a directory fails, and leaves an empty file under a free backup name. */
  lemma BackupOfDirectory(fs: Fs, p: WriteParams, chance: Chance, host: Host, faults: set<Fault>)
    requires Valid(fs) && p.backup && LeadsToDir(fs.tree, p.dest)
    requires Stat(fs.tree, BackupPath(p.dest, chance.stamp)).Missing?
    requires Fault(OpenCall, BackupPath(p.dest, chance.stamp)) !in faults
    ensures var b := Backup(fs, p, chance, host, faults);
      b.err == Some(Sys(EISDIR)) && ContentAt(b.Last(fs).tree, BackupPath(p.dest, chance.stamp)) == Some([])
  {
    var copy := BackupPath(p.dest, chance.stamp);
    var i := Stat(fs.tree, p.dest).ino;
    var mode := fs.attrs[i].perm;
    var o := OpenForWriting(fs, copy, mode, host, faults);
    OpenDecided(fs, copy, mode, host, faults);
    OpenExact(fs, copy, mode, host, faults);
    assert KindGrows(fs.tree.nodes[i], o.fs.tree.nodes[i]);
  }
}
