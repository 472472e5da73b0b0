/** The WriteFile request as callers see it. */
module WriteSummary {
  import opened Wrappers
  import opened FileSystem
  import opened Resolution
  import opened Attributes
  import opened Directories
  import opened AttributeWalk
  import opened DirectoryTheorems
  import opened Replacement
  import opened WriteFiles
  import opened WriteTheorems
  import opened WriteHandlerTheorems
  import opened WriteAtomicity

  /** A checksum passed along by the caller describes what is at the destination. */
  predicate TruthfulChecksum(t: Tree, p: WriteParams, codec: Codec) {
    p.checksum == "" || p.checksum == DigestAt(t, p.dest, codec)
  }

  /** A successful request leaves the digest of the data, and the requested attributes, under the
      destination, unless a rename cut off the way to it. */
  lemma WriteFileSucceeds(fs: Fs, p: WriteParams, data: Bytes, chance: Chance, host: Host, acc: Accounts, codec: Codec,
                          faults: set<Fault>)
    requires Valid(fs) && Acyclic(fs.tree) && GoodCodec(codec) && |p.dest.segs| > 0 && p.dest.Clean()
    requires codec.dec(p.content) == Some(data) && TruthfulChecksum(fs.tree, p, codec)
    requires WriteFile(fs, p, chance, host, acc, codec, faults).err.None?
    ensures var r := WriteFile(fs, p, chance, host, acc, codec, faults);
      if p.unsafeWrites || !OnItsOwnWay(fs.tree, p.dest)
      then DigestAt(r.fs.tree, p.dest, codec) == codec.sha(data) && HasRequested(r.fs, p.dest, AttrJob(p, acc, faults))
      else DigestAt(r.fs.tree, p.dest, codec) == ""
  {
    if DigestAt(fs.tree, p.dest, codec) == codec.sha(data) {
      ExistingHasSite(fs.tree, p.dest);
      FileIsNotOnTheWay(fs.tree, p.dest, Stat(fs.tree, p.dest.Parent()).ino);
      AttrsLand(fs, p.dest, AttrJob(p, acc, faults));
    } else {
      ReplaceSucceeds(fs, p, data, chance, host, acc, faults);
    }
  }

  /** Whatever fails, and at every moment: the destination of a request that does not ask for unsafe
      writes has its old bytes up to the rename and the new ones from then on; a request that finds
      the right digest, or does not reach the rename, never touches them. */
  lemma WriteFileAtomic(fs: Fs, p: WriteParams, before: Bytes, chance: Chance, host: Host, acc: Accounts, codec: Codec,
                        faults: set<Fault>)
    requires Valid(fs) && Writable(fs.tree, p.dest) && ContentAt(fs.tree, p.dest) == Some(before) && !p.unsafeWrites
    requires p.backup ==> !Overwrites(fs, p.dest, BackupPath(p.dest, chance.stamp), faults)
    requires TruthfulChecksum(fs.tree, p, codec) && codec.dec(p.content).Some?
    ensures var r := WriteFile(fs, p, chance, host, acc, codec, faults); var data := codec.dec(p.content).value;
      var renames := codec.sha(before) != codec.sha(data) && Renames(fs, p, data, chance, host, faults);
      && (renames ==> |r.states| >= 2)
      && OldThenNew(r.states, p.dest, before, data, if renames then |r.states| - 2 else |r.states|)
      && r.fs == (if |r.states| == 0 then fs else r.states[|r.states| - 1])
      && (r.err.None? && codec.sha(before) != codec.sha(data) ==> renames)
  {
    var data := codec.dec(p.content).value;
    if codec.sha(before) == codec.sha(data) {
      SkippedWrite(fs, p, before, data, chance, host, acc, codec, faults);
    } else {
      ReplaceAtomic(fs, p, data, before, chance, host, acc, faults);
    }
  }

  lemma SkippedWrite(fs: Fs, p: WriteParams, before: Bytes, data: Bytes, chance: Chance, host: Host, acc: Accounts,
                     codec: Codec, faults: set<Fault>)
    requires ContentAt(fs.tree, p.dest) == Some(before) && TruthfulChecksum(fs.tree, p, codec)
    requires codec.dec(p.content) == Some(data) && codec.sha(before) == codec.sha(data)
    ensures var r := WriteFile(fs, p, chance, host, acc, codec, faults);
      r.states == [r.fs] && OldThenNew(r.states, p.dest, before, data, 1)
  {
    var r := WriteFile(fs, p, chance, host, acc, codec, faults);
    assert r.fs.tree == fs.tree && r.states == [r.fs];
  }

  // ---------------------------------------------------------------- the invariant, on every exit

  ghost predicate Ok(fs: Fs) { Valid(fs) && Acyclic(fs.tree) }

  lemma WithTempOk(fs: Fs, d: Ino, n: Name, data: Bytes, host: Host)
    requires Ok(fs) && fs.tree.IsDir(d) && n !in fs.tree.Entries(d) && n != "." && n != ".."
    ensures Ok(WithTemp(fs, d, n, data, host)) && Ok(WithOrphan(fs, data, host))
  {
    AddNodeValid(fs, d, n, File(data), TempAttr(host));
    SameEdgesAcyclic(fs.tree, WithTemp(fs, d, n, data, host).tree);
    OrphanValid(fs, data, host);
    SameEdgesAcyclic(fs.tree, WithOrphan(fs, data, host).tree);
  }

  lemma OrphanValid(fs: Fs, data: Bytes, host: Host)
    requires Valid(fs)
    ensures Valid(WithOrphan(fs, data, host))
  {
    var s := WithOrphan(fs, data, host);
    forall x, m | s.tree.IsDir(x) && m in s.tree.Entries(x)
      ensures s.tree.Entries(x)[m] in s.tree.nodes && m != "." && m != ".."
    {
      assert x != fs.next && fs.tree.IsDir(x) && m in fs.tree.Entries(x);
    }
  }

  lemma SwappedOk(fs: Fs, s: Fs, d: Ino, base: Name, data: Bytes, host: Host)
    requires Ok(fs) && Swapped(fs, s, d, base, data, host)
    ensures Ok(s)
  {
    SwappedValid(fs, s, d, base, data, host);
    SameEdgesAcyclic(fs.tree, s.tree);
  }

  lemma WriteByRenameOk(fs: Fs, dest: Path, data: Bytes, chance: Chance, host: Host, faults: set<Fault>)
    requires Ok(fs) && dest.Clean() && |dest.segs| > 0
    ensures Ok(WriteByRename(fs, dest, data, chance, host, faults).Last(fs))
  {
    var w := WriteByRename(fs, dest, data, chance, host, faults);
    if |w.states| > 0 {
      ParentResolves(fs.tree, dest.Parent(), TempName(chance.random), false);
      var d := Stat(fs.tree, dest.Parent()).ino;
      WriteByRenameTrace(fs, dest, d, data, chance, host, faults);
      TraceOk(fs, dest, d, data, chance, host, faults, w);
    }
  }

  lemma TraceOk(fs: Fs, dest: Path, d: Ino, data: Bytes, chance: Chance, host: Host, faults: set<Fault>, w: Steps)
    requires Ok(fs) && |dest.segs| > 0 && |w.states| > 0 && RenameTrace(fs, dest, d, data, chance, host, faults, w)
    ensures Ok(w.Last(fs))
  {
    var n := TempName(chance.random);
    assert |n| > 2;
    if w.err.None? {
      SwappedOk(fs, w.states[2], d, dest.Base(), data, host);
    } else {
      var part :| w.states[1] == WithTemp(fs, d, n, part, host) &&
        w.states[2] == if Fault(RemoveCall, TempPath(dest, chance.random)) in faults
                       then w.states[1] else WithOrphan(fs, part, host);
      WithTempOk(fs, d, n, part, host);
    }
  }

  lemma OpenOk(fs: Fs, p: Path, mode: Perm, host: Host, faults: set<Fault>, data: Bytes)
    requires Ok(fs) && OpenForWriting(fs, p, mode, host, faults).Opened?
    ensures var o := OpenForWriting(fs, p, mode, host, faults); Ok(o.fs) && Ok(SetContent(o.fs, o.ino, data))
  {
    var o := OpenForWriting(fs, p, mode, host, faults);
    OpenExact(fs, p, mode, host, faults);
    FillExtends(fs, o.fs, o.ino, data);
    OpenAddsNoEdge(fs, p, mode, host, faults);
    SameEdgesAcyclic(fs.tree, o.fs.tree);
    FillAddsNoEdge(o.fs, o.ino, data);
    SameEdgesAcyclic(o.fs.tree, SetContent(o.fs, o.ino, data).tree);
  }

  lemma WriteDataOk(fs: Fs, p: WriteParams, data: Bytes, chance: Chance, host: Host, faults: set<Fault>)
    requires Ok(fs) && p.dest.Clean() && |p.dest.segs| > 0
    ensures Ok(WriteData(fs, p, data, chance, host, faults).Last(fs))
  {
    if !p.unsafeWrites {
      WriteByRenameOk(fs, p.dest, data, chance, host, faults);
    } else if OpenForWriting(fs, p.dest, MODE_PLAIN, host, faults).Opened? {
      var bytes := if Fault(WriteCall, p.dest) in faults then Short(data, chance.short) else data;
      OpenOk(fs, p.dest, MODE_PLAIN, host, faults, bytes);
    }
  }

  lemma FinishOk(fs: Fs, p: WriteParams, data: Bytes, chance: Chance, host: Host, acc: Accounts, faults: set<Fault>)
    requires Ok(fs) && p.dest.Clean() && |p.dest.segs| > 0
    ensures Ok(Finish(fs, p, data, chance, host, acc, faults).Last(fs))
  {
    WriteDataOk(fs, p, data, chance, host, faults);
  }

  /** However a request ends, the inode tables stay well formed and the hierarchy free of cycles, so
      the next request starts from a state every statement here applies to. */
  lemma WriteFileKeeps(fs: Fs, p: WriteParams, chance: Chance, host: Host, acc: Accounts, codec: Codec,
                       faults: set<Fault>)
    requires Ok(fs) && p.dest.Clean() && |p.dest.segs| > 0
    ensures Ok(WriteFile(fs, p, chance, host, acc, codec, faults).fs)
  {
    match codec.dec(p.content)
    case None =>
    case Some(data) => ReplaceKeepsOk(fs, p, data, chance, host, acc, faults);
  }

  lemma BackupOkLast(fs: Fs, p: WriteParams, chance: Chance, host: Host, faults: set<Fault>)
    requires Ok(fs)
    ensures Ok(Backup(fs, p, chance, host, faults).Last(fs))
  {
    BackupGrows(fs, p, chance, host, faults);
    BackupAcyclic(fs, p, chance, host, faults);
  }

  lemma MkdirAllOk(fs: Fs, dir: Path, host: Host, job: Job)
    requires Ok(fs) && job.req.mode == ""
    ensures Ok(MkdirAll(fs, dir, host, job).fs)
  {
    MakeSegmentsKeeps(fs, dir, 0, host, job);
  }

  lemma ReplaceKeepsOk(fs: Fs, p: WriteParams, data: Bytes, chance: Chance, host: Host, acc: Accounts,
                       faults: set<Fault>)
    requires Ok(fs) && p.dest.Clean() && |p.dest.segs| > 0
    ensures Ok(Replace(fs, p, data, chance, host, acc, faults).fs)
  {
    var b := Backup(fs, p, chance, host, faults);
    BackupOkLast(fs, p, chance, host, faults);
    var m := MkdirAll(b.Last(fs), p.dest.Parent(), host, ParentJob(p, acc, faults));
    MkdirAllOk(b.Last(fs), p.dest.Parent(), host, ParentJob(p, acc, faults));
    FinishOk(m.fs, p, data, chance, host, acc, faults);
  }
}
