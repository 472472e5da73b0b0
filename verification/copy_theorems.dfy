/** The copy action against the agent: it converges, check mode is honest, and where the one
    destination it cannot reach lies. */
module CopyTheorems {
  import opened Wrappers
  import opened FileSystem
  import opened Resolution
  import opened Attributes
  import opened Directories
  import opened AttributeWalk
  import opened DirectoryTheorems
  import opened Replacement
  import opened WriteFiles
  import opened WriteTheorems
  import opened WriteHandlerTheorems
  import opened FileStates
  import opened Modes
  import opened CopyAction

  /** The run gets as far as comparing: it is not a check, and it is not stopped by force=false. */
  predicate Active(fs: Fs, args: CopyArgs) {
    !args.checkMode && (args.force || !Stat(fs.tree, Effective(fs.tree, args)).Found?)
  }

  /** The attributes are asked for in a way the action notices even when the content is right. The
      mode 0 given as an integer, and an empty mode string, are not noticed when nothing else is
      asked for. */
  predicate Noticed(args: CopyArgs) {
    AsksForAttributes(args) || args.mode == NoMode
  }

  lemma UnnoticedMeansNothingAsked(args: CopyArgs)
    requires !AsksForAttributes(args) && args.mode == NoMode
    ensures RequestOf(args) == Request("", "", "")
  {}

  /** `dest` is in clean form, and the source's base name is a name, as that of a file is. */
  predicate CleanArgs(args: CopyArgs) {
    args.dest.Clean() && (args.basename.Some? ==> args.basename.value != "." && args.basename.value != "..")
  }

  lemma CleanDestination(t: Tree, args: CopyArgs)
    requires CleanArgs(args)
    ensures Effective(t, args).Clean()
  {}

  /** A run that goes on after the first stat works on the effective destination. */
  lemma CopyReaches(fs: Fs, data: Bytes, args: CopyArgs, w: World)
    requires CopyData(fs, data, args, w).result != Failed
    ensures var dest := Effective(fs.tree, args);
      && StatRpc(fs.tree, dest, w.codec) != StatError
      && CopyData(fs, data, args, w) == CopyTo(fs, data, dest, StatRpc(fs.tree, dest, w.codec), args, w)
  {}

  // ---------------------------------------------------------------- one successful run

  /** What a converged destination looks like. */
  ghost predicate Converged(fs: Fs, dest: Path, data: Bytes, args: CopyArgs, w: World) {
    && ContentAt(fs.tree, dest).Some? && w.codec.sha(ContentAt(fs.tree, dest).value) == w.codec.sha(data)
    && (Noticed(args) ==> HasRequested(fs, dest, JobOf(args, w)))
    && LeadsToDir(fs.tree, dest.Parent()) && fs.tree.nodes.Keys <= fs.attrs.Keys
  }

  /** A run that gets anywhere has a destination with a name. */
  lemma EffectiveHasName(fs: Fs, data: Bytes, args: CopyArgs, w: World)
    requires Valid(fs) && CopyData(fs, data, args, w).result != Failed
    ensures |Effective(fs.tree, args).segs| > 0
  {
    if |args.dest.segs| == 0 {
      assert Stat(fs.tree, args.dest) == Found(Origin(fs.tree, args.dest.abs, fs.tree.cwd), MAX_HOPS);
    }
  }

  /** After a successful run the effective destination has the digest of the data and the requested
      attributes, unless the rename replaced a symlink that the way to the destination led through;
      then nothing is found there. The destination may have been missing, a file, or a symlink that
      dangles or leads to a file or directory. */
  lemma CopyConverges(fs: Fs, data: Bytes, args: CopyArgs, w: World)
    requires Valid(fs) && Acyclic(fs.tree) && GoodCodec(w.codec)
    requires Active(fs, args) && CleanArgs(args)
    requires CopyData(fs, data, args, w).result != Failed
    ensures var r := CopyData(fs, data, args, w); var dest := Effective(fs.tree, args);
      if OnItsOwnWay(fs.tree, dest) then !Stat(r.fs.tree, dest).Found? else Converged(r.fs, dest, data, args, w)
  {
    var dest := Effective(fs.tree, args);
    CleanDestination(fs.tree, args);
    CopyReaches(fs, data, args, w);
    EffectiveHasName(fs, data, args, w);
    var st := StatRpc(fs.tree, dest, w.codec);
    if st.Present? && st.checksum == w.codec.sha(data) {
      AttributesConverge(fs, dest, data, args, w);
    } else {
      ContentConverges(fs, data, dest, args, w);
    }
  }

  lemma AttributesConverge(fs: Fs, dest: Path, data: Bytes, args: CopyArgs, w: World)
    requires Valid(fs) && GoodCodec(w.codec) && |dest.segs| > 0 && dest.Clean() && !args.checkMode
    requires DigestAt(fs.tree, dest, w.codec) == w.codec.sha(data)
    requires CopyAttributes(fs, dest, args, w).result != Failed
    ensures !OnItsOwnWay(fs.tree, dest) && Converged(CopyAttributes(fs, dest, args, w).fs, dest, data, args, w)
  {
    ExistingHasSite(fs.tree, dest);
    FileIsNotOnTheWay(fs.tree, dest, Stat(fs.tree, dest.Parent()).ino);
    if AsksForAttributes(args) {
      AttrsLand(fs, dest, JobOf(args, w));
    } else if args.mode == NoMode {
      UnnoticedMeansNothingAsked(args);
      NothingAskedIsGranted(fs, dest, JobOf(args, w));
    }
  }

  lemma NothingAskedIsGranted(fs: Fs, path: Path, job: Job)
    requires ContentAt(fs.tree, path).Some? && fs.tree.nodes.Keys <= fs.attrs.Keys
    requires job.req == Request("", "", "")
    ensures HasRequested(fs, path, job)
  {}

  lemma ContentConverges(fs: Fs, data: Bytes, dest: Path, args: CopyArgs, w: World)
    requires Valid(fs) && Acyclic(fs.tree) && GoodCodec(w.codec) && |dest.segs| > 0 && dest.Clean() && !args.checkMode
    requires DigestAt(fs.tree, dest, w.codec) != w.codec.sha(data) && StatRpc(fs.tree, dest, w.codec) != StatError
    requires CopyContent(fs, data, dest, StatRpc(fs.tree, dest, w.codec), args, w).result != Failed
    ensures var r := CopyContent(fs, data, dest, StatRpc(fs.tree, dest, w.codec), args, w);
      && r.result == Finished(true, dest)
      && if OnItsOwnWay(fs.tree, dest) then !Stat(r.fs.tree, dest).Found? else Converged(r.fs, dest, data, args, w)
  {
    var p := WriteParamsOf(args, dest, data, w.codec);
    assert AttrJob(p, w.acc, w.faults) == JobOf(args, w);
    ReplaceSucceeds(fs, p, data, w.chance, w.host, w.acc, w.faults);
    if OnItsOwnWay(fs.tree, dest) {
      OwnWayIsDirectory(fs.tree, dest);
      if p.unsafeWrites { DirectoryIsRefused(fs, p, data, w.chance, w.host, w.acc, w.faults); }
    }
  }

  /** A directory cannot be overwritten in place. */
  lemma DirectoryIsRefused(fs: Fs, p: WriteParams, data: Bytes, chance: Chance, host: Host, acc: Accounts,
                           faults: set<Fault>)
    requires Valid(fs) && |p.dest.segs| > 0 && p.dest.Clean() && p.unsafeWrites && LeadsToDir(fs.tree, p.dest)
    ensures Replace(fs, p, data, chance, host, acc, faults).err.Some?
  {
    var fs1 := Backup(fs, p, chance, host, faults).Last(fs);
    var i := Stat(fs.tree, p.dest).ino;
    BackupGrows(fs, p, chance, host, faults);
    GrowsKeepsResolve(fs.tree, fs1.tree, p.dest, true);
    assert KindGrows(fs.tree.nodes[i], fs1.tree.nodes[i]);
    assert OpenForWriting(fs1, p.dest, MODE_PLAIN, host, faults).NotOpened?;
    ExistingHasSite(fs1.tree, p.dest);
    assert MkdirAll(fs1, p.dest.Parent(), host, ParentJob(p, acc, faults)) == DirOutcome(fs1, false, None);
  }

  lemma OwnWayIsDirectory(t: Tree, dest: Path)
    requires dest.Clean() && OnItsOwnWay(t, dest) && (Stat(t, dest).Found? || ErrnoOf(Stat(t, dest)) == ENOENT)
    ensures LeadsToDir(t, dest)
  {
    if !LeadsToDir(t, dest) { FileIsNotOnTheWay(t, dest, Stat(t, dest.Parent()).ino); }
  }

  // ---------------------------------------------------------------- the second run

  /** Running the same task again, with other randomness and other failing calls, on the state a
      successful run left, changes nothing on the host; it reports no change, provided the task
      asks for attributes an inode can hold. */
  lemma CopyTwice(fs: Fs, data: Bytes, args: CopyArgs, w: World, again: World, dest: Path)
    requires Valid(fs) && Acyclic(fs.tree) && GoodCodec(w.codec)
    requires Active(fs, args) && CleanArgs(args)
    requires dest == Effective(fs.tree, args) && !OnItsOwnWay(fs.tree, dest)
    requires CopyData(fs, data, args, w).result != Failed
    requires again.codec == w.codec && again.acc == w.acc && (again.faults == {} || Settles(PlanOf(JobOf(args, w))))
    ensures var r := CopyData(fs, data, args, w); var r2 := CopyData(r.fs, data, args, again);
      && r2.fs == r.fs && r2.result.Finished? && r2.result.dest == dest
      && (r2.result.changed <==> args.force && AsksForAttributes(args) && !Settles(PlanOf(JobOf(args, w))))
  {
    var r := CopyData(fs, data, args, w);
    CopyConverges(fs, data, args, w);
    SameDestination(fs, r.fs, args);
    var st := StatRpc(r.fs.tree, dest, w.codec);
    assert st == Present(false, w.codec.sha(data));
    SecondLook(r.fs, data, args, again);
    if args.force && AsksForAttributes(args) {
      FileFileAgain(r.fs, dest, JobOf(args, w), JobOf(args, again));
    }
  }

  lemma SameDestination(fs: Fs, after: Fs, args: CopyArgs)
    requires ContentAt(after.tree, Effective(fs.tree, args)).Some?
    requires LeadsToDir(after.tree, Effective(fs.tree, args).Parent())
    ensures Effective(after.tree, args) == Effective(fs.tree, args)
    ensures Effective(fs.tree, args) != args.dest ==> LeadsToDir(after.tree, args.dest) && args.basename.Some?
  {
    var st := Stat(fs.tree, args.dest);
    if st.Found? && fs.tree.IsDir(st.ino) && args.basename.Some? {
      assert args.dest.Join(args.basename.value).Parent() == args.dest;
    }
  }

  /** On a converged state the action only considers the attributes. */
  lemma SecondLook(fs: Fs, data: Bytes, args: CopyArgs, w: World)
    requires !args.checkMode
    requires var dest := Effective(fs.tree, args);
      StatRpc(fs.tree, dest, w.codec) == Present(false, w.codec.sha(data))
    ensures var dest := Effective(fs.tree, args);
      CopyData(fs, data, args, w) ==
        if args.force then CopyAttributes(fs, dest, args, w) else CopyOutcome(fs, Finished(false, dest))
  {}

  lemma FileFileAgain(fs: Fs, path: Path, job: Job, again: Job)
    requires ContentAt(fs.tree, path).Some? && fs.tree.nodes.Keys <= fs.attrs.Keys && HasRequested(fs, path, job)
    requires again.acc == job.acc && again.req == job.req && (again.faults == {} || Settles(PlanOf(job)))
    ensures var f := FileFile(fs, path, again);
      f.err.None? && f.fs == fs && (f.changed <==> !Settles(PlanOf(job)))
  {
    var i := Stat(fs.tree, path).ino;
    assert Addresses(fs.tree, path, false, i);
    TouchedAsRequested(fs.tree.nodes[i], fs.attrs[i], PlanOf(job));
    ApplySucceeds(fs.tree, fs.attrs, path, again, false, i);
    ApplyExact(fs.tree, fs.attrs, path, again, false, i);
  }

  // ---------------------------------------------------------------- check mode and force=false

  /** Check mode never changes the host, whatever the arguments and the state. */
  lemma CheckModeIsReadOnly(fs: Fs, data: Bytes, args: CopyArgs, w: World)
    requires args.checkMode
    ensures CopyData(fs, data, args, w).fs == fs
  {}

  /** With force=false an existing effective destination is left alone and reported unchanged. */
  lemma ForceFalseLeavesAlone(fs: Fs, data: Bytes, args: CopyArgs, w: World)
    requires !args.force && Stat(fs.tree, Effective(fs.tree, args)).Found?
    ensures var r := CopyData(fs, data, args, w);
      r.fs == fs && (r.result == Failed || r.result == Finished(false, Effective(fs.tree, args)))
  {}

  /** If check mode announces a change, a real run from the same state that does not fail reports
      one. */
  lemma CheckModeIsHonest(fs: Fs, data: Bytes, args: CopyArgs, w: World, live: World)
    requires args.checkMode && GoodCodec(w.codec) && live.codec == w.codec
    requires CopyData(fs, data, args, w).result == Finished(true, Effective(fs.tree, args))
    ensures var r := CopyData(fs, data, args.(checkMode := false), live);
      r.result == Failed || r.result == Finished(true, Effective(fs.tree, args))
  {
    var args' := args.(checkMode := false);
    var dest := Effective(fs.tree, args);
    assert Effective(fs.tree, args') == dest;
    CopyReaches(fs, data, args, w);
    var st := StatRpc(fs.tree, dest, w.codec);
    assert CopyData(fs, data, args', live) == CopyTo(fs, data, dest, st, args', live);
    var p := WriteParamsOf(args', dest, data, live.codec);
    assert DigestAt(fs.tree, dest, live.codec) != live.codec.sha(data);
  }

  // ---------------------------------------------------------------- the exceptions, exactly

  /** When the content is already right and the mode is asked for only as the integer 0 or as "",
      a successful run leaves the attributes alone: the mode 0 that the agent would be sent is
      there afterwards exactly if it was there before. */
  lemma UnnoticedModeIsNotApplied(fs: Fs, data: Bytes, args: CopyArgs, w: World)
    requires Valid(fs) && Active(fs, args) && GoodCodec(w.codec) && !Noticed(args)
    requires DigestAt(fs.tree, Effective(fs.tree, args), w.codec) == w.codec.sha(data)
    requires CopyData(fs, data, args, w).result != Failed
    ensures CopyData(fs, data, args, w) == CopyOutcome(fs, Finished(false, Effective(fs.tree, args)))
    ensures PlanOf(JobOf(args, w)).mode == Some(0)
    ensures var i := Stat(fs.tree, Effective(fs.tree, args)).ino;
      HasRequested(fs, Effective(fs.tree, args), JobOf(args, w)) <==> fs.attrs[i].perm == 0
  {
    CopyReaches(fs, data, args, w);
    FalsyModeIsZero(args, w);
  }

  lemma FalsyModeIsZero(args: CopyArgs, w: World)
    requires !Noticed(args)
    ensures Understood(JobOf(args, w)) && PlanOf(JobOf(args, w)) == Plan(Some(0), -1, -1)
  {
    match args.mode {
      case IntMode(n) => IntModeArrives(0);
      case TextMode(s) => TextModeArrives("");
    }
  }

  /** Convergence, exactly: after a successful active run the effective destination has the digest
      of the data if and only if it did not lie on its own way, as only what leads to a directory
      ever does. */
  lemma CopyDigestExact(fs: Fs, data: Bytes, args: CopyArgs, w: World)
    requires Valid(fs) && Acyclic(fs.tree) && GoodCodec(w.codec)
    requires Active(fs, args) && CleanArgs(args)
    requires CopyData(fs, data, args, w).result != Failed
    ensures var dest := Effective(fs.tree, args);
      && (DigestAt(CopyData(fs, data, args, w).fs.tree, dest, w.codec) == w.codec.sha(data) <==>
          !OnItsOwnWay(fs.tree, dest))
      && (OnItsOwnWay(fs.tree, dest) ==> LeadsToDir(fs.tree, dest))
  {
    var dest := Effective(fs.tree, args);
    CopyReaches(fs, data, args, w);
    CopyConverges(fs, data, args, w);
    if OnItsOwnWay(fs.tree, dest) { OwnWayIsDirectory(fs.tree, dest); }
  }
}
