/** The copy action's fast path: stat the destination, compare digests, then write the file or
    only set its attributes. */
module CopyAction {
  import opened Wrappers
  import opened FileSystem
  import opened Attributes
  import opened Directories
  import opened WriteFiles
  import opened FileStates
  import opened Modes

  /** The task's arguments. `basename` is that of the source file; there is none for `content`. */
  datatype CopyArgs = CopyArgs(
    dest: Path, basename: Option<Name>, owner: Option<string>, group: Option<string>, mode: ModeArg,
    backup: bool, force: bool, unsafeWrites: bool, diff: bool, checkMode: bool)

  datatype CopyResult = Failed | Finished(changed: bool, dest: Path)

  datatype CopyOutcome = CopyOutcome(fs: Fs, result: CopyResult)

  /** What the run takes from outside: the host, its accounts, the codec, chance and faults. */
  datatype World = World(host: Host, acc: Accounts, codec: Codec, chance: Chance, faults: set<Fault>)

  /** The Stat RPC with follow and checksum. */
  datatype StatReply = StatError | Absent | Present(isDir: bool, checksum: string)

  function StatRpc(t: Tree, p: Path, codec: Codec): StatReply {
    match Stat(t, p)
    case Found(i, _) => Present(t.IsDir(i), DigestAt(t, p, codec))
    case r => if ErrnoOf(r) == ENOENT then Absent else StatError
  }

  function Given(s: Option<string>): string { if s.Some? then s.value else "" }

  function RequestOf(args: CopyArgs): Request {
    Request(Given(args.owner), Given(args.group), Given(FormatMode(args.mode)))
  }

  /** Python's truth of `owner or group or mode`; the integer 0 and empty strings are false. */
  predicate AsksForAttributes(args: CopyArgs) {
    Given(args.owner) != "" || Given(args.group) != "" ||
    match args.mode
    case NoMode => false
    case IntMode(n) => n != 0
    case TextMode(s) => s != ""
  }

  function WriteParamsOf(args: CopyArgs, dest: Path, data: Bytes, codec: Codec): WriteParams {
    var req := RequestOf(args);
    WriteParams(dest, codec.enc(data), req.owner, req.group, req.mode, args.backup, args.unsafeWrites, "")
  }

  function JobOf(args: CopyArgs, w: World): Job { Job(w.acc, RequestOf(args), w.faults) }

  /** The destination's content is already right: at most the attributes are set. */
  function CopyAttributes(fs: Fs, dest: Path, args: CopyArgs, w: World): CopyOutcome {
    if args.checkMode || !AsksForAttributes(args) then CopyOutcome(fs, Finished(false, dest))
    else
      var f := FileFile(fs, dest, JobOf(args, w));
      CopyOutcome(f.fs, if f.err.Some? then Failed else Finished(f.changed, dest))
  }

  function CopyContent(fs: Fs, data: Bytes, dest: Path, st: StatReply, args: CopyArgs, w: World): CopyOutcome {
    if args.diff && st.Present? && !st.isDir && ContentAt(fs.tree, dest).None? then CopyOutcome(fs, Failed)
    else if args.checkMode then CopyOutcome(fs, Finished(true, dest))
    else
      var r := WriteFile(fs, WriteParamsOf(args, dest, data, w.codec), w.chance, w.host, w.acc, w.codec, w.faults);
      CopyOutcome(r.fs, if r.err.Some? then Failed else Finished(r.changed, dest))
  }

  /** The decision once the effective destination is known. */
  function CopyTo(fs: Fs, data: Bytes, dest: Path, st: StatReply, args: CopyArgs, w: World): CopyOutcome {
    if st.Present? && !args.force then CopyOutcome(fs, Finished(false, dest))
    else if st.Present? && !st.isDir && st.checksum == w.codec.sha(data) then CopyAttributes(fs, dest, args, w)
    else CopyContent(fs, data, dest, st, args, w)
  }

  /** The path that is written: the destination, or inside it if it is a directory. */
  function Effective(t: Tree, args: CopyArgs): Path {
    var st := Stat(t, args.dest);
    if st.Found? && t.IsDir(st.ino) && args.basename.Some? then args.dest.Join(args.basename.value) else args.dest
  }

  /** _fastagent_copy_data. */
  function CopyData(fs: Fs, data: Bytes, args: CopyArgs, w: World): CopyOutcome {
    match StatRpc(fs.tree, args.dest, w.codec)
    case StatError => CopyOutcome(fs, Failed)
    case Absent => CopyTo(fs, data, args.dest, Absent, args, w)
    case Present(isDir, sum) =>
      if !isDir then CopyTo(fs, data, args.dest, Present(isDir, sum), args, w)
      else if args.basename.None? then CopyOutcome(fs, Failed)
      else
        var dest := args.dest.Join(args.basename.value);
        match StatRpc(fs.tree, dest, w.codec)
        case StatError => CopyOutcome(fs, Failed)
        case st => CopyTo(fs, data, dest, st, args, w)
  }
}
