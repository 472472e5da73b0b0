/** WriteFile: skip if the content is already there, otherwise back up, write to a temporary file
    and rename it over the destination, then set owner, group and mode. */
module WriteFiles {
  import opened Wrappers
  import opened FileSystem
  import opened Attributes
  import opened Directories

  /** SHA-256 and base64, of which only the stated contract is used. */
  datatype Codec = Codec(sha: Bytes -> string, enc: Bytes -> string, dec: string -> Option<Bytes>)

  ghost predicate GoodCodec(c: Codec) {
    && (forall b :: c.sha(b) != "")
    && (forall b :: c.dec(c.enc(b)) == Some(b))
  }

  datatype WriteParams = WriteParams(
    dest: Path, content: string, owner: string, group: string, mode: string,
    backup: bool, unsafeWrites: bool, checksum: string)

  /** What the run takes from the clock, from CreateTemp's random name, and from the disk: how many
      bytes get written by a write or copy that fails. */
  datatype Chance = Chance(stamp: string, random: string, short: nat)

  const MODE_TEMP: Perm := 0x180   // 0600
  const MODE_PLAIN: Perm := 0x1A4  // 0644

  function BackupPath(dest: Path, stamp: string): Path {
    var last := if |dest.segs| > 0 then dest.Base() else if dest.abs then "" else ".";
    dest.Parent().Join(last + "." + stamp + "~")
  }

  function TempPath(dest: Path, random: string): Path { dest.Parent().Join(".fastagent-" + random) }

  function Short(data: Bytes, short: nat): Bytes { if short < |data| then data[..short] else data }

  // ---------------------------------------------------------------- system calls

  datatype Opened = Opened(fs: Fs, ino: Ino) | NotOpened(err: Errno)

  /** open(2) with O_CREAT|O_TRUNC: an existing file is emptied, a missing one created, also at
      the far end of a dangling symlink. */
  function OpenForWriting(fs: Fs, p: Path, mode: Perm, host: Host, faults: set<Fault>): Opened {
    if Fault(OpenCall, p) in faults then NotOpened(EIO)
    else
      match Stat(fs.tree, p)
      case Found(i, _) =>
        if fs.tree.IsFile(i) then Opened(SetContent(fs, i, []), i) else NotOpened(EISDIR)
      case Missing(d, n) =>
        if !fs.tree.IsDir(d) then NotOpened(ENOTDIR)
        else Opened(AddNode(fs, d, n, File([]), Attr(Masked(mode, host.umask), host.uid, host.gid)), fs.next)
      case Fail(e) => NotOpened(e)
  }

  /** A group of calls: the filesystem after each of them, and the error that ended it, if any. */
  datatype Steps = Steps(states: seq<Fs>, err: Option<Error>) {
    function Last(before: Fs): Fs { if |states| == 0 then before else states[|states| - 1] }
  }

  /** copyFile. The source is read after the destination was opened and emptied. */
  function CopyFile(fs: Fs, src: Path, dst: Path, short: nat, host: Host, faults: set<Fault>): Steps {
    match Stat(fs.tree, src)
    case Found(i, _) =>
      if i !in fs.attrs then Steps([], Some(Sys(EIO)))
      else
        var o := OpenForWriting(fs, dst, fs.attrs[i].perm, host, faults);
        if o.NotOpened? then Steps([], Some(Sys(o.err)))
        else if !o.fs.tree.IsFile(i) then Steps([o.fs], Some(Sys(EISDIR)))
        else
          var data := o.fs.tree.nodes[i].content;
          if Fault(CopyCall, dst) in faults then
            Steps([o.fs, SetContent(o.fs, o.ino, Short(data, short))], Some(Sys(EIO)))
          else Steps([o.fs, SetContent(o.fs, o.ino, data)], None)
    case r => var e := ErrnoOf(r); Steps([], Some(Sys(e)))
  }

  /** unlink(2) */
  function Unlink(fs: Fs, p: Path, faults: set<Fault>): Fs {
    if Fault(RemoveCall, p) in faults then fs
    else
      match PlaceOf(fs.tree, p)
      case Place(d, n) =>
        if fs.tree.IsDir(d) && n in fs.tree.Entries(d) && !fs.tree.IsDir(fs.tree.Entries(d)[n])
        then SetEntries(fs, d, fs.tree.Entries(d) - {n}) else fs
      case NoPlace(_) => fs
  }

  datatype Renamed = Renamed(fs: Fs) | NotRenamed(err: Errno)

  /** os.Rename of a file: the old name goes, the new one is replaced in the same step, unless it
      is a directory. A symlink under the new name is replaced, not followed. */
  function Rename(fs: Fs, from: Path, to: Path, faults: set<Fault>): Renamed {
    var a := PlaceOf(fs.tree, from);
    var b := PlaceOf(fs.tree, to);
    if Fault(RenameCall, to) in faults then NotRenamed(EIO)
    else if a.NoPlace? then NotRenamed(a.err)
    else if b.NoPlace? then NotRenamed(b.err)
    else if !fs.tree.IsDir(a.dir) || a.name !in fs.tree.Entries(a.dir) then NotRenamed(ENOENT)
    else if !fs.tree.IsDir(b.dir) then NotRenamed(ENOTDIR)
    else if b.name in fs.tree.Entries(b.dir) && fs.tree.IsDir(fs.tree.Entries(b.dir)[b.name]) then NotRenamed(EISDIR)
    else
      var i := fs.tree.Entries(a.dir)[a.name];
      var gone := SetEntries(fs, a.dir, fs.tree.Entries(a.dir) - {a.name});
      Renamed(SetEntries(gone, b.dir, gone.tree.Entries(b.dir)[b.name := i]))
  }

  // ---------------------------------------------------------------- the two ways to write

  /** os.CreateTemp, write, close, rename; each failure removes the temporary file again. */
  function WriteByRename(fs: Fs, dest: Path, data: Bytes, chance: Chance, host: Host, faults: set<Fault>): Steps {
    var tmp := TempPath(dest, chance.random);
    match Lstat(fs.tree, tmp)
    case Found(_, _) => Steps([], Some(Sys(EEXIST)))
    case Fail(e) => Steps([], Some(Sys(e)))
    case Missing(d, n) =>
      if Fault(CreateTempCall, tmp) in faults || !fs.tree.IsDir(d) then Steps([], Some(Sys(EIO)))
      else
        var created := AddNode(fs, d, n, File([]), Attr(Masked(MODE_TEMP, host.umask), host.uid, host.gid));
        if Fault(WriteCall, tmp) in faults then
          var part := SetContent(created, fs.next, Short(data, chance.short));
          Steps([created, part, Unlink(part, tmp, faults)], Some(Sys(EIO)))
        else
          var written := SetContent(created, fs.next, data);
          if Fault(CloseCall, tmp) in faults then
            Steps([created, written, Unlink(written, tmp, faults)], Some(Sys(EIO)))
          else
            match Rename(written, tmp, dest, faults)
            case Renamed(fs') => Steps([created, written, fs'], None)
            case NotRenamed(e) => Steps([created, written, Unlink(written, tmp, faults)], Some(Sys(e)))
  }

  /** os.WriteFile: open, empty and fill the destination itself. */
  function WriteInPlace(fs: Fs, dest: Path, data: Bytes, chance: Chance, host: Host, faults: set<Fault>): Steps {
    match OpenForWriting(fs, dest, MODE_PLAIN, host, faults)
    case NotOpened(e) => Steps([], Some(Sys(e)))
    case Opened(fs', i) =>
      if Fault(WriteCall, dest) in faults then
        Steps([fs', SetContent(fs', i, Short(data, chance.short))], Some(Sys(EIO)))
      else Steps([fs', SetContent(fs', i, data)], None)
  }

  // ---------------------------------------------------------------- the handler

  /** `states` are the filesystems after the backup's calls, after creating parents, after the
      write's calls and after setting attributes, in that order. */
  datatype WriteOutcome = WriteOutcome(fs: Fs, changed: bool, backup: Option<Path>, err: Option<Error>, states: seq<Fs>)

  /** The digest of what is at the destination, "" if it cannot be read. */
  function DigestAt(t: Tree, p: Path, codec: Codec): string {
    match ContentAt(t, p)
    case Some(b) => codec.sha(b)
    case None => ""
  }

  function AttrJob(p: WriteParams, acc: Accounts, faults: set<Fault>): Job {
    Job(acc, Request(p.owner, p.group, p.mode), faults)
  }

  function ParentJob(p: WriteParams, acc: Accounts, faults: set<Fault>): Job {
    Job(acc, Request(p.owner, p.group, ""), faults)
  }

  function Backup(fs: Fs, p: WriteParams, chance: Chance, host: Host, faults: set<Fault>): Steps {
    if p.backup && Stat(fs.tree, p.dest).Found?
    then CopyFile(fs, p.dest, BackupPath(p.dest, chance.stamp), chance.short, host, faults)
    else Steps([], None)
  }

  function WriteData(fs: Fs, p: WriteParams, data: Bytes, chance: Chance, host: Host, faults: set<Fault>): Steps {
    if p.unsafeWrites then WriteInPlace(fs, p.dest, data, chance, host, faults)
    else WriteByRename(fs, p.dest, data, chance, host, faults)
  }

  /** The write and then the attributes. */
  function Finish(fs: Fs, p: WriteParams, data: Bytes, chance: Chance, host: Host, acc: Accounts,
                  faults: set<Fault>): Steps
  {
    var w := WriteData(fs, p, data, chance, host, faults);
    if w.err.Some? then w
    else
      var last := w.Last(fs);
      var a := Apply(last.tree, last.attrs, p.dest, AttrJob(p, acc, faults), false);
      Steps(w.states + [last.(attrs := a.attrs)], a.err)
  }

  /** Everything after the backup: the parents, the write, the attributes. */
  function AfterBackup(fs: Fs, p: WriteParams, data: Bytes, chance: Chance, host: Host, acc: Accounts,
                       faults: set<Fault>): Steps
  {
    var m := MkdirAll(fs, p.dest.Parent(), host, ParentJob(p, acc, faults));
    if m.err.Some? then Steps([m.fs], m.err)
    else
      var w := Finish(m.fs, p, data, chance, host, acc, faults);
      Steps([m.fs] + w.states, w.err)
  }

  /** handleWriteFile once the content was decoded and found to differ. */
  function Replace(fs: Fs, p: WriteParams, data: Bytes, chance: Chance, host: Host, acc: Accounts,
                   faults: set<Fault>): WriteOutcome
  {
    var b := Backup(fs, p, chance, host, faults);
    var fs1 := b.Last(fs);
    if b.err.Some? then WriteOutcome(fs1, false, None, b.err, b.states)
    else
      var w := AfterBackup(fs1, p, data, chance, host, acc, faults);
      var copy := if p.backup && Stat(fs.tree, p.dest).Found? then Some(BackupPath(p.dest, chance.stamp)) else None;
      WriteOutcome(w.Last(fs1), w.err.None?, if w.err.None? then copy else None, w.err, b.states + w.states)
  }

  /** handleWriteFile. */
  function WriteFile(fs: Fs, p: WriteParams, chance: Chance, host: Host, acc: Accounts, codec: Codec,
                     faults: set<Fault>): WriteOutcome
  {
    match codec.dec(p.content)
    case None => WriteOutcome(fs, false, None, Some(BadContent), [])
    case Some(data) =>
      var existing := if p.checksum == "" then DigestAt(fs.tree, p.dest, codec) else p.checksum;
      if existing == codec.sha(data) then
        var a := Apply(fs.tree, fs.attrs, p.dest, AttrJob(p, acc, faults), false);
        var fs' := fs.(attrs := a.attrs);
        WriteOutcome(fs', a.err.None? && a.changed, None, a.err, [fs'])
      else Replace(fs, p, data, chance, host, acc, faults)
  }
}
