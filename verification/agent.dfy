/** The agent as it runs: handlers that call the system step by step and change the filesystem in
    place. Each method is proved to do what the corresponding specification function says. */
module AgentProcess {
  import opened Wrappers
  import opened FileSystem
  import opened Resolution
  import opened Attributes
  import opened Listings
  import opened AttributeWalk
  import opened Directories
  import opened WriteFiles
  import opened FileStates
  import opened Numerals

  lemma Associate(a: seq<Fs>, b: seq<Fs>, c: seq<Fs>)
    ensures a + b + c == a + (b + c)
  {}

  class Agent {
    var fs: Fs
    /** The identities of directories the running walk has entered. */
    var seen: set<Ino>
    const host: Host
    const acc: Accounts
    const codec: Codec
    const faults: set<Fault>
    /** The filesystem after each call of a write, for statements about every moment. */
    ghost var history: seq<Fs>

    constructor (fs: Fs, host: Host, acc: Accounts, codec: Codec, faults: set<Fault>)
      ensures this.fs == fs && this.host == host && this.acc == acc && this.codec == codec && this.faults == faults
      ensures history == []
    {
      this.fs, this.host, this.acc, this.codec, this.faults, seen := fs, host, acc, codec, faults, {};
      history := [];
    }

    function JobFor(req: Request): Job { Job(acc, req, faults) }

    // -------------------------------------------------------------- attributes

    method Chmod(path: Path, mode: nat) returns (changed: bool, err: Option<Error>)
      modifies this`fs
      ensures var r := ChmodIfDifferent(old(fs.tree), old(fs.attrs), path, mode, faults);
        fs == old(fs).(attrs := r.attrs) && changed == r.changed && err == r.err
    {
      var st := Stat(fs.tree, path);
      if !st.Found? { return false, Some(Sys(ErrnoOf(st))); }
      if st.ino !in fs.attrs { return false, Some(Sys(EIO)); }
      if fs.attrs[st.ino].perm == mode { return false, None; }
      if Fault(ChmodCall, path) in faults { return false, Some(Sys(EIO)); }
      fs := fs.(attrs := fs.attrs[st.ino := ChmodAttr(fs.attrs[st.ino], mode)]);
      return true, None;
    }

    method ApplyOwnershipAndMode(path: Path, req: Request, lchown: bool) returns (changed: bool, err: Option<Error>)
      modifies this`fs
      ensures var r := Apply(old(fs.tree), old(fs.attrs), path, JobFor(req), lchown);
        fs == old(fs).(attrs := r.attrs) && changed == r.changed && err == r.err
    {
      changed := false;
      if req.mode != "" {
        var m := ParseOctal32(req.mode);
        if m.None? { return false, Some(BadMode); }
        var skipMode := false;
        if lchown {
          var st := Lstat(fs.tree, path);
          if !st.Found? { return false, Some(Sys(ErrnoOf(st))); }
          if fs.tree.IsLink(st.ino) { skipMode := true; }
        }
        if !skipMode {
          var ch, e := Chmod(path, m.value);
          if e.Some? { return false, e; }
          changed := ch;
        }
      }
      if req.owner != "" || req.group != "" {
        var uid, gid := -1, -1;
        if req.owner != "" {
          var u := LookupId(acc.users, req.owner);
          if u.None? { return changed, Some(UnknownUser); }
          uid := u.value;
        }
        if req.group != "" {
          var g := LookupId(acc.groups, req.group);
          if g.None? { return changed, Some(UnknownGroup); }
          gid := g.value;
        }
        var st := Resolve(fs.tree, path, !lchown);
        if !st.Found? { return changed, Some(Sys(ErrnoOf(st))); }
        if st.ino !in fs.attrs { return changed, Some(Sys(EIO)); }
        if OwnerDiffers(fs.attrs[st.ino], uid, gid) {
          if Fault(ChownCall, path) in faults { return changed, Some(Sys(EIO)); }
          fs := fs.(attrs := fs.attrs[st.ino := ChownAttr(fs.attrs[st.ino], uid, gid)]);
          changed := true;
        }
      }
      return changed, None;
    }

    // -------------------------------------------------------------- recursive attributes

    method SetAttributesFollow(path: Path, req: Request) returns (changed: bool, err: Option<Error>)
      modifies this`fs, this`seen
      ensures var r := FollowDir(old(fs.tree), old(fs.attrs), path, JobFor(req), old(seen));
        && fs == old(fs).(attrs := r.attrs) && changed == r.changed && err == r.err
        && seen == r.seen
      decreases Dirs(fs.tree) - seen
    {
      ghost var t, job := fs.tree, JobFor(req);
      var listing := ReadDir(fs.tree, path);
      if listing.NotListed? { return false, Some(Sys(listing.err)); }
      var es := listing.entries;
      ghost var whole := FollowEntries(t, fs.attrs, path, es, job, seen);
      changed := false;
      for k := 0 to |es|
        invariant fs == old(fs).(attrs := fs.attrs) && old(seen) <= seen
        invariant var rest := FollowEntries(t, fs.attrs, path, es[k..], job, seen);
          && whole.attrs == rest.attrs && whole.seen == rest.seen && whole.err == rest.err
          && whole.changed == (changed || rest.changed)
      {
        assert es[k..][0] == es[k] && es[k..][1..] == es[k + 1..];
        var child := path.Join(es[k].name);
        var ch, e := ApplyOwnershipAndMode(child, req, es[k].isLink);
        if e.Some? { return changed, e; }
        changed := changed || ch;
        var st := Stat(fs.tree, child);
        if !st.Found? { return changed, Some(Sys(ErrnoOf(st))); }
        if !fs.tree.IsDir(st.ino) { continue; }
        if st.ino in seen { continue; }
        assert st.ino in Dirs(t) - seen;
        seen := seen + {st.ino};
        ch, e := SetAttributesFollow(child, req);
        changed := changed || ch;
        if e.Some? { return changed, e; }
      }
      return changed, None;
    }

    method WalkDirBelow(path: Path, req: Request) returns (changed: bool, err: Option<Error>)
      requires Sound(fs.tree) && Acyclic(fs.tree)
      modifies this`fs
      ensures var r := TreeDir(old(fs.tree), old(fs.attrs), path, JobFor(req));
        fs == old(fs).(attrs := r.attrs) && changed == r.changed && err == r.err
      decreases DepthAt(fs.tree, path)
    {
      ghost var t, job := fs.tree, JobFor(req);
      var listing := ReadDir(fs.tree, path);
      if listing.NotListed? { return false, Some(Sys(listing.err)); }
      var es := listing.entries;
      ReadDirLists(t, path);
      ghost var whole := TreeEntries(t, fs.attrs, path, es, job);
      changed := false;
      for k := 0 to |es|
        invariant fs == old(fs).(attrs := fs.attrs)
        invariant EntriesAt(t, path, es[k..])
        invariant var rest := TreeEntries(t, fs.attrs, path, es[k..], job);
          && whole.attrs == rest.attrs && whole.err == rest.err
          && whole.changed == (changed || rest.changed)
      {
        assert es[k..][0] == es[k] && es[k..][1..] == es[k + 1..];
        assert es[k] in es[k..];
        assert forall e :: e in es[k + 1..] ==> e in es[k..];
        if es[k].isLink { continue; }
        var child := path.Join(es[k].name);
        var ch, e := ApplyOwnershipAndMode(child, req, false);
        if e.Some? { return changed, e; }
        changed := changed || ch;
        if es[k].isDir {
          assert EntriesAt(t, path, [es[k]]);
          ChildIsShallower(t, path, es[k]);
          ch, e := WalkDirBelow(child, req);
          changed := changed || ch;
          if e.Some? { return changed, e; }
        }
      }
      return changed, None;
    }

    method RecursivelySetAttributes(path: Path, req: Request, follow: bool) returns (changed: bool, err: Option<Error>)
      requires Sound(fs.tree) && Acyclic(fs.tree)
      modifies this`fs, this`seen
      ensures var r := SetRecursively(old(fs.tree), old(fs.attrs), path, JobFor(req), follow);
        && fs == old(fs).(attrs := r.attrs) && changed == r.changed && err == r.err
        && (follow && Stat(old(fs.tree), path).Found? ==> seen == r.seen)
    {
      if !follow {
        var st := Lstat(fs.tree, path);
        if !st.Found? { return false, Some(Sys(ErrnoOf(st))); }
        if !fs.tree.IsDir(st.ino) { return false, None; }
        changed, err := WalkDirBelow(path, req);
      } else {
        var st := Stat(fs.tree, path);
        if !st.Found? { return false, Some(Sys(ErrnoOf(st))); }
        seen := {st.ino};
        changed, err := SetAttributesFollow(path, req);
      }
    }

    // -------------------------------------------------------------- directories

    method MakeDirectory(p: Path) returns (err: Option<Errno>)
      modifies this`fs
      ensures var r := Mkdir(old(fs), p, host, faults); fs == r.fs && err == r.err
    {
      var r := Mkdir(fs, p, host, faults);
      fs := r.fs;
      return r.err;
    }

    method EnsureDirectoryAnsible(path: Path, req: Request) returns (changed: bool, err: Option<Error>)
      modifies this`fs
      ensures var r := EnsureDirectory(old(fs), path, host, JobFor(req));
        fs == r.fs && changed == r.changed && err == r.err
    {
      var st := Stat(fs.tree, path);
      if st.Found? {
        if !fs.tree.IsDir(st.ino) { return false, Some(NotADirectory); }
        changed, err := ApplyOwnershipAndMode(path, req, false);
        return;
      }
      if ErrnoOf(st) != ENOENT { return false, Some(Sys(ErrnoOf(st))); }
      ghost var job := JobFor(req);
      ghost var whole := MakeSegments(fs, path, 0, host, job);
      changed := false;
      for k := 0 to |path.segs|
        invariant var rest := MakeSegments(fs, path, k, host, job);
          whole.fs == rest.fs && whole.err == rest.err && whole.changed == (changed || rest.changed)
      {
        var cur := path.Prefix(k + 1);
        var here := Stat(fs.tree, cur);
        if here.Found? { continue; }
        if ErrnoOf(here) != ENOENT { return changed, Some(Sys(ErrnoOf(here))); }
        var e := MakeDirectory(cur);
        if e.Some? { return changed, Some(Sys(e.value)); }
        changed := true;
        var _, e' := ApplyOwnershipAndMode(cur, req, false);
        if e'.Some? { return changed, e'; }
      }
      return changed, None;
    }

    method MkdirAllOwned(dir: Path, owner: string, group: string) returns (err: Option<Error>)
      modifies this`fs
      ensures var r := MkdirAll(old(fs), dir, host, JobFor(Request(owner, group, ""))); fs == r.fs && err == r.err
    {
      var req := Request(owner, group, "");
      var st := Stat(fs.tree, dir);
      if st.Found? { return if fs.tree.IsDir(st.ino) then None else Some(NotADirectory); }
      if ErrnoOf(st) != ENOENT { return Some(Sys(ErrnoOf(st))); }
      ghost var whole := MakeSegments(fs, dir, 0, host, JobFor(req));
      for k := 0 to |dir.segs|
        invariant var rest := MakeSegments(fs, dir, k, host, JobFor(req));
          whole.fs == rest.fs && whole.err == rest.err
      {
        var cur := dir.Prefix(k + 1);
        var here := Stat(fs.tree, cur);
        if here.Found? { continue; }
        if ErrnoOf(here) != ENOENT { return Some(Sys(ErrnoOf(here))); }
        var e := MakeDirectory(cur);
        if e.Some? { return Some(Sys(e.value)); }
        var _, e' := ApplyOwnershipAndMode(cur, req, false);
        if e'.Some? { return e'; }
      }
      return None;
    }

    method HandleFileDirectory(path: Path, req: Request, recurse: bool, follow: bool)
      returns (changed: bool, err: Option<Error>)
      requires Valid(fs) && Acyclic(fs.tree)
      modifies this`fs, this`seen
      ensures var r := FileDirectory(old(fs), path, host, JobFor(req), recurse, follow);
        fs == r.fs && err == r.err && (err.None? ==> changed == r.changed)
    {
      EnsureKeeps(fs, path, host, JobFor(req));
      changed, err := EnsureDirectoryAnsible(path, req);
      if err.Some? { return; }
      if recurse {
        var ch, e := RecursivelySetAttributes(path, req, follow);
        if e.Some? { return changed, e; }
        changed := changed || ch;
      }
      return changed, None;
    }

    // -------------------------------------------------------------- files

    method HandleFileFile(path: Path, req: Request) returns (changed: bool, err: Option<Error>)
      modifies this`fs
      ensures var r := FileFile(old(fs), path, JobFor(req)); fs == r.fs && changed == r.changed && err == r.err
    {
      var st := Stat(fs.tree, path);
      if !st.Found? {
        return false, Some(if ErrnoOf(st) == ENOENT then NotThere else Sys(ErrnoOf(st)));
      }
      if fs.tree.IsDir(st.ino) { return false, Some(IsADirectory); }
      changed, err := ApplyOwnershipAndMode(path, req, false);
    }

    /** `left` is what a recursive removal that fails leaves of the tree. */
    method HandleFileAbsent(path: Path, left: Tree) returns (changed: bool, err: Option<Error>)
      modifies this`fs
      ensures var r := FileAbsent(old(fs), path, faults, left); fs == r.fs && changed == r.changed && err == r.err
    {
      var st := Lstat(fs.tree, path);
      if !st.Found? { return false, if ErrnoOf(st) == ENOENT then None else Some(Sys(ErrnoOf(st))); }
      var at := PlaceOf(fs.tree, path);
      if at.NoPlace? { return false, Some(Sys(at.err)); }
      if Fault(RemoveCall, path) in faults || !fs.tree.IsDir(at.dir) {
        if fs.tree.IsDir(st.ino) { fs := fs.(tree := left); }
        return false, Some(Sys(EIO));
      }
      fs := RemoveName(fs, at.dir, at.name);
      return true, None;
    }

    method OpenWrite(p: Path, mode: Perm) returns (i: Option<Ino>, err: Option<Error>)
      modifies this`fs, this`history
      ensures match OpenForWriting(old(fs), p, mode, host, faults)
        case Opened(fs', j) => fs == fs' && i == Some(j) && err == None && history == old(history) + [fs]
        case NotOpened(e) => fs == old(fs) && i == None && err == Some(Sys(e)) && history == old(history)
    {
      match OpenForWriting(fs, p, mode, host, faults) {
        case Opened(fs', j) =>
          fs := fs';
          history := history + [fs];
          return Some(j), None;
        case NotOpened(e) => return None, Some(Sys(e));
      }
    }

    method PutBytes(i: Ino, data: Bytes)
      modifies this`fs, this`history
      ensures fs == SetContent(old(fs), i, data) && history == old(history) + [fs]
    {
      fs := SetContent(fs, i, data);
      history := history + [fs];
    }

    method CopyTheFile(src: Path, dst: Path, short: nat) returns (err: Option<Error>)
      modifies this`fs, this`history
      ensures var c := CopyFile(old(fs), src, dst, short, host, faults);
        fs == c.Last(old(fs)) && err == c.err && history == old(history) + c.states
    {
      var st := Stat(fs.tree, src);
      if !st.Found? { return Some(Sys(ErrnoOf(st))); }
      if st.ino !in fs.attrs { return Some(Sys(EIO)); }
      var o, e := OpenWrite(dst, fs.attrs[st.ino].perm);
      if e.Some? { return e; }
      if !fs.tree.IsFile(st.ino) { return Some(Sys(EISDIR)); }
      var data := fs.tree.nodes[st.ino].content;
      if Fault(CopyCall, dst) in faults {
        PutBytes(o.value, Short(data, short));
        return Some(Sys(EIO));
      }
      PutBytes(o.value, data);
      return None;
    }

    method RemoveTemp(tmp: Path)
      modifies this`fs, this`history
      ensures fs == Unlink(old(fs), tmp, faults) && history == old(history) + [fs]
    {
      fs := Unlink(fs, tmp, faults);
      history := history + [fs];
    }

    method WriteViaTemp(dest: Path, data: Bytes, chance: Chance) returns (err: Option<Error>)
      modifies this`fs, this`history
      ensures var w := WriteByRename(old(fs), dest, data, chance, host, faults);
        fs == w.Last(old(fs)) && err == w.err && history == old(history) + w.states
    {
      var tmp := TempPath(dest, chance.random);
      var at := Lstat(fs.tree, tmp);
      if at.Found? { return Some(Sys(EEXIST)); }
      if at.Fail? { return Some(Sys(at.err)); }
      if Fault(CreateTempCall, tmp) in faults || !fs.tree.IsDir(at.dir) { return Some(Sys(EIO)); }
      var i := fs.next;
      fs := AddNode(fs, at.dir, at.name, File([]), Attr(Masked(MODE_TEMP, host.umask), host.uid, host.gid));
      history := history + [fs];
      if Fault(WriteCall, tmp) in faults {
        PutBytes(i, Short(data, chance.short));
        RemoveTemp(tmp);
        return Some(Sys(EIO));
      }
      PutBytes(i, data);
      if Fault(CloseCall, tmp) in faults {
        RemoveTemp(tmp);
        return Some(Sys(EIO));
      }
      var rn := WriteFiles.Rename(fs, tmp, dest, faults);
      if rn.NotRenamed? {
        RemoveTemp(tmp);
        return Some(Sys(rn.err));
      }
      fs := rn.fs;
      history := history + [fs];
      return None;
    }

    method WriteDirectly(dest: Path, data: Bytes, chance: Chance) returns (err: Option<Error>)
      modifies this`fs, this`history
      ensures var w := WriteInPlace(old(fs), dest, data, chance, host, faults);
        fs == w.Last(old(fs)) && err == w.err && history == old(history) + w.states
    {
      var o, e := OpenWrite(dest, MODE_PLAIN);
      if e.Some? { return e; }
      if Fault(WriteCall, dest) in faults {
        PutBytes(o.value, Short(data, chance.short));
        return Some(Sys(EIO));
      }
      PutBytes(o.value, data);
      return None;
    }

    method BackUp(p: WriteParams, chance: Chance) returns (backupFile: Option<Path>, err: Option<Error>)
      modifies this`fs, this`history
      ensures var b := Backup(old(fs), p, chance, host, faults);
        fs == b.Last(old(fs)) && err == b.err && history == old(history) + b.states
      ensures backupFile == if err.None? && p.backup && Stat(old(fs).tree, p.dest).Found?
                            then Some(BackupPath(p.dest, chance.stamp)) else None
    {
      if p.backup && Stat(fs.tree, p.dest).Found? {
        var copy := BackupPath(p.dest, chance.stamp);
        err := CopyTheFile(p.dest, copy, chance.short);
        return if err.None? then Some(copy) else None, err;
      }
      return None, None;
    }

    /** The write itself and the attributes after it, the last part of the handler. */
    method FinishWrite(p: WriteParams, data: Bytes, chance: Chance) returns (err: Option<Error>)
      modifies this`fs, this`history
      ensures var w := Finish(old(fs), p, data, chance, host, acc, faults);
        fs == w.Last(old(fs)) && err == w.err && history == old(history) + w.states
    {
      if p.unsafeWrites {
        err := WriteDirectly(p.dest, data, chance);
      } else {
        err := WriteViaTemp(p.dest, data, chance);
      }
      if err.Some? { return; }
      var _, e := ApplyOwnershipAndMode(p.dest, Request(p.owner, p.group, p.mode), false);
      history := history + [fs];
      return e;
    }

    method FinishAfterBackup(p: WriteParams, data: Bytes, chance: Chance) returns (err: Option<Error>)
      modifies this`fs, this`history
      ensures var w := AfterBackup(old(fs), p, data, chance, host, acc, faults);
        fs == w.Last(old(fs)) && err == w.err && history == old(history) + w.states
    {
      err := MkdirAllOwned(p.dest.Parent(), p.owner, p.group);
      history := history + [fs];
      if err.Some? { return; }
      ghost var made, w := fs, Finish(fs, p, data, chance, host, acc, faults);
      err := FinishWrite(p, data, chance);
      Associate(old(history), [made], w.states);
      assert Steps([made] + w.states, w.err).Last(old(fs)) == w.Last(made);
    }

    /** The handler once the content is known to differ. */
    method ReplaceFile(p: WriteParams, data: Bytes, chance: Chance)
      returns (changed: bool, backupFile: Option<Path>, err: Option<Error>)
      modifies this`fs, this`history
      ensures var r := Replace(old(fs), p, data, chance, host, acc, faults);
        && fs == r.fs && changed == r.changed && backupFile == r.backup && err == r.err
        && history == old(history) + r.states
    {
      backupFile, err := BackUp(p, chance);
      if err.Some? { return false, None, err; }
      ghost var b := Backup(old(fs), p, chance, host, faults);
      ghost var w := AfterBackup(fs, p, data, chance, host, acc, faults);
      err := FinishAfterBackup(p, data, chance);
      Associate(old(history), b.states, w.states);
      if err.Some? { return false, None, err; }
      return true, backupFile, None;
    }

    method HandleWriteFile(p: WriteParams, chance: Chance)
      returns (changed: bool, backupFile: Option<Path>, err: Option<Error>)
      modifies this`fs, this`history
      ensures var r := WriteFile(old(fs), p, chance, host, acc, codec, faults);
        && fs == r.fs && changed == r.changed && backupFile == r.backup && err == r.err
        && history == old(history) + r.states
    {
      var decoded := codec.dec(p.content);
      if decoded.None? { return false, None, Some(BadContent); }
      var data := decoded.value;
      var existing := p.checksum;
      if existing == "" { existing := DigestAt(fs.tree, p.dest, codec); }
      if existing == codec.sha(data) {
        var ch, e := ApplyOwnershipAndMode(p.dest, Request(p.owner, p.group, p.mode), false);
        history := history + [fs];
        return e.None? && ch, None, e;
      }
      changed, backupFile, err := ReplaceFile(p, data, chance);
    }
  }
}
