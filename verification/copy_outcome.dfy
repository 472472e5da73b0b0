/** What a copy task does with each of its arguments, and when it succeeds. */
module CopyOutcomes {
  import opened Wrappers
  import opened Numerals
  import opened FileSystem
  import opened Resolution
  import opened Attributes
  import opened SpelledRequests
  import opened Directories
  import opened AttributeWalk
  import opened DirectoryTheorems
  import opened DirectoryOutcome
  import opened Replacement
  import opened WriteFiles
  import opened WriteTheorems
  import opened WriteHandlerTheorems
  import opened WriteAtomicity
  import opened WriteOutcomes
  import opened FileStates
  import opened Modes
  import opened CopyAction
  import opened CopyTheorems

  // ---------------------------------------------------------------- what the arguments spell

  ghost predicate SpellsArg(names: map<string, int>, text: Option<string>, id: Option<Id>) {
    match text
    case None => id == None
    case Some(s) => SpellsId(names, s, id)
  }

  /** An integer is the mode itself, a text its octal digits; the empty text is the mode 0. */
  ghost predicate SpellsModeArg(mode: ModeArg, m: Option<Perm>) {
    match mode
    case NoMode => m == None
    case IntMode(n) => m.Some? && n == m.value
    case TextMode(s) => m.Some? && if s == "" then m.value == 0 else SpellsMode(s, m)
  }

  ghost predicate SpellsArgs(args: CopyArgs, acc: Accounts, wish: Wish) {
    && SpellsArg(acc.users, args.owner, wish.owner)
    && SpellsArg(acc.groups, args.group, wish.group)
    && SpellsModeArg(args.mode, wish.mode)
  }

  lemma ModeArgSpelled(mode: ModeArg, m: Option<Perm>)
    requires SpellsModeArg(mode, m)
    ensures SpellsMode(Given(FormatMode(mode)), m)
  {
    match mode {
      case NoMode =>
      case IntMode(n) =>
      case TextMode(s) =>
        assert Render(0, 8) == "0";
        if s != "" && s[0] != '0' { assert s == Render(m.value, 8); }
    }
  }

  /** The request that reaches the agent spells what the task does. */
  lemma ArgsSpelled(args: CopyArgs, w: World, wish: Wish)
    requires SpellsArgs(args, w.acc, wish)
    ensures Spells(JobOf(args, w), wish)
  {
    ModeArgSpelled(args.mode, wish.mode);
  }

  // ---------------------------------------------------------------- backup and unsafe_writes

  /** The copy's name, before and after. */
  ghost predicate NotThere(t: Tree, p: Path) { !Lstat(t, p).Found? }

  /** A successful task over an existing file with other content, in terms of its arguments. With
      `backup` and a free name the old bytes are under that name afterwards, and without it there is
      nothing new there. Without `unsafe_writes` the destination is a new inode and the old one is
      as it was; with it, the inode is the old one. */
  lemma CopyOverFile(fs: Fs, data: Bytes, args: CopyArgs, w: World, dest: Path, before: Bytes)
    requires Valid(fs) && Acyclic(fs.tree) && GoodCodec(w.codec)
    requires Active(fs, args) && dest == Effective(fs.tree, args) && CleanArgs(args)
    requires ContentAt(fs.tree, dest) == Some(before) && w.codec.sha(before) != w.codec.sha(data)
    requires Lstat(fs.tree, BackupPath(dest, w.chance.stamp)).Missing?
    requires CopyData(fs, data, args, w).result != Failed
    ensures OverFile(fs, CopyData(fs, data, args, w).fs, dest, BackupPath(dest, w.chance.stamp), before, data,
                     args.backup, args.unsafeWrites)
  {
    CleanDestination(fs.tree, args);
    CopyReaches(fs, data, args, w);
    EffectiveHasName(fs, data, args, w);
    var p := WriteParamsOf(args, dest, data, w.codec);
    assert p.backup == args.backup && p.unsafeWrites == args.unsafeWrites && p.dest == dest;
    assert CopyData(fs, data, args, w) == CopyContent(fs, data, dest, StatRpc(fs.tree, dest, w.codec), args, w);
    assert CopyData(fs, data, args, w).fs == Replace(fs, p, data, w.chance, w.host, w.acc, w.faults).fs;
    ReplaceOverFile(fs, p, data, before, w.chance, w.host, w.acc, w.faults);
  }

  /** The old file `before` under `dest` was replaced or overwritten with `data`. */
  ghost predicate OverFile(fs: Fs, r: Fs, dest: Path, copy: Path, before: Bytes, data: Bytes, backup: bool,
                           inPlace: bool)
  {
    && Stat(fs.tree, dest).Found? && Stat(r.tree, dest).Found? && ContentAt(r.tree, dest) == Some(data)
    && (if backup then ContentAt(r.tree, copy) == Some(before) else NotThere(r.tree, copy))
    && var i := Stat(fs.tree, dest).ino;
    if inPlace then Stat(r.tree, dest).ino == i
    else Stat(r.tree, dest).ino !in fs.tree.nodes && i in r.tree.nodes && r.tree.nodes[i] == File(before)
  }

  lemma ReplaceOverFile(fs: Fs, p: WriteParams, data: Bytes, before: Bytes, chance: Chance, host: Host, acc: Accounts,
                        faults: set<Fault>)
    requires Valid(fs) && Acyclic(fs.tree) && |p.dest.segs| > 0 && p.dest.Clean()
    requires ContentAt(fs.tree, p.dest) == Some(before) && Lstat(fs.tree, BackupPath(p.dest, chance.stamp)).Missing?
    requires Replace(fs, p, data, chance, host, acc, faults).err.None?
    ensures OverFile(fs, Replace(fs, p, data, chance, host, acc, faults).fs, p.dest, BackupPath(p.dest, chance.stamp),
                     before, data, p.backup, p.unsafeWrites)
  {
    ExistingHasSite(fs.tree, p.dest);
    FileIsNotOnTheWay(fs.tree, p.dest, Stat(fs.tree, p.dest.Parent()).ino);
    ReplaceSucceeds(fs, p, data, chance, host, acc, faults);
    FreeNameIsAnother(fs.tree, p.dest, chance.stamp);
    FreeNameIsFree(fs.tree, p.dest, chance.stamp);
    if p.backup {
      BackupHoldsOld(fs, p, data, before, chance, host, acc, faults);
    } else {
      NoBackupNoName(fs, p, data, chance, host, acc, faults);
    }
    SameOrNewInode(fs, p, data, chance, host, acc, faults);
  }

  lemma FreeNameIsFree(t: Tree, dest: Path, stamp: string)
    requires |dest.segs| > 0 && dest.Clean() && Stat(t, dest).Found? && Lstat(t, BackupPath(dest, stamp)).Missing?
    ensures Stat(t, BackupPath(dest, stamp)).Missing?
    ensures LeadsToDir(t, dest.Parent())
    ensures dest.Base() + "." + stamp + "~" !in t.Entries(Stat(t, dest.Parent()).ino)
  {
    var n := dest.Base() + "." + stamp + "~";
    assert BackupPath(dest, stamp) == dest.Parent().Join(n);
    ExistingHasSite(t, dest);
    ChildResolve(t, dest.Parent(), n, false);
    ChildResolve(t, dest.Parent(), n, true);
    MissingChild(t, Stat(t, dest.Parent()).ino, n, Stat(t, dest.Parent()).hops);
  }

  /** With and without a rename, and whatever attributes are asked for. */
  lemma SameOrNewInode(fs: Fs, p: WriteParams, data: Bytes, chance: Chance, host: Host, acc: Accounts,
                       faults: set<Fault>)
    requires Valid(fs) && Acyclic(fs.tree) && |p.dest.segs| > 0 && p.dest.Clean()
    requires ContentAt(fs.tree, p.dest).Some? && !OnItsOwnWay(fs.tree, p.dest)
    requires Stat(fs.tree, BackupPath(p.dest, chance.stamp)).Missing?
    requires Replace(fs, p, data, chance, host, acc, faults).err.None?
    ensures var r := Replace(fs, p, data, chance, host, acc, faults).fs; var i := Stat(fs.tree, p.dest).ino;
      && Stat(r.tree, p.dest).Found?
      && if p.unsafeWrites then Stat(r.tree, p.dest).ino == i
         else Stat(r.tree, p.dest).ino !in fs.tree.nodes && i in r.tree.nodes && r.tree.nodes[i] == fs.tree.nodes[i]
  {
    var m := Prepared(fs, p, chance, host, acc, faults);
    ReplaceFinishes(fs, p, data, chance, host, acc, faults);
    ReadyToWrite(fs, p, chance, host, acc, faults);
    PreparedFrame(fs, p, chance, host, acc, faults);
    PreparedStat(fs, p, chance, host, acc, faults);
    if p.unsafeWrites {
      InPlaceLands(m, p.dest, data, chance, host, faults);
    } else {
      var d := Stat(m.tree, p.dest.Parent()).ino;
      var s := WriteByRename(m, p.dest, data, chance, host, faults).Last(m);
      WriteByRenameTrace(m, p.dest, d, data, chance, host, faults);
      AfterRename(m, s, p.dest, d, data, host);
    }
  }

  lemma NoBackupNoName(fs: Fs, p: WriteParams, data: Bytes, chance: Chance, host: Host, acc: Accounts,
                       faults: set<Fault>)
    requires Valid(fs) && |p.dest.segs| > 0 && p.dest.Clean() && !p.backup
    requires ContentAt(fs.tree, p.dest).Some? && !OnItsOwnWay(fs.tree, p.dest)
    requires Lstat(fs.tree, BackupPath(p.dest, chance.stamp)).Missing?
    requires Replace(fs, p, data, chance, host, acc, faults).err.None?
    ensures NotThere(Replace(fs, p, data, chance, host, acc, faults).fs.tree, BackupPath(p.dest, chance.stamp))
  {
    var n := p.dest.Base() + "." + chance.stamp + "~";
    assert BackupPath(p.dest, chance.stamp) == p.dest.Parent().Join(n) && |n| > |p.dest.Base()|;
    FreeNameIsFree(fs.tree, p.dest, chance.stamp);
    ExistingHasSite(fs.tree, p.dest);
    assert MkdirAll(fs, p.dest.Parent(), host, ParentJob(p, acc, faults)) == DirOutcome(fs, false, None);
    ReplaceFinishes(fs, p, data, chance, host, acc, faults);
    assert Prepared(fs, p, chance, host, acc, faults) == fs;
    var d := Stat(fs.tree, p.dest.Parent()).ino;
    NamesAfterWrite(fs, p, data, chance, host, faults, d);
    AbsentName(WriteData(fs, p, data, chance, host, faults).Last(fs).tree, p.dest.Parent(), n);
  }

  /** A successful write leaves the directory where it was, with at most the destination's name new. */
  lemma NamesAfterWrite(fs: Fs, p: WriteParams, data: Bytes, chance: Chance, host: Host, faults: set<Fault>, d: Ino)
    requires Valid(fs) && Site(fs.tree, p.dest, d) && ContentAt(fs.tree, p.dest).Some? && !OnItsOwnWay(fs.tree, p.dest)
    requires WriteData(fs, p, data, chance, host, faults).err.None?
    ensures var t := WriteData(fs, p, data, chance, host, faults).Last(fs).tree;
      Site(t, p.dest, d) && t.Entries(d).Keys <= fs.tree.Entries(d).Keys + {p.dest.Base()}
  {
    var s := WriteData(fs, p, data, chance, host, faults).Last(fs);
    if p.unsafeWrites {
      var o := OpenForWriting(fs, p.dest, MODE_PLAIN, host, faults);
      OpenExact(fs, p.dest, MODE_PLAIN, host, faults);
      FillExtends(fs, o.fs, o.ino, data);
      SiteGrows(fs.tree, s.tree, p.dest, d);
    } else {
      WriteByRenameTrace(fs, p.dest, d, data, chance, host, faults);
      AfterRename(fs, s, p.dest, d, data, host);
    }
  }

  lemma AbsentName(t: Tree, p: Path, n: Name)
    requires LeadsToDir(t, p) && n !in t.Entries(Stat(t, p).ino) && |n| > 0 && n[|n| - 1] == '~'
    ensures NotThere(t, p.Join(n))
  {
    assert n != "." && n != "..";
    ChildResolve(t, p, n, false);
  }

  // ---------------------------------------------------------------- owner, group and mode

  /** A successful task that writes gives the destination the owner, group and mode that its
      arguments spell; what they do not spell is 0600 (0644 for a new file written in place) without
      the umask and the agent's ids, or what an overwritten file had. */
  lemma CopyWriteGrants(fs: Fs, data: Bytes, args: CopyArgs, w: World, wish: Wish, dest: Path)
    requires Valid(fs) && Acyclic(fs.tree) && GoodCodec(w.codec) && SpellsArgs(args, w.acc, wish)
    requires Active(fs, args) && CleanArgs(args)
    requires dest == Effective(fs.tree, args) && !OnItsOwnWay(fs.tree, dest)
    requires DigestAt(fs.tree, dest, w.codec) != w.codec.sha(data)
    requires CopyData(fs, data, args, w).result != Failed
    ensures var r := CopyData(fs, data, args, w);
      && r.result == Finished(true, dest) && Stat(r.fs.tree, dest).Found?
      && var j, st := Stat(r.fs.tree, dest).ino, Stat(fs.tree, dest);
      && j in r.fs.attrs
      && r.fs.attrs[j] == Granted(File(data),
           if !args.unsafeWrites then Attr(Masked(0x180, w.host.umask), w.host.uid, w.host.gid)
           else if st.Found? && j in fs.attrs then fs.attrs[j]
           else Attr(Masked(0x1A4, w.host.umask), w.host.uid, w.host.gid), wish)
  {
    CleanDestination(fs.tree, args);
    CopyReaches(fs, data, args, w);
    EffectiveHasName(fs, data, args, w);
    ArgsSpelled(args, w, wish);
    var p := WriteParamsOf(args, dest, data, w.codec);
    assert AttrJob(p, w.acc, w.faults) == JobOf(args, w);
    assert CopyData(fs, data, args, w).fs == Replace(fs, p, data, w.chance, w.host, w.acc, w.faults).fs;
    ReplaceSucceeds(fs, p, data, w.chance, w.host, w.acc, w.faults);
    assert forall i :: i in fs.tree.nodes ==> i in fs.attrs;
    if args.unsafeWrites {
      InPlaceGrants(fs, p, data, w.chance, w.host, w.acc, w.faults, wish);
    } else {
      RenameGrants(fs, p, data, w.chance, w.host, w.acc, w.faults, wish);
    }
  }

  /** A successful task that finds the content right changes no structure and no bytes, and sets what
      its arguments spell, unless that is at most a falsy mode; it reports a change iff it made one. */
  lemma CopyKeepsGrants(fs: Fs, data: Bytes, args: CopyArgs, w: World, wish: Wish)
    requires Valid(fs) && GoodCodec(w.codec) && SpellsArgs(args, w.acc, wish) && args.force && !args.checkMode
    requires DigestAt(fs.tree, Effective(fs.tree, args), w.codec) == w.codec.sha(data)
    requires CopyData(fs, data, args, w).result != Failed
    ensures var dest := Effective(fs.tree, args); var r := CopyData(fs, data, args, w);
      && r.fs.tree == fs.tree && r.fs.next == fs.next && r.result == Finished(r.fs != fs, dest)
      && Stat(fs.tree, dest).Found?
      && var i := Stat(fs.tree, dest).ino;
      && i in fs.attrs && i in fs.tree.nodes
      && r.fs.attrs == fs.attrs[i :=
           if wish.owner == None && wish.group == None && Silent(args.mode) then fs.attrs[i]
           else Granted(fs.tree.nodes[i], fs.attrs[i], wish)]
  {
    var dest := Effective(fs.tree, args);
    CopyReaches(fs, data, args, w);
    ArgsSpelled(args, w, wish);
    AskedForIff(args, w, wish);
    FileFileDecided(fs, dest, JobOf(args, w), wish);
    HopsShrink(fs.tree, Origin(fs.tree, dest.abs, fs.tree.cwd), dest.segs, MAX_HOPS, true);
    var i := Stat(fs.tree, dest).ino;
    assert fs.attrs[i := fs.attrs[i]] == fs.attrs;
  }

  /** The modes that are false in Python. */
  predicate Silent(mode: ModeArg) { mode == NoMode || mode == IntMode(0) || mode == TextMode("") }

  lemma AskedForIff(args: CopyArgs, w: World, wish: Wish)
    requires SpellsArgs(args, w.acc, wish)
    ensures AsksForAttributes(args) <==> wish.owner != None || wish.group != None || !Silent(args.mode)
  {
    if wish.owner.Some? { IdSpelled(w.acc.users, Given(args.owner), wish.owner); }
    if wish.group.Some? { IdSpelled(w.acc.groups, Given(args.group), wish.group); }
  }

  // ---------------------------------------------------------------- when a task succeeds

  /** The part of a write request that decides whether it can be done. */
  function Shape(args: CopyArgs, dest: Path): WriteParams {
    WriteParams(dest, "", "", "", "", args.backup, args.unsafeWrites, "")
  }

  lemma ShapeDecides(t: Tree, p: WriteParams, q: WriteParams, chance: Chance)
    requires p.dest == q.dest && p.backup == q.backup && p.unsafeWrites == q.unsafeWrites && Doable(t, q, chance)
    ensures Doable(t, p, chance)
  {}

  /** A live task succeeds when no call fails, its destination can be looked up, it does not put
      `content` onto a directory, and the way for the write is free; it then works on the effective
      destination, and reports a change exactly if the bytes differed or an attribute did. */
  lemma CopyWorks(fs: Fs, data: Bytes, args: CopyArgs, w: World, wish: Wish)
    requires Valid(fs) && Acyclic(fs.tree) && GoodCodec(w.codec) && SpellsArgs(args, w.acc, wish) && w.faults == {}
    requires Active(fs, args)
    requires Stat(fs.tree, args.dest).Found? || ErrnoOf(Stat(fs.tree, args.dest)) == ENOENT
    requires LeadsToDir(fs.tree, args.dest) ==> args.basename.Some?
    requires var dest := Effective(fs.tree, args); Stat(fs.tree, dest).Found? || ErrnoOf(Stat(fs.tree, dest)) == ENOENT
    requires Doable(fs.tree, Shape(args, Effective(fs.tree, args)), w.chance)
    ensures var dest := Effective(fs.tree, args); var r := CopyData(fs, data, args, w);
      if ContentAt(fs.tree, dest).Some? && w.codec.sha(ContentAt(fs.tree, dest).value) == w.codec.sha(data)
      then r.result == Finished(r.fs != fs, dest)
      else r.result == Finished(true, dest) && ContentAt(r.fs.tree, dest) == Some(data)
  {
    var dest := Effective(fs.tree, args);
    CopyGetsThrough(fs, data, args, w);
    ArgsSpelled(args, w, wish);
    if ContentAt(fs.tree, dest).Some? && w.codec.sha(ContentAt(fs.tree, dest).value) == w.codec.sha(data) {
      FileFileDecided(fs, dest, JobOf(args, w), wish);
    } else {
      CopyContentWorks(fs, data, dest, args, w, wish);
    }
  }

  lemma CopyContentWorks(fs: Fs, data: Bytes, dest: Path, args: CopyArgs, w: World, wish: Wish)
    requires Valid(fs) && Acyclic(fs.tree) && GoodCodec(w.codec) && Spells(JobOf(args, w), wish) && w.faults == {}
    requires !args.checkMode && Doable(fs.tree, Shape(args, dest), w.chance)
    requires DigestAt(fs.tree, dest, w.codec) != w.codec.sha(data)
    ensures var r := CopyContent(fs, data, dest, StatRpc(fs.tree, dest, w.codec), args, w);
      r.result == Finished(true, dest) && ContentAt(r.fs.tree, dest) == Some(data)
  {
    var p := WriteParamsOf(args, dest, data, w.codec);
    assert AttrJob(p, w.acc, {}) == JobOf(args, w);
    ShapeDecides(fs.tree, p, Shape(args, dest), w.chance);
    ReplaceWorks(fs, p, data, w.chance, w.host, w.acc, wish);
    ReplaceSucceeds(fs, p, data, w.chance, w.host, w.acc, {});
    NoDiffTrouble(fs, dest, w);
  }

  /** What is there and no directory can be read for a diff. */
  lemma NoDiffTrouble(fs: Fs, dest: Path, w: World)
    requires Valid(fs)
    ensures var st := StatRpc(fs.tree, dest, w.codec); st.Present? && !st.isDir ==> ContentAt(fs.tree, dest).Some?
  {
    FoundIsNoLink(fs, dest);
    HopsShrink(fs.tree, Origin(fs.tree, dest.abs, fs.tree.cwd), dest.segs, MAX_HOPS, true);
  }

  lemma CopyGetsThrough(fs: Fs, data: Bytes, args: CopyArgs, w: World)
    requires Stat(fs.tree, args.dest).Found? || ErrnoOf(Stat(fs.tree, args.dest)) == ENOENT
    requires LeadsToDir(fs.tree, args.dest) ==> args.basename.Some?
    requires var dest := Effective(fs.tree, args); Stat(fs.tree, dest).Found? || ErrnoOf(Stat(fs.tree, dest)) == ENOENT
    ensures var dest := Effective(fs.tree, args);
      CopyData(fs, data, args, w) == CopyTo(fs, data, dest, StatRpc(fs.tree, dest, w.codec), args, w)
  {}

  predicate CannotBeLookedUp(t: Tree, p: Path) { !Stat(t, p).Found? && ErrnoOf(Stat(t, p)) != ENOENT }

  /** And a task whose destination cannot be looked up, or that puts `content` onto a directory, is
      refused before it changes anything. */
  lemma CopyRefused(fs: Fs, data: Bytes, args: CopyArgs, w: World)
    requires (LeadsToDir(fs.tree, args.dest) && args.basename.None?)
          || CannotBeLookedUp(fs.tree, Effective(fs.tree, args))
    ensures CopyData(fs, data, args, w) == CopyOutcome(fs, Failed)
  {}

  // ---------------------------------------------------------------- what is announced

  /** A check that can look its destination up announces a change exactly if the bytes there do not
      have the digest of the data, and with force=false exactly if nothing is there. */
  lemma CheckModeExact(fs: Fs, data: Bytes, args: CopyArgs, w: World)
    requires Valid(fs) && GoodCodec(w.codec) && args.checkMode
    requires Stat(fs.tree, args.dest).Found? || ErrnoOf(Stat(fs.tree, args.dest)) == ENOENT
    requires LeadsToDir(fs.tree, args.dest) ==> args.basename.Some?
    requires var dest := Effective(fs.tree, args); Stat(fs.tree, dest).Found? || ErrnoOf(Stat(fs.tree, dest)) == ENOENT
    ensures var dest := Effective(fs.tree, args);
      var right := ContentAt(fs.tree, dest).Some? && w.codec.sha(ContentAt(fs.tree, dest).value) == w.codec.sha(data);
      CopyData(fs, data, args, w) ==
        CopyOutcome(fs, Finished(if args.force then !right else !Stat(fs.tree, dest).Found?, dest))
  {
    CopyGetsThrough(fs, data, args, w);
    NoDiffTrouble(fs, Effective(fs.tree, args), w);
  }

  /** With force=false a task whose destination is there does nothing and says so. */
  lemma ForceFalseExact(fs: Fs, data: Bytes, args: CopyArgs, w: World)
    requires !args.force && Stat(fs.tree, Effective(fs.tree, args)).Found?
    requires LeadsToDir(fs.tree, args.dest) ==> args.basename.Some?
    ensures CopyData(fs, data, args, w) == CopyOutcome(fs, Finished(false, Effective(fs.tree, args)))
  {}

  /** The destination that is worked on: inside `dest` exactly if that leads to a directory. */
  lemma EffectiveDecided(t: Tree, args: CopyArgs)
    ensures Effective(t, args) ==
              if LeadsToDir(t, args.dest) && args.basename.Some?
              then Path(args.dest.abs, args.dest.segs + [args.basename.value]) else args.dest
  {}
}
