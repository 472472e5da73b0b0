/** When a directory request succeeds, and what it leaves, in terms of what the request spells. */
module DirectoryOutcome {
  import opened Wrappers
  import opened FileSystem
  import opened Resolution
  import opened Attributes
  import opened SpelledRequests
  import opened Listings
  import opened AttributeWalk
  import opened WalkTheorems
  import opened WalkRepeat
  import opened Directories
  import opened DirectoryTheorems

  // ---------------------------------------------------------------- what is left

  /** After settling, every covered inode has what was spelled and every other its old attributes;
      a change was reported iff one differs. */
  lemma SettledGrants(t: Tree, before: Attrs, s: set<Ino>, job: Job, after: Attrs, changed: bool, wish: Wish)
    requires Settled(t, before, s, job, after, changed) && Spells(job, wish)
    ensures after.Keys == before.Keys
    ensures forall i :: i in before ==>
              after[i] == if i in s && i in t.nodes then Granted(t.nodes[i], before[i], wish) else before[i]
    ensures changed <==> after != before
  {
    PlanSpelled(job, wish);
    forall i | i in before && i in t.nodes
      ensures Touch(t.nodes[i], before[i], PlanOf(job)) == Granted(t.nodes[i], before[i], wish)
    {
      TouchGrants(t.nodes[i], before[i], wish);
    }
    SettleDiffers(t, before, s, PlanOf(job));
  }

  /** A successful request on an existing directory: the directory itself, and with `recurse` every
      covered entry, has the owner, group and mode the request spells. */
  lemma DirectoryGrants(fs: Fs, path: Path, host: Host, job: Job, recurse: bool, follow: bool, wish: Wish)
    requires Valid(fs) && Acyclic(fs.tree) && Stat(fs.tree, path).Found? && Spells(job, wish)
    requires FileDirectory(fs, path, host, job, recurse, follow).err.None?
    ensures var r := FileDirectory(fs, path, host, job, recurse, follow);
      && r.fs == fs.(attrs := r.fs.attrs) && r.fs.attrs.Keys == fs.attrs.Keys && (r.changed <==> r.fs != fs)
      && var s := Covers(fs.tree, path, recurse, follow);
      forall i :: i in fs.attrs ==>
        r.fs.attrs[i] == if i in s then Granted(fs.tree.nodes[i], fs.attrs[i], wish) else fs.attrs[i]
  {
    DirectoryExact(fs, path, host, job, recurse, follow);
    var r := FileDirectory(fs, path, host, job, recurse, follow);
    SettledGrants(fs.tree, fs.attrs, Covers(fs.tree, path, recurse, follow), job, r.fs.attrs, r.changed, wish);
  }

  // ---------------------------------------------------------------- when the walks succeed

  /** Below the path everything that is there can also be followed to its end. */
  ghost predicate NoneDangles(t: Tree, path: Path) {
    forall names: seq<Name> :: Lstat(t, Below(path, names)).Found? ==> Stat(t, Below(path, names)).Found?
  }

  function Below(path: Path, names: seq<Name>): Path { Path(path.abs, path.segs + names) }

  lemma NoneDanglesBelow(t: Tree, path: Path, name: Name)
    requires NoneDangles(t, path)
    ensures NoneDangles(t, path.Join(name))
    ensures Lstat(t, path.Join(name)).Found? ==> Stat(t, path.Join(name)).Found?
  {
    assert path.Join(name) == Below(path, [name]);
    forall names: seq<Name> | Lstat(t, Below(path.Join(name), names)).Found?
      ensures Stat(t, Below(path.Join(name), names)).Found?
    {
      assert Below(path.Join(name), names) == Below(path, [name] + names) by {
        assert path.segs + [name] + names == path.segs + ([name] + names);
      }
    }
  }

  /** The following walk succeeds when no call fails and no symlink below the root dangles, loops or
      needs more than the symlink budget. */
  lemma {:induction false} FollowDirSucceeds(t: Tree, attrs: Attrs, path: Path, job: Job, seen: set<Ino>)
    requires Sound(t) && t.nodes.Keys <= attrs.Keys && Understood(job) && job.faults == {}
    requires LeadsToDir(t, path) && NoneDangles(t, path)
    ensures FollowDir(t, attrs, path, job, seen).err.None?
    decreases Dirs(t) - seen, 1, 0
  {
    ReadDirLists(t, path);
    FollowEntriesSucceed(t, attrs, path, ReadDir(t, path).entries, job, seen);
  }

  lemma {:induction false} FollowEntriesSucceed(t: Tree, attrs: Attrs, path: Path, es: seq<DirEntry>, job: Job,
                                                seen: set<Ino>)
    requires Sound(t) && t.nodes.Keys <= attrs.Keys && Understood(job) && job.faults == {}
    requires EntriesAt(t, path, es) && NoneDangles(t, path)
    ensures FollowEntries(t, attrs, path, es, job, seen).err.None?
    decreases Dirs(t) - seen, 0, |es|
  {
    if |es| > 0 {
      TailEntries(t, path, es);
      assert es[0] in es;
      var child := path.Join(es[0].name);
      var s := {t.Entries(Stat(t, path).ino)[es[0].name]};
      CalmEntry(t, attrs, s, path, es[0], job);
      var b := Apply(t, attrs, child, job, es[0].isLink).attrs;
      ChildEntry(t, path, es[0].name);
      NoneDanglesBelow(t, path, es[0].name);
      var i := Stat(t, child).ino;
      if !t.IsDir(i) || i in seen {
        FollowEntriesSucceed(t, b, path, es[1..], job, seen);
      } else {
        assert i in Dirs(t) - seen;
        FollowDirSucceeds(t, b, child, job, seen + {i});
        var r := FollowDir(t, b, child, job, seen + {i});
        FollowEntriesSucceed(t, r.attrs, path, es[1..], job, r.seen);
      }
    }
  }

  lemma AllFollowed(t: Tree, attrs: Attrs, path: Path, job: Job, x: Ino, name: Name)
    requires Sound(t) && Acyclic(t) && t.nodes.Keys <= attrs.Keys && Stat(t, path).Found?
    requires Reachable(t, true, Stat(t, path).ino, x) && name in t.Entries(x)
    requires SetRecursively(t, attrs, path, job, true).err.None?
    ensures Walk(t, x, [name], MAX_HOPS, true).Found?
  {
    var d := Stat(t, path).ino;
    var r := FollowDir(t, attrs, path, job, {d});
    FollowExact(t, attrs, path, job);
    FollowDirCovers(t, attrs, path, job, {d});
    assert Covered(t, x, name, r.seen);
  }

  /** One entry of a reachable directory that cannot be followed makes the walk fail. */
  lemma DanglingFails(t: Tree, attrs: Attrs, path: Path, job: Job, x: Ino, name: Name)
    requires Sound(t) && Acyclic(t) && t.nodes.Keys <= attrs.Keys && Stat(t, path).Found?
    requires Reachable(t, true, Stat(t, path).ino, x) && name in t.Entries(x)
    requires !Walk(t, x, [name], MAX_HOPS, true).Found?
    ensures SetRecursively(t, attrs, path, job, true).err.Some?
  {
    if SetRecursively(t, attrs, path, job, true).err.None? { AllFollowed(t, attrs, path, job, x, name); }
  }

  /** A request on an existing directory succeeds when it is understood, no call fails and, if it is
      to recurse and follow, nothing dangles. Without `follow` symlinks do not matter. */
  lemma DirectorySucceeds(fs: Fs, path: Path, host: Host, job: Job, recurse: bool, follow: bool)
    requires Valid(fs) && Acyclic(fs.tree) && LeadsToDir(fs.tree, path) && Understood(job) && job.faults == {}
    requires recurse && follow ==> NoneDangles(fs.tree, path)
    requires recurse && !follow ==> Lstat(fs.tree, path).Found?
    ensures FileDirectory(fs, path, host, job, recurse, follow).err.None?
  {
    var t, d := fs.tree, Stat(fs.tree, path).ino;
    assert Addresses(t, path, false, d);
    ApplySucceeds(t, fs.attrs, path, job, false, d);
    var attrs := EnsureDirectory(fs, path, host, job).fs.attrs;
    if recurse && follow {
      FollowDirSucceeds(t, attrs, path, job, {d});
    } else if recurse && t.IsDir(Lstat(t, path).ino) {
      LstatIsStat(t, Origin(t, path.abs, t.cwd), path.segs, MAX_HOPS);
      ReachesItself(t, false, d);
      var s := set x, n | x in t.nodes && n in t.Entries(x) :: t.Entries(x)[n];
      TreeDirWorks(t, attrs, path, job, d, s);
    }
  }

  /** A request on something that is there and no directory is refused and changes nothing. */
  lemma NoDirectoryRefused(fs: Fs, path: Path, host: Host, job: Job, recurse: bool, follow: bool)
    requires Valid(fs) && Acyclic(fs.tree) && Stat(fs.tree, path).Found? && !fs.tree.IsDir(Stat(fs.tree, path).ino)
    ensures FileDirectory(fs, path, host, job, recurse, follow) == DirOutcome(fs, false, Some(NotADirectory))
    ensures job.req.mode == "" ==> MkdirAll(fs, path, host, job) == DirOutcome(fs, false, Some(NotADirectory))
  {}

  // ---------------------------------------------------------------- when creating succeeds

  /** Whether making segment `j` (counted from 1) fails: mkdir itself, or the setter on the new
      directory, which may need a chmod and a chown. */
  predicate MkdirFails(path: Path, job: Job, j: nat)
    requires j <= |path.segs|
  {
    Fault(MkdirCall, path.Prefix(j)) in job.faults
  }

  predicate SettingFails(path: Path, host: Host, job: Job, wish: Wish, j: nat)
    requires j <= |path.segs|
  {
    var k, a := Dir(map[], 0), NewDirAttr(host);
    || (NeedsChmod(k, a, wish) && Fault(ChmodCall, path.Prefix(j)) in job.faults)
    || (NeedsChown(k, a, wish) && Fault(ChownCall, path.Prefix(j)) in job.faults)
  }

  /** How many directories are made, from segment `k` on: all up to the first call that fails. */
  function Makes(path: Path, host: Host, job: Job, wish: Wish, k: nat): (made: nat)
    requires k <= |path.segs|
    ensures made <= |path.segs| - k
    decreases |path.segs| - k
  {
    if k == |path.segs| || MkdirFails(path, job, k + 1) then 0
    else if SettingFails(path, host, job, wish, k + 1) then 1
    else 1 + Makes(path, host, job, wish, k + 1)
  }

  predicate AllMade(path: Path, host: Host, job: Job, wish: Wish, k: nat)
    requires k <= |path.segs|
  {
    forall j :: k < j <= |path.segs| ==> !MkdirFails(path, job, j) && !SettingFails(path, host, job, wish, j)
  }

  /** Segment `k` is the first that is missing, and it is free to be made. */
  ghost predicate FreeFrom(fs: Fs, path: Path, k: nat) {
    && k < |path.segs| && LeadsToDir(fs.tree, path.Prefix(k))
    && path.segs[k] !in fs.tree.Entries(Stat(fs.tree, path.Prefix(k)).ino)
  }

  /** One turn of the creating loop. */
  lemma MakeTurn(fs: Fs, path: Path, k: nat, host: Host, job: Job, wish: Wish) returns (fs2: Fs)
    requires Valid(fs) && path.Clean() && FreeFrom(fs, path, k) && Spells(job, wish)
    ensures var r := MakeSegments(fs, path, k, host, job);
      if MkdirFails(path, job, k + 1) then r == DirOutcome(fs, false, Some(Sys(EIO)))
      else if SettingFails(path, host, job, wish, k + 1) then r.fs.next == fs.next + 1 && r.err == Some(Sys(EIO))
      else
        && r == MakeSegments(fs2, path, k + 1, host, job).(changed := true)
        && Valid(fs2) && fs2.next == fs.next + 1 && (k + 1 < |path.segs| ==> FreeFrom(fs2, path, k + 1))
  {
    EmptyDirMisses(fs.tree, path, k);
    fs2 := fs;
    if !MkdirFails(path, job, k + 1) {
      var fs1 := NewSegment(fs, path, k, host, job, wish);
      TurnUnfolds(fs, path, k, host, job, fs1);
      if !SettingFails(path, host, job, wish, k + 1) {
        fs2 := MakeOne(fs, path, k, host, job);
        NextIsFree(fs, path, k, host, job, fs2);
      }
    }
  }

  lemma TurnUnfolds(fs: Fs, path: Path, k: nat, host: Host, job: Job, fs1: Fs)
    requires k < |path.segs| && Stat(fs.tree, path.Prefix(k + 1)).Missing?
    requires Mkdir(fs, path.Prefix(k + 1), host, job.faults) == Made(fs1, None)
    ensures var a := Apply(fs1.tree, fs1.attrs, path.Prefix(k + 1), job, false); var fs2 := fs1.(attrs := a.attrs);
      MakeSegments(fs, path, k, host, job) ==
        if a.err.Some? then DirOutcome(fs2, true, a.err)
        else MakeSegments(fs2, path, k + 1, host, job).(changed := true)
  {}

  lemma NextIsFree(fs: Fs, path: Path, k: nat, host: Host, job: Job, fs2: Fs)
    requires Valid(fs) && path.Clean() && FreeFrom(fs, path, k)
    requires var d := Stat(fs.tree, path.Prefix(k)).ino;
      fs2 == AddNode(fs, d, path.segs[k], Dir(map[], d), MadeAttr(host, job))
    ensures fs2.next == fs.next + 1 && (k + 1 < |path.segs| ==> FreeFrom(fs2, path, k + 1))
  {
    MkdirResolves(fs, path, k, MadeAttr(host, job));
  }

  /** Making one segment, and the setter on it. */
  lemma NewSegment(fs: Fs, path: Path, k: nat, host: Host, job: Job, wish: Wish) returns (fs1: Fs)
    requires Valid(fs) && path.Clean() && FreeFrom(fs, path, k) && Spells(job, wish) && !MkdirFails(path, job, k + 1)
    ensures var d := Stat(fs.tree, path.Prefix(k)).ino;
      && fs1 == AddNode(fs, d, path.segs[k], Dir(map[], d), NewDirAttr(host))
      && Mkdir(fs, path.Prefix(k + 1), host, job.faults) == Made(fs1, None)
    ensures var a := Apply(fs1.tree, fs1.attrs, path.Prefix(k + 1), job, false);
      a.err == if SettingFails(path, host, job, wish, k + 1) then Some(Sys(EIO)) else None
  {
    var d := Stat(fs.tree, path.Prefix(k)).ino;
    EmptyDirMisses(fs.tree, path, k);
    MkdirResolves(fs, path, k, NewDirAttr(host));
    fs1 := AddNode(fs, d, path.segs[k], Dir(map[], d), NewDirAttr(host));
    assert Addresses(fs1.tree, path.Prefix(k + 1), false, fs.next);
    ApplyGrants(fs1.tree, fs1.attrs, path.Prefix(k + 1), job, false, fs.next, wish);
  }

  /** The outcome of making the segments after `k`, when the next free inode was `next`. */
  ghost predicate Decided(next: Ino, r: DirOutcome, path: Path, host: Host, job: Job, wish: Wish, k: nat)
    requires k <= |path.segs|
  {
    && r.fs.next == next + Makes(path, host, job, wish, k)
    && (r.err.None? <==> AllMade(path, host, job, wish, k))
    && (r.err.Some? ==> r.err == Some(Sys(EIO)))
  }

  lemma DecidedStep(next: Ino, r: DirOutcome, path: Path, host: Host, job: Job, wish: Wish, k: nat)
    requires k < |path.segs| && !MkdirFails(path, job, k + 1) && !SettingFails(path, host, job, wish, k + 1)
    requires Decided(next + 1, r, path, host, job, wish, k + 1)
    ensures Decided(next, r.(changed := true), path, host, job, wish, k)
  {}

  lemma {:induction false} MakeSegmentsOutcome(fs: Fs, path: Path, k: nat, host: Host, job: Job, wish: Wish)
    requires Valid(fs) && path.Clean() && FreeFrom(fs, path, k) && Spells(job, wish)
    ensures Decided(fs.next, MakeSegments(fs, path, k, host, job), path, host, job, wish, k)
    decreases |path.segs| - k
  {
    var fs2 := MakeTurn(fs, path, k, host, job, wish);
    if !MkdirFails(path, job, k + 1) && !SettingFails(path, host, job, wish, k + 1) {
      if k + 1 < |path.segs| {
        MakeSegmentsOutcome(fs2, path, k + 1, host, job, wish);
      }
      DecidedStep(fs.next, MakeSegments(fs2, path, k + 1, host, job), path, host, job, wish, k);
    }
  }

  lemma {:induction false} SkipsReached(fs: Fs, path: Path, k: nat, host: Host, job: Job)
    requires k <= |path.segs|
    ensures MakeSegments(fs, path, k, host, job) == MakeSegments(fs, path, Reached(fs.tree, path, k), host, job)
    decreases |path.segs| - k
  {
    if k < |path.segs| && Stat(fs.tree, path.Prefix(k + 1)).Found? { SkipsReached(fs, path, k + 1, host, job); }
  }

  /** Below a missing segment nothing resolves, so the first missing one is missing for the same
      reason as the whole path; and it lies in a directory. */
  lemma FirstMissing(t: Tree, path: Path, m: nat)
    requires Sound(t) && path.Clean() && IsMissing(t, path) && m < |path.segs|
    requires Stat(t, path.Prefix(m)).Found? && !Stat(t, path.Prefix(m + 1)).Found?
    ensures ErrnoOf(Stat(t, path.Prefix(m + 1))) == ENOENT && LeadsToDir(t, path.Prefix(m))
  {
    var p := path.Prefix(m + 1);
    if m + 1 < |path.segs| {
      assert path.segs == p.segs + path.segs[m + 1..];
      WalkAppend(t, Origin(t, path.abs, t.cwd), p.segs, path.segs[m + 1..], MAX_HOPS, true);
    } else {
      assert p == path;
    }
    PrefixJoin(path, m);
    ChildResolve(t, path.Prefix(m), path.segs[m], true);
  }

  /** Creating a missing path, decided. If the first missing segment is taken (by a dangling
      symlink) nothing is made and the answer is EEXIST. Otherwise the segments are made one after
      the other up to the first call that fails, and the request succeeds iff there is none. */
  lemma CreateDecided(fs: Fs, path: Path, host: Host, job: Job, wish: Wish)
    requires Valid(fs) && path.Clean() && IsMissing(fs.tree, path) && Spells(job, wish)
    ensures var m := Reached(fs.tree, path, 0); var r := EnsureDirectory(fs, path, host, job);
      && m < |path.segs| && LeadsToDir(fs.tree, path.Prefix(m))
      && if path.segs[m] in fs.tree.Entries(Stat(fs.tree, path.Prefix(m)).ino)
         then r == DirOutcome(fs, false, Some(Sys(EEXIST)))
         else
           && r.fs.next == fs.next + Makes(path, host, job, wish, m)
           && (r.err.None? <==> AllMade(path, host, job, wish, m))
           && (r.err.Some? ==> r.err == Some(Sys(EIO)))
           && (MkdirFails(path, job, m + 1) ==> r == DirOutcome(fs, false, Some(Sys(EIO))))
  {
    var m := Reached(fs.tree, path, 0);
    RootResolves(fs, path);
    assert path.Prefix(|path.segs|) == path;
    FirstMissing(fs.tree, path, m);
    SkipsReached(fs, path, 0, host, job);
    PrefixJoin(path, m);
    ChildResolve(fs.tree, path.Prefix(m), path.segs[m], false);
    if path.segs[m] in fs.tree.Entries(Stat(fs.tree, path.Prefix(m)).ino) {
      ChildEntry(fs.tree, path.Prefix(m), path.segs[m]);
    } else {
      EmptyDirMisses(fs.tree, path, m);
      MakeSegmentsOutcome(fs, path, m, host, job, wish);
    }
  }

  /** The parents of a file: the same for a missing directory, and an existing one is left alone. */
  lemma ParentsDecided(fs: Fs, dir: Path, host: Host, job: Job, wish: Wish)
    requires Valid(fs) && dir.Clean() && job.req.mode == "" && Spells(job, wish)
    ensures LeadsToDir(fs.tree, dir) ==> MkdirAll(fs, dir, host, job) == DirOutcome(fs, false, None)
    ensures IsMissing(fs.tree, dir) ==>
              var m := Reached(fs.tree, dir, 0); var r := MkdirAll(fs, dir, host, job);
              && m < |dir.segs| && LeadsToDir(fs.tree, dir.Prefix(m))
              && (r.err.None? <==>
                    && dir.segs[m] !in fs.tree.Entries(Stat(fs.tree, dir.Prefix(m)).ino)
                    && AllMade(dir, host, job, wish, m))
  {
    if IsMissing(fs.tree, dir) { CreateDecided(fs, dir, host, job, wish); }
  }

  /** What each directory that was made looks like: the owner, group and mode that are spelled, and
      otherwise the agent's own ids and 0755 without the umask. */
  lemma CreateGrants(fs: Fs, path: Path, host: Host, job: Job, wish: Wish)
    requires Valid(fs) && path.Clean() && IsMissing(fs.tree, path) && Spells(job, wish)
    requires EnsureDirectory(fs, path, host, job).err.None?
    ensures var r := EnsureDirectory(fs, path, host, job);
      && r.fs.attrs.Keys >= fs.attrs.Keys && Stat(r.fs.tree, path).Found? && Stat(r.fs.tree, path).ino !in fs.attrs
      && forall i :: i in r.fs.attrs && i !in fs.attrs ==>
           r.fs.attrs[i] == Granted(Dir(map[], 0), Attr(Masked(0x1ED, host.umask), host.uid, host.gid), wish)
  {
    CreateSucceeds(fs, path, host, job);
    PlanSpelled(job, wish);
    TouchGrants(Dir(map[], 0), NewDirAttr(host), wish);
  }

  // ---------------------------------------------------------------- what creating leaves alone

  /** The old inode `i` after a chain was added below `d`. */
  function Extended(fs: Fs, d: Ino, names: seq<Name>, i: Ino): Kind
    requires i in fs.tree.nodes
  {
    if i == d && |names| > 0 && fs.tree.IsDir(d)
    then Dir(fs.tree.nodes[d].entries[names[0] := fs.next], fs.tree.nodes[d].parent) else fs.tree.nodes[i]
  }

  lemma {:induction false} AddChainFrame(fs: Fs, d: Ino, names: seq<Name>, attr: Attr)
    requires forall i :: i in fs.tree.nodes ==> i < fs.next
    ensures var t' := AddChain(fs, d, names, attr).tree;
      && t'.root == fs.tree.root && t'.cwd == fs.tree.cwd
      && (forall i :: i in fs.tree.nodes ==> i in t'.nodes && t'.nodes[i] == Extended(fs, d, names, i))
      && (|names| > 0 && fs.tree.IsDir(d) ==> t'.IsDir(fs.next) && t'.nodes[fs.next].parent == d)
    decreases |names|
  {
    if |names| > 0 && fs.tree.IsDir(d) {
      var fs1 := AddNode(fs, d, names[0], Dir(map[], d), attr);
      AddChainFrame(fs1, fs.next, names[1..], attr);
      assert Extended(fs1, fs.next, names[1..], fs.next).parent == d;
    }
  }

  /** Nothing that was there differs but the directory `d`, which gained at most the name `n`. */
  ghost predicate OnlyGains(fs: Fs, r: Fs, d: Ino, n: Name) {
    && fs.next <= r.next && fs.tree.IsDir(d)
    && forall i :: i in fs.tree.nodes ==>
         && i in r.tree.nodes
         && r.tree.nodes[i] ==
              if i == d && r.next > fs.next
              then Dir(fs.tree.nodes[d].entries[n := fs.next], fs.tree.nodes[d].parent) else fs.tree.nodes[i]
  }

  /** Whatever goes wrong, creating a missing path changes no inode that was there but the directory
      of the first missing segment, which gains at most that name. */
  lemma CreateFrame(fs: Fs, path: Path, host: Host, job: Job)
    requires Valid(fs) && path.Clean() && IsMissing(fs.tree, path)
    ensures var m := Reached(fs.tree, path, 0);
      m < |path.segs| && LeadsToDir(fs.tree, path.Prefix(m)) &&
      OnlyGains(fs, EnsureDirectory(fs, path, host, job).fs, Stat(fs.tree, path.Prefix(m)).ino, path.segs[m])
    ensures var r := EnsureDirectory(fs, path, host, job).fs;
      forall i :: i in fs.attrs ==> i in r.attrs && r.attrs[i] == fs.attrs[i]
  {
    var m := Reached(fs.tree, path, 0);
    RootResolves(fs, path);
    assert path.Prefix(|path.segs|) == path;
    FirstMissing(fs.tree, path, m);
    MakeSegmentsChain(fs, path, 0, host, job);
    ChainGains(fs, path, m, host, job, EnsureDirectory(fs, path, host, job));
  }

  lemma ChainGains(fs: Fs, path: Path, m: nat, host: Host, job: Job, r: DirOutcome)
    requires Valid(fs) && m < |path.segs| && LeadsToDir(fs.tree, path.Prefix(m)) && MadeChain(fs, path, m, host, job, r)
    ensures OnlyGains(fs, r.fs, Stat(fs.tree, path.Prefix(m)).ino, path.segs[m])
  {
    var d := Stat(fs.tree, path.Prefix(m)).ino;
    var names := path.segs[m..m + (r.fs.next - fs.next)];
    AddChainFrame(fs, d, names, MadeAttr(host, job));
    if |names| > 0 { assert names[0] == path.segs[m]; }
  }

  // ---------------------------------------------------------------- where ".." leads

  /** Every directory's ".." is the directory that lists it. */
  ghost predicate ParentsRight(t: Tree) {
    forall d, n :: t.IsDir(d) && n in t.Entries(d) && t.IsDir(t.Entries(d)[n]) ==> t.nodes[t.Entries(d)[n]].parent == d
  }

  lemma DotDotReturns(t: Tree, p: Path, name: Name)
    requires Sound(t) && ParentsRight(t) && LeadsToDir(t, p)
    requires name in t.Entries(Stat(t, p).ino) && t.IsDir(t.Entries(Stat(t, p).ino)[name])
    ensures Stat(t, p.Join(name).Join("..")) == Stat(t, p)
    ensures Stat(t, p.Join(".")) == Stat(t, p)
  {
    ChildEntry(t, p, name);
    ChildResolve(t, p.Join(name), "..", true);
    ChildResolve(t, p, ".", true);
    HopsShrink(t, Origin(t, p.abs, t.cwd), p.segs, MAX_HOPS, true);
    var d, h := Stat(t, p).ino, Stat(t, p).hops;
    assert Walk(t, d, [], h, true) == Found(d, h);
  }

  lemma {:induction false} AddChainParents(fs: Fs, d: Ino, names: seq<Name>, attr: Attr)
    requires ParentsRight(fs.tree) && Sound(fs.tree) && fs.tree.IsDir(d)
    requires forall i :: i in fs.tree.nodes ==> i < fs.next
    requires |names| > 0 ==> names[0] !in fs.tree.Entries(d)
    requires forall k :: 0 <= k < |names| ==> names[k] != "." && names[k] != ".."
    ensures ParentsRight(AddChain(fs, d, names, attr).tree)
    decreases |names|
  {
    if |names| > 0 {
      AddNodeParents(fs, d, names[0], attr);
      AddChainParents(AddNode(fs, d, names[0], Dir(map[], d), attr), fs.next, names[1..], attr);
    }
  }

  lemma AddNodeParents(fs: Fs, d: Ino, n: Name, attr: Attr)
    requires ParentsRight(fs.tree) && Sound(fs.tree) && fs.tree.IsDir(d) && n !in fs.tree.Entries(d)
    requires (forall i :: i in fs.tree.nodes ==> i < fs.next) && n != "." && n != ".."
    ensures var t' := AddNode(fs, d, n, Dir(map[], d), attr).tree;
      ParentsRight(t') && Sound(t') && t'.Entries(fs.next) == map[]
  {
    var t' := AddNode(fs, d, n, Dir(map[], d), attr).tree;
    forall x, m | t'.IsDir(x) && m in t'.Entries(x)
      ensures t'.Entries(x)[m] in t'.nodes && m != "." && m != ".."
      ensures t'.IsDir(t'.Entries(x)[m]) ==> t'.nodes[t'.Entries(x)[m]].parent == x
    {
      if t'.Entries(x)[m] != fs.next {
        assert fs.tree.IsDir(x) && m in fs.tree.Entries(x) && fs.tree.Entries(x)[m] == t'.Entries(x)[m];
        assert fs.tree.Entries(x)[m] in fs.tree.nodes;
      } else if fs.tree.IsDir(x) && (x != d || m != n) {
        assert fs.tree.Entries(x)[m] in fs.tree.nodes;
      }
    }
  }

  /** Creating directories keeps every ".." right, whatever goes wrong. */
  lemma CreateKeepsParents(fs: Fs, path: Path, host: Host, job: Job)
    requires Valid(fs) && path.Clean() && IsMissing(fs.tree, path) && ParentsRight(fs.tree)
    ensures ParentsRight(EnsureDirectory(fs, path, host, job).fs.tree)
  {
    var m := Reached(fs.tree, path, 0);
    var r := EnsureDirectory(fs, path, host, job);
    RootResolves(fs, path);
    assert path.Prefix(|path.segs|) == path;
    FirstMissing(fs.tree, path, m);
    MakeSegmentsChain(fs, path, 0, host, job);
    ChainKeepsParents(fs, path, m, host, job, r);
  }

  lemma ChainKeepsParents(fs: Fs, path: Path, m: nat, host: Host, job: Job, r: DirOutcome)
    requires Valid(fs) && path.Clean() && m < |path.segs| && LeadsToDir(fs.tree, path.Prefix(m))
    requires MadeChain(fs, path, m, host, job, r) && ParentsRight(fs.tree)
    ensures ParentsRight(r.fs.tree)
  {
    var names := path.segs[m..m + (r.fs.next - fs.next)];
    if |names| > 0 { assert names[0] == path.segs[m]; }
    AddChainParents(fs, Stat(fs.tree, path.Prefix(m)).ino, names, MadeAttr(host, job));
  }

  // ---------------------------------------------------------------- a walk is a series of calls

  /** One call of the setter that a walk makes. */
  datatype Call = Call(path: Path, link: bool)

  /** Calls made one after the other, up to and including the first that fails. */
  function ApplyAll(t: Tree, attrs: Attrs, job: Job, calls: seq<Call>): Outcome {
    if |calls| == 0 then Outcome(attrs, false, None)
    else
      var a := Apply(t, attrs, calls[0].path, job, calls[0].link);
      if a.err.Some? then a
      else
        var q := ApplyAll(t, a.attrs, job, calls[1..]);
        Outcome(q.attrs, a.changed || q.changed, q.err)
  }

  lemma {:induction false} ApplyAllAppend(t: Tree, attrs: Attrs, job: Job, a: seq<Call>, b: seq<Call>)
    requires ApplyAll(t, attrs, job, a).err.None?
    ensures var q := ApplyAll(t, ApplyAll(t, attrs, job, a).attrs, job, b);
      ApplyAll(t, attrs, job, a + b) == Outcome(q.attrs, ApplyAll(t, attrs, job, a).changed || q.changed, q.err)
  {
    if |a| == 0 {
      assert a + b == b;
    } else {
      assert (a + b)[0] == a[0] && (a + b)[1..] == a[1..] + b;
      ApplyAllAppend(t, Apply(t, attrs, a[0].path, job, a[0].link).attrs, job, a[1..], b);
    }
  }

  /** The reasons why a path leads nowhere. */
  predicate LookupError(err: Option<Error>) {
    err == Some(Sys(ENOENT)) || err == Some(Sys(ENOTDIR)) || err == Some(Sys(ELOOP))
  }

  lemma {:induction false} LookupErrors(t: Tree, cur: Ino, segs: seq<Name>, hops: nat, follow: bool)
    ensures var r := Walk(t, cur, segs, hops, follow); !r.Found? ==> LookupError(Some(Sys(ErrnoOf(r))))
    decreases hops, |segs|
  {
    if t.IsDir(cur) && |segs| > 0 && Lookup(t, cur, segs[0]).Some? {
      var next := Lookup(t, cur, segs[0]).value;
      if t.IsLink(next) && (|segs| > 1 || follow) {
        if hops > 0 {
          var target := t.nodes[next].target;
          LookupErrors(t, Origin(t, target.abs, cur), target.segs + segs[1..], hops - 1, follow);
        }
      } else {
        LookupErrors(t, next, segs[1..], hops, follow);
      }
    }
  }

  /** A walk did these calls, each to its end: it left what they leave, and it failed either with the
      last of them or because an entry could not be followed or listed. */
  ghost predicate DidCalls(t: Tree, attrs: Attrs, job: Job, calls: seq<Call>, r: Visit) {
    var q := ApplyAll(t, attrs, job, calls);
    && r.attrs == q.attrs
    && (q.err.Some? ==> r.err == q.err)
    && (q.err.None? ==> r.err.None? || LookupError(r.err))
    && (r.err.None? ==> r.changed == q.changed)
  }

  lemma DidThen(t: Tree, attrs: Attrs, job: Job, a: seq<Call>, x: Visit, b: seq<Call>, y: Visit, r: Visit)
    requires DidCalls(t, attrs, job, a, x) && x.err.None? && DidCalls(t, x.attrs, job, b, y)
    requires r.attrs == y.attrs && r.err == y.err && (y.err.None? ==> r.changed == (x.changed || y.changed))
    ensures DidCalls(t, attrs, job, a + b, r)
  {
    ApplyAllAppend(t, attrs, job, a, b);
  }

  lemma OneCall(t: Tree, attrs: Attrs, job: Job, call: Call, seen: set<Ino>) returns (x: Visit)
    ensures var a := Apply(t, attrs, call.path, job, call.link);
      x == Visit(a.attrs, seen, [], a.changed, a.err) && DidCalls(t, attrs, job, [call], x)
  {
    var a := Apply(t, attrs, call.path, job, call.link);
    x := Visit(a.attrs, seen, [], a.changed, a.err);
    assert [call][1..] == [];
  }

  /** The following walk, whatever happens to it. */
  lemma {:induction false} FollowDirIsCalls(t: Tree, attrs: Attrs, path: Path, job: Job, seen: set<Ino>)
    returns (calls: seq<Call>)
    ensures DidCalls(t, attrs, job, calls, FollowDir(t, attrs, path, job, seen))
    decreases Dirs(t) - seen, 1, 0
  {
    calls := [];
    LookupErrors(t, Origin(t, path.abs, t.cwd), path.segs, MAX_HOPS, true);
    if ReadDir(t, path).Listed? {
      calls := FollowEntriesIsCalls(t, attrs, path, ReadDir(t, path).entries, job, seen);
    }
  }

  lemma {:induction false} FollowEntriesIsCalls(t: Tree, attrs: Attrs, path: Path, es: seq<DirEntry>, job: Job,
                                                seen: set<Ino>)
    returns (calls: seq<Call>)
    ensures DidCalls(t, attrs, job, calls, FollowEntries(t, attrs, path, es, job, seen))
    decreases Dirs(t) - seen, 0, |es|
  {
    calls := [];
    if |es| > 0 {
      var child := path.Join(es[0].name);
      var whole := FollowEntries(t, attrs, path, es, job, seen);
      calls := [Call(child, es[0].isLink)];
      var x := OneCall(t, attrs, job, calls[0], seen);
      if x.err.None? {
        LookupErrors(t, Origin(t, child.abs, t.cwd), child.segs, MAX_HOPS, true);
        if Stat(t, child).Found? {
          var i := Stat(t, child).ino;
          if !t.IsDir(i) || i in seen {
            var more := FollowEntriesIsCalls(t, x.attrs, path, es[1..], job, seen);
            DidThen(t, attrs, job, calls, x, more, FollowEntries(t, x.attrs, path, es[1..], job, seen), whole);
            calls := calls + more;
          } else {
            assert i in Dirs(t) - seen;
            calls := FollowSubdirIsCalls(t, attrs, path, es, job, seen, x, i);
          }
        }
      }
    }
  }

  lemma {:induction false} FollowSubdirIsCalls(t: Tree, attrs: Attrs, path: Path, es: seq<DirEntry>, job: Job,
                                               seen: set<Ino>,
                                               x: Visit, i: Ino)
    returns (calls: seq<Call>)
    requires |es| > 0 && i in Dirs(t) - seen
    requires var child := path.Join(es[0].name); var call := Call(child, es[0].isLink);
      && Stat(t, child).Found? && Stat(t, child).ino == i
      && x.attrs == Apply(t, attrs, child, job, es[0].isLink).attrs && x.err == None
      && x.changed == Apply(t, attrs, child, job, es[0].isLink).changed
      && Apply(t, attrs, child, job, es[0].isLink).err == None && DidCalls(t, attrs, job, [call], x)
    ensures DidCalls(t, attrs, job, calls, FollowEntries(t, attrs, path, es, job, seen))
    decreases Dirs(t) - seen, 0, |es| - 1
  {
    var child := path.Join(es[0].name);
    var whole := FollowEntries(t, attrs, path, es, job, seen);
    var below := FollowDirIsCalls(t, x.attrs, child, job, seen + {i});
    var r := FollowDir(t, x.attrs, child, job, seen + {i});
    var sofar := r.(changed := x.changed || r.changed);
    DidThen(t, attrs, job, [Call(child, es[0].isLink)], x, below, r, sofar);
    calls := [Call(child, es[0].isLink)] + below;
    if r.err.None? {
      var more := FollowEntriesIsCalls(t, r.attrs, path, es[1..], job, r.seen);
      DidThen(t, attrs, job, calls, sofar, more, FollowEntries(t, r.attrs, path, es[1..], job, r.seen), whole);
      calls := calls + more;
    }
  }

  /** And the walk that skips symlinks. */
  lemma {:induction false} TreeDirIsCalls(t: Tree, attrs: Attrs, path: Path, job: Job) returns (calls: seq<Call>)
    requires Sound(t) && Acyclic(t)
    ensures DidCalls(t, attrs, job, calls, TreeDir(t, attrs, path, job))
    decreases DepthAt(t, path), 1, 0
  {
    calls := [];
    LookupErrors(t, Origin(t, path.abs, t.cwd), path.segs, MAX_HOPS, true);
    ReadDirLists(t, path);
    if ReadDir(t, path).Listed? {
      calls := TreeEntriesIsCalls(t, attrs, path, ReadDir(t, path).entries, job);
    }
  }

  lemma {:induction false} TreeEntriesIsCalls(t: Tree, attrs: Attrs, path: Path, es: seq<DirEntry>, job: Job)
    returns (calls: seq<Call>)
    requires Sound(t) && Acyclic(t) && EntriesAt(t, path, es)
    ensures DidCalls(t, attrs, job, calls, TreeEntries(t, attrs, path, es, job))
    decreases DepthAt(t, path), 0, |es|
  {
    calls := [];
    if |es| > 0 {
      TailEntries(t, path, es);
      assert es[0] in es;
      var child := path.Join(es[0].name);
      if es[0].isLink {
        calls := TreeEntriesIsCalls(t, attrs, path, es[1..], job);
      } else {
        calls := [Call(child, false)];
        var x := OneCall(t, attrs, job, calls[0], {});
        if x.err.None? {
          if es[0].isDir {
            ChildIsShallower(t, path, es[0]);
            var below := TreeDirIsCalls(t, x.attrs, child, job);
            var r := TreeDir(t, x.attrs, child, job);
            var sofar := r.(changed := x.changed || r.changed);
            DidThen(t, attrs, job, calls, x, below, r, sofar);
            calls := calls + below;
            x := sofar;
          }
          if x.err.None? {
            var more := TreeEntriesIsCalls(t, x.attrs, path, es[1..], job);
            DidThen(t, attrs, job, calls, x, more, TreeEntries(t, x.attrs, path, es[1..], job),
                    TreeEntries(t, attrs, path, es, job));
            calls := calls + more;
          }
        }
      }
    }
  }
}
