/** What creating directories leaves behind, and what a directory request does when repeated. */
module DirectoryTheorems {
  import opened Wrappers
  import opened FileSystem
  import opened Resolution
  import opened Attributes
  import opened Listings
  import opened AttributeWalk
  import opened WalkTheorems
  import opened WalkRepeat
  import opened Directories

  // ---------------------------------------------------------------- creating a chain

  /** The filesystem with a chain of new, nested directories below `d`, all with one attribute. */
  function AddChain(fs: Fs, d: Ino, names: seq<Name>, attr: Attr): Fs
    decreases |names|
  {
    if |names| == 0 || !fs.tree.IsDir(d) then fs
    else AddChain(AddNode(fs, d, names[0], Dir(map[], d), attr), fs.next, names[1..], attr)
  }

  /** How many leading segments resolve. */
  function Reached(t: Tree, path: Path, k: nat): (m: nat)
    requires k <= |path.segs|
    ensures k <= m <= |path.segs|
    ensures forall j :: k < j <= m ==> Stat(t, path.Prefix(j)).Found?
    ensures m < |path.segs| ==> !Stat(t, path.Prefix(m + 1)).Found?
    decreases |path.segs| - k
  {
    if k == |path.segs| || !Stat(t, path.Prefix(k + 1)).Found? then k else Reached(t, path, k + 1)
  }

  /** The attributes each created directory ends up with. */
  function MadeAttr(host: Host, job: Job): Attr {
    Touch(Dir(map[], 0), NewDirAttr(host), PlanOf(job))
  }

  /** What creation did: a chain below the last directory that was already there, `made` long;
      no inode that was there before has other attributes. */
  ghost predicate MadeChain(fs: Fs, path: Path, m: nat, host: Host, job: Job, r: DirOutcome) {
    && fs.next <= r.fs.next && m + (r.fs.next - fs.next) <= |path.segs|
    && var made := r.fs.next - fs.next;
    && Stat(fs.tree, path.Prefix(m)).Found?
    && var d := Stat(fs.tree, path.Prefix(m)).ino;
    && var chain := AddChain(fs, d, path.segs[m..m + made], MadeAttr(host, job));
    && (made > 0 ==> fs.tree.IsDir(d) && path.segs[m] !in fs.tree.Entries(d))
    && r.fs.tree == chain.tree
    && r.fs.attrs.Keys == chain.attrs.Keys
    && (forall i :: i in fs.attrs ==> i in r.fs.attrs && r.fs.attrs[i] == fs.attrs[i])
    && (r.changed <==> made > 0)
    && (r.err.None? ==> made == |path.segs| - m && r.fs == chain)
  }

  lemma EmptyDirMisses(t: Tree, path: Path, k: nat)
    requires k < |path.segs| && path.Clean()
    requires Stat(t, path.Prefix(k)).Found? && t.IsDir(Stat(t, path.Prefix(k)).ino)
    requires path.segs[k] !in t.Entries(Stat(t, path.Prefix(k)).ino)
    ensures Stat(t, path.Prefix(k + 1)) == Missing(Stat(t, path.Prefix(k)).ino, path.segs[k])
    ensures Lstat(t, path.Prefix(k + 1)) == Missing(Stat(t, path.Prefix(k)).ino, path.segs[k])
  {
    PrefixJoin(path, k);
    ChildResolve(t, path.Prefix(k), path.segs[k], true);
    ChildResolve(t, path.Prefix(k), path.segs[k], false);
  }

  /** One creation step: the new directory is where the next prefix leads. */
  lemma MkdirResolves(fs: Fs, path: Path, k: nat, attr: Attr)
    requires Valid(fs) && k < |path.segs| && path.Clean()
    requires Stat(fs.tree, path.Prefix(k)).Found? && fs.tree.IsDir(Stat(fs.tree, path.Prefix(k)).ino)
    requires path.segs[k] !in fs.tree.Entries(Stat(fs.tree, path.Prefix(k)).ino)
    ensures var d := Stat(fs.tree, path.Prefix(k)).ino;
      var fs' := AddNode(fs, d, path.segs[k], Dir(map[], d), attr);
      && Valid(fs') && Grows(fs.tree, fs'.tree)
      && Stat(fs'.tree, path.Prefix(k + 1)).Found? && Stat(fs'.tree, path.Prefix(k + 1)).ino == fs.next
      && fs'.tree.IsDir(fs.next) && fs'.tree.Entries(fs.next) == map[]
  {
    var d := Stat(fs.tree, path.Prefix(k)).ino;
    var fs' := AddNode(fs, d, path.segs[k], Dir(map[], d), attr);
    AddDirKeeps(fs, d, path.segs[k], attr);
    GrowsKeepsResolve(fs.tree, fs'.tree, path.Prefix(k), true);
    PrefixJoin(path, k);
    ChildResolve(fs'.tree, path.Prefix(k), path.segs[k], true);
  }

  lemma {:induction false} MakeSegmentsChain(fs: Fs, path: Path, k: nat, host: Host, job: Job)
    requires Valid(fs) && path.Clean() && k <= |path.segs| && Stat(fs.tree, path.Prefix(k)).Found?
    ensures MadeChain(fs, path, Reached(fs.tree, path, k), host, job, MakeSegments(fs, path, k, host, job))
    decreases |path.segs| - k, 1
  {
    var m := Reached(fs.tree, path, k);
    if k < |path.segs| {
      var cur := path.Prefix(k + 1);
      if Stat(fs.tree, cur).Found? {
        MakeSegmentsChain(fs, path, k + 1, host, job);
      } else {
        MakeHereChain(fs, path, k, host, job);
      }
    }
  }

  /** The first missing segment is `k`: either nothing is created, or one directory and the rest. */
  lemma {:induction false} MakeHereChain(fs: Fs, path: Path, k: nat, host: Host, job: Job)
    requires Valid(fs) && path.Clean() && k < |path.segs| && Stat(fs.tree, path.Prefix(k)).Found?
    requires !Stat(fs.tree, path.Prefix(k + 1)).Found?
    ensures MadeChain(fs, path, k, host, job, MakeSegments(fs, path, k, host, job))
    decreases |path.segs| - k, 0
  {
    var cur := path.Prefix(k + 1);
    var d := Stat(fs.tree, path.Prefix(k)).ino;
    var made := Mkdir(fs, cur, host, job.faults);
    if ErrnoOf(Stat(fs.tree, cur)) != ENOENT || made.err.Some? {
      NothingMade(fs, path, k, host, job, MakeSegments(fs, path, k, host, job));
    } else {
      MkdirPlace(fs, path, k, host, job.faults);
      var a := Apply(made.fs.tree, made.fs.attrs, cur, job, false);
      if a.err.Some? {
        MkdirResolves(fs, path, k, NewDirAttr(host));
        PartialChain(fs, path, k, d, host, job, made.fs, a);
      } else {
        var fs2 := MakeOne(fs, path, k, host, job);
        MakeSegmentsChain(fs2, path, k + 1, host, job);
        ChainStep(fs, path, k, d, host, job, fs2, MakeSegments(fs2, path, k + 1, host, job));
      }
    }
  }

  lemma NothingMade(fs: Fs, path: Path, k: nat, host: Host, job: Job, r: DirOutcome)
    requires k < |path.segs| && Stat(fs.tree, path.Prefix(k)).Found?
    requires r.fs == fs && !r.changed && r.err.Some?
    ensures MadeChain(fs, path, k, host, job, r)
  {
    assert path.segs[k..k] == [];
  }

  /** One full turn of the loop that creates: a directory with the job's attributes, and the next
      segment is again the first missing one. */
  lemma MakeOne(fs: Fs, path: Path, k: nat, host: Host, job: Job) returns (fs2: Fs)
    requires Valid(fs) && path.Clean() && k < |path.segs| && Stat(fs.tree, path.Prefix(k)).Found?
    requires fs.tree.IsDir(Stat(fs.tree, path.Prefix(k)).ino)
    requires path.segs[k] !in fs.tree.Entries(Stat(fs.tree, path.Prefix(k)).ino)
    requires var d := Stat(fs.tree, path.Prefix(k)).ino;
      var fs1 := AddNode(fs, d, path.segs[k], Dir(map[], d), NewDirAttr(host));
      Apply(fs1.tree, fs1.attrs, path.Prefix(k + 1), job, false).err.None?
    ensures var d := Stat(fs.tree, path.Prefix(k)).ino;
      var fs1 := AddNode(fs, d, path.segs[k], Dir(map[], d), NewDirAttr(host));
      && fs2 == fs1.(attrs := Apply(fs1.tree, fs1.attrs, path.Prefix(k + 1), job, false).attrs)
      && fs2 == AddNode(fs, d, path.segs[k], Dir(map[], d), MadeAttr(host, job))
    ensures Valid(fs2) && Reached(fs2.tree, path, k + 1) == k + 1
    ensures Stat(fs2.tree, path.Prefix(k + 1)).Found? && Stat(fs2.tree, path.Prefix(k + 1)).ino == fs.next
  {
    var d := Stat(fs.tree, path.Prefix(k)).ino;
    MkdirResolves(fs, path, k, NewDirAttr(host));
    var fs1 := AddNode(fs, d, path.segs[k], Dir(map[], d), NewDirAttr(host));
    assert Addresses(fs1.tree, path.Prefix(k + 1), false, fs.next);
    ApplyExact(fs1.tree, fs1.attrs, path.Prefix(k + 1), job, false, fs.next);
    fs2 := AddNode(fs, d, path.segs[k], Dir(map[], d), MadeAttr(host, job));
    MkdirResolves(fs, path, k, MadeAttr(host, job));
    if k + 1 < |path.segs| { EmptyDirMisses(fs2.tree, path, k + 1); }
  }

  /** Where mkdir puts the segment: into the directory its parent prefix leads to. */
  lemma MkdirPlace(fs: Fs, path: Path, k: nat, host: Host, faults: set<Fault>)
    requires path.Clean() && k < |path.segs| && Stat(fs.tree, path.Prefix(k)).Found?
    requires Mkdir(fs, path.Prefix(k + 1), host, faults).err.None?
    ensures var d := Stat(fs.tree, path.Prefix(k)).ino;
      && fs.tree.IsDir(d) && path.segs[k] !in fs.tree.Entries(d)
      && Mkdir(fs, path.Prefix(k + 1), host, faults).fs == AddNode(fs, d, path.segs[k], Dir(map[], d), NewDirAttr(host))
  {
    PrefixJoin(path, k);
    ChildResolve(fs.tree, path.Prefix(k), path.segs[k], false);
  }

  lemma PartialChain(fs: Fs, path: Path, k: nat, d: Ino, host: Host, job: Job, fs1: Fs, a: Outcome)
    requires Valid(fs) && k < |path.segs|
    requires Stat(fs.tree, path.Prefix(k)).Found? && Stat(fs.tree, path.Prefix(k)).ino == d
    requires fs.tree.IsDir(d) && path.segs[k] !in fs.tree.Entries(d)
    requires fs1 == AddNode(fs, d, path.segs[k], Dir(map[], d), NewDirAttr(host))
    requires Stat(fs1.tree, path.Prefix(k + 1)).Found? && Stat(fs1.tree, path.Prefix(k + 1)).ino == fs.next
    requires a == Apply(fs1.tree, fs1.attrs, path.Prefix(k + 1), job, false) && a.err.Some?
    ensures MadeChain(fs, path, k, host, job, DirOutcome(fs1.(attrs := a.attrs), true, a.err))
  {
    ApplyFrame(fs1.tree, fs1.attrs, path.Prefix(k + 1), job, false);
    var names := path.segs[k..k + 1];
    assert names[0] == path.segs[k] && names[1..] == [];
    forall i | i in fs.attrs
      ensures i in a.attrs && a.attrs[i] == fs.attrs[i]
    {
      assert i != fs.next;
    }
  }

  lemma ChainStep(fs: Fs, path: Path, k: nat, d: Ino, host: Host, job: Job, fs2: Fs, r: DirOutcome)
    requires Valid(fs) && k < |path.segs|
    requires Stat(fs.tree, path.Prefix(k)).Found? && Stat(fs.tree, path.Prefix(k)).ino == d
    requires fs.tree.IsDir(d) && path.segs[k] !in fs.tree.Entries(d)
    requires fs2 == AddNode(fs, d, path.segs[k], Dir(map[], d), MadeAttr(host, job))
    requires Stat(fs2.tree, path.Prefix(k + 1)).Found? && Stat(fs2.tree, path.Prefix(k + 1)).ino == fs.next
    requires MadeChain(fs2, path, k + 1, host, job, r)
    ensures MadeChain(fs, path, k, host, job, r.(changed := true))
  {
    var made := r.fs.next - fs.next;
    var names := path.segs[k..k + made];
    assert names[0] == path.segs[k] && names[1..] == path.segs[k + 1..k + made];
    forall i | i in fs.attrs
      ensures i in r.fs.attrs && r.fs.attrs[i] == fs.attrs[i]
    {
      assert i in fs2.attrs && i != fs.next;
    }
  }

  /** The tree `t'` extends that of `fs` by exactly the prefixes m+1 .. j of the path: each leads to
      its own new directory, in order, the next prefix still leads nowhere, there is no other new
      inode, and nothing that was there is lost or leads elsewhere. */
  ghost predicate ChainAt(fs: Fs, t': Tree, path: Path, m: nat, j: nat)
    requires m <= j <= |path.segs|
  {
    && Grows(fs.tree, t')
    && (forall i :: i in t'.nodes && i !in fs.tree.nodes ==> fs.next <= i < fs.next + (j - m))
    && (forall i :: fs.next <= i < fs.next + (j - m) ==> t'.IsDir(i))
    && (forall q :: m < q <= j ==>
          Stat(t', path.Prefix(q)).Found? && Stat(t', path.Prefix(q)).ino == fs.next + (q - m - 1))
    && (m < j < |path.segs| ==> Stat(t', path.Prefix(j + 1)).Missing?)
    && (m < j ==> t'.Entries(fs.next + (j - m - 1)) == map[])
  }

  /** Old inodes keep their attributes, new ones have `attr`. */
  ghost predicate AttrsExtend(fs: Fs, fs': Fs, attr: Attr) {
    && fs.attrs.Keys <= fs'.attrs.Keys
    && (forall i :: i in fs'.attrs ==> fs'.attrs[i] == (if i in fs.attrs then fs.attrs[i] else attr))
  }

  /** A created chain is where its prefixes lead, one new directory after the other, and nothing
      that resolved before resolves differently. */
  lemma {:induction false} ChainResolves(fs: Fs, path: Path, m: nat, j: nat, attr: Attr)
    requires Valid(fs) && path.Clean() && m <= j <= |path.segs|
    requires Stat(fs.tree, path.Prefix(m)).Found?
    requires m < j ==> fs.tree.IsDir(Stat(fs.tree, path.Prefix(m)).ino)
                       && path.segs[m] !in fs.tree.Entries(Stat(fs.tree, path.Prefix(m)).ino)
    ensures ChainFrom(fs, path, m, j, attr, AddChain(fs, Stat(fs.tree, path.Prefix(m)).ino, path.segs[m..j], attr))
    decreases j - m
  {
    var d := Stat(fs.tree, path.Prefix(m)).ino;
    if m < j {
      var names := path.segs[m..j];
      assert names[0] == path.segs[m] && names[1..] == path.segs[m + 1..j];
      MkdirResolves(fs, path, m, attr);
      var fs1 := AddNode(fs, d, path.segs[m], Dir(map[], d), attr);
      ChainResolves(fs1, path, m + 1, j, attr);
      if j == m + 1 && j < |path.segs| { EmptyDirMisses(fs1.tree, path, j); }
      var fs' := AddChain(fs1, fs.next, path.segs[m + 1..j], attr);
      assert j == m + 1 ==> path.segs[m + 1..j] == [] && fs' == fs1;
      ChainInodes(fs, fs1, fs'.tree, d, path.segs[m], attr, j - m - 1);
      ChainAtStep(fs, fs1, fs'.tree, path, m, j);
      AttrsExtendStep(fs, fs1, fs', attr);
    } else {
      assert path.segs[m..j] == [];
      GrowsReflexive(fs.tree);
    }
  }

  /** What adding a chain leaves. */
  ghost predicate ChainFrom(fs: Fs, path: Path, m: nat, j: nat, attr: Attr, fs': Fs)
    requires m <= j <= |path.segs|
  {
    Valid(fs') && fs'.next == fs.next + (j - m) && ChainAt(fs, fs'.tree, path, m, j) && AttrsExtend(fs, fs', attr)
  }

  lemma AttrsExtendStep(fs: Fs, fs1: Fs, fs': Fs, attr: Attr)
    requires fs1.attrs == fs.attrs[fs.next := attr] && fs.next !in fs.attrs && AttrsExtend(fs1, fs', attr)
    ensures AttrsExtend(fs, fs', attr)
  {}

  lemma ChainAtStep(fs: Fs, fs1: Fs, t': Tree, path: Path, m: nat, j: nat)
    requires m < j <= |path.segs| && Grows(fs.tree, fs1.tree) && fs1.next == fs.next + 1
    requires Stat(fs1.tree, path.Prefix(m + 1)).Found? && Stat(fs1.tree, path.Prefix(m + 1)).ino == fs.next
    requires ChainAt(fs1, t', path, m + 1, j)
    requires j == m + 1 ==> t' == fs1.tree && t'.Entries(fs.next) == map[]
    requires j == m + 1 && j < |path.segs| ==> Stat(fs1.tree, path.Prefix(j + 1)).Missing?
    requires forall i :: i in t'.nodes && i !in fs.tree.nodes ==> fs.next <= i < fs.next + (j - m)
    requires forall i :: fs.next <= i < fs.next + (j - m) ==> t'.IsDir(i)
    ensures ChainAt(fs, t', path, m, j)
  {
    GrowsTransitive(fs.tree, fs1.tree, t');
    GrowsKeepsResolve(fs1.tree, t', path.Prefix(m + 1), true);
  }

  lemma ChainInodes(fs: Fs, fs1: Fs, t': Tree, d: Ino, name: Name, attr: Attr, more: nat)
    requires fs.tree.IsDir(d) && fs1 == AddNode(fs, d, name, Dir(map[], d), attr) && Grows(fs1.tree, t')
    requires forall i :: i in t'.nodes && i !in fs1.tree.nodes ==> fs1.next <= i < fs1.next + more
    requires forall i :: fs1.next <= i < fs1.next + more ==> t'.IsDir(i)
    ensures forall i :: i in t'.nodes && i !in fs.tree.nodes ==> fs.next <= i < fs.next + more + 1
    ensures forall i :: fs.next <= i < fs.next + more + 1 ==> t'.IsDir(i)
  {
    assert KindGrows(fs1.tree.nodes[fs.next], t'.nodes[fs.next]);
    forall i | i in t'.nodes && i !in fs.tree.nodes
      ensures fs.next <= i < fs.next + more + 1
    {
      if i in fs1.tree.nodes { assert i == fs.next; }
    }
  }

  ghost predicate IsMissing(t: Tree, path: Path) {
    !Stat(t, path).Found? && ErrnoOf(Stat(t, path)) == ENOENT
  }

  /** The new inodes are a contiguous run of prefixes starting after `m`; nothing that was there has
      other attributes, leads elsewhere or is lost; a change is reported iff something was made. */
  ghost predicate Created(fs: Fs, path: Path, m: nat, r: DirOutcome) {
    && fs.next <= r.fs.next && m + (r.fs.next - fs.next) <= |path.segs|
    && ChainAt(fs, r.fs.tree, path, m, m + (r.fs.next - fs.next))
    && (forall i :: i in fs.attrs ==> i in r.fs.attrs && r.fs.attrs[i] == fs.attrs[i])
    && (r.changed <==> r.fs.next > fs.next)
    && (r.fs.next == fs.next ==> r.fs.tree == fs.tree)
  }

  /** Creating a missing path, whatever goes wrong on the way: the run of new directories starts at
      the first missing prefix. */
  lemma CreateExact(fs: Fs, path: Path, host: Host, job: Job)
    requires Valid(fs) && path.Clean() && IsMissing(fs.tree, path)
    ensures Created(fs, path, Reached(fs.tree, path, 0), EnsureDirectory(fs, path, host, job))
    ensures var r := EnsureDirectory(fs, path, host, job);
      r.err.None? ==> r.fs.next == fs.next + (|path.segs| - Reached(fs.tree, path, 0))
  {
    assert path.Prefix(0).segs == [];
    MakeSegmentsChain(fs, path, 0, host, job);
    ChainMeaning(fs, path, Reached(fs.tree, path, 0), host, job, MakeSegments(fs, path, 0, host, job));
  }

  lemma ChainMeaning(fs: Fs, path: Path, m: nat, host: Host, job: Job, r: DirOutcome)
    requires Valid(fs) && path.Clean() && m <= |path.segs| && MadeChain(fs, path, m, host, job, r)
    ensures Created(fs, path, m, r)
    ensures r.err.None? ==> r.fs.next == fs.next + (|path.segs| - m) && AttrsExtend(fs, r.fs, MadeAttr(host, job))
  {
    var made := r.fs.next - fs.next;
    ChainResolves(fs, path, m, m + made, MadeAttr(host, job));
    if made == 0 { assert path.segs[m..m] == []; }
  }

  /** On success every prefix is a directory, and each one that was made carries the requested
      owner, group and mode. */
  lemma CreateSucceeds(fs: Fs, path: Path, host: Host, job: Job)
    requires Valid(fs) && path.Clean() && IsMissing(fs.tree, path)
    requires EnsureDirectory(fs, path, host, job).err.None?
    ensures var r := EnsureDirectory(fs, path, host, job);
      && r.changed
      && (forall q :: 0 <= q <= |path.segs| ==> LeadsToDir(r.fs.tree, path.Prefix(q)))
      && Stat(r.fs.tree, path).Found? && Stat(r.fs.tree, path).ino !in fs.attrs
      && AttrsExtend(fs, r.fs, MadeAttr(host, job))
      && (Settles(PlanOf(job)) ==> AsRequested(Dir(map[], 0), MadeAttr(host, job), PlanOf(job)))
  {
    var r := EnsureDirectory(fs, path, host, job);
    var m := Reached(fs.tree, path, 0);
    assert path.Prefix(0).segs == [] && path.Prefix(|path.segs|) == path;
    MakeSegmentsChain(fs, path, 0, host, job);
    ChainMeaning(fs, path, m, host, job, r);
    TouchedAsRequested(Dir(map[], 0), NewDirAttr(host), PlanOf(job));
    forall q | 0 <= q <= |path.segs|
      ensures LeadsToDir(r.fs.tree, path.Prefix(q))
    {
      if q <= m {
        assert m < |path.segs|;
        OldPrefixIsDir(fs, r.fs.tree, path, m, q);
      }
    }
  }

  lemma CreatedIsEmpty(fs: Fs, path: Path, host: Host, job: Job)
    requires Valid(fs) && path.Clean() && IsMissing(fs.tree, path)
    requires EnsureDirectory(fs, path, host, job).err.None?
    ensures var t := EnsureDirectory(fs, path, host, job).fs.tree;
      Stat(t, path).Found? && t.Entries(Stat(t, path).ino) == map[]
  {
    CreateExact(fs, path, host, job);
    var m := Reached(fs.tree, path, 0);
    assert path.Prefix(|path.segs|) == path;
    RootResolves(fs, path);
    LeafOfChain(fs, path, m, EnsureDirectory(fs, path, host, job));
  }

  lemma RootResolves(fs: Fs, path: Path)
    requires Valid(fs)
    ensures Stat(fs.tree, path.Prefix(0)).Found?
  {
    assert path.Prefix(0).segs == [];
  }

  lemma LeafOfChain(fs: Fs, path: Path, m: nat, r: DirOutcome)
    requires m < |path.segs| && Created(fs, path, m, r) && r.fs.next == fs.next + (|path.segs| - m)
    ensures Stat(r.fs.tree, path).Found? && r.fs.tree.Entries(Stat(r.fs.tree, path).ino) == map[]
  {
    assert path.Prefix(|path.segs|) == path;
  }

  ghost predicate LeadsToDir(t: Tree, p: Path) {
    Stat(t, p).Found? && t.IsDir(Stat(t, p).ino)
  }

  lemma OldPrefixIsDir(fs: Fs, t': Tree, path: Path, m: nat, q: nat)
    requires q <= m < |path.segs| && m == Reached(fs.tree, path, 0) && Valid(fs)
    requires Grows(fs.tree, t') && Stat(t', path.Prefix(m + 1)).Found?
    ensures LeadsToDir(t', path.Prefix(q))
  {
    assert path.Prefix(0).segs == [];
    GrowsKeepsResolve(fs.tree, t', path.Prefix(q), true);
    if q < m { GrowsKeepsResolve(fs.tree, t', path.Prefix(q + 1), true); }
    PrefixIsDir(t', path, q);
  }

  lemma PrefixIsDir(t: Tree, path: Path, q: nat)
    requires q < |path.segs| && Stat(t, path.Prefix(q + 1)).Found?
    ensures Stat(t, path.Prefix(q)).Found? && t.IsDir(Stat(t, path.Prefix(q)).ino)
  {
    PrefixJoin(path, q);
    ParentResolves(t, path.Prefix(q), path.segs[q], true);
  }

  /** For a missing directory, mkdirAllOwned is ensureDirectoryAnsible with an empty mode. */
  lemma MkdirAllIsEnsure(fs: Fs, dir: Path, host: Host, job: Job)
    requires job.req.mode == "" && !Stat(fs.tree, dir).Found?
    ensures MkdirAll(fs, dir, host, job) == EnsureDirectory(fs, dir, host, job)
  {}

  // ---------------------------------------------------------------- the directory handler

  ghost function ReachSet(t: Tree, follow: bool, d: Ino): set<Ino> {
    set x | x in t.nodes && Reachable(t, follow, d, x)
  }

  /** The directories whose entries a request covers. */
  ghost function Visited(t: Tree, path: Path, recurse: bool, follow: bool): set<Ino> {
    if !recurse then {}
    else if follow then (if Stat(t, path).Found? then ReachSet(t, true, Stat(t, path).ino) else {})
    else if Lstat(t, path).Found? && t.IsDir(Lstat(t, path).ino) then ReachSet(t, false, Lstat(t, path).ino)
    else {}
  }

  lemma ReachableIsNode(t: Tree, follow: bool, d: Ino, x: Ino)
    requires Reachable(t, follow, d, x) && d in t.nodes
    ensures x in t.nodes
  {
    var trail :| Joins(t, follow, trail, d, x);
    if |trail| > 1 {
      assert Step(t, follow, trail[|trail| - 2], trail[|trail| - 1]);
    }
  }

  /** Both walks in one closed form. */
  lemma WalkSettles(t: Tree, attrs: Attrs, path: Path, job: Job, follow: bool)
    requires Sound(t) && Acyclic(t) && t.nodes.Keys <= attrs.Keys
    requires SetRecursively(t, attrs, path, job, follow).err.None?
    ensures var r := SetRecursively(t, attrs, path, job, follow);
      Settled(t, attrs, Touched(t, follow, Visited(t, path, true, follow)), job, r.attrs, r.changed)
  {
    var r := SetRecursively(t, attrs, path, job, follow);
    if follow {
      FollowExact(t, attrs, path, job);
      HopsShrink(t, Origin(t, path.abs, t.cwd), path.segs, MAX_HOPS, true);
      var d := Stat(t, path).ino;
      forall x | Reachable(t, true, d, x)
        ensures x in t.nodes
      {
        ReachableIsNode(t, true, d, x);
      }
      assert r.seen == Visited(t, path, true, true);
    } else if t.IsDir(Lstat(t, path).ino) {
      TreeExact(t, attrs, path, job);
      var d := Lstat(t, path).ino;
      forall x | Reachable(t, false, d, x)
        ensures x in t.nodes
      {
        ReachableIsNode(t, false, d, x);
      }
      assert SetOf(r.listed) == Visited(t, path, true, false);
    } else {
      SettledNothing(t, attrs, follow, job);
      assert SetOf([]) == {};
    }
  }

  /** The inodes a successful directory request is about: the directory and what the walk covers. */
  ghost function Covers(t: Tree, path: Path, recurse: bool, follow: bool): set<Ino> {
    (if Stat(t, path).Found? then {Stat(t, path).ino} else {}) + Touched(t, follow, Visited(t, path, recurse, follow))
  }

  /** A request on an existing directory, exactly: it changes no structure, settles the directory
      and the covered entries and nothing else, and reports a change iff one of them was not as
      requested. */
  lemma DirectoryExact(fs: Fs, path: Path, host: Host, job: Job, recurse: bool, follow: bool)
    requires Valid(fs) && Acyclic(fs.tree) && Stat(fs.tree, path).Found?
    requires FileDirectory(fs, path, host, job, recurse, follow).err.None?
    ensures fs.tree.IsDir(Stat(fs.tree, path).ino) && Understood(job)
    ensures var r := FileDirectory(fs, path, host, job, recurse, follow);
      && r.fs.tree == fs.tree && r.fs.next == fs.next
      && Settled(fs.tree, fs.attrs, Covers(fs.tree, path, recurse, follow), job, r.fs.attrs, r.changed)
  {
    var d := Stat(fs.tree, path).ino;
    var e := EnsureDirectory(fs, path, host, job);
    assert Addresses(fs.tree, path, false, d);
    ApplyExact(fs.tree, fs.attrs, path, job, false, d);
    SettleOne(fs.tree, fs.attrs, d, job, e.fs.attrs, e.changed);
    if recurse {
      WalkSettles(fs.tree, e.fs.attrs, path, job, follow);
      var w := SetRecursively(fs.tree, e.fs.attrs, path, job, follow);
      SettledThen(fs.tree, fs.attrs, e.fs.attrs, w.attrs, {d},
          Touched(fs.tree, follow, Visited(fs.tree, path, true, follow)),
                  job, e.changed, w.changed);
    } else {
      assert Touched(fs.tree, follow, {}) == {};
      assert {d} + {} == {d};
    }
  }

  /** `changed` says whether some inode's attributes differ between start and end, provided the
      request names attributes an inode can hold. */
  lemma ChangedIsDifference(fs: Fs, path: Path, host: Host, job: Job, recurse: bool, follow: bool)
    requires Valid(fs) && Acyclic(fs.tree) && Stat(fs.tree, path).Found?
    requires FileDirectory(fs, path, host, job, recurse, follow).err.None? && Settles(PlanOf(job))
    ensures var r := FileDirectory(fs, path, host, job, recurse, follow);
      r.changed <==> r.fs != fs
  {
    var r := FileDirectory(fs, path, host, job, recurse, follow);
    DirectoryExact(fs, path, host, job, recurse, follow);
    var plan := PlanOf(job);
    SettleDiffers(fs.tree, fs.attrs, Covers(fs.tree, path, recurse, follow), plan);
  }

  lemma SettleDiffers(t: Tree, attrs: Attrs, s: set<Ino>, plan: Plan)
    requires Settles(plan)
    ensures AnyWants(t, attrs, s, plan) <==> Settle(t, attrs, s, plan) != attrs
  {
    forall i | i in attrs && i in t.nodes
      ensures Wants(t.nodes[i], attrs[i], plan) <==> Touch(t.nodes[i], attrs[i], plan) != attrs[i]
    {
      TouchTwice(t.nodes[i], attrs[i], plan);
    }
    if AnyWants(t, attrs, s, plan) {
      var i :| i in s && i in attrs && i in t.nodes && Wants(t.nodes[i], attrs[i], plan);
      assert Settle(t, attrs, s, plan)[i] != attrs[i];
    } else {
      assert Settle(t, attrs, s, plan) == attrs;
    }
  }

  // ---------------------------------------------------------------- repeating a request

  /** The state a successful request leaves: the path is a directory and everything the request
      covers is settled. */
  ghost predicate Done(fs: Fs, path: Path, job: Job, recurse: bool, follow: bool) {
    && Stat(fs.tree, path).Found? && fs.tree.IsDir(Stat(fs.tree, path).ino)
    && Understood(job)
    && Settle(fs.tree, fs.attrs, Covers(fs.tree, path, recurse, follow), PlanOf(job)) == fs.attrs
  }

  lemma SettledIsFixed(t: Tree, attrs: Attrs, s: set<Ino>, plan: Plan)
    ensures Settle(t, Settle(t, attrs, s, plan), s, plan) == Settle(t, attrs, s, plan)
  {
    SettleTwice(t, attrs, s, s, plan);
    assert s + s == s;
  }

  lemma DirectoryDone(fs: Fs, path: Path, host: Host, job: Job, recurse: bool, follow: bool)
    requires Valid(fs) && Acyclic(fs.tree) && path.Clean()
    requires FileDirectory(fs, path, host, job, recurse, follow).err.None?
    ensures Done(FileDirectory(fs, path, host, job, recurse, follow).fs, path, job, recurse, follow)
  {
    var r := FileDirectory(fs, path, host, job, recurse, follow);
    if Stat(fs.tree, path).Found? {
      DirectoryExact(fs, path, host, job, recurse, follow);
      SettledIsFixed(fs.tree, fs.attrs, Covers(fs.tree, path, recurse, follow), PlanOf(job));
    } else {
      var e := EnsureDirectory(fs, path, host, job);
      CreatedLeaf(fs, path, host, job);
      EnsureAttrKeys(fs, path, host, job);
      var d := Stat(e.fs.tree, path).ino;
      var s := Touched(e.fs.tree, follow, Visited(e.fs.tree, path, recurse, follow));
      if recurse {
        WalkSettles(e.fs.tree, e.fs.attrs, path, job, follow);
      } else {
        assert Touched(e.fs.tree, follow, {}) == {};
        assert Settle(e.fs.tree, e.fs.attrs, {}, PlanOf(job)) == e.fs.attrs;
      }
      assert r.fs.attrs == Settle(e.fs.tree, e.fs.attrs, s, PlanOf(job));
      SettleTwice(e.fs.tree, e.fs.attrs, {d}, s, PlanOf(job));
      SettledIsFixed(e.fs.tree, e.fs.attrs, {d} + s, PlanOf(job));
    }
  }

  /** A created leaf already has the touched attributes, so settling it changes nothing. */
  lemma CreatedLeaf(fs: Fs, path: Path, host: Host, job: Job)
    requires Valid(fs) && Acyclic(fs.tree) && path.Clean() && !Stat(fs.tree, path).Found?
    requires EnsureDirectory(fs, path, host, job).err.None?
    ensures var e := EnsureDirectory(fs, path, host, job);
      && Stat(e.fs.tree, path).Found? && e.fs.tree.IsDir(Stat(e.fs.tree, path).ino) && Understood(job)
      && Settle(e.fs.tree, e.fs.attrs, {Stat(e.fs.tree, path).ino}, PlanOf(job)) == e.fs.attrs
  {
    var e := EnsureDirectory(fs, path, host, job);
    assert path.Prefix(|path.segs|) == path && path.Prefix(0).segs == [];
    CreateSucceeds(fs, path, host, job);
    assert LeadsToDir(e.fs.tree, path.Prefix(|path.segs|));
    var d := Stat(e.fs.tree, path).ino;
    ChainUnderstood(fs, path, 0, host, job);
    EnsureAttrKeys(fs, path, host, job);
    TouchTwice(Dir(map[], 0), NewDirAttr(host), PlanOf(job));
    var plan := PlanOf(job);
    assert Touch(e.fs.tree.nodes[d], e.fs.attrs[d], plan) == Touch(Dir(map[], 0), MadeAttr(host, job), plan);
  }

  lemma EnsureAttrKeys(fs: Fs, path: Path, host: Host, job: Job)
    requires Valid(fs) && Acyclic(fs.tree)
    ensures var e := EnsureDirectory(fs, path, host, job);
      e.fs.tree.nodes.Keys == e.fs.attrs.Keys && Sound(e.fs.tree) && Acyclic(e.fs.tree)
  {
    EnsureKeeps(fs, path, host, job);
  }

  lemma {:induction false} ChainUnderstood(fs: Fs, path: Path, k: nat, host: Host, job: Job)
    requires Valid(fs) && path.Clean() && k < |path.segs| && Stat(fs.tree, path.Prefix(k)).Found?
    requires !Stat(fs.tree, path).Found? && MakeSegments(fs, path, k, host, job).err.None?
    ensures Understood(job)
    decreases |path.segs| - k
  {
    assert path.Prefix(|path.segs|) == path;
    if Stat(fs.tree, path.Prefix(k + 1)).Found? {
      ChainUnderstood(fs, path, k + 1, host, job);
    } else {
      MkdirPlace(fs, path, k, host, job.faults);
      MkdirResolves(fs, path, k, NewDirAttr(host));
      var fs1 := Mkdir(fs, path.Prefix(k + 1), host, job.faults).fs;
      assert Addresses(fs1.tree, path.Prefix(k + 1), false, fs.next);
      ApplyExact(fs1.tree, fs1.attrs, path.Prefix(k + 1), job, false, fs.next);
    }
  }

  lemma QuietWhenSettled(t: Tree, attrs: Attrs, s: set<Ino>, plan: Plan)
    requires Settle(t, attrs, s, plan) == attrs && Settles(plan)
    ensures !AnyWants(t, attrs, s, plan)
  {
    forall i | i in s && i in attrs && i in t.nodes
      ensures !Wants(t.nodes[i], attrs[i], plan)
    {
      TouchedAsRequested(t.nodes[i], attrs[i], plan);
      assert Settle(t, attrs, s, plan)[i] == Touch(t.nodes[i], attrs[i], plan);
    }
  }

  /** A walk that succeeded succeeds again from any attributes on which the job is calm. */
  lemma WalkAgain(t: Tree, a1: Attrs, job: Job, a2: Attrs, again: Job, path: Path, follow: bool)
    requires Sound(t) && Acyclic(t) && t.nodes.Keys <= a1.Keys && Understood(job)
    requires SetRecursively(t, a1, path, job, follow).err.None?
    requires again.acc == job.acc && again.req == job.req
    requires Calm(t, a2, Touched(t, follow, Visited(t, path, true, follow)), again)
    ensures SetRecursively(t, a2, path, again, follow).err.None?
  {
    if follow {
      var d := Stat(t, path).ino;
      var r := FollowDir(t, a1, path, job, {d});
      FollowExact(t, a1, path, job);
      HopsShrink(t, Origin(t, path.abs, t.cwd), path.segs, MAX_HOPS, true);
      forall x | Reachable(t, true, d, x)
        ensures x in t.nodes
      {
        ReachableIsNode(t, true, d, x);
      }
      assert r.seen == Visited(t, path, true, true);
      FollowDirAgain(t, a1, job, a2, again, path, {d}, r.seen);
    } else if t.IsDir(Lstat(t, path).ino) {
      LstatIsStat(t, Origin(t, path.abs, t.cwd), path.segs, MAX_HOPS);
      var d := Lstat(t, path).ino;
      var s := Touched(t, false, Visited(t, path, true, false));
      ReachesItself(t, false, d);
      forall x, n | Reachable(t, false, d, x) && n in t.Entries(x) && !t.IsLink(t.Entries(x)[n])
        ensures t.Entries(x)[n] in s
      {
        ReachableIsNode(t, false, d, x);
      }
      TreeDirWorks(t, a2, path, again, d, s);
    }
  }

  /** The walk of a successful recursive request ran on the tree the request left. */
  lemma WalkOf(fs: Fs, path: Path, host: Host, job: Job, follow: bool)
    requires Valid(fs) && Acyclic(fs.tree) && FileDirectory(fs, path, host, job, true, follow).err.None?
    ensures var e := EnsureDirectory(fs, path, host, job);
      && Valid(e.fs) && Acyclic(e.fs.tree)
      && SetRecursively(e.fs.tree, e.fs.attrs, path, job, follow).err.None?
      && FileDirectory(fs, path, host, job, true, follow).fs.tree == e.fs.tree
  {
    EnsureKeeps(fs, path, host, job);
  }

  lemma HandlerKeeps(fs: Fs, path: Path, host: Host, job: Job, recurse: bool, follow: bool)
    requires Valid(fs) && Acyclic(fs.tree)
    ensures var r := FileDirectory(fs, path, host, job, recurse, follow); Valid(r.fs) && Acyclic(r.fs.tree)
  {
    EnsureKeeps(fs, path, host, job);
    if recurse {
      var e := EnsureDirectory(fs, path, host, job);
      assert SetRecursively(e.fs.tree, e.fs.attrs, path, job, follow).attrs.Keys == e.fs.attrs.Keys;
    }
  }

  /** Repeating a request on the state it left succeeds, whatever system calls would fail. */
  lemma RepeatSucceeds(fs: Fs, path: Path, host: Host, job: Job, again: Job, recurse: bool, follow: bool)
    requires Valid(fs) && Acyclic(fs.tree) && path.Clean()
    requires FileDirectory(fs, path, host, job, recurse, follow).err.None?
    requires again.acc == job.acc && again.req == job.req && (again.faults == {} || Settles(PlanOf(job)))
    ensures var fs1 := FileDirectory(fs, path, host, job, recurse, follow).fs;
      && Valid(fs1) && Acyclic(fs1.tree) && Done(fs1, path, job, recurse, follow)
      && FileDirectory(fs1, path, host, again, recurse, follow).err.None?
  {
    var fs1 := FileDirectory(fs, path, host, job, recurse, follow).fs;
    HandlerKeeps(fs, path, host, job, recurse, follow);
    DirectoryDone(fs, path, host, job, recurse, follow);
    EnsureDoneAgain(fs1, path, host, again, recurse, follow);
    if recurse {
      WalkOf(fs, path, host, job, follow);
      CoversCalm(fs1, path, again, follow);
      WalkAgain(fs1.tree, EnsureDirectory(fs, path, host, job).fs.attrs, job, fs1.attrs, again, path, follow);
    }
  }

  /** On a finished state the directory itself needs nothing that could fail. */
  lemma EnsureDoneAgain(fs: Fs, path: Path, host: Host, job: Job, recurse: bool, follow: bool)
    requires Valid(fs) && Done(fs, path, job, recurse, follow)
    requires job.faults == {} || Settles(PlanOf(job))
    ensures var e := EnsureDirectory(fs, path, host, job); e.err.None? && e.fs == fs
  {
    var t := fs.tree;
    var d := Stat(t, path).ino;
    var plan := PlanOf(job);
    assert d in Covers(t, path, recurse, follow);
    assert Settle(t, fs.attrs, Covers(t, path, recurse, follow), plan)[d] == Touch(t.nodes[d], fs.attrs[d], plan);
    TouchedAsRequested(t.nodes[d], fs.attrs[d], plan);
    assert Addresses(t, path, false, d);
    ApplySucceeds(t, fs.attrs, path, job, false, d);
    ApplyExact(t, fs.attrs, path, job, false, d);
  }

  lemma CoversCalm(fs: Fs, path: Path, job: Job, follow: bool)
    requires Valid(fs) && Done(fs, path, job, true, follow)
    requires job.faults == {} || Settles(PlanOf(job))
    ensures Calm(fs.tree, fs.attrs, Touched(fs.tree, follow, Visited(fs.tree, path, true, follow)), job)
  {
    if Settles(PlanOf(job)) { QuietWhenSettled(fs.tree, fs.attrs, Covers(fs.tree, path, true, follow), PlanOf(job)); }
  }

  /** Directory requests are idempotent. Repeating a successful one, recursive or not, following
      or not, on a path that existed or was created, succeeds and leaves the filesystem identical;
      it reports no change exactly when the requested attributes are ones an inode can hold
      (a mode of at most 0777 and ids below 2^32-1). With such a request the repetition makes no
      system call that could fail. */
  lemma DirectoryTwice(fs: Fs, path: Path, host: Host, job: Job, again: Job, recurse: bool, follow: bool)
    requires Valid(fs) && Acyclic(fs.tree) && path.Clean()
    requires FileDirectory(fs, path, host, job, recurse, follow).err.None?
    requires again.acc == job.acc && again.req == job.req && (again.faults == {} || Settles(PlanOf(job)))
    ensures var fs1 := FileDirectory(fs, path, host, job, recurse, follow).fs;
      && Valid(fs1) && Acyclic(fs1.tree)
      && var r := FileDirectory(fs1, path, host, again, recurse, follow);
      && r.err.None? && r.fs == fs1
      && (r.changed <==> !Settles(PlanOf(job)))
  {
    RepeatSucceeds(fs, path, host, job, again, recurse, follow);
    var fs1 := FileDirectory(fs, path, host, job, recurse, follow).fs;
    DirectoryExact(fs1, path, host, again, recurse, follow);
    var plan := PlanOf(job);
    var s := Covers(fs1.tree, path, recurse, follow);
    if Settles(plan) {
      QuietWhenSettled(fs1.tree, fs1.attrs, s, plan);
    } else {
      var d := Stat(fs1.tree, path).ino;
      assert d in s;
      TouchedAsRequested(fs1.tree.nodes[d], fs1.attrs[d], plan);
      assert Settle(fs1.tree, fs1.attrs, s, plan)[d] == Touch(fs1.tree.nodes[d], fs1.attrs[d], plan);
    }
  }
}
