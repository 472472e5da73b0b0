/** state=directory: creating missing segments one by one, and the handler around it. */
module Directories {
  import opened Wrappers
  import opened FileSystem
  import opened Resolution
  import opened Attributes
  import opened AttributeWalk

  /** What the agent process brings to every node it creates. */
  datatype Host = Host(umask: nat, uid: Id, gid: Id)

  datatype DirOutcome = DirOutcome(fs: Fs, changed: bool, err: Option<Error>)

  const MODE_DIR: Perm := 0x1ED  // 0755

  function NewDirAttr(host: Host): Attr { Attr(Masked(MODE_DIR, host.umask), host.uid, host.gid) }

  datatype Made = Made(fs: Fs, err: Option<Errno>)

  /** mkdir(2): the last segment is not followed, so a dangling symlink counts as existing. */
  function Mkdir(fs: Fs, p: Path, host: Host, faults: set<Fault>): Made {
    MissingPlace(fs.tree, Origin(fs.tree, p.abs, fs.tree.cwd), p.segs, MAX_HOPS, false);
    match Lstat(fs.tree, p)
    case Found(_, _) => Made(fs, Some(EEXIST))
    case Fail(e) => Made(fs, Some(e))
    case Missing(d, n) =>
      if Fault(MkdirCall, p) in faults then Made(fs, Some(EIO))
      else Made(AddNode(fs, d, n, Dir(map[], d), NewDirAttr(host)), None)
  }

  lemma GrowsReflexive(t: Tree)
    ensures Grows(t, t)
  {
    forall i | i in t.nodes
      ensures KindGrows(t.nodes[i], t.nodes[i])
    {}
  }

  lemma AddDirKeeps(fs: Fs, d: Ino, n: Name, attr: Attr)
    requires fs.tree.IsDir(d) && n !in fs.tree.Entries(d) && n != "." && n != ".."
    ensures var fs' := AddNode(fs, d, n, Dir(map[], d), attr);
      && (Valid(fs) ==> Valid(fs') && Grows(fs.tree, fs'.tree))
      && (Valid(fs) && Acyclic(fs.tree) ==> Acyclic(fs'.tree))
  {
    if Valid(fs) {
      AddNodeValid(fs, d, n, Dir(map[], d), attr);
      AddNodeGrows(fs, d, n, Dir(map[], d), attr);
      if Acyclic(fs.tree) { AddDirAcyclic(fs, d, n, attr); }
    }
  }

  lemma AddDirAcyclic(fs: Fs, d: Ino, n: Name, attr: Attr)
    requires Valid(fs) && Acyclic(fs.tree) && fs.tree.IsDir(d)
    ensures Acyclic(AddNode(fs, d, n, Dir(map[], d), attr).tree)
  {
    var t := fs.tree;
    var t' := AddNode(fs, d, n, Dir(map[], d), attr).tree;
    var rank :| Ranked(t, rank);
    var rank' := map i | i in t'.nodes :: if i == fs.next then 0 else if i in rank then rank[i] + 1 else 1;
    forall x, m | t'.IsDir(x) && m in t'.Entries(x) && t'.IsDir(t'.Entries(x)[m])
      ensures x in rank' && t'.Entries(x)[m] in rank' && rank'[t'.Entries(x)[m]] < rank'[x]
    {
      assert x != fs.next && t.IsDir(x);
      if t'.Entries(x)[m] != fs.next {
        assert m in t.Entries(x) && t.Entries(x)[m] == t'.Entries(x)[m];
      }
    }
    assert Ranked(t', rank');
  }

  /** The loop shared by both creators: make segment `k` and the ones after it where stat says
      they do not exist, giving each new one the job's attributes. */
  function MakeSegments(fs: Fs, path: Path, k: nat, host: Host, job: Job): DirOutcome
    requires k <= |path.segs|
    decreases |path.segs| - k
  {
    if k == |path.segs| then DirOutcome(fs, false, None)
    else
      var cur := path.Prefix(k + 1);
      match Stat(fs.tree, cur)
      case Found(_, _) => MakeSegments(fs, path, k + 1, host, job)
      case r =>
        var e := ErrnoOf(r);
        if e != ENOENT then DirOutcome(fs, false, Some(Sys(e)))
        else
          var m := Mkdir(fs, cur, host, job.faults);
          if m.err.Some? then DirOutcome(m.fs, false, Some(Sys(m.err.value)))
          else
            var a := Apply(m.fs.tree, m.fs.attrs, cur, job, false);
            var fs' := m.fs.(attrs := a.attrs);
            if a.err.Some? then DirOutcome(fs', true, a.err)
            else MakeSegments(fs', path, k + 1, host, job).(changed := true)
  }

  /** ensureDirectoryAnsible. */
  function EnsureDirectory(fs: Fs, path: Path, host: Host, job: Job): DirOutcome {
    match Stat(fs.tree, path)
    case Found(i, _) =>
      if !fs.tree.IsDir(i) then DirOutcome(fs, false, Some(NotADirectory))
      else
        var a := Apply(fs.tree, fs.attrs, path, job, false);
        DirOutcome(fs.(attrs := a.attrs), a.changed, a.err)
    case r =>
      var e := ErrnoOf(r);
      if e != ENOENT then DirOutcome(fs, false, Some(Sys(e)))
      else MakeSegments(fs, path, 0, host, job)
  }

  /** mkdirAllOwned: an existing directory is left as it is, and new ones get owner and group only. */
  function MkdirAll(fs: Fs, dir: Path, host: Host, job: Job): DirOutcome
    requires job.req.mode == ""
  {
    match Stat(fs.tree, dir)
    case Found(i, _) => DirOutcome(fs, false, if fs.tree.IsDir(i) then None else Some(NotADirectory))
    case r =>
      var e := ErrnoOf(r);
      if e != ENOENT then DirOutcome(fs, false, Some(Sys(e)))
      else MakeSegments(fs, dir, 0, host, job)
  }

  lemma {:induction false} MakeSegmentsKeeps(fs: Fs, path: Path, k: nat, host: Host, job: Job)
    requires k <= |path.segs| && Valid(fs) && Acyclic(fs.tree)
    ensures var r := MakeSegments(fs, path, k, host, job); Valid(r.fs) && Acyclic(r.fs.tree)
    decreases |path.segs| - k
  {
    if k < |path.segs| {
      var cur := path.Prefix(k + 1);
      if Stat(fs.tree, cur).Found? {
        MakeSegmentsKeeps(fs, path, k + 1, host, job);
      } else {
        var m := Mkdir(fs, cur, host, job.faults);
        MkdirKeeps(fs, cur, host, job.faults);
        if m.err.None? {
          var a := Apply(m.fs.tree, m.fs.attrs, cur, job, false);
          if a.err.None? {
            MakeSegmentsKeeps(m.fs.(attrs := a.attrs), path, k + 1, host, job);
          }
        }
      }
    }
  }

  lemma MkdirKeeps(fs: Fs, p: Path, host: Host, faults: set<Fault>)
    requires Valid(fs) && Acyclic(fs.tree)
    ensures var r := Mkdir(fs, p, host, faults); Valid(r.fs) && Acyclic(r.fs.tree)
  {
    if Lstat(fs.tree, p).Missing? {
      MissingPlace(fs.tree, Origin(fs.tree, p.abs, fs.tree.cwd), p.segs, MAX_HOPS, false);
      AddDirKeeps(fs, Lstat(fs.tree, p).dir, Lstat(fs.tree, p).name, NewDirAttr(host));
    }
  }

  /** Creating directories keeps the table well formed and the hierarchy free of cycles. */
  lemma EnsureKeeps(fs: Fs, path: Path, host: Host, job: Job)
    requires Valid(fs) && Acyclic(fs.tree)
    ensures var r := EnsureDirectory(fs, path, host, job); Valid(r.fs) && Acyclic(r.fs.tree)
  {
    MakeSegmentsKeeps(fs, path, 0, host, job);
  }

  /** handleFileDirectory. */
  function FileDirectory(fs: Fs, path: Path, host: Host, job: Job, recurse: bool, follow: bool): DirOutcome
    requires Valid(fs) && Acyclic(fs.tree)
  {
    var e := EnsureDirectory(fs, path, host, job);
    EnsureKeeps(fs, path, host, job);
    if e.err.Some? || !recurse then e
    else
      var w := SetRecursively(e.fs.tree, e.fs.attrs, path, job, follow);
      DirOutcome(e.fs.(attrs := w.attrs), e.changed || w.changed, w.err)
  }
}
