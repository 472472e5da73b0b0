/** The two recursive attribute passes over a directory: the symlink-following graph walk with its
    `seen` set, and the pre-order tree walk that skips symlinks. */
module AttributeWalk {
  import opened Wrappers
  import opened FileSystem
  import opened Resolution
  import opened Attributes
  import opened Listings

  /** The result of a pass. `listed` records the directories whose entries were read, in order. */
  datatype Visit = Visit(attrs: Attrs, seen: set<Ino>, listed: seq<Ino>, changed: bool, err: Option<Error>)

  function Dirs(t: Tree): set<Ino> {
    set i | i in t.nodes && t.IsDir(i)
  }

  // ---------------------------------------------------------------- following symlinks

  /** recursivelySetAttributesFollow. */
  function FollowDir(t: Tree, attrs: Attrs, path: Path, job: Job, seen: set<Ino>): (r: Visit)
    ensures seen <= r.seen && r.attrs.Keys == attrs.Keys
    decreases Dirs(t) - seen, 1, 0
  {
    match ReadDir(t, path)
    case NotListed(e) => Visit(attrs, seen, [], false, Some(Sys(e)))
    case Listed(es) =>
      var r := FollowEntries(t, attrs, path, es, job, seen);
      r.(listed := [Stat(t, path).ino] + r.listed)
  }

  /** The loop over the entries that are still to be processed. */
  function FollowEntries(t: Tree, attrs: Attrs, path: Path, es: seq<DirEntry>, job: Job, seen: set<Ino>): (r: Visit)
    ensures seen <= r.seen && r.attrs.Keys == attrs.Keys
    decreases Dirs(t) - seen, 0, |es|
  {
    if |es| == 0 then Visit(attrs, seen, [], false, None)
    else
      var child := path.Join(es[0].name);
      var a := Apply(t, attrs, child, job, es[0].isLink);
      if a.err.Some? then Visit(a.attrs, seen, [], false, a.err)
      else
        match Stat(t, child)
        case Found(i, _) =>
          if !t.IsDir(i) || i in seen then
            var q := FollowEntries(t, a.attrs, path, es[1..], job, seen);
            q.(changed := a.changed || q.changed)
          else
            assert i in Dirs(t) - seen;
            var r := FollowDir(t, a.attrs, child, job, seen + {i});
            if r.err.Some? then r.(changed := a.changed || r.changed)
            else
              var q := FollowEntries(t, r.attrs, path, es[1..], job, r.seen);
              q.(changed := a.changed || r.changed || q.changed, listed := r.listed + q.listed)
        case r => Visit(a.attrs, seen, [], a.changed, Some(Sys(ErrnoOf(r))))
  }

  // ---------------------------------------------------------------- not following symlinks

  /** The kernel keeps the directory hierarchy free of cycles; `rank` bounds how deep one can
      still descend. */
  ghost predicate Ranked(t: Tree, rank: map<Ino, nat>) {
    forall d, n :: t.IsDir(d) && n in t.Entries(d) && t.IsDir(t.Entries(d)[n]) ==>
      d in rank && t.Entries(d)[n] in rank && rank[t.Entries(d)[n]] < rank[d]
  }

  ghost predicate Acyclic(t: Tree) {
    exists rank :: Ranked(t, rank)
  }

  ghost function Depth(t: Tree, i: Ino): nat
    requires Acyclic(t)
  {
    var rank :| Ranked(t, rank);
    if i in rank then rank[i] else 0
  }

  ghost function DepthAt(t: Tree, p: Path): nat
    requires Acyclic(t)
  {
    if Stat(t, p).Found? then Depth(t, Stat(t, p).ino) else 0
  }

  lemma ChildIsShallower(t: Tree, p: Path, e: DirEntry)
    requires Sound(t) && Acyclic(t) && EntriesAt(t, p, [e]) && e.isDir
    ensures DepthAt(t, p.Join(e.name)) < DepthAt(t, p)
  {
    assert e in [e];
    ChildEntry(t, p, e.name);
  }

  /** filepath.WalkDir below a directory, with the callback of recursivelySetAttributes. */
  function TreeDir(t: Tree, attrs: Attrs, path: Path, job: Job): (r: Visit)
    requires Sound(t) && Acyclic(t)
    ensures r.attrs.Keys == attrs.Keys
    decreases DepthAt(t, path), 1, 0
  {
    match ReadDir(t, path)
    case NotListed(e) => Visit(attrs, {}, [], false, Some(Sys(e)))
    case Listed(es) =>
      ReadDirLists(t, path);
      var r := TreeEntries(t, attrs, path, es, job);
      r.(listed := [Stat(t, path).ino] + r.listed)
  }

  function TreeEntries(t: Tree, attrs: Attrs, path: Path, es: seq<DirEntry>, job: Job): (r: Visit)
    requires Sound(t) && Acyclic(t) && EntriesAt(t, path, es)
    ensures r.attrs.Keys == attrs.Keys
    decreases DepthAt(t, path), 0, |es|
  {
    if |es| == 0 then Visit(attrs, {}, [], false, None)
    else if es[0].isLink then TreeEntries(t, attrs, path, es[1..], job)
    else
      var child := path.Join(es[0].name);
      var a := Apply(t, attrs, child, job, false);
      if a.err.Some? then Visit(a.attrs, {}, [], false, a.err)
      else if !es[0].isDir then
        var q := TreeEntries(t, a.attrs, path, es[1..], job);
        q.(changed := a.changed || q.changed)
      else
        assert EntriesAt(t, path, [es[0]]);
        ChildIsShallower(t, path, es[0]);
        var r := TreeDir(t, a.attrs, child, job);
        if r.err.Some? then r.(changed := a.changed || r.changed)
        else
          var q := TreeEntries(t, r.attrs, path, es[1..], job);
          q.(changed := a.changed || r.changed || q.changed, listed := r.listed + q.listed)
  }

  // ---------------------------------------------------------------- both, from the root

  /** recursivelySetAttributes. Without `follow`, WalkDir starts with lstat and so does nothing
      below a root that is itself a symlink. */
  function SetRecursively(t: Tree, attrs: Attrs, path: Path, job: Job, follow: bool): Visit
    requires Sound(t) && Acyclic(t)
  {
    if follow then
      match Stat(t, path)
      case Found(d, _) => FollowDir(t, attrs, path, job, {d})
      case r => Visit(attrs, {}, [], false, Some(Sys(ErrnoOf(r))))
    else
      match Lstat(t, path)
      case Found(d, _) =>
        if t.IsDir(d) then TreeDir(t, attrs, path, job) else Visit(attrs, {}, [], false, None)
      case r => Visit(attrs, {}, [], false, Some(Sys(ErrnoOf(r))))
  }
}
