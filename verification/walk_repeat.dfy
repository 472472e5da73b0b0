/** When a pass succeeds, when the two passes agree, and what a second pass does. */
module WalkRepeat {
  import opened Wrappers
  import opened FileSystem
  import opened Resolution
  import opened Attributes
  import opened Listings
  import opened AttributeWalk
  import opened WalkTheorems

  /** Nothing in the way of applying the job to the inodes `s`: no call fails, or no call that
      could fail is needed. */
  ghost predicate Calm(t: Tree, attrs: Attrs, s: set<Ino>, job: Job) {
    && t.nodes.Keys <= attrs.Keys
    && (job.faults == {} || !AnyWants(t, attrs, s, PlanOf(job)))
  }

  lemma CalmEntry(t: Tree, attrs: Attrs, s: set<Ino>, path: Path, e: DirEntry, job: Job)
    requires Sound(t) && EntriesAt(t, path, [e]) && Calm(t, attrs, s, job) && Understood(job)
    requires t.Entries(Stat(t, path).ino)[e.name] in s
    ensures var a := Apply(t, attrs, path.Join(e.name), job, e.isLink); a.err.None? && Calm(t, a.attrs, s, job)
  {
    assert e in [e];
    ChildEntry(t, path, e.name);
    var i := t.Entries(Stat(t, path).ino)[e.name];
    assert i in t.nodes && Addresses(t, path.Join(e.name), e.isLink, i);
    ApplySucceeds(t, attrs, path.Join(e.name), job, e.isLink, i);
    EntrySettled(t, attrs, path, e, job);
    if job.faults != {} {
      QuietStays(t, attrs, s, i, job);
    }
  }

  lemma QuietStays(t: Tree, attrs: Attrs, s: set<Ino>, i: Ino, job: Job)
    requires i in s && !AnyWants(t, attrs, s, PlanOf(job))
    ensures Settle(t, attrs, {i}, PlanOf(job)) == attrs
  {
    if i in attrs && i in t.nodes { TouchTwice(t.nodes[i], attrs[i], PlanOf(job)); }
  }

  // ---------------------------------------------------------------- a walk that worked works again

  lemma {:induction false} FollowDirAgain(t: Tree, a1: Attrs, job1: Job, a2: Attrs, job2: Job, path: Path,
                                          seen: set<Ino>, s: set<Ino>)
    requires Sound(t) && t.nodes.Keys <= a1.Keys && FollowDir(t, a1, path, job1, seen).err.None?
    requires job2.acc == job1.acc && job2.req == job1.req && Calm(t, a2, Touched(t, true, s), job2)
    requires Stat(t, path).Found? && Stat(t, path).ino in s && FollowDir(t, a1, path, job1, seen).seen <= s
    ensures var r := FollowDir(t, a2, path, job2, seen);
      && r.err.None? && r.seen == FollowDir(t, a1, path, job1, seen).seen
      && Calm(t, r.attrs, Touched(t, true, s), job2)
    decreases Dirs(t) - seen, 1, 0
  {
    ReadDirLists(t, path);
    FollowEntriesAgain(t, a1, job1, a2, job2, path, ReadDir(t, path).entries, seen, s);
  }

  lemma {:induction false} FollowEntriesAgain(t: Tree, a1: Attrs, job1: Job, a2: Attrs, job2: Job, path: Path,
                                              es: seq<DirEntry>, seen: set<Ino>, s: set<Ino>)
    requires Sound(t) && t.nodes.Keys <= a1.Keys && EntriesAt(t, path, es)
    requires FollowEntries(t, a1, path, es, job1, seen).err.None?
    requires job2.acc == job1.acc && job2.req == job1.req && Calm(t, a2, Touched(t, true, s), job2)
    requires Stat(t, path).ino in s && FollowEntries(t, a1, path, es, job1, seen).seen <= s
    ensures var r := FollowEntries(t, a2, path, es, job2, seen);
      && r.err.None? && r.seen == FollowEntries(t, a1, path, es, job1, seen).seen
      && Calm(t, r.attrs, Touched(t, true, s), job2)
    decreases Dirs(t) - seen, 0, |es|
  {
    if |es| > 0 {
      TailEntries(t, path, es);
      assert es[0] in es;
      var child := path.Join(es[0].name);
      var i := Stat(t, child).ino;
      EntrySettled(t, a1, path, es[0], job1);
      CalmEntry(t, a2, Touched(t, true, s), path, es[0], job2);
      var b1 := Apply(t, a1, child, job1, es[0].isLink).attrs;
      var b2 := Apply(t, a2, child, job2, es[0].isLink).attrs;
      if !t.IsDir(i) || i in seen {
        FollowEntriesAgain(t, b1, job1, b2, job2, path, es[1..], seen, s);
      } else {
        assert i in Dirs(t) - seen;
        FollowDirAgain(t, b1, job1, b2, job2, child, seen + {i}, s);
        var r1 := FollowDir(t, b1, child, job1, seen + {i});
        var r2 := FollowDir(t, b2, child, job2, seen + {i});
        FollowEntriesAgain(t, r1.attrs, job1, r2.attrs, job2, path, es[1..], r1.seen, s);
      }
    }
  }

  /** The tree walk fails only if the request is not understood or a call fails. */
  lemma {:induction false} TreeDirWorks(t: Tree, attrs: Attrs, path: Path, job: Job, d: Ino, s: set<Ino>)
    requires Sound(t) && Acyclic(t) && Understood(job) && Calm(t, attrs, s, job)
    requires Stat(t, path).Found? && t.IsDir(Stat(t, path).ino) && Reachable(t, false, d, Stat(t, path).ino)
    requires forall x, n :: Reachable(t, false, d, x) && n in t.Entries(x) && !t.IsLink(t.Entries(x)[n]) ==>
        t.Entries(x)[n] in s
    ensures var r := TreeDir(t, attrs, path, job); r.err.None? && Calm(t, r.attrs, s, job)
    decreases DepthAt(t, path), 1, 0
  {
    ReadDirLists(t, path);
    TreeEntriesWork(t, attrs, path, ReadDir(t, path).entries, job, d, s);
  }

  lemma {:induction false} TreeEntriesWork(t: Tree, attrs: Attrs, path: Path, es: seq<DirEntry>, job: Job, d: Ino,
                                           s: set<Ino>)
    requires Sound(t) && Acyclic(t) && Understood(job) && Calm(t, attrs, s, job)
    requires EntriesAt(t, path, es) && Reachable(t, false, d, Stat(t, path).ino)
    requires forall x, n :: Reachable(t, false, d, x) && n in t.Entries(x) && !t.IsLink(t.Entries(x)[n]) ==>
        t.Entries(x)[n] in s
    ensures var r := TreeEntries(t, attrs, path, es, job); r.err.None? && Calm(t, r.attrs, s, job)
    decreases DepthAt(t, path), 0, |es|
  {
    if |es| > 0 {
      TailEntries(t, path, es);
      assert es[0] in es;
      if es[0].isLink {
        TreeEntriesWork(t, attrs, path, es[1..], job, d, s);
      } else {
        var child := path.Join(es[0].name);
        var i := t.Entries(Stat(t, path).ino)[es[0].name];
        CalmEntry(t, attrs, s, path, es[0], job);
        var b := Apply(t, attrs, child, job, false).attrs;
        if es[0].isDir {
          ChildEntry(t, path, es[0].name);
          ChildIsShallower(t, path, es[0]);
          ReachesNext(t, false, d, Stat(t, path).ino, i);
          TreeDirWorks(t, b, child, job, d, s);
          TreeEntriesWork(t, TreeDir(t, b, child, job).attrs, path, es[1..], job, d, s);
        } else {
          TreeEntriesWork(t, b, path, es[1..], job, d, s);
        }
      }
    }
  }

  lemma ReachesNext(t: Tree, follow: bool, d: Ino, x: Ino, y: Ino)
    requires Reachable(t, follow, d, x)
    requires exists n :: n in t.Entries(x) && t.Entries(x)[n] == y && t.IsDir(y)
    requires !follow
    ensures Reachable(t, follow, d, y)
  {
    assert Step(t, follow, x, y);
    var trail :| Joins(t, follow, trail, d, x);
    var longer := trail + [y];
    forall k | 0 < k < |longer|
      ensures Step(t, follow, longer[k - 1], longer[k])
    {
      if k < |trail| { assert Step(t, follow, trail[k - 1], trail[k]); }
    }
    assert Joins(t, follow, longer, d, y);
  }

  // ---------------------------------------------------------------- agreement without symlinks

  /** No symlink below `d`. */
  ghost predicate SymlinkFree(t: Tree, d: Ino) {
    forall x, n :: Reachable(t, false, d, x) && n in t.Entries(x) ==> !t.IsLink(t.Entries(x)[n])
  }

  lemma PlainStep(t: Tree, d: Ino, x: Ino, i: Ino)
    requires Sound(t) && SymlinkFree(t, d) && Reachable(t, false, d, x)
    ensures Step(t, true, x, i) <==> Step(t, false, x, i)
  {
    forall n | n in t.Entries(x)
      ensures ChildDir(t, x, n) == if t.IsDir(t.Entries(x)[n]) then Some(t.Entries(x)[n]) else None
    {
      assert t.Entries(x)[n] in t.nodes && !t.IsLink(t.Entries(x)[n]);
      assert Walk(t, x, [n], MAX_HOPS, true) == Walk(t, t.Entries(x)[n], [], MAX_HOPS, true);
    }
    if Step(t, true, x, i) {
      var n :| n in t.Entries(x) && ChildDir(t, x, n) == Some(i);
      assert t.Entries(x)[n] == i;
    }
    if Step(t, false, x, i) {
      var n :| n in t.Entries(x) && t.Entries(x)[n] == i && t.IsDir(i);
      assert ChildDir(t, x, n) == Some(i);
    }
  }

  lemma {:induction false} FollowDirWorks(t: Tree, attrs: Attrs, path: Path, job: Job, seen: set<Ino>, d: Ino,
                                          s: set<Ino>)
    requires Sound(t) && Understood(job) && SymlinkFree(t, d) && Calm(t, attrs, s, job)
    requires Stat(t, path).Found? && t.IsDir(Stat(t, path).ino) && Reachable(t, false, d, Stat(t, path).ino)
    requires forall x, n :: Reachable(t, false, d, x) && n in t.Entries(x) ==> t.Entries(x)[n] in s
    ensures var r := FollowDir(t, attrs, path, job, seen); r.err.None? && Calm(t, r.attrs, s, job)
    decreases Dirs(t) - seen, 1, 0
  {
    ReadDirLists(t, path);
    FollowEntriesWork(t, attrs, path, ReadDir(t, path).entries, job, seen, d, s);
  }

  lemma {:induction false} FollowEntriesWork(t: Tree, attrs: Attrs, path: Path, es: seq<DirEntry>, job: Job,
                                             seen: set<Ino>, d: Ino, s: set<Ino>)
    requires Sound(t) && Understood(job) && SymlinkFree(t, d) && Calm(t, attrs, s, job)
    requires EntriesAt(t, path, es) && Reachable(t, false, d, Stat(t, path).ino)
    requires forall x, n :: Reachable(t, false, d, x) && n in t.Entries(x) ==> t.Entries(x)[n] in s
    ensures var r := FollowEntries(t, attrs, path, es, job, seen); r.err.None? && Calm(t, r.attrs, s, job)
    decreases Dirs(t) - seen, 0, |es|
  {
    if |es| > 0 {
      TailEntries(t, path, es);
      assert es[0] in es;
      var child := path.Join(es[0].name);
      ChildEntry(t, path, es[0].name);
      var i := t.Entries(Stat(t, path).ino)[es[0].name];
      assert !t.IsLink(i);
      CalmEntry(t, attrs, s, path, es[0], job);
      var b := Apply(t, attrs, child, job, es[0].isLink).attrs;
      if !t.IsDir(i) || i in seen {
        FollowEntriesWork(t, b, path, es[1..], job, seen, d, s);
      } else {
        assert i in Dirs(t) - seen;
        ReachesNext(t, false, d, Stat(t, path).ino, i);
        FollowDirWorks(t, b, child, job, seen + {i}, d, s);
        var r := FollowDir(t, b, child, job, seen + {i});
        FollowEntriesWork(t, r.attrs, path, es[1..], job, r.seen, d, s);
      }
    }
  }

  /** What both passes report and leave behind. */
  ghost predicate Agree(a: Visit, b: Visit) {
    a.attrs == b.attrs && a.changed == b.changed && a.err == b.err
  }

  lemma AgreeOnSuccess(t: Tree, attrs: Attrs, path: Path, job: Job)
    requires Sound(t) && Acyclic(t) && t.nodes.Keys <= attrs.Keys
    requires Lstat(t, path).Found? && t.IsDir(Lstat(t, path).ino) && SymlinkFree(t, Lstat(t, path).ino)
    requires SetRecursively(t, attrs, path, job, true).err.None?
    requires SetRecursively(t, attrs, path, job, false).err.None?
    ensures Agree(SetRecursively(t, attrs, path, job, true), SetRecursively(t, attrs, path, job, false))
  {
    LstatIsStat(t, Origin(t, path.abs, t.cwd), path.segs, MAX_HOPS);
    var d := Stat(t, path).ino;
    var f := SetRecursively(t, attrs, path, job, true);
    var p := SetRecursively(t, attrs, path, job, false);
    FollowExact(t, attrs, path, job);
    TreeExact(t, attrs, path, job);
    var plain := SetOf(p.listed);
    assert forall x :: x in plain <==> Reachable(t, false, d, x);
    ReachesItself(t, false, d);
    ReachesItself(t, true, d);
    assert ClosedUnder(t, true, plain) by {
      forall x, i | x in plain && Step(t, true, x, i)
        ensures i in plain
      {
        PlainStep(t, d, x, i);
        ReachesNext(t, false, d, x, i);
      }
    }
    forall x | x in f.seen
      ensures x in plain
    {
      ReachStaysInside(t, true, plain, d, x);
    }
    assert ClosedUnder(t, false, f.seen) by {
      forall x, i | x in f.seen && Step(t, false, x, i)
        ensures i in f.seen
      {
        PlainStep(t, d, x, i);
        var n :| n in t.Entries(x) && ChildDir(t, x, n) == Some(i);
        SeenIsClosed(t, attrs, path, job, x, i);
      }
    }
    forall x | x in plain
      ensures x in f.seen
    {
      ReachStaysInside(t, false, f.seen, d, x);
    }
    assert f.seen == plain;
    assert Touched(t, true, plain) == Touched(t, false, plain);
  }

  lemma SeenIsClosed(t: Tree, attrs: Attrs, path: Path, job: Job, x: Ino, i: Ino)
    requires Sound(t) && Acyclic(t) && t.nodes.Keys <= attrs.Keys
    requires SetRecursively(t, attrs, path, job, true).err.None?
    requires x in SetRecursively(t, attrs, path, job, true).seen && Step(t, true, x, i)
    ensures i in SetRecursively(t, attrs, path, job, true).seen
  {
    var d := Stat(t, path).ino;
    var r := FollowDir(t, attrs, path, job, {d});
    FollowDirCovers(t, attrs, path, job, {d});
    assert {d} + (r.seen - {d}) == r.seen;
    var n :| n in t.Entries(x) && ChildDir(t, x, n) == Some(i);
    assert Covered(t, x, n, r.seen);
  }

  /** On a directory with no symlink below it, following and not following are the same request:
      one succeeds iff the other does, with the same attributes everywhere and the same `changed`. */
  lemma SymlinkFreeAgree(t: Tree, attrs: Attrs, path: Path, job: Job)
    requires Sound(t) && Acyclic(t) && t.nodes.Keys <= attrs.Keys && job.faults == {}
    requires Lstat(t, path).Found? && t.IsDir(Lstat(t, path).ino) && SymlinkFree(t, Lstat(t, path).ino)
    ensures Agree(SetRecursively(t, attrs, path, job, true), SetRecursively(t, attrs, path, job, false))
  {
    LstatIsStat(t, Origin(t, path.abs, t.cwd), path.segs, MAX_HOPS);
    var d := Stat(t, path).ino;
    ReachesItself(t, false, d);
    if Understood(job) {
      var s := set x, n | x in t.nodes && n in t.Entries(x) :: t.Entries(x)[n];
      forall x, n | Reachable(t, false, d, x) && n in t.Entries(x)
        ensures t.Entries(x)[n] in s
      {
        assert x in t.nodes;
      }
      FollowDirWorks(t, attrs, path, job, {d}, d, s);
      TreeDirWorks(t, attrs, path, job, d, s);
      AgreeOnSuccess(t, attrs, path, job);
    } else {
      ReadDirLists(t, path);
      var es := ReadDir(t, path).entries;
      assert FollowDir(t, attrs, path, job, {d}).attrs == FollowEntries(t, attrs, path, es, job, {d}).attrs;
      assert TreeDir(t, attrs, path, job).attrs == TreeEntries(t, attrs, path, es, job).attrs;
      if |es| > 0 {
        assert es[0] in es;
        TailEntries(t, path, es);
        assert !es[0].isLink;
        if Apply(t, attrs, path.Join(es[0].name), job, false).err.None? {
          EntrySettled(t, attrs, path, es[0], job);
          assert false;
        }
        var a := Apply(t, attrs, path.Join(es[0].name), job, false);
        assert FollowEntries(t, attrs, path, es, job, {d}) == Visit(a.attrs, {d}, [], false, a.err);
        assert TreeEntries(t, attrs, path, es, job) == Visit(a.attrs, {}, [], false, a.err);
      }
    }
  }
}
