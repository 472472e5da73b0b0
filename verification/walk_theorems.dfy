/** What the recursive attribute passes do, said without their order of visits: which inodes they
    touch, what those inodes look like afterwards, and when a change is reported. */
module WalkTheorems {
  import opened Wrappers
  import opened FileSystem
  import opened Resolution
  import opened Attributes
  import opened Listings
  import opened AttributeWalk

  // ---------------------------------------------------------------- reachability

  /** The directory an entry leads to when symlinks are followed. */
  function ChildDir(t: Tree, d: Ino, name: Name): Option<Ino> {
    match Walk(t, d, [name], MAX_HOPS, true)
    case Found(i, _) => if t.IsDir(i) then Some(i) else None
    case _ => None
  }

  /** One directory leads to another through a single entry: a subdirectory or, when following,
      also a symlink that resolves to a directory. */
  ghost predicate Step(t: Tree, follow: bool, d: Ino, i: Ino) {
    exists name :: name in t.Entries(d) &&
      if follow then ChildDir(t, d, name) == Some(i) else t.Entries(d)[name] == i && t.IsDir(i)
  }

  ghost predicate IsTrail(t: Tree, follow: bool, trail: seq<Ino>) {
    |trail| > 0 && forall k :: 0 < k < |trail| ==> Step(t, follow, trail[k - 1], trail[k])
  }

  ghost predicate Joins(t: Tree, follow: bool, trail: seq<Ino>, d: Ino, x: Ino) {
    IsTrail(t, follow, trail) && trail[0] == d && trail[|trail| - 1] == x
  }

  ghost predicate Reachable(t: Tree, follow: bool, d: Ino, x: Ino) {
    exists trail :: Joins(t, follow, trail, d, x)
  }

  lemma ReachesItself(t: Tree, follow: bool, d: Ino)
    ensures Reachable(t, follow, d, d)
  {
    assert Joins(t, follow, [d], d, d);
  }

  lemma ReachesFurther(t: Tree, follow: bool, d: Ino, i: Ino, x: Ino)
    requires Step(t, follow, d, i) && Reachable(t, follow, i, x)
    ensures Reachable(t, follow, d, x)
  {
    var trail :| Joins(t, follow, trail, i, x);
    var longer := [d] + trail;
    forall k | 0 < k < |longer|
      ensures Step(t, follow, longer[k - 1], longer[k])
    {
      if k > 1 { assert Step(t, follow, trail[k - 2], trail[k - 1]); }
    }
    assert Joins(t, follow, longer, d, x);
  }

  ghost predicate ClosedUnder(t: Tree, follow: bool, s: set<Ino>) {
    forall d, i :: d in s && Step(t, follow, d, i) ==> i in s
  }

  lemma ReachStaysInside(t: Tree, follow: bool, s: set<Ino>, d: Ino, x: Ino)
    requires d in s && ClosedUnder(t, follow, s) && Reachable(t, follow, d, x)
    ensures x in s
  {
    var trail :| Joins(t, follow, trail, d, x);
    var k := 0;
    while k < |trail| - 1
      invariant 0 <= k < |trail| && trail[k] in s
    {
      assert Step(t, follow, trail[k], trail[k + 1]);
      k := k + 1;
    }
  }

  // ---------------------------------------------------------------- touching a set of inodes

  /** The entries a pass touches in the given directories: all of them when following (a symlink
      itself, not its target), otherwise all but the symlinks. */
  ghost function Touched(t: Tree, follow: bool, dirs: set<Ino>): set<Ino> {
    set d, n | d in dirs && n in t.Entries(d) && (follow || !t.IsLink(t.Entries(d)[n])) :: t.Entries(d)[n]
  }

  ghost function Named(t: Tree, follow: bool, d: Ino, es: seq<DirEntry>): set<Ino> {
    set e | e in es && e.name in t.Entries(d) && (follow || !t.IsLink(t.Entries(d)[e.name])) :: t.Entries(d)[e.name]
  }

  /** Every inode of `s` has the touched attributes, every other inode its old ones. */
  ghost function Settle(t: Tree, attrs: Attrs, s: set<Ino>, plan: Plan): Attrs {
    map i | i in attrs :: if i in s && i in t.nodes then Touch(t.nodes[i], attrs[i], plan) else attrs[i]
  }

  ghost predicate AnyWants(t: Tree, attrs: Attrs, s: set<Ino>, plan: Plan) {
    exists i :: i in s && i in attrs && i in t.nodes && Wants(t.nodes[i], attrs[i], plan)
  }

  lemma SettleTwice(t: Tree, attrs: Attrs, a: set<Ino>, b: set<Ino>, plan: Plan)
    ensures Settle(t, Settle(t, attrs, a, plan), b, plan) == Settle(t, attrs, a + b, plan)
    ensures AnyWants(t, attrs, a, plan) || AnyWants(t, Settle(t, attrs, a, plan), b, plan) <==>
            AnyWants(t, attrs, a + b, plan)
  {
    var mid := Settle(t, attrs, a, plan);
    forall i | i in attrs && i in t.nodes
      ensures Touch(t.nodes[i], Touch(t.nodes[i], attrs[i], plan), plan) == Touch(t.nodes[i], attrs[i], plan)
      ensures Wants(t.nodes[i], Touch(t.nodes[i], attrs[i], plan), plan) ==> Wants(t.nodes[i], attrs[i], plan)
    {
      TouchTwice(t.nodes[i], attrs[i], plan);
    }
    if AnyWants(t, attrs, a + b, plan) && !AnyWants(t, attrs, a, plan) {
      var i :| i in a + b && i in attrs && i in t.nodes && Wants(t.nodes[i], attrs[i], plan);
      assert i !in a && mid[i] == attrs[i];
    }
  }

  /** The closed form of a pass over the inodes `s`. */
  ghost predicate Settled(t: Tree, before: Attrs, s: set<Ino>, job: Job, after: Attrs, changed: bool) {
    && after == Settle(t, before, s, PlanOf(job))
    && (changed <==> AnyWants(t, before, s, PlanOf(job)))
  }

  lemma SettledThen(t: Tree, a0: Attrs, a1: Attrs, a2: Attrs, s1: set<Ino>, s2: set<Ino>, job: Job, c1: bool, c2: bool)
    requires Settled(t, a0, s1, job, a1, c1) && Settled(t, a1, s2, job, a2, c2)
    ensures Settled(t, a0, s1 + s2, job, a2, c1 || c2)
  {
    SettleTwice(t, a0, s1, s2, PlanOf(job));
  }

  lemma TouchedUnion(t: Tree, follow: bool, a: set<Ino>, b: set<Ino>)
    ensures Touched(t, follow, a + b) == Touched(t, follow, a) + Touched(t, follow, b)
  {}

  lemma NamedAll(t: Tree, follow: bool, p: Path)
    requires ReadDir(t, p).Listed?
    ensures var d := Stat(t, p).ino; Named(t, follow, d, ReadDir(t, p).entries) == Touched(t, follow, {d})
  {
    ReadDirLists(t, p);
    var d := Stat(t, p).ino;
    var es := ReadDir(t, p).entries;
    forall n | n in t.Entries(d) && (follow || !t.IsLink(t.Entries(d)[n]))
      ensures t.Entries(d)[n] in Named(t, follow, d, es)
    {
      var e :| e in es && e.name == n;
    }
  }

  lemma NamedCons(t: Tree, follow: bool, d: Ino, es: seq<DirEntry>)
    requires |es| > 0 && es[0].name in t.Entries(d)
    ensures var i := t.Entries(d)[es[0].name];
      Named(t, follow, d, es) == (if follow || !t.IsLink(i) then {i} else {}) + Named(t, follow, d, es[1..])
  {
    assert es == [es[0]] + es[1..];
    forall e | e in es
      ensures e == es[0] || e in es[1..]
    {}
  }

  lemma SettleOne(t: Tree, attrs: Attrs, i: Ino, job: Job, after: Attrs, changed: bool)
    requires i in attrs && i in t.nodes
    requires after == attrs[i := Touch(t.nodes[i], attrs[i], PlanOf(job))]
    requires changed <==> Wants(t.nodes[i], attrs[i], PlanOf(job))
    ensures Settled(t, attrs, {i}, job, after, changed)
  {
    var plan := PlanOf(job);
    assert after == Settle(t, attrs, {i}, plan);
    if changed { assert i in {i}; }
  }

  // ---------------------------------------------------------------- one entry

  /** A successful call on an entry settles exactly the entry's own inode. */
  lemma EntrySettled(t: Tree, attrs: Attrs, path: Path, e: DirEntry, job: Job)
    requires Sound(t) && EntriesAt(t, path, [e]) && t.nodes.Keys <= attrs.Keys
    requires Apply(t, attrs, path.Join(e.name), job, e.isLink).err.None?
    ensures var a := Apply(t, attrs, path.Join(e.name), job, e.isLink);
      && Settled(t, attrs, {t.Entries(Stat(t, path).ino)[e.name]}, job, a.attrs, a.changed)
      && t.nodes.Keys <= a.attrs.Keys && Understood(job)
  {
    assert e in [e];
    ChildEntry(t, path, e.name);
    var i := t.Entries(Stat(t, path).ino)[e.name];
    assert i in t.nodes && Addresses(t, path.Join(e.name), e.isLink, i);
    ApplyExact(t, attrs, path.Join(e.name), job, e.isLink, i);
    var a := Apply(t, attrs, path.Join(e.name), job, e.isLink);
    SettleOne(t, attrs, i, job, a.attrs, a.changed);
  }

  /** What an entry's path leads to under its remaining budget is what it leads to from the
      directory with a full budget. */
  lemma EntryFollowed(t: Tree, path: Path, name: Name)
    requires Stat(t, path).Found? && Stat(t, path.Join(name)).Found?
    ensures var i := Stat(t, path.Join(name)).ino; var d := Stat(t, path).ino;
      && Walk(t, d, [name], MAX_HOPS, true).Found? && Walk(t, d, [name], MAX_HOPS, true).ino == i
      && (t.IsDir(i) ==> ChildDir(t, d, name) == Some(i))
      && (!t.IsDir(i) ==> ChildDir(t, d, name) == None)
  {
    ChildResolve(t, path, name, true);
    MoreHops(t, Stat(t, path).ino, [name], Stat(t, path).hops, MAX_HOPS, true);
  }

  lemma TailEntries(t: Tree, path: Path, es: seq<DirEntry>)
    requires EntriesAt(t, path, es) && |es| > 0
    ensures EntriesAt(t, path, [es[0]]) && EntriesAt(t, path, es[1..])
  {
    assert es[0] in es;
    forall e | e in es[1..]
      ensures e in es
    {}
  }

  // ---------------------------------------------------------------- the following walk

  /** Everything newly seen is reachable. */
  lemma {:induction false} FollowDirReaches(t: Tree, attrs: Attrs, path: Path, job: Job, seen: set<Ino>)
    requires Sound(t) && Stat(t, path).Found?
    ensures forall x :: x in FollowDir(t, attrs, path, job, seen).seen - seen ==>
        Reachable(t, true, Stat(t, path).ino, x)
    decreases Dirs(t) - seen, 1, 0
  {
    ReadDirLists(t, path);
    if ReadDir(t, path).Listed? {
      FollowEntriesReach(t, attrs, path, ReadDir(t, path).entries, job, seen);
    }
  }

  lemma {:induction false} FollowEntriesReach(t: Tree, attrs: Attrs, path: Path, es: seq<DirEntry>, job: Job,
                                              seen: set<Ino>)
    requires Sound(t) && EntriesAt(t, path, es)
    ensures forall x :: x in FollowEntries(t, attrs, path, es, job, seen).seen - seen ==>
              Reachable(t, true, Stat(t, path).ino, x)
    decreases Dirs(t) - seen, 0, |es|
  {
    if |es| > 0 {
      TailEntries(t, path, es);
      assert es[0] in es;
      var child := path.Join(es[0].name);
      var a := Apply(t, attrs, child, job, es[0].isLink);
      if a.err.None? && Stat(t, child).Found? {
        var d, i := Stat(t, path).ino, Stat(t, child).ino;
        if !t.IsDir(i) || i in seen {
          FollowEntriesReach(t, a.attrs, path, es[1..], job, seen);
        } else {
          EntryFollowed(t, path, es[0].name);
          assert Step(t, true, d, i);
          assert i in Dirs(t) - seen;
          var r := FollowDir(t, a.attrs, child, job, seen + {i});
          FollowDirReaches(t, a.attrs, child, job, seen + {i});
          forall x | x in r.seen - seen
            ensures Reachable(t, true, d, x)
          {
            if x == i { ReachesItself(t, true, i); }
            ReachesFurther(t, true, d, i, x);
          }
          if r.err.None? {
            FollowEntriesReach(t, r.attrs, path, es[1..], job, r.seen);
          }
        }
      }
    }
  }

  /** An entry that resolves and, if it leads to a directory, leads into `s`. */
  ghost predicate Covered(t: Tree, d: Ino, name: Name, s: set<Ino>) {
    && Walk(t, d, [name], MAX_HOPS, true).Found?
    && (ChildDir(t, d, name).Some? ==> ChildDir(t, d, name).value in s)
  }

  ghost predicate AllCovered(t: Tree, dirs: set<Ino>, s: set<Ino>) {
    forall d, n :: d in dirs && n in t.Entries(d) ==> Covered(t, d, n, s)
  }

  /** Everything newly seen has been processed completely. */
  lemma {:induction false} FollowDirCovers(t: Tree, attrs: Attrs, path: Path, job: Job, seen: set<Ino>)
    requires Sound(t) && FollowDir(t, attrs, path, job, seen).err.None?
    ensures Stat(t, path).Found? && t.IsDir(Stat(t, path).ino)
    ensures var r := FollowDir(t, attrs, path, job, seen);
      AllCovered(t, (r.seen - seen) + {Stat(t, path).ino}, r.seen)
    decreases Dirs(t) - seen, 1, 0
  {
    ReadDirLists(t, path);
    FollowEntriesCover(t, attrs, path, ReadDir(t, path).entries, job, seen);
  }

  lemma {:induction false} FollowEntriesCover(t: Tree, attrs: Attrs, path: Path, es: seq<DirEntry>, job: Job,
                                              seen: set<Ino>)
    requires Sound(t) && EntriesAt(t, path, es) && FollowEntries(t, attrs, path, es, job, seen).err.None?
    ensures var r := FollowEntries(t, attrs, path, es, job, seen);
      && AllCovered(t, r.seen - seen, r.seen)
      && (forall e :: e in es ==> Covered(t, Stat(t, path).ino, e.name, r.seen))
    decreases Dirs(t) - seen, 0, |es|
  {
    if |es| > 0 {
      TailEntries(t, path, es);
      assert es[0] in es;
      var child := path.Join(es[0].name);
      var a := Apply(t, attrs, child, job, es[0].isLink);
      var i := Stat(t, child).ino;
      EntryFollowed(t, path, es[0].name);
      if !t.IsDir(i) || i in seen {
        FollowEntriesCover(t, a.attrs, path, es[1..], job, seen);
        CoverLeaf(t, Stat(t, path).ino, es, seen, i, FollowEntries(t, a.attrs, path, es[1..], job, seen).seen);
      } else {
        assert i in Dirs(t) - seen;
        var r := FollowDir(t, a.attrs, child, job, seen + {i});
        FollowDirCovers(t, a.attrs, child, job, seen + {i});
        FollowEntriesCover(t, r.attrs, path, es[1..], job, r.seen);
        CoverDir(t, Stat(t, path).ino, es, seen, i, r.seen, FollowEntries(t, r.attrs, path, es[1..], job, r.seen).seen);
      }
    }
  }

  lemma CoverLeaf(t: Tree, d: Ino, es: seq<DirEntry>, seen: set<Ino>, i: Ino, after: set<Ino>)
    requires |es| > 0 && seen <= after
    requires Walk(t, d, [es[0].name], MAX_HOPS, true).Found?
    requires ChildDir(t, d, es[0].name) == (if t.IsDir(i) then Some(i) else None) && (t.IsDir(i) ==> i in seen)
    requires forall e :: e in es[1..] ==> Covered(t, d, e.name, after)
    ensures forall e :: e in es ==> Covered(t, d, e.name, after)
  {
    forall e | e in es
      ensures e == es[0] || e in es[1..]
    {}
  }

  lemma CoverDir(t: Tree, d: Ino, es: seq<DirEntry>, seen: set<Ino>, i: Ino, mid: set<Ino>, after: set<Ino>)
    requires |es| > 0 && seen + {i} <= mid <= after
    requires Walk(t, d, [es[0].name], MAX_HOPS, true).Found? && ChildDir(t, d, es[0].name) == Some(i)
    requires AllCovered(t, (mid - (seen + {i})) + {i}, mid) && AllCovered(t, after - mid, after)
    requires forall e :: e in es[1..] ==> Covered(t, d, e.name, after)
    ensures AllCovered(t, after - seen, after)
    ensures forall e :: e in es ==> Covered(t, d, e.name, after)
  {
    forall e | e in es
      ensures e == es[0] || e in es[1..]
    {}
    forall x, n | x in after - seen && n in t.Entries(x)
      ensures Covered(t, x, n, after)
    {
      if x in mid { assert Covered(t, x, n, mid); }
    }
  }

  /** The entries of everything newly seen are settled, and nothing else changes. */
  lemma {:induction false} FollowDirSettles(t: Tree, attrs: Attrs, path: Path, job: Job, seen: set<Ino>)
    requires Sound(t) && t.nodes.Keys <= attrs.Keys && FollowDir(t, attrs, path, job, seen).err.None?
    ensures Stat(t, path).Found?
    ensures var r := FollowDir(t, attrs, path, job, seen);
      Settled(t, attrs, Touched(t, true, {Stat(t, path).ino} + (r.seen - seen)), job, r.attrs, r.changed)
    decreases Dirs(t) - seen, 1, 0
  {
    ReadDirLists(t, path);
    FollowEntriesSettle(t, attrs, path, ReadDir(t, path).entries, job, seen);
    NamedAll(t, true, path);
    TouchedUnion(t, true, {Stat(t, path).ino}, FollowDir(t, attrs, path, job, seen).seen - seen);
  }

  lemma {:induction false} FollowEntriesSettle(t: Tree, attrs: Attrs, path: Path, es: seq<DirEntry>, job: Job,
                                               seen: set<Ino>)
    requires Sound(t) && EntriesAt(t, path, es) && t.nodes.Keys <= attrs.Keys
    requires FollowEntries(t, attrs, path, es, job, seen).err.None?
    ensures var r := FollowEntries(t, attrs, path, es, job, seen);
      Settled(t, attrs, Named(t, true, Stat(t, path).ino, es) + Touched(t, true, r.seen - seen), job, r.attrs,
          r.changed)
    decreases Dirs(t) - seen, 0, |es|
  {
    var d := Stat(t, path).ino;
    if |es| == 0 {
      assert Named(t, true, d, es) + Touched(t, true, {}) == {};
      assert seen - seen == {};
      assert Settle(t, attrs, {}, PlanOf(job)) == attrs;
    } else {
      TailEntries(t, path, es);
      assert es[0] in es;
      EntrySettled(t, attrs, path, es[0], job);
      var child := path.Join(es[0].name);
      var a := Apply(t, attrs, child, job, es[0].isLink);
      var i := Stat(t, child).ino;
      if !t.IsDir(i) || i in seen {
        FollowEntriesSettle(t, a.attrs, path, es[1..], job, seen);
        CombineLeaf(t, d, attrs, a, es, job, seen, FollowEntries(t, a.attrs, path, es[1..], job, seen));
      } else {
        assert i in Dirs(t) - seen;
        var r1 := FollowDir(t, a.attrs, child, job, seen + {i});
        FollowDirSettles(t, a.attrs, child, job, seen + {i});
        FollowEntriesSettle(t, r1.attrs, path, es[1..], job, r1.seen);
        CombineDir(t, d, attrs, a, es, job, seen, i, r1, FollowEntries(t, r1.attrs, path, es[1..], job, r1.seen));
      }
    }
  }

  lemma CombineLeaf(t: Tree, d: Ino, attrs: Attrs, a: Outcome, es: seq<DirEntry>, job: Job, seen: set<Ino>, q: Visit)
    requires |es| > 0 && es[0].name in t.Entries(d)
    requires Settled(t, attrs, {t.Entries(d)[es[0].name]}, job, a.attrs, a.changed)
    requires Settled(t, a.attrs, Named(t, true, d, es[1..]) + Touched(t, true, q.seen - seen), job, q.attrs, q.changed)
    ensures Settled(t, attrs, Named(t, true, d, es) + Touched(t, true, q.seen - seen), job, q.attrs,
        a.changed || q.changed)
  {
    NamedCons(t, true, d, es);
    var own := {t.Entries(d)[es[0].name]};
    var rest := Named(t, true, d, es[1..]);
    var deep := Touched(t, true, q.seen - seen);
    SettledThen(t, attrs, a.attrs, q.attrs, own, rest + deep, job, a.changed, q.changed);
    assert own + (rest + deep) == (own + rest) + deep;
  }

  lemma CombineDir(t: Tree, d: Ino, attrs: Attrs, a: Outcome, es: seq<DirEntry>, job: Job, seen: set<Ino>, i: Ino,
                   r: Visit, q: Visit)
    requires |es| > 0 && es[0].name in t.Entries(d)
    requires i !in seen && seen + {i} <= r.seen <= q.seen
    requires Settled(t, attrs, {t.Entries(d)[es[0].name]}, job, a.attrs, a.changed)
    requires Settled(t, a.attrs, Touched(t, true, {i} + (r.seen - (seen + {i}))), job, r.attrs, r.changed)
    requires Settled(t, r.attrs, Named(t, true, d, es[1..]) + Touched(t, true, q.seen - r.seen), job, q.attrs,
        q.changed)
    ensures Settled(t, attrs, Named(t, true, d, es) + Touched(t, true, q.seen - seen), job, q.attrs,
                    a.changed || r.changed || q.changed)
  {
    NamedCons(t, true, d, es);
    var own := {t.Entries(d)[es[0].name]};
    var rest := Named(t, true, d, es[1..]);
    var s1 := Touched(t, true, r.seen - seen);
    var s2 := Touched(t, true, q.seen - r.seen);
    assert {i} + (r.seen - (seen + {i})) == r.seen - seen;
    assert (r.seen - seen) + (q.seen - r.seen) == q.seen - seen;
    TouchedUnion(t, true, r.seen - seen, q.seen - r.seen);
    SettledThen(t, attrs, a.attrs, r.attrs, own, s1, job, a.changed, r.changed);
    SettledThen(t, attrs, r.attrs, q.attrs, own + s1, rest + s2, job, a.changed || r.changed, q.changed);
    assert (own + s1) + (rest + s2) == (own + rest) + (s1 + s2);
  }

  /** No directory is listed twice. */
  lemma {:induction false} FollowDirListsOnce(t: Tree, attrs: Attrs, path: Path, job: Job, seen: set<Ino>)
    requires Stat(t, path).Found? && Stat(t, path).ino in seen
    requires FollowDir(t, attrs, path, job, seen).err.None?
    ensures var r := FollowDir(t, attrs, path, job, seen);
      multiset(r.listed) == multiset({Stat(t, path).ino} + (r.seen - seen))
    decreases Dirs(t) - seen, 1, 0
  {
    FollowEntriesListOnce(t, attrs, path, ReadDir(t, path).entries, job, seen);
  }

  lemma {:induction false} FollowEntriesListOnce(t: Tree, attrs: Attrs, path: Path, es: seq<DirEntry>, job: Job,
                                                 seen: set<Ino>)
    requires FollowEntries(t, attrs, path, es, job, seen).err.None?
    ensures var r := FollowEntries(t, attrs, path, es, job, seen);
      multiset(r.listed) == multiset(r.seen - seen)
    decreases Dirs(t) - seen, 0, |es|
  {
    if |es| > 0 {
      var child := path.Join(es[0].name);
      var a := Apply(t, attrs, child, job, es[0].isLink);
      var i := Stat(t, child).ino;
      if !t.IsDir(i) || i in seen {
        FollowEntriesListOnce(t, a.attrs, path, es[1..], job, seen);
      } else {
        assert i in Dirs(t) - seen;
        var r := FollowDir(t, a.attrs, child, job, seen + {i});
        var q := FollowEntries(t, r.attrs, path, es[1..], job, r.seen);
        FollowDirListsOnce(t, a.attrs, child, job, seen + {i});
        FollowEntriesListOnce(t, r.attrs, path, es[1..], job, r.seen);
        assert {i} + (r.seen - (seen + {i})) == r.seen - seen;
        assert q.seen - seen == (r.seen - seen) + (q.seen - r.seen);
      }
    }
  }

  /** The following walk, exactly. When it succeeds, `seen` is the set of directories reachable
      from the root through entries and resolved symlinks, each of them was listed once, every
      entry of each was settled (symlinks themselves, their targets only if they are entries),
      nothing else was changed, and a change is reported iff some entry was not as requested. */
  lemma FollowExact(t: Tree, attrs: Attrs, path: Path, job: Job)
    requires Sound(t) && Acyclic(t) && t.nodes.Keys <= attrs.Keys
    requires SetRecursively(t, attrs, path, job, true).err.None?
    ensures Stat(t, path).Found?
    ensures var r := SetRecursively(t, attrs, path, job, true);
      && (forall x :: x in r.seen <==> Reachable(t, true, Stat(t, path).ino, x))
      && multiset(r.listed) == multiset(r.seen)
      && Settled(t, attrs, Touched(t, true, r.seen), job, r.attrs, r.changed)
  {
    var d := Stat(t, path).ino;
    var r := FollowDir(t, attrs, path, job, {d});
    assert {d} + (r.seen - {d}) == r.seen;
    FollowDirReaches(t, attrs, path, job, {d});
    FollowDirCovers(t, attrs, path, job, {d});
    FollowDirSettles(t, attrs, path, job, {d});
    FollowDirListsOnce(t, attrs, path, job, {d});
    assert ClosedUnder(t, true, r.seen) by {
      forall x, i | x in r.seen && Step(t, true, x, i)
        ensures i in r.seen
      {
        var n :| n in t.Entries(x) && ChildDir(t, x, n) == Some(i);
        assert Covered(t, x, n, r.seen);
      }
    }
    forall x
      ensures x in r.seen <==> Reachable(t, true, d, x)
    {
      if x == d { ReachesItself(t, true, d); }
      if Reachable(t, true, d, x) { ReachStaysInside(t, true, r.seen, d, x); }
    }
  }

  // ---------------------------------------------------------------- the walk that skips symlinks

  ghost function SetOf(s: seq<Ino>): set<Ino> { set x | x in s }

  lemma SetOfAppend(a: seq<Ino>, b: seq<Ino>)
    ensures SetOf(a + b) == SetOf(a) + SetOf(b)
  {}

  lemma {:induction false} TreeDirReaches(t: Tree, attrs: Attrs, path: Path, job: Job)
    requires Sound(t) && Acyclic(t) && TreeDir(t, attrs, path, job).err.None?
    ensures Stat(t, path).Found?
    ensures var r := TreeDir(t, attrs, path, job); var d := Stat(t, path).ino;
      && (forall x :: x in r.listed ==> Reachable(t, false, d, x))
      && d in r.listed
      && (forall x, n :: x in r.listed && n in t.Entries(x) && t.IsDir(t.Entries(x)[n]) ==> t.Entries(x)[n] in r.listed)
    decreases DepthAt(t, path), 1, 0
  {
    ReadDirLists(t, path);
    var es := ReadDir(t, path).entries;
    TreeEntriesReach(t, attrs, path, es, job);
    var d := Stat(t, path).ino;
    ReachesItself(t, false, d);
    var r := TreeDir(t, attrs, path, job);
    forall x, n | x in r.listed && n in t.Entries(x) && t.IsDir(t.Entries(x)[n])
      ensures t.Entries(x)[n] in r.listed
    {
      if x == d { var e :| e in es && e.name == n; }
    }
  }

  lemma {:induction false} TreeEntriesReach(t: Tree, attrs: Attrs, path: Path, es: seq<DirEntry>, job: Job)
    requires Sound(t) && Acyclic(t) && EntriesAt(t, path, es) && TreeEntries(t, attrs, path, es, job).err.None?
    ensures var r := TreeEntries(t, attrs, path, es, job); var d := Stat(t, path).ino;
      && (forall x :: x in r.listed ==> Reachable(t, false, d, x))
      && (forall e :: e in es && e.isDir ==> t.Entries(d)[e.name] in r.listed)
      && (forall x, n :: x in r.listed && n in t.Entries(x) && t.IsDir(t.Entries(x)[n]) ==> t.Entries(x)[n] in r.listed)
    decreases DepthAt(t, path), 0, |es|
  {
    if |es| > 0 {
      TailEntries(t, path, es);
      assert es[0] in es;
      assert forall e :: e in es ==> e == es[0] || e in es[1..];
      var child := path.Join(es[0].name);
      var a := Apply(t, attrs, child, job, false);
      if es[0].isLink {
        TreeEntriesReach(t, attrs, path, es[1..], job);
      } else if !es[0].isDir {
        TreeEntriesReach(t, a.attrs, path, es[1..], job);
      } else {
        ChildEntry(t, path, es[0].name);
        ChildIsShallower(t, path, es[0]);
        var d, i := Stat(t, path).ino, t.Entries(Stat(t, path).ino)[es[0].name];
        var r := TreeDir(t, a.attrs, child, job);
        TreeDirReaches(t, a.attrs, child, job);
        assert Step(t, false, d, i);
        forall x | x in r.listed
          ensures Reachable(t, false, d, x)
        {
          ReachesFurther(t, false, d, i, x);
        }
        TreeEntriesReach(t, r.attrs, path, es[1..], job);
      }
    }
  }

  lemma {:induction false} TreeDirSettles(t: Tree, attrs: Attrs, path: Path, job: Job)
    requires Sound(t) && Acyclic(t) && t.nodes.Keys <= attrs.Keys && TreeDir(t, attrs, path, job).err.None?
    ensures var r := TreeDir(t, attrs, path, job);
      Settled(t, attrs, Touched(t, false, SetOf(r.listed)), job, r.attrs, r.changed)
    decreases DepthAt(t, path), 1, 0
  {
    ReadDirLists(t, path);
    var es := ReadDir(t, path).entries;
    var d := Stat(t, path).ino;
    var q := TreeEntries(t, attrs, path, es, job);
    TreeEntriesSettle(t, attrs, path, es, job);
    NamedAll(t, false, path);
    TouchedCons(t, d, q.listed);
  }

  lemma TouchedCons(t: Tree, d: Ino, listed: seq<Ino>)
    ensures Touched(t, false, SetOf([d] + listed)) == Touched(t, false, {d}) + Touched(t, false, SetOf(listed))
  {
    SetOfAppend([d], listed);
    assert SetOf([d]) == {d};
    TouchedUnion(t, false, {d}, SetOf(listed));
  }

  lemma {:induction false} TreeEntriesSettle(t: Tree, attrs: Attrs, path: Path, es: seq<DirEntry>, job: Job)
    requires Sound(t) && Acyclic(t) && EntriesAt(t, path, es) && t.nodes.Keys <= attrs.Keys
    requires TreeEntries(t, attrs, path, es, job).err.None?
    ensures var r := TreeEntries(t, attrs, path, es, job);
      Settled(t, attrs, Named(t, false, Stat(t, path).ino, es) + Touched(t, false, SetOf(r.listed)), job, r.attrs,
          r.changed)
    decreases DepthAt(t, path), 0, |es|
  {
    var d := Stat(t, path).ino;
    if |es| == 0 {
      SettledNothing(t, attrs, false, job);
      assert Named(t, false, d, es) + Touched(t, false, SetOf([])) == Touched(t, false, SetOf([]));
    } else {
      TailEntries(t, path, es);
      assert es[0] in es;
      var child := path.Join(es[0].name);
      if es[0].isLink {
        TreeEntriesSettle(t, attrs, path, es[1..], job);
        SkipLink(t, d, es);
      } else {
        EntrySettled(t, attrs, path, es[0], job);
        var a := Apply(t, attrs, child, job, false);
        if !es[0].isDir {
          var q := TreeEntries(t, a.attrs, path, es[1..], job);
          TreeEntriesSettle(t, a.attrs, path, es[1..], job);
          SettledNothing(t, a.attrs, false, job);
          CombineTree(t, d, attrs, a, es, job, [], a.attrs, false, q);
          assert [] + q.listed == q.listed;
        } else {
          ChildIsShallower(t, path, es[0]);
          var r := TreeDir(t, a.attrs, child, job);
          var q := TreeEntries(t, r.attrs, path, es[1..], job);
          TreeDirSettles(t, a.attrs, child, job);
          TreeEntriesSettle(t, r.attrs, path, es[1..], job);
          CombineTree(t, d, attrs, a, es, job, r.listed, r.attrs, r.changed, q);
        }
      }
    }
  }

  lemma SkipLink(t: Tree, d: Ino, es: seq<DirEntry>)
    requires |es| > 0 && es[0].name in t.Entries(d) && t.IsLink(t.Entries(d)[es[0].name])
    ensures Named(t, false, d, es) == Named(t, false, d, es[1..])
  {
    NamedCons(t, false, d, es);
  }

  lemma CombineTree(t: Tree, d: Ino, attrs: Attrs, a: Outcome, es: seq<DirEntry>, job: Job,
                    deep: seq<Ino>, mid: Attrs, deepChanged: bool, q: Visit)
    requires |es| > 0 && es[0].name in t.Entries(d) && !t.IsLink(t.Entries(d)[es[0].name])
    requires Settled(t, attrs, {t.Entries(d)[es[0].name]}, job, a.attrs, a.changed)
    requires Settled(t, a.attrs, Touched(t, false, SetOf(deep)), job, mid, deepChanged)
    requires Settled(t, mid, Named(t, false, d, es[1..]) + Touched(t, false, SetOf(q.listed)), job, q.attrs, q.changed)
    ensures Settled(t, attrs, Named(t, false, d, es) + Touched(t, false, SetOf(deep + q.listed)), job, q.attrs,
                    a.changed || deepChanged || q.changed)
  {
    NamedCons(t, false, d, es);
    var own := {t.Entries(d)[es[0].name]};
    var rest := Named(t, false, d, es[1..]);
    var s1 := Touched(t, false, SetOf(deep));
    var s2 := Touched(t, false, SetOf(q.listed));
    SetOfAppend(deep, q.listed);
    TouchedUnion(t, false, SetOf(deep), SetOf(q.listed));
    SettledThen(t, attrs, a.attrs, mid, own, s1, job, a.changed, deepChanged);
    SettledThen(t, attrs, mid, q.attrs, own + s1, rest + s2, job, a.changed || deepChanged, q.changed);
    assert (own + s1) + (rest + s2) == (own + rest) + (s1 + s2);
  }

  lemma SettledNothing(t: Tree, attrs: Attrs, follow: bool, job: Job)
    ensures Touched(t, follow, SetOf([])) == {}
    ensures Settled(t, attrs, Touched(t, follow, SetOf([])), job, attrs, false)
  {
    assert Settle(t, attrs, {}, PlanOf(job)) == attrs;
  }

  /** The walk that skips symlinks, exactly: it touches the non-symlink entries of the directories
      reachable through subdirectories alone, so no symlink and nothing behind one. */
  lemma TreeExact(t: Tree, attrs: Attrs, path: Path, job: Job)
    requires Sound(t) && Acyclic(t) && t.nodes.Keys <= attrs.Keys
    requires SetRecursively(t, attrs, path, job, false).err.None?
    requires Lstat(t, path).Found? && t.IsDir(Lstat(t, path).ino)
    ensures var r := SetRecursively(t, attrs, path, job, false);
      && (forall x :: x in r.listed <==> Reachable(t, false, Lstat(t, path).ino, x))
      && Settled(t, attrs, Touched(t, false, SetOf(r.listed)), job, r.attrs, r.changed)
  {
    LstatIsStat(t, Origin(t, path.abs, t.cwd), path.segs, MAX_HOPS);
    var d := Stat(t, path).ino;
    var r := TreeDir(t, attrs, path, job);
    TreeDirReaches(t, attrs, path, job);
    TreeDirSettles(t, attrs, path, job);
    assert ClosedUnder(t, false, SetOf(r.listed)) by {
      forall x, i | x in SetOf(r.listed) && Step(t, false, x, i)
        ensures i in SetOf(r.listed)
      {
        var n :| n in t.Entries(x) && t.Entries(x)[n] == i && t.IsDir(i);
      }
    }
    forall x
      ensures x in r.listed <==> Reachable(t, false, d, x)
    {
      if Reachable(t, false, d, x) { ReachStaysInside(t, false, SetOf(r.listed), d, x); }
    }
  }
}
