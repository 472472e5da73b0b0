/** Package handlers on concurrent connections. Each handler holds the mutex only while it checks
    the index or invalidates it; apt-get itself, and reading dpkg's file before publishing the
    index, interleave with every other handler. */
module AptInterleaving {
  type Handler = nat

  /** Where a handler is. */
  datatype Pc =
    | Idle
    | AfterUpdate                                      // apt-get update is done, not yet invalidated
    | WantsCheck(names: set<string>)                   // waiting for the mutex
    | Loading(names: set<string>)                      // holds it; the index is not valid
    | Read(names: set<string>, snapshot: set<string>)  // holds it; status file read, index not yet published
    | Checking(names: set<string>)                     // holds it; about to look the names up
    | Running(dirty: bool)                             // apt-get at work; dirty once it changed something
    | MustInvalidate(dirty: bool)                      // apt-get is done and the output reported a change

  datatype State = State(
    pc: map<Handler, Pc>, lock: set<Handler>, valid: bool, pkgs: set<string>, installed: set<string>)

  function At(s: State, h: Handler): Pc { if h in s.pc then s.pc[h] else Idle }

  predicate HoldsLock(p: Pc) { p.Loading? || p.Read? || p.Checking? }

  /** Between a change of the dpkg database and the invalidation that follows it. */
  predicate Pending(p: Pc) { (p.Running? || p.MustInvalidate?) && p.dirty }

  datatype Event =
    | RequestPresent(names: set<string>)
    | RequestOther
    | UpdateRuns
    | UpdateInvalidates
    | TakesLock
    | OpensFile
    | CannotOpen
    | Publishes
    | Looks
    | DpkgChanges(after: set<string>)
    | ExitsDetected
    | ExitsUndetected
    | ExitsFailing
    | Invalidates

  function Go(s: State, h: Handler, p: Pc): State { s.(pc := s.pc[h := p]) }

  /** One atomic step of handler `h`. The last three exits carry what is taken for granted about
      apt-get: a run that changed something reports a change, and a failing run changed nothing. */
  ghost predicate Step(s: State, h: Handler, e: Event, s': State) {
    var p := At(s, h);
    match e
    case RequestPresent(names) => p.Idle? && s' == Go(s, h, WantsCheck(names))
    case RequestOther => p.Idle? && s' == Go(s, h, Running(false))
    case UpdateRuns => p.Idle? && s' == Go(s, h, AfterUpdate)
    case UpdateInvalidates => p.AfterUpdate? && s.lock == {} && s' == Go(s, h, Idle).(valid := false)
    case TakesLock =>
      p.WantsCheck? && s.lock == {} &&
      s' == Go(s, h, if s.valid then Checking(p.names) else Loading(p.names)).(lock := {h})
    case OpensFile => p.Loading? && s' == Go(s, h, Read(p.names, s.installed))
    case CannotOpen => p.Loading? && s' == Go(s, h, Checking(p.names)).(valid := false)
    case Publishes => p.Read? && s' == Go(s, h, Checking(p.names)).(pkgs := p.snapshot, valid := true)
    case Looks =>
      p.Checking? &&
      s' == Go(s, h, if s.valid && p.names <= s.pkgs then Idle else Running(false)).(lock := {})
    case DpkgChanges(after) => p.Running? && s' == Go(s, h, Running(true)).(installed := after)
    case ExitsDetected => p.Running? && s' == Go(s, h, MustInvalidate(p.dirty))
    case ExitsUndetected => p.Running? && !p.dirty && s' == Go(s, h, Idle)
    case ExitsFailing => p.Running? && !p.dirty && s' == Go(s, h, Idle)
    case Invalidates => p.MustInvalidate? && s.lock == {} && s' == Go(s, h, Idle).(valid := false)
  }

  ghost predicate Next(s: State, s': State) {
    exists h: Handler, e: Event :: Step(s, h, e, s')
  }

  predicate Init(s: State) { s.pc == map[] && s.lock == {} && !s.valid }

  ghost predicate IsRun(run: seq<State>) {
    |run| > 0 && Init(run[0]) && forall k :: 0 <= k < |run| - 1 ==> Next(run[k], run[k + 1])
  }

  ghost predicate SomePending(s: State) { exists h: Handler :: Pending(At(s, h)) }

  /** The mutex is held by whoever is in its section; a published or freshly read index can only
      be wrong while some handler still has to invalidate. */
  ghost predicate Inv(s: State) {
    && (forall h: Handler :: HoldsLock(At(s, h)) <==> h in s.lock)
    && (forall h: Handler, g: Handler :: h in s.lock && g in s.lock ==> h == g)
    && (s.valid && s.pkgs != s.installed ==> SomePending(s))
    && (forall h: Handler :: At(s, h).Read? && At(s, h).snapshot != s.installed ==> SomePending(s))
  }

  lemma PendingStays(s: State, h: Handler, p: Pc, s': State)
    requires s'.pc == s.pc[h := p] && (Pending(At(s, h)) ==> Pending(p))
    ensures SomePending(s) ==> SomePending(s')
  {
    if SomePending(s) {
      var g: Handler :| Pending(At(s, g));
      assert Pending(At(s', g));
    }
  }

  lemma StepKeepsInv(s: State, h: Handler, e: Event, s': State)
    requires Inv(s) && Step(s, h, e, s')
    ensures Inv(s')
  {
    var p := At(s, h);
    forall g: Handler | g != h
      ensures At(s', g) == At(s, g)
    {}
    if e.DpkgChanges? {
      assert Pending(At(s', h));
    } else if !e.Invalidates? {
      PendingStays(s, h, At(s', h), s');
    }
  }

  lemma {:induction false} RunKeepsInv(run: seq<State>, k: nat)
    requires IsRun(run) && k < |run|
    ensures Inv(run[k])
  {
    if k > 0 {
      RunKeepsInv(run, k - 1);
      assert Next(run[k - 1], run[k - 1 + 1]);
      var h: Handler, e: Event :| Step(run[k - 1], h, e, run[k]);
      StepKeepsInv(run[k - 1], h, e, run[k]);
    }
  }

  /** Over every interleaving of any number of handlers: whenever the index is valid and no handler
      is between a dpkg change and its invalidation, the index is the installed set. */
  lemma IndexCoherent(run: seq<State>, k: nat)
    requires IsRun(run) && k < |run| && run[k].valid && !SomePending(run[k])
    ensures run[k].pkgs == run[k].installed
  {
    RunKeepsInv(run, k);
  }

  /** So a handler that answers "already installed" without running apt-get is right, unless some
      other handler's apt-get is changing the database at that moment. */
  lemma SkipIsRight(run: seq<State>, k: nat, h: Handler)
    requires IsRun(run) && k + 1 < |run| && Step(run[k], h, Looks, run[k + 1])
    requires At(run[k + 1], h).Idle? && !SomePending(run[k])
    ensures At(run[k], h).names <= run[k].installed
  {
    IndexCoherent(run, k);
  }


  ghost predicate IsPublishing(s: State, s': State) { exists g: Handler :: Step(s, g, Publishes, s') }

  ghost predicate PublishesAt(run: seq<State>, k: nat) { k + 1 < |run| && IsPublishing(run[k], run[k + 1]) }

  /** After an update no handler answers from an index that was published before it. */
  lemma {:induction false} UpdateDropsIndex(run: seq<State>, i: nat, j: nat, h: Handler)
    requires IsRun(run) && i < j < |run| && Step(run[i], h, UpdateInvalidates, run[i + 1])
    requires forall k :: i < k < j ==> !PublishesAt(run, k)
    ensures !run[j].valid
    decreases j
  {
    if i + 1 < j {
      UpdateDropsIndex(run, i, j - 1, h);
      assert Next(run[j - 1], run[j - 1 + 1]);
      var g: Handler, e: Event :| Step(run[j - 1], g, e, run[j - 1 + 1]);
      assert !PublishesAt(run, j - 1);
    }
  }

  /** The exception is real: a handler can be told "already installed" for a package that another
      handler's apt-get has just removed and not yet accounted for. */
  lemma SkipDuringRemoval() returns (run: seq<State>)
    ensures IsRun(run) && |run| == 9
    ensures Step(run[7], 1, Looks, run[8]) && At(run[8], 1).Idle?
    ensures At(run[7], 1).Checking? && At(run[7], 1).names == {"vim"} && "vim" !in run[7].installed
  {
    var names := {"vim"};
    var s0 := State(map[], {}, false, {}, names);
    var s1 := Go(s0, 1, WantsCheck(names));
    var s2 := Go(s1, 1, Loading(names)).(lock := {1});
    var s3 := Go(s2, 1, Read(names, names));
    var s4 := Go(s3, 1, Checking(names)).(pkgs := names, valid := true);
    var s5 := Go(s4, 2, Running(false));
    var s6 := Go(s5, 2, Running(true)).(installed := {});
    var s7 := Go(s6, 2, MustInvalidate(true));
    var s8 := Go(s7, 1, Idle).(lock := {});
    assert Next(s0, s1) by { assert Step(s0, 1, RequestPresent(names), s1); }
    assert Next(s1, s2) by { assert Step(s1, 1, TakesLock, s2); }
    assert Next(s2, s3) by { assert Step(s2, 1, OpensFile, s3); }
    assert Next(s3, s4) by { assert Step(s3, 1, Publishes, s4); }
    assert Next(s4, s5) by { assert Step(s4, 2, RequestOther, s5); }
    assert Next(s5, s6) by { assert Step(s5, 2, DpkgChanges({}), s6); }
    assert Next(s6, s7) by { assert Step(s6, 2, ExitsDetected, s7); }
    assert Step(s7, 1, Looks, s8);
    assert Next(s7, s8);
    run := Chain([s0], s1);
    run := Chain(run, s2);
    run := Chain(run, s3);
    run := Chain(run, s4);
    run := Chain(run, s5);
    run := Chain(run, s6);
    run := Chain(run, s7);
    run := Chain(run, s8);
  }

  lemma Chain(run: seq<State>, s: State) returns (longer: seq<State>)
    requires IsRun(run) && Next(run[|run| - 1], s)
    ensures longer == run + [s] && IsRun(longer) && longer[|longer| - 1] == s
  {
    longer := run + [s];
    forall k | 0 <= k < |longer| - 1
      ensures Next(longer[k], longer[k + 1])
    {
      if k < |run| - 1 { assert Next(run[k], run[k + 1]); }
    }
  }
}
