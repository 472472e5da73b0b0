/** The daemon's idle shutdown: an atomic counter and a separately locked timestamp, updated by the
    accept loop, by every connection's clean-up and read by the idle goroutine, one atomic step at
    a time. */
module IdleShutdown {
  import opened Wrappers

  type Conn = nat
  type Time = nat

  /** Where a connection is: accepted, counted, stamped and served, closed, subtracted, stamped again. */
  datatype ConnPc = Accepted | Added | Serving | Closed | Subtracted | Gone

  /** `stamp`: which timestamp, if any, its acceptance wrote. */
  datatype ConnState = ConnState(pc: ConnPc, stamp: Option<nat>)

  /** The idle goroutine: asleep; having loaded a zero counter at `zeroAt`; having read an idle time
      of at least the timeout at `readAt`, when `written` timestamps had been written; done. */
  datatype IdlePc =
    | Sleeping
    | SawZero(zeroAt: Time)
    | Decided(zeroAt: Time, readAt: Time, written: nat)
    | Stopped

  /** `loop` is the connection the accept loop is dealing with; `stamps` are all values ever written
      to lastActivity, the first at start-up. */
  datatype State = State(
    now: Time, active: int, stamps: seq<Time>, conns: map<Conn, ConnState>, loop: Option<Conn>,
    idle: IdlePc, listening: bool)

  function LastActivity(s: State): Time
    requires |s.stamps| > 0
  {
    s.stamps[|s.stamps| - 1]
  }

  datatype Event =
    | Tick(d: nat)
    | Accept(c: Conn)
    | AddOne
    | StampAccept
    | CloseConn(c: Conn)
    | SubtractOne(c: Conn)
    | StampClose(c: Conn)
    | LoadCounter
    | ReadIdle
    | CloseListener
    | Signal

  predicate Is(s: State, c: Conn, pc: ConnPc) { c in s.conns && s.conns[c].pc == pc }

  function Move(s: State, c: Conn, pc: ConnPc): State
    requires c in s.conns
  {
    s.(conns := s.conns[c := s.conns[c].(pc := pc)])
  }

  ghost predicate Step(s: State, timeout: nat, e: Event, s': State) {
    match e
    case Tick(d) => s' == s.(now := s.now + d)
    case Accept(c) =>
      s.listening && s.loop == None && c !in s.conns &&
      s' == s.(conns := s.conns[c := ConnState(Accepted, None)], loop := Some(c))
    case AddOne =>
      s.loop.Some? && Is(s, s.loop.value, Accepted) && s' == Move(s, s.loop.value, Added).(active := s.active + 1)
    case StampAccept =>
      s.loop.Some? && Is(s, s.loop.value, Added) &&
      s' == s.(conns := s.conns[s.loop.value := ConnState(Serving, Some(|s.stamps|))],
               stamps := s.stamps + [s.now], loop := None)
    case CloseConn(c) => Is(s, c, Serving) && s' == Move(s, c, Closed)
    case SubtractOne(c) => Is(s, c, Closed) && s' == Move(s, c, Subtracted).(active := s.active - 1)
    case StampClose(c) => Is(s, c, Subtracted) && s' == Move(s, c, Gone).(stamps := s.stamps + [s.now])
    case LoadCounter => s.idle.Sleeping? && s' == if s.active == 0 then s.(idle := SawZero(s.now)) else s
    case ReadIdle =>
      s.idle.SawZero? && |s.stamps| > 0 &&
      s' == s.(idle :=
        if s.now - LastActivity(s) >= timeout then Decided(s.idle.zeroAt, s.now, |s.stamps|) else Sleeping)
    case CloseListener => s.idle.Decided? && s' == s.(idle := Stopped, listening := false)
    case Signal => s' == s.(listening := false)
  }

  predicate Init(s: State) {
    s == State(s.now, 0, [s.now], map[], None, Sleeping, true)
  }

  ghost predicate Next(s: State, timeout: nat, s': State) { exists e :: Step(s, timeout, e, s') }

  ghost predicate IsRun(run: seq<State>, timeout: nat) {
    |run| > 0 && Init(run[0]) && forall k :: 0 <= k < |run| - 1 ==> Next(run[k], timeout, run[k + 1])
  }

  // ---------------------------------------------------------------- the invariant

  /** Between its add and its subtract. */
  predicate IsCounted(cs: ConnState) { cs.pc.Added? || cs.pc.Serving? || cs.pc.Closed? }

  function Counted(s: State): set<Conn> { set c | c in s.conns && IsCounted(s.conns[c]) }

  /** The timestamps are in the past, in order, and each connection's acceptance stamp is one of
      them; a connection before its first stamp is still with the accept loop. */
  ghost predicate Timely(s: State) {
    && |s.stamps| > 0
    && (forall j, k :: 0 <= j <= k < |s.stamps| ==> s.stamps[j] <= s.stamps[k])
    && LastActivity(s) <= s.now
    && (forall c :: c in s.conns && s.conns[c].stamp.Some? ==> s.conns[c].stamp.value < |s.stamps|)
    && (forall c :: c in s.conns && (s.conns[c].pc.Accepted? || s.conns[c].pc.Added?) ==> s.conns[c].stamp == None)
  }

  /** What the idle goroutine knows. */
  ghost predicate IdleKnows(s: State, timeout: nat)
    requires Timely(s)
  {
    match s.idle
    case Sleeping => true
    case SawZero(zeroAt) =>
      zeroAt <= s.now && forall c :: c in Counted(s) && s.conns[c].stamp.Some? ==>
          s.stamps[s.conns[c].stamp.value] >= zeroAt
    case Decided(zeroAt, readAt, written) =>
      && 0 < written <= |s.stamps|
      && (forall k :: 0 <= k < written ==> readAt - s.stamps[k] >= timeout)
      && (readAt - zeroAt < timeout ==>
            forall c :: c in Counted(s) && s.conns[c].stamp.Some? ==> s.conns[c].stamp.value >= written)
    case Stopped => true
  }

  ghost predicate Inv(s: State, timeout: nat) {
    s.active == |Counted(s)| && Timely(s) && IdleKnows(s, timeout)
  }

  lemma AddCounts(s: State, c: Conn)
    requires Is(s, c, Accepted) && s.active == |Counted(s)|
    ensures s.active + 1 == |Counted(Move(s, c, Added))|
  {
    assert Counted(Move(s, c, Added)) == Counted(s) + {c};
  }

  lemma SubtractCounts(s: State, c: Conn)
    requires Is(s, c, Closed) && s.active == |Counted(s)|
    ensures s.active - 1 == |Counted(Move(s, c, Subtracted))|
  {
    assert Counted(Move(s, c, Subtracted)) == Counted(s) - {c};
  }

  /** A step that changes at most one connection, and not whether it is counted. */
  lemma SameCount(s: State, c: Conn, cs: ConnState, s': State)
    requires s'.conns == s.conns[c := cs] && (c in s.conns && IsCounted(s.conns[c]) <==> IsCounted(cs))
    ensures Counted(s') == Counted(s)
  {}

  lemma CountKeeps(s: State, timeout: nat, e: Event, s': State)
    requires s.active == |Counted(s)| && Step(s, timeout, e, s')
    ensures s'.active == |Counted(s')|
  {
    match e {
      case AddOne => AddCounts(s, s.loop.value);
      case SubtractOne(c) => SubtractCounts(s, c);
      case Accept(c) => SameCount(s, c, ConnState(Accepted, None), s');
      case StampAccept => SameCount(s, s.loop.value, ConnState(Serving, Some(|s.stamps|)), s');
      case CloseConn(c) => SameCount(s, c, s.conns[c].(pc := Closed), s');
      case StampClose(c) => SameCount(s, c, s.conns[c].(pc := Gone), s');
      case _ => assert s'.conns == s.conns;
    }
  }

  lemma TimelyKeeps(s: State, timeout: nat, e: Event, s': State)
    requires Timely(s) && Step(s, timeout, e, s')
    ensures Timely(s')
  {
    match e {
      case StampAccept => StampKeepsTimely(s, s');
      case StampClose(c) => StampKeepsTimely(s, s');
      case _ => QuietKeepsTimely(s, timeout, e, s');
    }
  }

  lemma QuietKeepsTimely(s: State, timeout: nat, e: Event, s': State)
    requires Timely(s) && Step(s, timeout, e, s') && !e.StampAccept? && !e.StampClose?
    ensures Timely(s')
  {
    assert s'.stamps == s.stamps && s'.now >= s.now;
  }

  lemma StampKeepsTimely(s: State, s': State)
    requires Timely(s) && s'.stamps == s.stamps + [s.now] && s'.now == s.now
    requires forall c :: c in s'.conns ==> c in s.conns
    requires forall c :: c in s'.conns && s'.conns[c].stamp != s.conns[c].stamp ==>
               s'.conns[c].stamp == Some(|s.stamps|) && s'.conns[c].pc == Serving
    requires forall c :: c in s'.conns && (s'.conns[c].pc.Accepted? || s'.conns[c].pc.Added?) ==>
        s'.conns[c].pc == s.conns[c].pc
    ensures Timely(s')
  {}

  lemma LoadKeepsIdle(s: State, timeout: nat, s': State)
    requires Inv(s, timeout) && Step(s, timeout, LoadCounter, s') && Timely(s')
    ensures IdleKnows(s', timeout)
  {
    assert Counted(s') == Counted(s);
    if s.active == 0 { assert Counted(s) == {}; }
  }

  lemma ReadKeepsIdle(s: State, timeout: nat, s': State)
    requires Inv(s, timeout) && Step(s, timeout, ReadIdle, s') && Timely(s')
    ensures IdleKnows(s', timeout)
  {
    assert Counted(s') == Counted(s);
    forall c | c in Counted(s) && s.conns[c].stamp.Some?
      ensures s.stamps[s.conns[c].stamp.value] <= LastActivity(s)
    {}
  }

  lemma IdleKeeps(s: State, timeout: nat, e: Event, s': State)
    requires Inv(s, timeout) && Step(s, timeout, e, s') && Timely(s')
    ensures IdleKnows(s', timeout)
  {
    match e {
      case LoadCounter => LoadKeepsIdle(s, timeout, s');
      case ReadIdle => ReadKeepsIdle(s, timeout, s');
      case _ =>
        StampsOnlyGrow(s, timeout, e, s');
        OthersKeepIdle(s, timeout, s');
    }
  }

  lemma OthersKeepIdle(s: State, timeout: nat, s': State)
    requires Inv(s, timeout) && Timely(s') && (s'.idle == s.idle || s'.idle.Stopped?)
    requires StampsGrown(s, s')
    ensures IdleKnows(s', timeout)
  {}

  /** Old stamps stay, and a counted connection's stamp is the old one or new. */
  ghost predicate StampsGrown(s: State, s': State)
    requires Timely(s) && Timely(s')
  {
    && s.stamps <= s'.stamps && s.now <= s'.now
    && (forall c :: c in Counted(s') && s'.conns[c].stamp.Some? ==>
          || (c in Counted(s) && s.conns[c].stamp == s'.conns[c].stamp)
          || (s'.conns[c].stamp.value == |s.stamps| < |s'.stamps| && s'.stamps[|s.stamps|] == s.now))
  }

  lemma StampsOnlyGrow(s: State, timeout: nat, e: Event, s': State)
    requires Inv(s, timeout) && Step(s, timeout, e, s') && Timely(s')
    requires !e.LoadCounter? && !e.ReadIdle?
    ensures StampsGrown(s, s')
  {}

  lemma {:induction false} RunKeepsInv(run: seq<State>, timeout: nat, k: nat)
    requires IsRun(run, timeout) && k < |run|
    ensures Inv(run[k], timeout)
  {
    if k == 0 {
      assert Counted(run[0]) == {};
    } else {
      RunKeepsInv(run, timeout, k - 1);
      assert Next(run[k - 1], timeout, run[k - 1 + 1]);
      var e :| Step(run[k - 1], timeout, e, run[k]);
      CountKeeps(run[k - 1], timeout, e, run[k]);
      TimelyKeeps(run[k - 1], timeout, e, run[k]);
      IdleKeeps(run[k - 1], timeout, e, run[k]);
    }
  }

  // ---------------------------------------------------------------- what survives interleaving

  /** At every moment the counter is the number of connections between their add and subtract. */
  lemma CounterIsExact(run: seq<State>, timeout: nat, k: nat)
    requires IsRun(run, timeout) && k < |run|
    ensures run[k].active == |Counted(run[k])|
  {
    RunKeepsInv(run, timeout, k);
  }

  /** The idle goroutine closes the listener only if no timestamp was written during the whole
      timeout before it read the idle time. And if it read less than the timeout after it had
      loaded a zero counter, then no connection that is live when the listener is closed had
      stamped its acceptance when the idle time was read. */
  lemma IdleCloseIsSafe(run: seq<State>, timeout: nat, k: nat)
    requires IsRun(run, timeout) && k + 1 < |run| && Step(run[k], timeout, CloseListener, run[k + 1])
    ensures var s := run[k];
      && 0 < s.idle.written <= |s.stamps|
      && (forall j :: 0 <= j < s.idle.written ==> s.idle.readAt - s.stamps[j] >= timeout)
      && (s.idle.readAt - s.idle.zeroAt < timeout ==>
            forall c :: c in Counted(s) ==> s.conns[c].stamp == None || s.conns[c].stamp.value >= s.idle.written)
  {
    RunKeepsInv(run, timeout, k);
  }

  /** The counter really was zero when the goroutine loaded it: nothing was counted then. */
  lemma ZeroMeansNobody(run: seq<State>, timeout: nat, k: nat)
    requires IsRun(run, timeout) && k + 1 < |run| && Step(run[k], timeout, LoadCounter, run[k + 1])
    requires run[k].idle.Sleeping? && run[k + 1].idle.SawZero?
    ensures Counted(run[k]) == {} && run[k + 1].idle.zeroAt == run[k].now
  {
    RunKeepsInv(run, timeout, k);
  }

  function Stamped(s: State): set<Conn> { set c | c in s.conns && s.conns[c].stamp.Some? }
  function Departed(s: State): set<Conn> { set c | c in s.conns && s.conns[c].pc.Gone? }

  lemma AcceptStamps(s: State, timeout: nat, s': State)
    requires Timely(s) && Step(s, timeout, StampAccept, s')
    ensures Stamped(s') == Stamped(s) + {s.loop.value} && s.loop.value !in Stamped(s) && Departed(s') == Departed(s)
  {}

  lemma CloseStamps(s: State, timeout: nat, c: Conn, s': State)
    requires Step(s, timeout, StampClose(c), s')
    ensures Departed(s') == Departed(s) + {c} && c !in Departed(s) && Stamped(s') == Stamped(s)
  {}

  lemma OthersDoNotStamp(s: State, timeout: nat, e: Event, s': State)
    requires Step(s, timeout, e, s') && !e.StampAccept? && !e.StampClose?
    ensures Stamped(s') == Stamped(s) && Departed(s') == Departed(s) && s'.stamps == s.stamps
  {}

  ghost predicate Accounted(s: State) { |s.stamps| == 1 + |Stamped(s)| + |Departed(s)| }

  lemma AccountedKeeps(s: State, timeout: nat, e: Event, s': State)
    requires Timely(s) && Accounted(s) && Step(s, timeout, e, s')
    ensures Accounted(s')
  {
    match e {
      case StampAccept => AcceptStamps(s, timeout, s');
      case StampClose(c) => CloseStamps(s, timeout, c, s');
      case _ => OthersDoNotStamp(s, timeout, e, s');
    }
  }

  /** Every connection writes the timestamp once when it is accepted and once when it is done, and
      nothing else writes it: conservation over every run. */
  lemma {:induction false} StampsAreCounted(run: seq<State>, timeout: nat, k: nat)
    requires IsRun(run, timeout) && k < |run|
    ensures |run[k].stamps| == 1 + |Stamped(run[k])| + |Departed(run[k])|
  {
    if k == 0 {
      assert Stamped(run[0]) == {} && Departed(run[0]) == {};
    } else {
      StampsAreCounted(run, timeout, k - 1);
      RunKeepsInv(run, timeout, k - 1);
      assert Next(run[k - 1], timeout, run[k - 1 + 1]);
      var e :| Step(run[k - 1], timeout, e, run[k]);
      AccountedKeeps(run[k - 1], timeout, e, run[k]);
    }
  }

  /** Once the listener is closed nobody is accepted any more. */
  lemma {:induction false} ClosedForGood(run: seq<State>, timeout: nat, i: nat, j: nat)
    requires IsRun(run, timeout) && i <= j < |run| && !run[i].listening
    ensures !run[j].listening && run[j].conns.Keys == run[i].conns.Keys
    decreases j
  {
    if i < j {
      ClosedForGood(run, timeout, i, j - 1);
      assert Next(run[j - 1], timeout, run[j - 1 + 1]);
      var e :| Step(run[j - 1], timeout, e, run[j]);
      ClosedKeeps(run[j - 1], timeout, e, run[j]);
    }
  }

  lemma ClosedKeeps(s: State, timeout: nat, e: Event, s': State)
    requires Step(s, timeout, e, s') && !s.listening
    ensures !s'.listening && s'.conns.Keys == s.conns.Keys
  {}

  /** The idle goroutine goes on looking until it has closed the listener. */
  lemma {:induction false} StopsOnlyByClosing(run: seq<State>, timeout: nat, k: nat)
    requires IsRun(run, timeout) && k < |run|
    ensures run[k].idle.Stopped? ==> !run[k].listening
  {
    if k > 0 {
      StopsOnlyByClosing(run, timeout, k - 1);
      assert Next(run[k - 1], timeout, run[k - 1 + 1]);
      var e :| Step(run[k - 1], timeout, e, run[k]);
      StoppingCloses(run[k - 1], timeout, e, run[k]);
    }
  }

  lemma StoppingCloses(s: State, timeout: nat, e: Event, s': State)
    requires Step(s, timeout, e, s') && (s.idle.Stopped? ==> !s.listening)
    ensures s'.idle.Stopped? ==> !s'.listening
  {}

  // ---------------------------------------------------------------- what does not

  lemma Extend(run: seq<State>, timeout: nat, e: Event, s: State) returns (longer: seq<State>)
    requires IsRun(run, timeout) && Step(run[|run| - 1], timeout, e, s)
    ensures longer == run + [s] && IsRun(longer, timeout) && longer[|longer| - 1] == s
  {
    longer := run + [s];
    forall k | 0 <= k < |longer| - 1
      ensures Next(longer[k], timeout, longer[k + 1])
    {
      if k < |run| - 1 { assert Next(run[k], timeout, run[k + 1]); }
    }
  }

  /** The counter and the timestamp are not one atomic update: a connection that is counted but not
      yet stamped can be live when the listener is closed. */
  lemma FreshConnectionCanBeCut(timeout: nat) returns (run: seq<State>)
    ensures IsRun(run, timeout) && |run| == 7 && Step(run[5], timeout, CloseListener, run[6])
    ensures run[5].idle.readAt == run[5].idle.zeroAt
    ensures 1 in Counted(run[6])
  {
    var s0 := State(0, 0, [0], map[], None, Sleeping, true);
    var s1 := s0.(now := timeout);
    var s2 := s1.(idle := SawZero(timeout));
    var s3 := s2.(conns := map[1 := ConnState(Accepted, None)], loop := Some(1));
    var s4 := Move(s3, 1, Added).(active := 1);
    var s5 := s4.(idle := Decided(timeout, timeout, 1));
    var s6 := s5.(idle := Stopped, listening := false);
    run := Extend([s0], timeout, Tick(timeout), s1);
    run := Extend(run, timeout, LoadCounter, s2);
    run := Extend(run, timeout, Accept(1), s3);
    run := Extend(run, timeout, AddOne, s4);
    run := Extend(run, timeout, ReadIdle, s5);
    run := Extend(run, timeout, CloseListener, s6);
  }

  /** And the bound on the goroutine's two steps is needed: if it is held up for the timeout between
      them, as when the host is suspended, a connection that stamped its acceptance long before is
      cut. */
  lemma StampedConnectionCanBeCut(timeout: nat) returns (run: seq<State>)
    requires timeout > 0
    ensures IsRun(run, timeout) && |run| == 8 && Step(run[6], timeout, CloseListener, run[7])
    ensures run[6].idle.readAt - run[6].idle.zeroAt == timeout
    ensures 1 in Counted(run[7]) && run[7].conns[1].pc == Serving && run[7].conns[1].stamp.Some?
            && run[7].conns[1].stamp.value < run[6].idle.written
  {
    var s4: State;
    run, s4 := ServedAfterZero(timeout);
    var s5 := s4.(now := timeout);
    var s6 := s5.(idle := Decided(0, timeout, 2));
    var s7 := s6.(idle := Stopped, listening := false);
    run := Extend(run, timeout, Tick(timeout), s5);
    run := Extend(run, timeout, ReadIdle, s6);
    run := Extend(run, timeout, CloseListener, s7);
  }

  /** At time 0 the goroutine sees a zero counter, and then a connection comes and is stamped. */
  lemma ServedAfterZero(timeout: nat) returns (run: seq<State>, s: State)
    ensures s == State(0, 1, [0, 0], map[1 := ConnState(Serving, Some(1))], None, SawZero(0), true)
    ensures IsRun(run, timeout) && |run| == 5 && run[4] == s
  {
    var s0 := State(0, 0, [0], map[], None, Sleeping, true);
    var s1 := s0.(idle := SawZero(0));
    var s2 := s1.(conns := map[1 := ConnState(Accepted, None)], loop := Some(1));
    var s3 := Move(s2, 1, Added).(active := 1);
    s := State(0, 1, [0, 0], map[1 := ConnState(Serving, Some(1))], None, SawZero(0), true);
    assert s.conns == s3.conns[1 := ConnState(Serving, Some(1))] && s.stamps == s3.stamps + [0];
    run := Extend([s0], timeout, LoadCounter, s1);
    run := Extend(run, timeout, Accept(1), s2);
    run := Extend(run, timeout, AddOne, s3);
    run := Extend(run, timeout, StampAccept, s);
  }
}
