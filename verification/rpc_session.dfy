/** The controller's client and the agent's server over one pair of pipes: requests are numbered,
    lines are answered in order, and calls may be abandoned at any point. */
module RpcSession {
  import opened Wrappers

  datatype Outcome = Result(value: string) | Error(code: int, message: string)

  /** A line on its way to the agent: a request, or what remains when a line was cut short and the
      next one was written behind it. */
  datatype Line = Req(id: int, body: string) | Garbled

  /** A line on its way to the client: a reply, or what an agent that dies while writing leaves. */
  datatype Reply = Reply(id: int, outcome: Outcome) | Broken

  const PARSE_ERROR := -32700

  // ---------------------------------------------------------------- the server loop

  /** What the agent makes of an input line, and what it answers to a request. Handlers have
      state, so the answer may depend on how many requests came before. */
  datatype Agent = Agent(parse: string -> Option<(int, string)>, dispatch: (string, nat) -> Outcome)

  function ReplyTo(a: Agent, line: string, k: nat): Reply {
    match a.parse(line)
    case None => Reply(0, Error(PARSE_ERROR, "parse error"))
    case Some(req) => Reply(req.0, a.dispatch(req.1, k))
  }

  function NonBlank(lines: seq<string>): seq<string> {
    if |lines| == 0 then []
    else
      var before := NonBlank(lines[..|lines| - 1]);
      if lines[|lines| - 1] == "" then before else before + [lines[|lines| - 1]]
  }

  /** One reply for every non-blank line, in the order of the lines, carrying the line's own id, or 0
      if the line does not parse. */
  function Replies(a: Agent, lines: seq<string>): seq<Reply> {
    var requests := NonBlank(lines);
    seq(|requests|, k requires 0 <= k < |requests| => ReplyTo(a, requests[k], k))
  }

  method Serve(lines: seq<string>, a: Agent) returns (replies: seq<Reply>)
    ensures replies == Replies(a, lines)
  {
    replies := [];
    for i := 0 to |lines|
      invariant replies == Replies(a, lines[..i])
    {
      assert lines[..i + 1][..i] == lines[..i];
      var line := lines[i];
      if line == "" { continue; }
      replies := replies + [ReplyTo(a, line, |replies|)];
    }
    assert lines[..|lines|] == lines;
  }

  // ---------------------------------------------------------------- the client

  datatype CallResult =
    | Value(value: string) | AgentError(code: int, message: string) | IdMismatch | NoResponse | NotJson

  /** The client's judgement of the line it reads for request `id`. */
  function Judge(id: int, r: Reply): CallResult {
    if r.Broken? then NotJson
    else if r.id != id then IdMismatch
    else
      match r.outcome
      case Error(code, message) => AgentError(code, message)
      case Result(v) => Value(v)
  }

  /** The call ends with what the agent said to this very request. */
  predicate Answered(r: CallResult) { r.Value? || r.AgentError? }

  /** What the client has: its counter, what it wrote, what it has yet to read. */
  datatype Client = Client(nextId: int, stdin: seq<Line>, stdout: seq<Reply>)

  /** One call during which the agent writes `arrivals`. */
  function Called(c: Client, body: string, arrivals: seq<Reply>): Client {
    var inbox := c.stdout + arrivals;
    Client(c.nextId + 1, c.stdin + [Req(c.nextId, body)], if inbox == [] then [] else inbox[1..])
  }

  function CallReturns(c: Client, arrivals: seq<Reply>): CallResult {
    var inbox := c.stdout + arrivals;
    if inbox == [] then NoResponse else Judge(c.nextId, inbox[0])
  }

  class FastAgentClient {
    var nextId: int
    var stdin: seq<Line>
    var stdout: seq<Reply>

    constructor ()
      ensures View() == Client(1, [], [])
    {
      nextId, stdin, stdout := 1, [], [];
    }

    function View(): Client
      reads this
    {
      Client(nextId, stdin, stdout)
    }

    /** `call`, with the lock held throughout. `arrivals` is what the agent writes while the client
        waits; with nothing to read the agent is gone. */
    method Call(body: string, arrivals: seq<Reply>) returns (r: CallResult)
      modifies this
      ensures View() == Called(old(View()), body, arrivals) && r == CallReturns(old(View()), arrivals)
    {
      var reqId := nextId;
      nextId := nextId + 1;
      stdin := stdin + [Req(reqId, body)];
      stdout := stdout + arrivals;
      if stdout == [] { return NoResponse; }
      var reply := stdout[0];
      stdout := stdout[1..];
      if reply.Broken? { return NotJson; }
      if reply.id != reqId { return IdMismatch; }
      if reply.outcome.Error? { return AgentError(reply.outcome.code, reply.outcome.message); }
      return Value(reply.outcome.value);
    }
  }

  // ---------------------------------------------------------------- the session, step by step

  type Thread = nat

  datatype Call = Call(thread: Thread, id: int, body: string, sent: bool)

  datatype Answer = Answer(body: string, outcome: Outcome)
  datatype Return = Return(id: int, body: string, value: string)

  /** `call` is the call of the thread that holds the lock. `fragment`: an unfinished line is in the
      pipe. `alive`: the agent still runs. `bodies`, `handled` and `returned` record what was asked,
      what the agent answered to it, and what calls returned. */
  datatype State = State(
    nextId: int, call: Option<Call>, fragment: bool, alive: bool, toServer: seq<Line>, toClient: seq<Reply>,
    bodies: map<int, string>, handled: map<int, Answer>, returned: set<Return>)

  datatype Event =
    | Begin(thread: Thread, body: string)   // take the lock and a number
    | GiveUpUnsent                          // an exception before anything was written
    | WritePart                             // an exception in the middle of the line
    | Write
    | GiveUpWaiting                         // an exception, or end of file, before the reply was read
    | Receive
    | Handle(outcome: Outcome)              // the agent takes one line
    | Die                                   // the agent ends between two lines
    | DieWriting                            // the agent ends in the middle of a reply

  predicate Init(s: State) {
    s == State(1, None, false, true, [], [], map[], map[], {})
  }

  ghost predicate Step(s: State, e: Event, s': State) {
    match e
    case Begin(t, body) =>
      s.call == None &&
      s' == s.(nextId := s.nextId + 1, call := Some(Call(t, s.nextId, body, false)),
          bodies := s.bodies[s.nextId := body])
    case GiveUpUnsent => s.call.Some? && !s.call.value.sent && s' == s.(call := None)
    case WritePart => s.call.Some? && !s.call.value.sent && s' == s.(call := None, fragment := true)
    case Write =>
      s.call.Some? && !s.call.value.sent &&
      var c := s.call.value;
      s' == s.(call := Some(c.(sent := true)), fragment := false,
               toServer := s.toServer + [if s.fragment then Garbled else Req(c.id, c.body)])
    case GiveUpWaiting => s.call.Some? && s.call.value.sent && s' == s.(call := None)
    case Receive =>
      s.call.Some? && s.call.value.sent && |s.toClient| > 0 &&
      var c := s.call.value;
      var r := Judge(c.id, s.toClient[0]);
      s' == s.(call := None, toClient := s.toClient[1..],
               returned := if r.Value? then s.returned + {Return(c.id, c.body, r.value)} else s.returned)
    case Handle(outcome) =>
      s.alive && |s.toServer| > 0 &&
      (match s.toServer[0]
       case Garbled =>
         s' == s.(toServer := s.toServer[1..], toClient := s.toClient + [Reply(0, Error(PARSE_ERROR, "parse error"))])
       case Req(id, body) =>
         s' == s.(toServer := s.toServer[1..], toClient := s.toClient + [Reply(id, outcome)],
                  handled := s.handled[id := Answer(body, outcome)]))
    case Die => s.alive && s' == s.(alive := false)
    case DieWriting =>
      s.alive && |s.toServer| > 0 &&
      s' == s.(alive := false, toServer := s.toServer[1..], toClient := s.toClient + [Broken])
  }

  ghost predicate Next(s: State, s': State) { exists e :: Step(s, e, s') }

  ghost predicate IsRun(run: seq<State>) {
    |run| > 0 && Init(run[0]) && forall k :: 0 <= k < |run| - 1 ==> Next(run[k], run[k + 1])
  }

  // ---------------------------------------------------------------- no cross-matched answers

  /** The ids in the pipes, oldest first; 0 for a line that does not parse. */
  function LineId(l: Line): int { if l.Req? then l.id else 0 }
  function ReplyId(r: Reply): int { if r.Reply? then r.id else 0 }

  function IdAt(s: State, k: nat): int
    requires k < |s.toClient| + |s.toServer|
  {
    if k < |s.toClient| then ReplyId(s.toClient[k]) else LineId(s.toServer[k - |s.toClient|])
  }

  function InPipes(s: State): nat { |s.toClient| + |s.toServer| }

  /** Ids grow along the pipes, and a waiting call's own line is the newest. */
  ghost predicate Ordered(s: State) {
    && s.nextId >= 1
    && (forall k :: 0 <= k < InPipes(s) ==> 0 <= IdAt(s, k) < s.nextId)
    && (forall j, k :: 0 <= j < k < InPipes(s) && IdAt(s, k) != 0 ==> IdAt(s, j) < IdAt(s, k))
    && (s.call.Some? ==>
          && s.call.value.id == s.nextId - 1 && s.call.value.id > 0
          && (!s.call.value.sent ==> forall k :: 0 <= k < InPipes(s) ==> IdAt(s, k) < s.call.value.id)
          && (s.call.value.sent ==>
                && InPipes(s) > 0
                && (forall k :: 0 <= k < InPipes(s) - 1 ==> IdAt(s, k) < s.call.value.id)
                && IdAt(s, InPipes(s) - 1) in {0, s.call.value.id}))
  }

  /** Each request is answered at most once, with its own body, and what was returned is what the
      agent answered. */
  ghost predicate Matched(s: State) {
    && (forall id :: id in s.bodies ==> 0 < id < s.nextId)
    && (s.call.Some? ==> s.call.value.id in s.bodies && s.bodies[s.call.value.id] == s.call.value.body)
    && (forall k :: 0 <= k < |s.toServer| && s.toServer[k].Req? ==>
          s.toServer[k].id in s.bodies && s.bodies[s.toServer[k].id] == s.toServer[k].body &&
              s.toServer[k].id !in s.handled)
    && (forall id :: id in s.handled ==> id in s.bodies && s.handled[id].body == s.bodies[id])
    && (s.call.Some? && !s.call.value.sent ==> s.call.value.id !in s.handled)
    && (forall k :: 0 <= k < |s.toClient| && s.toClient[k].Reply? && s.toClient[k].id != 0 ==>
          s.toClient[k].id in s.handled && s.handled[s.toClient[k].id].outcome == s.toClient[k].outcome)
    && (forall r :: r in s.returned ==> r.id in s.handled && s.handled[r.id] == Answer(r.body, Result(r.value)))
  }

  lemma StepKeepsOrder(s: State, e: Event, s': State)
    requires Ordered(s) && Step(s, e, s')
    ensures Ordered(s')
  {
    match e {
      case Write => WriteKeepsOrder(s, s');
      case Receive => ReceiveKeepsOrder(s, s');
      case Handle(outcome) => HeadKeepsOrder(s, s');
      case DieWriting => HeadKeepsOrder(s, s');
      case Die => assert forall k :: 0 <= k < InPipes(s) ==> IdAt(s', k) == IdAt(s, k);
      case _ => PipesUntouched(s, s');
    }
  }

  lemma PipesUntouched(s: State, s': State)
    requires Ordered(s) && s'.toServer == s.toServer && s'.toClient == s.toClient && s'.nextId >= s.nextId
    requires s'.call.Some? ==> s'.call.value.id == s'.nextId - 1 == s.nextId && !s'.call.value.sent
    ensures Ordered(s')
  {
    assert forall k :: 0 <= k < InPipes(s) ==> IdAt(s', k) == IdAt(s, k);
  }

  lemma WriteKeepsOrder(s: State, s': State)
    requires Ordered(s) && Step(s, Write, s')
    ensures Ordered(s')
  {
    var n := InPipes(s);
    assert forall k :: 0 <= k < n ==> IdAt(s', k) == IdAt(s, k);
    assert InPipes(s') == n + 1 && IdAt(s', n) == LineId(s'.toServer[|s.toServer|]);
  }

  lemma ReceiveKeepsOrder(s: State, s': State)
    requires Ordered(s) && Step(s, Receive, s')
    ensures Ordered(s')
  {
    assert forall k :: 0 <= k < InPipes(s') ==> IdAt(s', k) == IdAt(s, k + 1);
  }

  /** The agent takes a line and writes one with its id, or with 0. */
  lemma HeadKeepsOrder(s: State, s': State)
    requires Ordered(s) && |s.toServer| > 0 && s'.call == s.call && s'.nextId == s.nextId
    requires s'.toServer == s.toServer[1..] && |s'.toClient| == |s.toClient| + 1 && s.toClient <= s'.toClient
    requires ReplyId(s'.toClient[|s.toClient|]) in {0, LineId(s.toServer[0])}
    ensures Ordered(s')
  {
    var n := |s.toClient|;
    assert InPipes(s') == InPipes(s);
    assert forall k :: 0 <= k < InPipes(s) && k != n ==> IdAt(s', k) == IdAt(s, k);
    assert IdAt(s', n) in {0, IdAt(s, n)};
  }

  lemma StepKeepsMatch(s: State, e: Event, s': State)
    requires Ordered(s) && Matched(s) && Step(s, e, s')
    ensures Matched(s')
  {
    match e {
      case Begin(t, body) =>
      case GiveUpUnsent =>
      case WritePart =>
      case GiveUpWaiting =>
      case Write =>
      case Receive =>
        var r := Judge(s.call.value.id, s.toClient[0]);
        if r.Value? { assert s.toClient[0].id != 0; }
      case Handle(outcome) =>
        HandleKeepsMatch(s, outcome, s');
      case Die =>
      case DieWriting =>
    }
  }

  lemma HandleKeepsMatch(s: State, outcome: Outcome, s': State)
    requires Ordered(s) && Matched(s) && Step(s, Handle(outcome), s')
    ensures Matched(s')
  {
    var n := |s.toClient|;
    forall k | 0 < k < |s.toServer| && s.toServer[k].Req?
      ensures s.toServer[k].id != LineId(s.toServer[0])
    {
      assert IdAt(s, n) == LineId(s.toServer[0]) && IdAt(s, n + k) == s.toServer[k].id;
    }
  }

  lemma {:induction false} RunKeeps(run: seq<State>, k: nat)
    requires IsRun(run) && k < |run|
    ensures Ordered(run[k]) && Matched(run[k])
  {
    if k > 0 {
      RunKeeps(run, k - 1);
      assert Next(run[k - 1], run[k - 1 + 1]);
      var e :| Step(run[k - 1], e, run[k]);
      StepKeepsOrder(run[k - 1], e, run[k]);
      StepKeepsMatch(run[k - 1], e, run[k]);
    }
  }

  /** For any number of threads and any calls abandoned on the way: every value a call ever returned
      is the agent's result for that very request. */
  lemma NoCrossMatch(run: seq<State>, k: nat, r: Return)
    requires IsRun(run) && k < |run| && r in run[k].returned
    ensures r.id in run[k].handled && run[k].handled[r.id] == Answer(r.body, Result(r.value))
    ensures r.id in run[k].bodies && run[k].bodies[r.id] == r.body
  {
    RunKeeps(run, k);
  }

  // ---------------------------------------------------------------- after losing step

  /** Replies still owed to calls that are no longer waiting. */
  function Lag(s: State): int { InPipes(s) - if s.call.Some? && s.call.value.sent then 1 else 0 }

  lemma LagNeverShrinks(s: State, e: Event, s': State)
    requires Step(s, e, s')
    ensures Lag(s) <= Lag(s')
  {}

  lemma LagAtStep(run: seq<State>, k: nat)
    requires IsRun(run) && 0 < k < |run|
    ensures Lag(run[k - 1]) <= Lag(run[k])
  {
    assert Next(run[k - 1], run[k - 1 + 1]);
    var e :| Step(run[k - 1], e, run[k]);
    LagNeverShrinks(run[k - 1], e, run[k]);
  }

  lemma {:induction false} Ascending(a: seq<int>, i: nat, j: nat)
    requires i <= j < |a| && forall k :: 0 < k < |a| ==> a[k - 1] <= a[k]
    ensures a[i] <= a[j]
  {
    if i < j { Ascending(a, i, j - 1); }
  }

  lemma LagStays(run: seq<State>, i: nat, j: nat)
    requires IsRun(run) && i <= j < |run|
    ensures Lag(run[i]) <= Lag(run[j])
  {
    var lags := seq(|run|, k requires 0 <= k < |run| => Lag(run[k]));
    forall k | 0 < k < |lags|
      ensures lags[k - 1] <= lags[k]
    {
      LagAtStep(run, k);
    }
    Ascending(lags, i, j);
  }

  /** A waiting call gets its own answer exactly if nothing is owed to an earlier call, its line was
      not garbled by an earlier fragment and the agent did not die over it; otherwise it fails. */
  lemma ReadsItsOwnIff(s: State)
    requires Ordered(s) && s.call.Some? && s.call.value.sent && |s.toClient| > 0
    ensures Answered(Judge(s.call.value.id, s.toClient[0])) <==>
            Lag(s) == 0 && IdAt(s, InPipes(s) - 1) == s.call.value.id
  {
    assert IdAt(s, 0) == ReplyId(s.toClient[0]);
  }

  /** And what it then ends with is exactly what the agent said: a result is returned to the caller,
      an error is raised with its code and message and returns nothing. */
  lemma OwnAnswerArrives(s: State, s': State)
    requires Ordered(s) && Matched(s) && Step(s, Receive, s')
    requires Lag(s) == 0 && IdAt(s, InPipes(s) - 1) == s.call.value.id
    ensures var c := s.call.value;
      && c.id in s.handled && s.handled[c.id].body == c.body
      && match s.handled[c.id].outcome
         case Result(v) => s'.returned == s.returned + {Return(c.id, c.body, v)}
         case Error(code, message) =>
           s'.returned == s.returned && Judge(c.id, s.toClient[0]) == AgentError(code, message)
  {
    assert IdAt(s, 0) == ReplyId(s.toClient[0]);
  }

  /** Once a call has been abandoned between its write and its read, every later call on the
      connection that gets a whole reply fails with the id mismatch, for good. */
  lemma DesyncIsPermanent(run: seq<State>, i: nat, j: nat)
    requires IsRun(run) && i < j < |run| && Step(run[i], GiveUpWaiting, run[i + 1])
    requires run[j].call.Some? && run[j].call.value.sent && |run[j].toClient| > 0
    ensures Judge(run[j].call.value.id, run[j].toClient[0]) ==
        if run[j].toClient[0].Broken? then NotJson else IdMismatch
  {
    RunKeeps(run, i);
    assert Lag(run[i + 1]) >= 1;
    LagStays(run, i + 1, j);
    RunKeeps(run, j);
    ReadsItsOwnIff(run[j]);
  }

  // ---------------------------------------------------------------- the methods are these steps

  /** The agent takes as many lines as there are steps, answering as `a` does. */
  ghost predicate AgentWorks(run: seq<State>, a: Agent) {
    |run| > 0 && forall k :: 0 <= k < |run| - 1 ==> AgentStep(run[k], a, k, run[k + 1])
  }

  ghost predicate AgentStep(s: State, a: Agent, k: nat, s': State) {
    && |s.toServer| > 0
    && exists outcome :: (
         && Step(s, Handle(outcome), s')
         && (s.toServer[0].Req? ==> outcome == a.dispatch(s.toServer[0].body, k)))
  }

  /** Lines as they are in the pipe: each comes out of the parser as what it went in. */
  ghost predicate Readable(a: Agent, wire: Line -> string) {
    && (forall l :: wire(l) != "")
    && (forall id, body :: a.parse(wire(Req(id, body))) == Some((id, body)))
    && a.parse(wire(Garbled)) == None
  }

  function OnWire(lines: seq<Line>, wire: Line -> string): seq<string> {
    seq(|lines|, k requires 0 <= k < |lines| => wire(lines[k]))
  }

  lemma {:induction false} NothingBlank(lines: seq<string>)
    requires forall k :: 0 <= k < |lines| ==> lines[k] != ""
    ensures NonBlank(lines) == lines
  {
    if |lines| > 0 { NothingBlank(lines[..|lines| - 1]); }
  }

  /** The agent's steps do what Serve does: after n of them the first n lines are gone, Serve's
      replies to them have been written, and the client's side is as it was. */
  lemma {:induction false} ServeTakesSteps(run: seq<State>, a: Agent, wire: Line -> string)
    requires AgentWorks(run, a) && Readable(a, wire)
    ensures |run| - 1 <= |run[0].toServer|
    ensures HasServed(run[0], |run| - 1, run[|run| - 1], a, wire)
    decreases |run|
  {
    var n := |run| - 1;
    if n > 0 {
      AgentWorkedBefore(run, a);
      ServeTakesSteps(run[..n], a, wire);
      assert AgentStep(run[n - 1], a, n - 1, run[n - 1 + 1]);
      ServesOneMore(run[0], n - 1, run[n - 1], a, wire, run[n]);
    } else {
      assert OnWire([], wire) == [] && Replies(a, []) == [];
    }
  }

  lemma AgentWorkedBefore(run: seq<State>, a: Agent)
    requires AgentWorks(run, a) && |run| > 1
    ensures AgentWorks(run[..|run| - 1], a)
  {
    var before := run[..|run| - 1];
    forall k | 0 <= k < |before| - 1
      ensures AgentStep(before[k], a, k, before[k + 1])
    {
      assert AgentStep(run[k], a, k, run[k + 1]);
    }
  }

  /** From `s` the agent has taken `n` lines and written what Serve would write, and no more. */
  ghost predicate HasServed(s: State, n: nat, s': State, a: Agent, wire: Line -> string)
    requires n <= |s.toServer|
  {
    && s'.toServer == s.toServer[n..]
    && s'.toClient == s.toClient + Replies(a, OnWire(s.toServer[..n], wire))
    && s'.call == s.call && s'.nextId == s.nextId && s'.returned == s.returned && s'.fragment == s.fragment
  }

  lemma ServesOneMore(s: State, n: nat, s1: State, a: Agent, wire: Line -> string, s2: State)
    requires Readable(a, wire) && n <= |s.toServer| && HasServed(s, n, s1, a, wire) && AgentStep(s1, a, n, s2)
    ensures n < |s.toServer| && HasServed(s, n + 1, s2, a, wire)
  {
    OneMoreReply(a, wire, s.toServer, n);
    assert s.toServer[n..][0] == s.toServer[n] && s.toServer[n..][1..] == s.toServer[n + 1..];
  }

  lemma OneMoreReply(a: Agent, wire: Line -> string, lines: seq<Line>, n: nat)
    requires Readable(a, wire) && n < |lines|
    ensures Replies(a, OnWire(lines[..n + 1], wire)) ==
            Replies(a, OnWire(lines[..n], wire)) + [ReplyTo(a, wire(lines[n]), n)]
  {
    NothingBlank(OnWire(lines[..n], wire));
    NothingBlank(OnWire(lines[..n + 1], wire));
  }

  /** Taking the lock, writing and reading do what Call does, with what the agent wrote meanwhile as
      its arrivals: the same counter, the same line written, the same line taken, and a value is
      recorded as returned exactly if Call returns it. */
  lemma CallTakesSteps(s: State, thread: Thread, body: string, s1: State, s2: State, work: seq<State>, a: Agent,
                       s4: State)
    returns (arrivals: seq<Reply>)
    requires !s.fragment && Step(s, Begin(thread, body), s1) && Step(s1, Write, s2)
    requires AgentWorks(work, a) && work[0] == s2 && Step(work[|work| - 1], Receive, s4)
    ensures work[|work| - 1].toClient == s.toClient + arrivals
    ensures var client := Client(s.nextId, s.toServer, s.toClient);
      var after := Called(client, body, arrivals); var r := CallReturns(client, arrivals);
      && s2.toServer == after.stdin && s4.nextId == after.nextId && s4.toClient == after.stdout && s4.call == None
      && s4.returned == s.returned + (if r.Value? then {Return(s.nextId, body, r.value)} else {})
  {
    WorkAddsReplies(work, a);
    var last := work[|work| - 1].toClient;
    arrivals := last[|s.toClient|..];
    assert s.toClient + arrivals == last;
  }

  lemma {:induction false} WorkAddsReplies(run: seq<State>, a: Agent)
    requires AgentWorks(run, a)
    ensures var s, s' := run[0], run[|run| - 1];
      && s.toClient <= s'.toClient
      && s'.call == s.call && s'.nextId == s.nextId && s'.returned == s.returned && s'.fragment == s.fragment
    decreases |run|
  {
    var n := |run| - 1;
    if n > 0 {
      AgentWorkedBefore(run, a);
      WorkAddsReplies(run[..n], a);
      assert AgentStep(run[n - 1], a, n - 1, run[n - 1 + 1]);
    }
  }

  /** On quiet pipes a call gets what the agent makes of its request: the first line the agent reads
      is the call's, and the line it writes is the one the call takes. */
  lemma CallIsServed(c: Client, body: string, a: Agent, wire: Line -> string)
    requires c.stdout == [] && Readable(a, wire)
    ensures var arrivals := Replies(a, [wire(Req(c.nextId, body))]);
      && CallReturns(c, arrivals) == (match a.dispatch(body, 0)
           case Result(v) => Value(v)
           case Error(code, message) => AgentError(code, message))
      && Called(c, body, arrivals) == Client(c.nextId + 1, c.stdin + [Req(c.nextId, body)], [])
  {
    NothingBlank([wire(Req(c.nextId, body))]);
  }

  /** Blank lines are not answered, and every other line is, in order; a line that does not parse with
      id 0 and the code for a parse error. */
  lemma {:induction false} RepliesByLine(a: Agent, lines: seq<string>, line: string)
    ensures var before := Replies(a, lines);
      Replies(a, lines + [line]) ==
        if line == "" then before
        else before + [match a.parse(line)
          case None => Reply(0, Error(-32700, "parse error"))
          case Some(req) => Reply(req.0, a.dispatch(req.1, |before|))]
  {
    assert (lines + [line])[..|lines|] == lines;
  }

  /** What a call ends with, for whatever it reads: nothing, half a line, another call's reply, or its
      own. */
  lemma CallDecided(c: Client, arrivals: seq<Reply>)
    ensures var inbox := c.stdout + arrivals;
      CallReturns(c, arrivals) ==
        if inbox == [] then NoResponse
        else match inbox[0]
          case Broken => NotJson
          case Reply(id, Result(v)) => if id == c.nextId then Value(v) else IdMismatch
          case Reply(id, Error(code, message)) => if id == c.nextId then AgentError(code, message) else IdMismatch
  {}

  /** A call abandoned in the middle of its line spoils the next one: the agent cannot read what that
      writes behind the fragment, answers with id 0, and the call fails although it did everything
      right. */
  lemma FragmentSpoilsNext() returns (run: seq<State>)
    ensures IsRun(run) && |run| == 6
    ensures Step(run[1], WritePart, run[2]) && Step(run[3], Write, run[4])
    ensures run[5].call == Some(Call(2, 2, "b", true)) && |run[5].toClient| > 0
    ensures Judge(2, run[5].toClient[0]) == IdMismatch
  {
    var s0 := State(1, None, false, true, [], [], map[], map[], {});
    var s1 := s0.(nextId := 2, call := Some(Call(1, 1, "a", false)), bodies := map[1 := "a"]);
    var s2 := s1.(call := None, fragment := true);
    var s3 := s2.(nextId := 3, call := Some(Call(2, 2, "b", false)), bodies := map[1 := "a", 2 := "b"]);
    var s4 := s3.(call := Some(Call(2, 2, "b", true)), fragment := false, toServer := [Garbled]);
    var s5 := s4.(toServer := [], toClient := [Reply(0, Error(PARSE_ERROR, "parse error"))]);
    assert s3.bodies == s2.bodies[2 := "b"] && s1.bodies == s0.bodies[1 := "a"];
    assert s3.toServer + [Garbled] == [Garbled] && [Garbled][1..] == [];
    assert Next(s0, s1) by { assert Step(s0, Begin(1, "a"), s1); }
    assert Next(s1, s2) by { assert Step(s1, WritePart, s2); }
    assert Next(s2, s3) by { assert Step(s2, Begin(2, "b"), s3); }
    assert Next(s3, s4) by { assert Step(s3, Write, s4); }
    assert Next(s4, s5) by { assert Step(s4, Handle(Result("")), s5); }
    run := [s0, s1, s2, s3, s4, s5];
  }
}
