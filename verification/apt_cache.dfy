/** The in-memory index of installed packages, used one request at a time: it must not be
    distinguishable, in what ends up installed, from asking apt-get every time. */
module AptCache {
  import opened Wrappers
  import opened Text
  import opened Numerals
  import opened DpkgStatus
  import opened AptOutput
  import opened AptFreshness

  datatype Verb = Install | Remove | Upgrade

  /** What apt-get does: whether it succeeds, the lines of dpkg's status file it leaves, its output. */
  datatype AptRun = AptRun(ok: bool, status: seq<string>, out: string) {
    function Installed(): set<string> { InstalledPackages(status) }
  }

  /** What apt-get would do to a set of installed packages. */
  type AptTool = (Verb, seq<string>, set<string>) -> AptRun

  /** `readable`: whether dpkg's status file can be opened during this request. */
  datatype PackageRequest = PackageRequest(update: Option<Refresh>, names: seq<string>, state: string, readable: bool)

  /** The guarded globals and, beside them, dpkg's status file. */
  datatype AptState = AptState(recorded: Time, pkgs: set<string>, valid: bool, status: seq<string>) {
    function Installed(): set<string> { InstalledPackages(status) }
  }

  datatype Answer = Answered(changed: bool) | Refused

  datatype Handled = Handled(state: AptState, answer: Answer)

  function VerbOf(state: string): Option<Verb> {
    if state == "present" then Some(Install)
    else if state == "absent" then Some(Remove)
    else if state == "latest" then Some(Upgrade)
    else None
  }

  predicate NeedsRefresh(s: AptState, q: PackageRequest) { q.update.Some? && !Skips(s.recorded, q.update.value) }

  /** loadInstalledPackages, unless the index is already valid. */
  function Loaded(s: AptState, q: PackageRequest): AptState {
    if s.valid then s
    else if q.readable then s.(pkgs := s.Installed(), valid := true)
    else s
  }

  /** How far a request gets without apt-get install or remove: answered, or asking for it. */
  datatype Prepared = Done(handled: Handled) | Asks(state: AptState, refreshed: bool)

  /** `useIndex` off is the handler without the index. */
  function Prepare(s: AptState, q: PackageRequest, useIndex: bool): Prepared {
    var refresh := NeedsRefresh(s, q);
    if refresh && q.update.value.completes.None? then Done(Handled(s, Refused))
    else
      var s1 := if refresh then s.(recorded := q.update.value.completes.value, valid := false) else s;
      var s2 := if q.state == "present" && useIndex && |q.names| > 0 then Loaded(s1, q) else s1;
      if |q.names| == 0 then Done(Handled(s1, Answered(refresh)))
      else if q.state == "present" && useIndex && s2.valid && (forall n | n in q.names :: n in s2.pkgs) then
        Done(Handled(s2, Answered(refresh)))
      else if VerbOf(q.state).None? then Done(Handled(s2, Refused))
      else Asks(s2, refresh)
  }

  /** The run of apt-get that a request asking for it gets. */
  function RunOf(s: AptState, q: PackageRequest, tool: AptTool): AptRun
    requires VerbOf(q.state).Some?
  {
    tool(VerbOf(q.state).value, q.names, s.Installed())
  }

  /** Running apt-get and looking at its output. */
  function Shell(s: AptState, q: PackageRequest, tool: AptTool, refreshed: bool): Handled
    requires VerbOf(q.state).Some?
  {
    var run := RunOf(s, q, tool);
    var s' := s.(status := run.status);
    if !run.ok then Handled(s', Refused)
    else
      var changed := ReportsChange(run.out);
      Handled(if changed then s'.(valid := false) else s', Answered(changed || refreshed))
  }

  /** handlePackageApt. */
  function Handle(s: AptState, q: PackageRequest, tool: AptTool, useIndex: bool): Handled {
    match Prepare(s, q, useIndex)
    case Done(h) => h
    case Asks(s', refreshed) => Shell(s', q, tool, refreshed)
  }

  // ---------------------------------------------------------------- the handler in place

  class AptServer {
    var aptCacheUpdated: Time
    var aptInstalledPkgs: set<string>
    var aptInstalledValid: bool
    /** The lines of dpkg's status file. */
    var status: seq<string>
    const tool: AptTool

    constructor (status: seq<string>, tool: AptTool)
      ensures View() == AptState(0, {}, false, status) && this.tool == tool
    {
      aptCacheUpdated, aptInstalledPkgs, aptInstalledValid := 0, {}, false;
      this.status, this.tool := status, tool;
    }

    function View(): AptState
      reads this
    {
      AptState(aptCacheUpdated, aptInstalledPkgs, aptInstalledValid, status)
    }

    /** The part about the cache of package lists; `err` if apt-get update was run and failed. */
    method UpdateCache(u: Refresh) returns (cacheUpdated: bool, err: bool)
      modifies this`aptCacheUpdated, this`aptInstalledValid
      ensures cacheUpdated == (!Skips(old(aptCacheUpdated), u) && u.completes.Some?)
      ensures err == (!Skips(old(aptCacheUpdated), u) && u.completes.None?)
      ensures View() ==
              if cacheUpdated then old(View()).(recorded := u.completes.value, valid := false) else old(View())
    {
      var sources := LatestAptSourcesMTime(u.sources);
      var skip := AptCacheFresh(aptCacheUpdated, sources, u.now, Window(u.cacheValidTime));
      if !skip && u.lock.Some? {
        skip := AptCacheFresh(u.lock.value, sources, u.now, Window(u.cacheValidTime));
      }
      if skip { return false, false; }
      if u.completes.None? { return false, true; }
      aptCacheUpdated := u.completes.value;
      aptInstalledValid := false;
      return true, false;
    }

    /** The part that the mutex guards: fill the index if need be, and look the names up. */
    method LookUp(names: seq<string>, readable: bool) returns (allInstalled: bool)
      modifies this`aptInstalledPkgs, this`aptInstalledValid
      ensures View() == if !old(aptInstalledValid) && readable
                        then old(View()).(pkgs := InstalledPackages(status), valid := true) else old(View())
      ensures allInstalled <==> aptInstalledValid && forall n | n in names :: n in aptInstalledPkgs
    {
      if !aptInstalledValid && readable {
        aptInstalledPkgs := LoadInstalledPackages(status);
        aptInstalledValid := true;
      }
      if !aptInstalledValid { return false; }
      allInstalled := true;
      for k := 0 to |names|
        invariant allInstalled <==> forall j :: 0 <= j < k ==> names[j] in aptInstalledPkgs
      {
        if names[k] !in aptInstalledPkgs {
          assert names[k] in names;
          allInstalled := false;
          break;
        }
      }
    }

    method HandlePackageApt(q: PackageRequest) returns (answer: Answer)
      modifies this
      ensures var r := Handle(old(View()), q, tool, true); View() == r.state && answer == r.answer
    {
      var cacheUpdated := false;
      if q.update.Some? {
        var err;
        cacheUpdated, err := UpdateCache(q.update.value);
        if err { return Refused; }
      }
      if |q.names| == 0 { return Answered(cacheUpdated); }
      if q.state == "present" {
        var allInstalled := LookUp(q.names, q.readable);
        if allInstalled { return Answered(cacheUpdated); }
      }
      var verb := VerbOf(q.state);
      if verb.None? { return Refused; }
      assert Prepare(old(View()), q, true) == Asks(View(), cacheUpdated);
      var run := tool(verb.value, q.names, InstalledPackages(status));
      status := run.status;
      if !run.ok { return Refused; }
      var changed := ReportsChange(run.out);
      if changed { aptInstalledValid := false; }
      return Answered(changed || cacheUpdated);
    }
  }

  // ---------------------------------------------------------------- coherence and refinement

  ghost predicate Coherent(s: AptState) { s.valid ==> s.pkgs == s.Installed() }

  /** What the handler takes for granted about one run of apt-get: if it fails it changed nothing, if
      it changed something its output is taken for a change, and installing what is installed
      changes nothing. */
  ghost predicate FaithfulRun(v: Verb, names: seq<string>, inst: set<string>, run: AptRun) {
    && (!run.ok ==> run.Installed() == inst)
    && (run.ok && run.Installed() != inst ==> ReportsChange(run.out))
    && (Redundant(v, names, inst) ==> run.Installed() == inst)
  }

  /** Installing what is installed succeeds and is not taken for a change. */
  ghost predicate QuietRun(v: Verb, names: seq<string>, inst: set<string>, run: AptRun) {
    Redundant(v, names, inst) ==> run.ok && !ReportsChange(run.out)
  }

  predicate Redundant(v: Verb, names: seq<string>, inst: set<string>) {
    v == Install && forall n | n in names :: n in inst
  }

  /** The run that a request gets from the handler without the index, if it gets one, is faithful. */
  ghost predicate FaithfulHere(p: AptState, q: PackageRequest, tool: AptTool) {
    Prepare(p, q, false).Asks? ==> FaithfulRun(VerbOf(q.state).value, q.names, p.Installed(), RunOf(p, q, tool))
  }

  ghost predicate QuietHere(p: AptState, q: PackageRequest, tool: AptTool) {
    Prepare(p, q, false).Asks? ==> QuietRun(VerbOf(q.state).value, q.names, p.Installed(), RunOf(p, q, tool))
  }

  /** Every run of apt-get that the handler without the index would make is faithful. */
  ghost predicate FaithfulAlong(p: AptState, run: seq<PackageRequest>, tool: AptTool)
    decreases |run|
  {
    |run| > 0 ==> FaithfulHere(p, run[0], tool) && FaithfulAlong(Handle(p, run[0], tool, false).state, run[1..], tool)
  }

  ghost predicate QuietAlong(p: AptState, run: seq<PackageRequest>, tool: AptTool)
    decreases |run|
  {
    |run| > 0 ==> QuietHere(p, run[0], tool) && QuietAlong(Handle(p, run[0], tool, false).state, run[1..], tool)
  }

  /** The states of the two handlers agree on everything but the index. */
  ghost predicate Alike(c: AptState, p: AptState) {
    c.Installed() == p.Installed() && c.recorded == p.recorded
  }

  /** Getting ready with the index and without: the only difference is that a redundant run may be
      answered from the index. */
  lemma PrepareAlike(c: AptState, p: AptState, q: PackageRequest)
    requires Coherent(c) && Alike(c, p)
    ensures var i := Prepare(c, q, true);
      match Prepare(p, q, false)
      case Done(h) =>
        i.Done? && Coherent(i.handled.state) && Alike(i.handled.state, h.state) && i.handled.answer == h.answer
      case Asks(s, refreshed) =>
        && s.Installed() == p.Installed()
        && match i
           case Asks(s', refreshed') => refreshed' == refreshed && Coherent(s') && Alike(s', s)
           case Done(h') =>
             && Redundant(VerbOf(q.state).value, q.names, p.Installed())
             && h'.answer == Answered(refreshed) && Coherent(h'.state) && Alike(h'.state, s)
  {}

  lemma ShellAlike(c: AptState, p: AptState, q: PackageRequest, tool: AptTool, refreshed: bool)
    requires Coherent(c) && Alike(c, p) && VerbOf(q.state).Some?
    requires FaithfulRun(VerbOf(q.state).value, q.names, p.Installed(), RunOf(p, q, tool))
    ensures Coherent(Shell(c, q, tool, refreshed).state)
    ensures Alike(Shell(c, q, tool, refreshed).state, Shell(p, q, tool, refreshed).state)
    ensures Shell(c, q, tool, refreshed).answer == Shell(p, q, tool, refreshed).answer
  {
    assert RunOf(c, q, tool) == RunOf(p, q, tool);
  }

  /** One request: with the index and without it, the same packages end up installed and the same
      refreshes are recorded, and the answer is the same if redundant runs are quiet. */
  lemma HandleRefines(c: AptState, p: AptState, q: PackageRequest, tool: AptTool)
    requires Coherent(c) && Alike(c, p) && FaithfulHere(p, q, tool)
    ensures Coherent(Handle(c, q, tool, true).state)
    ensures Alike(Handle(c, q, tool, true).state, Handle(p, q, tool, false).state)
    ensures QuietHere(p, q, tool) ==> Handle(c, q, tool, true).answer == Handle(p, q, tool, false).answer
  {
    PrepareAlike(c, p, q);
    match Prepare(p, q, false)
    case Done(_) =>
    case Asks(s, refreshed) =>
      assert RunOf(s, q, tool) == RunOf(p, q, tool);
      if Prepare(c, q, true).Asks? { ShellAlike(Prepare(c, q, true).state, s, q, tool, refreshed); }
  }

  /** One request of the cached handler on its own. */
  lemma HandleCoherent(s: AptState, q: PackageRequest, tool: AptTool)
    requires Coherent(s) && FaithfulHere(s, q, tool)
    ensures Coherent(Handle(s, q, tool, true).state)
  {
    HandleRefines(s, s, q, tool);
  }

  function RunAll(s: AptState, run: seq<PackageRequest>, tool: AptTool, useIndex: bool): AptState
    decreases |run|
  {
    if |run| == 0 then s else RunAll(Handle(s, run[0], tool, useIndex).state, run[1..], tool, useIndex)
  }

  function Answers(s: AptState, run: seq<PackageRequest>, tool: AptTool, useIndex: bool): seq<Answer>
    decreases |run|
  {
    if |run| == 0 then []
    else
      var h := Handle(s, run[0], tool, useIndex);
      [h.answer] + Answers(h.state, run[1..], tool, useIndex)
  }

  /** Over any sequence of requests whose runs are faithful, the cached handler leaves exactly the
      packages installed that a handler without the index would leave, its index stays coherent,
      and it gives the same answers if redundant runs are quiet. */
  lemma {:induction false} IndexIsInvisible(c: AptState, p: AptState, run: seq<PackageRequest>, tool: AptTool)
    requires Coherent(c) && Alike(c, p) && FaithfulAlong(p, run, tool)
    ensures Alike(RunAll(c, run, tool, true), RunAll(p, run, tool, false))
    ensures Coherent(RunAll(c, run, tool, true))
    ensures QuietAlong(p, run, tool) ==> Answers(c, run, tool, true) == Answers(p, run, tool, false)
    decreases |run|
  {
    if |run| > 0 {
      HandleRefines(c, p, run[0], tool);
      IndexIsInvisible(Handle(c, run[0], tool, true).state, Handle(p, run[0], tool, false).state, run[1..], tool);
    }
  }

  // ---------------------------------------------------------------- what detection is needed for

  /** Any request that makes a successful run keeps the index coherent exactly if the index was not
      valid when apt-get started, or the run changed nothing, or it was detected. */
  lemma CoherentIffDetected(s: AptState, q: PackageRequest, tool: AptTool)
    requires Coherent(s) && Prepare(s, q, true).Asks? && RunOf(s, q, tool).ok
    ensures var run := RunOf(s, q, tool);
      Coherent(Handle(s, q, tool, true).state) <==>
      !Prepare(s, q, true).state.valid || run.Installed() == s.Installed() || ReportsChange(run.out)
  {}

  /** A failing run is never looked at: it keeps a valid index coherent exactly if it changed
      nothing. */
  lemma FailingRunCoherentIff(s: AptState, q: PackageRequest, tool: AptTool)
    requires Coherent(s) && Prepare(s, q, true).Asks? && !RunOf(s, q, tool).ok
    ensures Coherent(Handle(s, q, tool, true).state) <==>
            !Prepare(s, q, true).state.valid || RunOf(s, q, tool).Installed() == s.Installed()
  {}

  /** What one request needs for the index to stay right. */
  ghost predicate Harmless(s: AptState, q: PackageRequest, tool: AptTool) {
    Prepare(s, q, true).Asks? && Prepare(s, q, true).state.valid ==>
      var run := RunOf(s, q, tool);
      run.Installed() == s.Installed() || (run.ok && ReportsChange(run.out))
  }

  ghost predicate HarmlessAlong(s: AptState, run: seq<PackageRequest>, tool: AptTool)
    decreases |run|
  {
    |run| > 0 ==> Harmless(s, run[0], tool) && HarmlessAlong(Handle(s, run[0], tool, true).state, run[1..], tool)
  }

  ghost predicate CoherentAlong(s: AptState, run: seq<PackageRequest>, tool: AptTool)
    decreases |run|
  {
    Coherent(s) && (|run| > 0 ==> CoherentAlong(Handle(s, run[0], tool, true).state, run[1..], tool))
  }

  lemma CoherentIffHarmless(s: AptState, q: PackageRequest, tool: AptTool)
    requires Coherent(s)
    ensures Coherent(Handle(s, q, tool, true).state) <==> Harmless(s, q, tool)
  {
    PrepareAlike(s, s, q);
    if Prepare(s, q, true).Asks? {
      if RunOf(s, q, tool).ok { CoherentIffDetected(s, q, tool); } else { FailingRunCoherentIff(s, q, tool); }
    }
  }

  /** Coherence over whole runs, exactly and for any apt-get: the index is right after every request
      if and only if each run made while it was valid changed nothing, or succeeded and was
      detected. */
  lemma {:induction false} CoherentAlongIff(s: AptState, run: seq<PackageRequest>, tool: AptTool)
    requires Coherent(s)
    ensures CoherentAlong(s, run, tool) <==> HarmlessAlong(s, run, tool)
    decreases |run|
  {
    if |run| > 0 {
      var s' := Handle(s, run[0], tool, true).state;
      CoherentIffHarmless(s, run[0], tool);
      if Coherent(s') { CoherentAlongIff(s', run[1..], tool); }
    }
  }

  /** With apt's own summary, that is: a changing run keeps a valid index coherent exactly if it did
      not install and remove multiples of ten packages, whatever state was requested. */
  lemma CoherentUnlessTens(s: AptState, q: PackageRequest, tool: AptTool,
                           upgraded: nat, installed: nat, removed: nat, held: nat)
    requires Coherent(s) && Prepare(s, q, true).Asks? && Prepare(s, q, true).state.valid
    requires var run := RunOf(s, q, tool);
      run.ok && run.Installed() != s.Installed() && run.out == Summary(upgraded, installed, removed, held)
    ensures Coherent(Handle(s, q, tool, true).state) <==> !(installed % 10 == 0 && removed % 10 == 0)
  {
    SummaryInstalled(upgraded, installed, removed, held);
    SummaryRemoved(upgraded, installed, removed, held);
    CoherentIffDetected(s, q, tool);
  }

  /** When the requests that get to apt-get are: for state=present exactly those naming a package
      that is missing, if dpkg's status file can be read. */
  lemma AsksIff(s: AptState, q: PackageRequest)
    requires Coherent(s) && q.update == None && q.readable && VerbOf(q.state).Some?
    ensures Prepare(s, q, true).Asks? <==>
            |q.names| > 0 && (q.state == "present" ==> exists n :: n in q.names && n !in s.Installed())
    ensures Prepare(s, q, true).Asks? && q.state == "present" ==> Prepare(s, q, true).state.valid
  {}

  // ---------------------------------------------------------------- what is answered

  /** The request refreshes the package lists, or tries to and fails. */
  predicate Refreshes(s: AptState, q: PackageRequest) {
    q.update.Some? && !Skips(s.recorded, q.update.value) && q.update.value.completes.Some?
  }

  predicate RefreshFails(s: AptState, q: PackageRequest) {
    q.update.Some? && !Skips(s.recorded, q.update.value) && q.update.value.completes.None?
  }

  /** What apt-get is asked to do. */
  function Asked(s: AptState, q: PackageRequest, tool: AptTool): AptRun {
    var verb := if q.state == "present" then Install else if q.state == "absent" then Remove else Upgrade;
    tool(verb, q.names, s.Installed())
  }

  /** The request is answered without apt-get: it names nothing, or everything it wants is known to
      be installed. */
  predicate FromIndex(s: AptState, q: PackageRequest) {
    q.names == [] ||
    (q.state == "present" &&
     if s.valid && !Refreshes(s, q) then forall n | n in q.names :: n in s.pkgs
     else q.readable && forall n | n in q.names :: n in s.Installed())
  }

  /** The handler, decided. Refused iff the refresh failed, or the state is none of the three, or
      apt-get failed. Otherwise a change is answered iff this request refreshed the lists, or ran
      apt-get with an output that lacks one of the two phrases; and dpkg's status file is what that
      run left. */
  lemma HandleAnswers(s: AptState, q: PackageRequest, tool: AptTool)
    ensures var h := Handle(s, q, tool, true);
      var known := q.state == "present" || q.state == "absent" || q.state == "latest";
      && h.state.recorded == (if Refreshes(s, q) then q.update.value.completes.value else s.recorded)
      && if RefreshFails(s, q) then h == Handled(s, Refused)
         else if FromIndex(s, q) then h.answer == Answered(Refreshes(s, q)) && h.state.status == s.status
         else if !known then h.answer == Refused && h.state.status == s.status
         else
           var run := Asked(s, q, tool);
           && h.state.status == run.status
           && h.answer == if !run.ok then Refused
                          else Answered(|| Refreshes(s, q)
                                        || !Contains(run.out, "0 newly installed")
                                        || !Contains(run.out, "0 to remove"))
  {
    PrepareDecided(s, q);
  }

  lemma PrepareDecided(s: AptState, q: PackageRequest)
    ensures var i := Prepare(s, q, true);
      if RefreshFails(s, q) then i == Done(Handled(s, Refused))
      else if FromIndex(s, q) then
        i.Done? && i.handled.answer == Answered(Refreshes(s, q)) && i.handled.state.status == s.status
      else if VerbOf(q.state).None? then i.Done? && i.handled.answer == Refused && i.handled.state.status == s.status
      else i.Asks? && i.refreshed == Refreshes(s, q) && i.state.status == s.status
    ensures var i := Prepare(s, q, true);
      (if i.Done? then i.handled.state.recorded else i.state.recorded) ==
        if Refreshes(s, q) then q.update.value.completes.value else s.recorded
  {}

  /** With apt's own summary: a successful run is answered as a change iff the lists were refreshed or
      one of the two counts is no multiple of ten. */
  lemma SummaryAnswered(s: AptState, q: PackageRequest, tool: AptTool,
                        upgraded: nat, installed: nat, removed: nat, held: nat)
    requires !RefreshFails(s, q) && !FromIndex(s, q) && VerbOf(q.state).Some?
    requires Asked(s, q, tool).ok && Asked(s, q, tool).out == Summary(upgraded, installed, removed, held)
    ensures Handle(s, q, tool, true).answer ==
              Answered(Refreshes(s, q) || installed % 10 != 0 || removed % 10 != 0)
  {
    SummaryInstalled(upgraded, installed, removed, held);
    SummaryRemoved(upgraded, installed, removed, held);
    HandleAnswers(s, q, tool);
  }

  /** The consequence: after ten packages were removed at once, a request to have one of them
      present is answered "already installed" and does nothing. */
  lemma TenRemovedAreThoughtPresent(s: AptState, q: PackageRequest, name: string, tool: AptTool)
    requires Coherent(s) && s.valid && q.update == None && q.state == "absent" && name in q.names
    requires name in s.Installed()
    requires var run := tool(Remove, q.names, s.Installed());
      run.ok && name !in run.Installed() && run.out == Summary(0, 0, 10, 0)
    ensures var s' := Handle(s, q, tool, true).state;
      var again := PackageRequest(None, [name], "present", true);
      && Handle(s', again, tool, true) == Handled(s', Answered(false))
      && name !in s'.Installed()
  {
    SummaryInstalled(0, 0, 10, 0);
    SummaryRemoved(0, 0, 10, 0);
  }
}
