/** When an apt-get update may be skipped. Times are nanoseconds; 0 is Go's zero time. */
module AptFreshness {
  import opened Wrappers

  type Time = nat

  const SECOND := 1_000_000_000
  const MAX_DURATION := 0x7FFF_FFFF_FFFF_FFFF
  const MIN_DURATION := -0x8000_0000_0000_0000

  /** An entry of sources.list.d; its mtime is absent if it vanished before it was read. */
  datatype SourceEntry = SourceEntry(isDir: bool, mtime: Option<Time>)

  /** The source files as one request sees them; what cannot be read is absent. */
  datatype Sources = Sources(list: Option<Time>, dir: Option<Time>, entries: Option<seq<SourceEntry>>)

  ghost predicate Counts(s: Sources, t: Time) {
    || s.list == Some(t)
    || s.dir == Some(t)
    || (s.entries.Some? && exists e :: e in s.entries.value && !e.isDir && e.mtime == Some(t))
  }

  /** The latest modification time that counts, or the zero time if there is none. */
  ghost predicate IsLatest(s: Sources, t: Time) {
    && (forall u: Time :: Counts(s, u) ==> u <= t)
    && (t == 0 || Counts(s, t))
  }

  function Later(t: Time, latest: Time): Time { if t > latest then t else latest }

  function EntriesLatest(es: seq<SourceEntry>, latest: Time): Time {
    if |es| == 0 then latest
    else
      var e := es[|es| - 1];
      var before := EntriesLatest(es[..|es| - 1], latest);
      if e.isDir || e.mtime.None? then before else Later(e.mtime.value, before)
  }

  function LatestSources(s: Sources): Time {
    var a := if s.list.Some? then Later(s.list.value, 0) else 0;
    var b := if s.dir.Some? then Later(s.dir.value, a) else a;
    if s.entries.Some? then EntriesLatest(s.entries.value, b) else b
  }

  /** latestAptSourcesMTime. */
  method LatestAptSourcesMTime(s: Sources) returns (latest: Time)
    ensures IsLatest(s, latest) && latest == LatestSources(s)
  {
    latest := 0;
    if s.list.Some? { latest := Later(s.list.value, latest); }
    if s.dir.Some? { latest := Later(s.dir.value, latest); }
    if s.entries.Some? {
      var es := s.entries.value;
      ghost var start := latest;
      for k := 0 to |es|
        invariant latest == EntriesLatest(es[..k], start) && start <= latest
        invariant forall e :: e in es[..k] && !e.isDir && e.mtime.Some? ==> e.mtime.value <= latest
        invariant latest == start || exists e :: e in es[..k] && !e.isDir && e.mtime == Some(latest)
      {
        assert es[..k + 1][..k] == es[..k] && es[..k + 1] == es[..k] + [es[k]];
        if es[k].isDir || es[k].mtime.None? { continue; }
        latest := Later(es[k].mtime.value, latest);
        assert es[k] in es[..k + 1];
      }
      assert es[..|es|] == es;
    }
  }

  lemma {:induction false} EntriesLatestIs(es: seq<SourceEntry>, start: Time)
    ensures var t := EntriesLatest(es, start);
      && start <= t
      && (forall e :: e in es && !e.isDir && e.mtime.Some? ==> e.mtime.value <= t)
      && (t == start || exists e :: e in es && !e.isDir && e.mtime == Some(t))
  {
    if |es| > 0 {
      var n := |es| - 1;
      EntriesLatestIs(es[..n], start);
      assert es == es[..n] + [es[n]];
    }
  }

  lemma LatestSourcesIs(s: Sources)
    ensures IsLatest(s, LatestSources(s))
  {
    if s.entries.Some? {
      var a := if s.list.Some? then Later(s.list.value, 0) else 0;
      EntriesLatestIs(s.entries.value, if s.dir.Some? then Later(s.dir.value, a) else a);
    }
  }

  // ---------------------------------------------------------------- the test

  /** time.Sub saturates. */
  function Sub(now: Time, then_: Time): int {
    var d := now - then_;
    if d > MAX_DURATION then MAX_DURATION else if d < MIN_DURATION then MIN_DURATION else d
  }

  /** aptCacheFresh. */
  predicate AptCacheFresh(updatedAt: Time, sources: Time, now: Time, valid: int) {
    updatedAt != 0 && Sub(now, updatedAt) < valid && !(sources != 0 && sources > updatedAt)
  }

  /** int64 arithmetic wraps around. */
  function Wrap64(x: int): int { (x - MIN_DURATION) % 0x1_0000_0000_0000_0000 + MIN_DURATION }

  /** The window a request asks for, before and after conversion to a time.Duration. */
  function Seconds(cacheValidTime: int): int { if cacheValidTime <= 0 then 60 else cacheValidTime }
  function Window(cacheValidTime: int): int { Wrap64(Seconds(cacheValidTime) * SECOND) }

  lemma WindowNeverLonger(cacheValidTime: int)
    ensures MIN_DURATION <= Window(cacheValidTime) <= MAX_DURATION
    ensures Window(cacheValidTime) <= Seconds(cacheValidTime) * SECOND
    ensures Seconds(cacheValidTime) * SECOND <= MAX_DURATION ==>
        Window(cacheValidTime) == Seconds(cacheValidTime) * SECOND
  {}

  /** One refresh request: what it sees, and when its apt-get update completes, if it succeeds. */
  datatype Refresh = Refresh(now: Time, sources: Sources, lock: Option<Time>, cacheValidTime: int,
      completes: Option<Time>)

  /** The part of handlePackageApt that decides. */
  predicate Skips(recorded: Time, q: Refresh) {
    var s := LatestSources(q.sources);
    var w := Window(q.cacheValidTime);
    AptCacheFresh(recorded, s, q.now, w) || (q.lock.Some? && AptCacheFresh(q.lock.value, s, q.now, w))
  }

  /** A time that justifies skipping: a real completion or lock time, no longer ago than the
      request asks for, and not older than any source. */
  ghost predicate Witness(recorded: Time, q: Refresh, t: Time, window: int) {
    && t != 0 && (t == recorded || q.lock == Some(t))
    && q.now - t < window
    && (forall u: Time :: Counts(q.sources, u) ==> u <= t)
  }

  /** A skipped refresh always has a witness within the requested validity, even if the
      conversion to a duration overflows. */
  lemma SkipHasWitness(recorded: Time, q: Refresh) returns (t: Time)
    requires Skips(recorded, q)
    ensures Witness(recorded, q, t, (if q.cacheValidTime <= 0 then 60 else q.cacheValidTime) * 1_000_000_000)
  {
    LatestSourcesIs(q.sources);
    WindowNeverLonger(q.cacheValidTime);
    if AptCacheFresh(recorded, LatestSources(q.sources), q.now, Window(q.cacheValidTime)) {
      t := recorded;
    } else {
      t := q.lock.value;
    }
  }

  /** And if the conversion does not overflow, a witness is exactly what it takes. */
  lemma SkipExactly(recorded: Time, q: Refresh)
    requires q.cacheValidTime <= 9_223_372_036
    ensures var window := (if q.cacheValidTime <= 0 then 60 else q.cacheValidTime) * 1_000_000_000;
      Skips(recorded, q) <==> exists t: Time :: Witness(recorded, q, t, window)
  {
    WindowNeverLonger(q.cacheValidTime);
    LatestSourcesIs(q.sources);
    if Skips(recorded, q) { var t := SkipHasWitness(recorded, q); }
    if exists t: Time :: Witness(recorded, q, t, Seconds(q.cacheValidTime) * SECOND) {
      var t: Time :| Witness(recorded, q, t, Seconds(q.cacheValidTime) * SECOND);
      assert Sub(q.now, t) < Window(q.cacheValidTime);
    }
  }

  // ---------------------------------------------------------------- a run of requests

  predicate Executes(recorded: Time, q: Refresh) { !Skips(recorded, q) && q.completes.Some? }

  /** The recorded completion before request `k` of a sequential run. */
  function Recorded(run: seq<Refresh>, k: nat): Time
    requires k <= |run|
  {
    if k == 0 then 0
    else
      var before := Recorded(run, k - 1);
      if Executes(before, run[k - 1]) then run[k - 1].completes.value else before
  }

  /** One request after the other, on a clock that does not run backwards. */
  ghost predicate Sequential(run: seq<Refresh>) {
    && (forall k :: 0 <= k < |run| ==>
        run[k].now > 0 && (run[k].completes.Some? ==> run[k].completes.value >= run[k].now))
    && (forall k :: 0 < k < |run| ==>
          run[k].now >= run[k - 1].now && (run[k - 1].completes.Some? ==> run[k].now >= run[k - 1].completes.value))
  }

  lemma {:induction false} RecordedStaysBehind(run: seq<Refresh>, i: nat, k: nat)
    requires Sequential(run) && i < k <= |run| && Executes(Recorded(run, i), run[i])
    ensures run[i].completes.value <= Recorded(run, k)
    ensures k < |run| ==> Recorded(run, k) <= run[k].now
    decreases k
  {
    if k > i + 1 { RecordedStaysBehind(run, i, k - 1); }
  }

  /** Two refreshes that are both executed are at least the second one's window apart, unless some
      source became newer after the first completed. */
  lemma ExecutedRefreshesAreApart(run: seq<Refresh>, i: nat, j: nat)
    requires Sequential(run) && i < j < |run|
    requires Executes(Recorded(run, i), run[i]) && Executes(Recorded(run, j), run[j])
    ensures var asked := (if run[j].cacheValidTime <= 0 then 60 else run[j].cacheValidTime) * 1_000_000_000;
      run[j].cacheValidTime <= 9_223_372_036 ==> Window(run[j].cacheValidTime) == asked
    ensures || run[j].now - run[i].completes.value >= Window(run[j].cacheValidTime)
            || (exists u: Time :: Counts(run[j].sources, u) && u > run[i].completes.value)
  {
    RecordedStaysBehind(run, i, j);
    WindowNeverLonger(run[j].cacheValidTime);
    LatestSourcesIs(run[j].sources);
    var r := Recorded(run, j);
    var s := LatestSources(run[j].sources);
    assert r != 0;
    assert !AptCacheFresh(r, s, run[j].now, Window(run[j].cacheValidTime));
    if s != 0 && s > r { assert Counts(run[j].sources, s); }
  }

  /** A validity that does not fit a time.Duration wraps around: one second more than 292 years and
      nothing is ever fresh. */
  lemma HugeValidityNeverSkips(recorded: Time, q: Refresh)
    requires q.cacheValidTime == 9_223_372_037 && recorded <= q.now && (q.lock.Some? ==> q.lock.value <= q.now)
    ensures Window(q.cacheValidTime) < 0 && !Skips(recorded, q)
  {}
}
