/**
 The circuit state evaluated from supplied events: a fold over the events in
 time order with a sliding failure window, manual reset, half-open probing and
 a cooldown.  Times are reals.
 */
module CircuitBreaker {
  import opened Wrappers
  import Sorting

  datatype EventType = Success | Failure | Timeout | RateLimited | Outage | ManualReset | Unknown

  datatype Event = Event(kind: EventType, time: real)

  datatype CircuitState = Closed | Degraded | Open | HalfOpen | Unavailable

  datatype Config = Config(failureThreshold: int, degradedThreshold: int, successesToClose: int, window: real,
        openDuration: real) {
    /** Exactly the configurations the constructor accepts. */
    predicate Valid() {
      failureThreshold >= 1 && degradedThreshold >= 1 && window > 0.0 && openDuration > 0.0
    }
  }

  datatype Machine = Machine(state: CircuitState, openedAt: Option<real>, halfOpenAt: Option<real>, recent: seq<Event>)

  datatype Snapshot = Snapshot(state: CircuitState, allow: bool, retryAfter: Option<real>, cooldown: real)

  datatype Failed = InvalidEventType

  const CLOSED := Machine(Closed, None, None, [])

  predicate IsFailure(e: Event) {
    e.kind == Failure || e.kind == Timeout || e.kind == RateLimited
  }

  function Prune(recent: seq<Event>, now: real, window: real): seq<Event> {
    if recent == [] then []
    else (if now - recent[0].time <= window then [recent[0]] else []) + Prune(recent[1..], now, window)
  }

  /** Successes with a time in [start, end]. */
  function SuccessesSince(events: seq<Event>, start: real, end: real): nat {
    if events == [] then 0
    else
      var first := if start <= events[0].time <= end && events[0].kind == Success then 1 else 0;
      first + SuccessesSince(events[1..], start, end)
  }

  /** An open circuit whose cooldown has passed is half open from this event on. */
  function Cool(c: Config, m: Machine, e: Event): Machine {
    if m.state == Open && m.openedAt.Some? && e.time - m.openedAt.value >= c.openDuration
    then m.(state := HalfOpen, halfOpenAt := Some(e.time)) else m
  }

  /** Where probing successes are counted from; a start of zero reads as missing. */
  function ProbeStart(m: Machine, e: Event): real {
    if m.halfOpenAt.Some? && m.halfOpenAt.value != 0.0 then m.halfOpenAt.value else e.time
  }

  predicate Probed(c: Config, all: seq<Event>, m: Machine, e: Event) {
    SuccessesSince(all, ProbeStart(m, e), e.time) >= c.successesToClose
  }

  /** One event of the fold; `all` is the whole event list, which the probe count rescans. */
  function Step(c: Config, all: seq<Event>, m: Machine, e: Event): Machine {
    var m1 := m.(recent := Prune(m.recent, e.time, c.window));
    if e.kind == ManualReset then CLOSED
    else
      var m2 := Cool(c, m1, e);
      if e.kind == Outage then m2.(state := Unavailable, openedAt := Some(e.time))
      else if IsFailure(e) then
        var m3 := m2.(recent := m2.recent + [e]);
        if m3.state == HalfOpen || |m3.recent| >= c.failureThreshold then m3.(state := Open, openedAt := Some(e.time))
        else if |m3.recent| >= c.degradedThreshold && m3.state == Closed then m3.(state := Degraded)
        else m3
      else if e.kind == Success then
        if m2.state == HalfOpen then
          if Probed(c, all, m2, e) then m2.(state := Closed, openedAt := None, recent := []) else m2
        else if m2.state == Degraded && m2.recent == [] then m2.(state := Closed)
        else m2
      else m2
  }

  /** The machine after the events `run`. */
  function After(c: Config, all: seq<Event>, run: seq<Event>, m: Machine): Machine {
    if run == [] then m else Step(c, all, After(c, all, run[..|run| - 1], m), run[|run| - 1])
  }

  lemma AfterSnoc(c: Config, all: seq<Event>, run: seq<Event>, e: Event, m: Machine)
    ensures After(c, all, run + [e], m) == Step(c, all, After(c, all, run, m), e)
  {
    assert (run + [e])[..|run|] == run;
  }

  function InOrder(events: seq<Event>): seq<Event> {
    Sorting.Sort(events, (a: Event, b: Event) => a.time <= b.time)
  }

  function UpTo(events: seq<Event>, now: real): seq<Event> {
    if events == [] then [] else (if events[0].time > now then [] else [events[0]]) + UpTo(events[1..], now)
  }

  function Max(a: real, b: real): real {
    if a >= b then a else b
  }

  /** The snapshot at `now` of a machine. */
  function Observe(c: Config, m: Machine, now: real): Snapshot {
    var tripped := m.state == Open || m.state == Unavailable;
    var state := if tripped && m.openedAt.Some? && Max(0.0, now - m.openedAt.value) >= c.openDuration then HalfOpen
                 else m.state;
    if (state == Open || state == Unavailable) && m.openedAt.Some? then
      var cooldown := Max(0.0, c.openDuration - Max(0.0, now - m.openedAt.value));
      Snapshot(state, false, Some(cooldown), cooldown)
    else Snapshot(state, state == Closed || state == Degraded || state == HalfOpen, None, 0.0)
  }

  predicate Known(events: seq<Event>) {
    forall e | e in events :: e.kind != Unknown
  }

  function Evaluate(c: Config, events: seq<Event>, now: real, initial: CircuitState): Result<Snapshot, Failed> {
    var ordered := InOrder(events);
    var run := UpTo(ordered, now);
    if !Known(run) then Err(InvalidEventType)
    else Ok(Observe(c, After(c, ordered, run, Machine(initial, None, None, [])), now))
  }

  method EvaluateCircuitState(c: Config, events: seq<Event>, now: real, initial: CircuitState)
    returns (r: Result<Snapshot, Failed>)
    requires c.Valid()
    ensures r == Evaluate(c, events, now, initial)
  {
    var ordered := InOrder(events);
    var m := Machine(initial, None, None, []);
    ghost var start, run: seq<Event> := m, [];
    for i := 0 to |ordered|
      invariant run == UpTo(ordered[..i], now) && Known(run)
      invariant m == After(c, ordered, run, start)
    {
      UpToSnoc(ordered, now, i);
      var e := ordered[i];
      if e.time > now {
        continue;
      }
      if e.kind == Unknown {
        UnknownSeen(ordered, now, i);
        return Err(InvalidEventType);
      }
      AfterSnoc(c, ordered, run, e, start);
      m := Step(c, ordered, m, e);
      run := run + [e];
    }
    assert ordered[..|ordered|] == ordered;
    return Ok(Observe(c, m, now));
  }

  lemma {:induction false} UpToConcat(a: seq<Event>, b: seq<Event>, now: real)
    ensures UpTo(a + b, now) == UpTo(a, now) + UpTo(b, now)
  {
    if a == [] {
      assert a + b == b;
    } else {
      UpToConcat(a[1..], b, now);
      assert (a + b)[1..] == a[1..] + b;
      Regroup(if a[0].time > now then [] else [a[0]], UpTo(a[1..], now), UpTo(b, now));
    }
  }

  lemma UpToSnoc(s: seq<Event>, now: real, i: nat)
    requires i < |s|
    ensures UpTo(s[..i + 1], now) == UpTo(s[..i], now) + (if s[i].time > now then [] else [s[i]])
  {
    assert s[..i + 1] == s[..i] + [s[i]];
    UpToConcat(s[..i], [s[i]], now);
    assert [s[i]][1..] == [];
  }

  lemma UnknownSeen(s: seq<Event>, now: real, i: nat)
    requires i < |s| && s[i].time <= now && s[i].kind == Unknown
    ensures !Known(UpTo(s, now))
  {
    UpToSnoc(s, now, i);
    UpToGrows(s, now, i + 1);
    assert s[i] in UpTo(s[..i + 1], now);
  }

  lemma UpToGrows(s: seq<Event>, now: real, i: nat)
    requires i <= |s|
    ensures forall e | e in UpTo(s[..i], now) :: e in UpTo(s, now)
  {
    assert s == s[..i] + s[i..];
    UpToConcat(s[..i], s[i..], now);
  }

  ghost predicate Timely(run: seq<Event>) {
    forall i, j | 0 <= i < j < |run| :: run[i].time <= run[j].time
  }

  // ----- the failure window -----

  /** The event empties the failure list: a reset, or a success that closes a half-open circuit. */
  predicate Clears(c: Config, all: seq<Event>, m: Machine, e: Event) {
    e.kind == ManualReset || (e.kind == Success && Cool(c, m, e).state == HalfOpen && Probed(c, all, Cool(c, m, e), e))
  }

  /** The number of events up to and including the last one that cleared the failures. */
  function LastClear(c: Config, all: seq<Event>, run: seq<Event>, m: Machine): (r: nat)
    ensures r <= |run|
  {
    if run == [] then 0
    else
      var n := |run| - 1;
      if Clears(c, all, After(c, all, run[..n], m), run[n]) then |run| else LastClear(c, all, run[..n], m)
  }

  /** The failures among the events that lie within the window before `now`. */
  function FailuresWithin(events: seq<Event>, now: real, window: real): seq<Event> {
    if events == [] then []
    else
      var n := |events| - 1;
      var last := if IsFailure(events[n]) && now - events[n].time <= window then [events[n]] else [];
      FailuresWithin(events[..n], now, window) + last
  }

  lemma {:induction false} PruneConcat(a: seq<Event>, b: seq<Event>, now: real, window: real)
    ensures Prune(a + b, now, window) == Prune(a, now, window) + Prune(b, now, window)
  {
    if a == [] {
      assert a + b == b;
    } else {
      PruneConcat(a[1..], b, now, window);
      assert (a + b)[1..] == a[1..] + b;
      Regroup(if now - a[0].time <= window then [a[0]] else [], Prune(a[1..], now, window), Prune(b, now, window));
    }
  }

  lemma {:induction false} PruneWithin(events: seq<Event>, then': real, now: real, window: real)
    requires then' <= now
    ensures Prune(FailuresWithin(events, then', window), now, window) == FailuresWithin(events, now, window)
  {
    if events != [] {
      var n := |events| - 1;
      PruneWithin(events[..n], then', now, window);
      var last := if IsFailure(events[n]) && then' - events[n].time <= window then [events[n]] else [];
      PruneConcat(FailuresWithin(events[..n], then', window), last, now, window);
      assert last != [] ==> last[1..] == [];
    }
  }

  lemma RecentAfterStep(c: Config, all: seq<Event>, m: Machine, e: Event)
    ensures Step(c, all, m, e).recent ==
            if Clears(c, all, m, e) then [] else Prune(m.recent, e.time, c.window) + (if IsFailure(e) then [e] else [])
  {
    var m1 := m.(recent := Prune(m.recent, e.time, c.window));
    assert Cool(c, m1, e) == Cool(c, m, e).(recent := m1.recent);
  }

  lemma FailuresSnoc(events: seq<Event>, e: Event, window: real)
    requires window > 0.0
    ensures FailuresWithin(events + [e], e.time, window) == FailuresWithin(events, e.time, window)
              + (if IsFailure(e) then [e] else [])
  {
    assert (events + [e])[..|events|] == events;
  }

  lemma LastClearSnoc(c: Config, all: seq<Event>, before: seq<Event>, e: Event, m: Machine)
    ensures LastClear(c, all, before + [e], m)
         == if Clears(c, all, After(c, all, before, m), e) then |before| + 1 else LastClear(c, all, before, m)
  {
    assert (before + [e])[..|before|] == before;
  }

  lemma SuffixSnoc(before: seq<Event>, e: Event, k: nat)
    requires k <= |before|
    ensures (before + [e])[k..] == before[k..] + [e]
  {}

  lemma {:induction false} RecentAfterSnoc(c: Config, all: seq<Event>, before: seq<Event>, e: Event, m: Machine)
    requires c.Valid() && Timely(before + [e]) && m.recent == []
    ensures var run := before + [e];
            After(c, all, run, m).recent == FailuresWithin(run[LastClear(c, all, run, m)..], e.time, c.window)
    decreases |before|, 2
  {
    var m0, k := After(c, all, before, m), LastClear(c, all, before, m);
    AfterSnoc(c, all, before, e, m);
    LastClearSnoc(c, all, before, e, m);
    RecentAfterStep(c, all, m0, e);
    if Clears(c, all, m0, e) {
      assert (before + [e])[|before| + 1..] == [];
    } else {
      PrunedIsWindow(c, all, before, m, e);
      FailuresSnoc(before[k..], e, c.window);
      SuffixSnoc(before, e, k);
    }
  }

  /** At every event the failure list is exactly the failures since the last clear that lie within the window. */
  lemma RecentIsWindow(c: Config, all: seq<Event>, run: seq<Event>, m: Machine)
    requires c.Valid() && Timely(run) && m.recent == [] && run != []
    ensures var k := LastClear(c, all, run, m);
            After(c, all, run, m).recent == FailuresWithin(run[k..], run[|run| - 1].time, c.window)
    decreases |run| - 1, 3
  {
    var n := |run| - 1;
    assert run[..n] + [run[n]] == run;
    RecentAfterSnoc(c, all, run[..n], run[n], m);
  }

  lemma PrunedIsWindow(c: Config, all: seq<Event>, before: seq<Event>, m: Machine, e: Event)
    requires c.Valid() && Timely(before + [e]) && m.recent == []
    ensures Prune(After(c, all, before, m).recent, e.time, c.window)
              == FailuresWithin(before[LastClear(c, all, before, m)..], e.time, c.window)
    decreases |before|, 1
  {
    if before != [] {
      var n, k := |before|, LastClear(c, all, before, m);
      assert forall i | 0 <= i < n :: (before + [e])[i] == before[i];
      assert (before + [e])[n - 1].time <= (before + [e])[n].time;
      RecentIsWindow(c, all, before, m);
      PruneWithin(before[k..], before[n - 1].time, e.time, c.window);
    }
  }

  /**
   What a failure does, in terms of the history: it opens a probing circuit, or one with enough
   failures in the window; below that it at most degrades a closed one.
   */
  lemma FailureEffect(c: Config, all: seq<Event>, run: seq<Event>, m: Machine)
    requires c.Valid() && Timely(run) && m.recent == [] && run != [] && IsFailure(run[|run| - 1])
    ensures var n := |run| - 1; var e := run[n];
            var before := Cool(c, After(c, all, run[..n], m), e); var after := After(c, all, run, m);
            var failures := |FailuresWithin(run[LastClear(c, all, run, m)..], e.time, c.window)|;
            if before.state == HalfOpen || failures >= c.failureThreshold
            then after.state == Open && after.openedAt == Some(e.time)
            else
              && after.openedAt == before.openedAt
              && after.state ==
                 (if failures >= c.degradedThreshold && before.state == Closed then Degraded else before.state)
  {
    RecentIsWindow(c, all, run, m);
  }

  /** What a success does, given the failures its window holds. */
  predicate SuccessOutcome(c: Config, all: seq<Event>, before: Machine, failures: seq<Event>, e: Event,
        after: Machine) {
    match before.state
    case HalfOpen =>
      if SuccessesSince(all, ProbeStart(before, e), e.time) >= c.successesToClose then after.state == Closed
          && after.openedAt == None && after.recent == []
      else after.state == HalfOpen && after.openedAt == before.openedAt
    case Degraded => after.state == (if failures == [] then Closed else Degraded)
    case _ => after.state == before.state && after.openedAt == before.openedAt
  }

  lemma SuccessStep(c: Config, all: seq<Event>, m: Machine, e: Event)
    requires e.kind == Success
    ensures SuccessOutcome(c, all, Cool(c, m, e), Prune(m.recent, e.time, c.window), e, Step(c, all, m, e))
  {
    var m1 := m.(recent := Prune(m.recent, e.time, c.window));
    assert Cool(c, m1, e) == Cool(c, m, e).(recent := m1.recent);
  }

  /**
   A success closes a probing circuit with enough successes since probing began, and a degraded one
   without a failure in the window since the last clear.
   */
  lemma SuccessEffect(c: Config, all: seq<Event>, before: seq<Event>, e: Event, m: Machine)
    requires c.Valid() && Timely(before + [e]) && m.recent == [] && e.kind == Success
    ensures var then' := After(c, all, before, m);
            var failures := FailuresWithin(before[LastClear(c, all, before, m)..], e.time, c.window);
            SuccessOutcome(c, all, Cool(c, then', e), failures, e, After(c, all, before + [e], m))
  {
    AfterSnoc(c, all, before, e, m);
    PrunedIsWindow(c, all, before, m, e);
    SuccessStep(c, all, After(c, all, before, m), e);
  }

  // ----- the cooldown -----

  /** Nothing is tripped without a known opening time, none later than `now`. */
  ghost predicate OpeningKnown(m: Machine, now: real) {
    && (m.state == Open || m.state == Unavailable ==> m.openedAt.Some?)
    && (m.openedAt.Some? ==> m.openedAt.value <= now)
  }

  lemma {:induction false} RunKeepsOpeningKnown(c: Config, all: seq<Event>, run: seq<Event>, m: Machine, now: real)
    requires OpeningKnown(m, now) && forall e | e in run :: e.time <= now
    ensures OpeningKnown(After(c, all, run, m), now)
  {
    if run != [] { RunKeepsOpeningKnown(c, all, run[..|run| - 1], m, now); }
  }

  lemma {:induction false} UpToBounded(events: seq<Event>, now: real)
    ensures forall e | e in UpTo(events, now) :: e.time <= now && e in events
  {
    if events != [] { UpToBounded(events[1..], now); }
  }

  /**
   Evaluated from closed, a snapshot is open or unavailable exactly when it
   gives a retry time, which is then the cooldown, positive and at most the
   open duration; and requests are allowed in exactly the other states.
   */
  lemma CooldownBounded(c: Config, events: seq<Event>, now: real)
    requires c.Valid() && Evaluate(c, events, now, Closed).Ok?
    ensures var s := Evaluate(c, events, now, Closed).value;
            && (s.allow <==> s.state != Open && s.state != Unavailable)
            && (s.allow <==> s.retryAfter == None)
            && (!s.allow ==> s.retryAfter == Some(s.cooldown) && 0.0 < s.cooldown <= c.openDuration)
  {
    var ordered := InOrder(events);
    UpToBounded(ordered, now);
    RunKeepsOpeningKnown(c, ordered, UpTo(ordered, now), CLOSED, now);
  }

  // ----- a manual reset erases history -----

  ghost predicate AllBefore(s: seq<Event>, t: real) {
    forall e | e in s :: e.time <= t
  }

  ghost predicate AllAfter(s: seq<Event>, t: real) {
    forall e | e in s :: t <= e.time
  }

  lemma {:induction false} InsertPrefix(x: Event, a: seq<Event>, b: seq<Event>, le: (Event, Event) -> bool)
    requires b != [] && le(x, b[0])
    ensures Sorting.Insert(x, a + b, le) == Sorting.Insert(x, a, le) + b
  {
    if a == [] {
      assert a + b == b;
    } else {
      assert (a + b)[1..] == a[1..] + b;
      if le(x, a[0]) {
        assert [x] + (a + b) == ([x] + a) + b;
      } else {
        InsertPrefix(x, a[1..], b, le);
      }
    }
  }

  /** Sorting around an event that separates the list in time. */
  lemma {:induction false} SortAround(pre: seq<Event>, r: Event, post: seq<Event>)
    requires AllBefore(pre, r.time) && AllAfter(post, r.time)
    ensures InOrder(pre + [r] + post) == InOrder(pre) + ([r] + InOrder(post))
  {
    var le := (a: Event, b: Event) => a.time <= b.time;
    if pre == [] {
      assert pre + [r] + post == [r] + post;
      assert ([r] + post)[1..] == post;
      Sorting.SortPermutes(post, le);
      var sorted := Sorting.Sort(post, le);
      if sorted != [] {
        assert sorted[0] in multiset(sorted);
        assert sorted[0] in post;
      }
      assert InOrder(pre) == [];
    } else {
      var rest := pre[1..];
      assert (pre + [r] + post)[1..] == rest + [r] + post;
      assert pre[0] in pre;
      assert AllBefore(rest, r.time);
      SortAround(rest, r, post);
      InsertPrefix(pre[0], Sorting.Sort(rest, le), [r] + InOrder(post), le);
    }
  }

  lemma {:induction false} SuccessesConcat(a: seq<Event>, b: seq<Event>, start: real, end: real)
    ensures SuccessesSince(a + b, start, end) == SuccessesSince(a, start, end) + SuccessesSince(b, start, end)
  {
    if a == [] {
      assert a + b == b;
    } else {
      SuccessesConcat(a[1..], b, start, end);
      assert (a + b)[1..] == a[1..] + b;
    }
  }

  lemma {:induction false} NoSuccessesBefore(a: seq<Event>, t: real, start: real, end: real)
    requires AllBefore(a, t) && t < start
    ensures SuccessesSince(a, start, end) == 0
  {
    if a != [] {
      assert a[0] in a;
      NoSuccessesBefore(a[1..], t, start, end);
    }
  }

  /** After a reset at `t`: openings are no earlier than it, and probing starts strictly later. */
  ghost predicate Forgotten(m: Machine, t: real, now: real) {
    && (m.openedAt.Some? ==> t <= m.openedAt.value)
    && (m.halfOpenAt.Some? ==> t < m.halfOpenAt.value <= now)
    && (m.state == HalfOpen ==> m.halfOpenAt.Some?)
  }

  lemma ProbeForgets(c: Config, older: seq<Event>, newer: seq<Event>, m: Machine, e: Event, t: real)
    requires AllBefore(older, t) && t < ProbeStart(m, e)
    ensures Probed(c, older + newer, m, e) == Probed(c, newer, m, e)
  {
    SuccessesConcat(older, newer, ProbeStart(m, e), e.time);
    NoSuccessesBefore(older, t, ProbeStart(m, e), e.time);
  }

  /** From such a state the older events cannot influence a step. */
  lemma StepForgets(c: Config, older: seq<Event>, newer: seq<Event>, m: Machine, e: Event, t: real, before: real)
    requires c.Valid() && AllBefore(older, t) && t <= e.time && before <= e.time && Forgotten(m, t, before)
    ensures Step(c, older + newer, m, e) == Step(c, newer, m, e) && Forgotten(Step(c, newer, m, e), t, e.time)
  {
    var m2 := Cool(c, m.(recent := Prune(m.recent, e.time, c.window)), e);
    if m2.state == HalfOpen {
      ProbeForgets(c, older, newer, m2, e, t);
    }
  }

  lemma {:induction false} RunForgets(c: Config, older: seq<Event>, newer: seq<Event>, run: seq<Event>, t: real)
    requires c.Valid() && AllBefore(older, t) && AllAfter(run, t) && Timely(run)
    ensures After(c, older + newer, run, CLOSED) == After(c, newer, run, CLOSED)
    ensures Forgotten(After(c, newer, run, CLOSED), t, if run == [] then t else run[|run| - 1].time)
    decreases |run|
  {
    if run != [] {
      var n := |run| - 1;
      RunForgets(c, older, newer, run[..n], t);
      assert run[n] in run;
      StepForgets(c, older, newer, After(c, newer, run[..n], CLOSED), run[n], t, if n == 0 then t else run[n - 1].time);
    }
  }

  lemma {:induction false} AfterConcat(c: Config, all: seq<Event>, a: seq<Event>, b: seq<Event>, m: Machine)
    ensures After(c, all, a + b, m) == After(c, all, b, After(c, all, a, m))
    decreases |b|
  {
    if b == [] {
      assert a + b == a;
    } else {
      var front, e := b[..|b| - 1], b[|b| - 1];
      assert b == front + [e];
      AfterConcat(c, all, a, front, m);
      AfterSnoc(c, all, a + front, e, m);
      AfterSnoc(c, all, front, e, After(c, all, a, m));
      Regroup(a, front, [e]);
    }
  }

  lemma {:induction false} UpToTimely(s: seq<Event>, now: real)
    requires Timely(s)
    ensures Timely(UpTo(s, now))
  {
    if s != [] {
      UpToTimely(s[1..], now);
      UpToBounded(s[1..], now);
    }
  }

  /**
   A manual reset erases history: with every earlier-listed event no later than
   the reset and every later-listed one no earlier, evaluating the whole list
   from any state gives the outcome of the later events alone from closed.
   */
  lemma ResetErasesHistory(c: Config, pre: seq<Event>, r: Event, post: seq<Event>, now: real, initial: CircuitState)
    requires c.Valid() && r.kind == ManualReset && r.time <= now
    requires AllBefore(pre, r.time) && AllAfter(post, r.time) && Known(pre)
    ensures Evaluate(c, pre + [r] + post, now, initial) == Evaluate(c, post, now, Closed)
  {
    var le := (a: Event, b: Event) => a.time <= b.time;
    SortAround(pre, r, post);
    var a, b := InOrder(pre), InOrder(post);
    var older := a + [r];
    assert a + ([r] + b) == older + b;
    MembersOfSort(pre);
    MembersOfSort(post);
    Sorting.SortSorts(post, le);
    UpToConcat(older, b, now);
    UpToBounded(older, now);
    UpToBounded(b, now);
    UpToTimely(b, now);
    UpToConcat(a, [r], now);
    assert UpTo([r], now) == [r] by { assert [r][1..] == []; }
    var runA, runB := UpTo(a, now), UpTo(b, now);
    assert UpTo(older + b, now) == (runA + [r]) + runB;
    assert Known(runA + [r]) by { UpToBounded(a, now); }
    var start := Machine(initial, None, None, []);
    AfterConcat(c, older + b, runA + [r], runB, start);
    assert (runA + [r])[..|runA|] == runA;
    assert After(c, older + b, runA + [r], start) == CLOSED;
    RunForgets(c, older, b, runB, r.time);
    assert Known((runA + [r]) + runB) <==> Known(runB);
  }

  lemma MembersOfSort(s: seq<Event>)
    ensures forall e | e in InOrder(s) :: e in s
  {
    var le := (a: Event, b: Event) => a.time <= b.time;
    Sorting.SortPermutes(s, le);
    forall e | e in InOrder(s) ensures e in s {
      assert e in multiset(InOrder(s));
    }
  }

  // ----- which event comes last -----

  /** The latest event that counts at `now`; of simultaneous ones, the last listed. */
  ghost predicate IsLatest(events: seq<Event>, now: real, k: int) {
    && 0 <= k < |events| && events[k].time <= now
    && forall j | 0 <= j < |events| && j != k && events[j].time <= now :: Precedes(events, j, k)
  }

  predicate Precedes(events: seq<Event>, j: int, k: int)
    requires 0 <= j < |events| && 0 <= k < |events|
  {
    events[j].time < events[k].time || (events[j].time == events[k].time && j < k)
  }

  lemma {:induction false} UpToInsert(x: Event, s: seq<Event>, now: real)
    requires Timely(s)
    ensures var le := (a: Event, b: Event) => a.time <= b.time;
            UpTo(Sorting.Insert(x, s, le), now)
            == if x.time > now then UpTo(s, now) else Sorting.Insert(x, UpTo(s, now), le)
  {
    var le := (a: Event, b: Event) => a.time <= b.time;
    if s == [] {
      assert [x][1..] == [];
    } else if le(x, s[0]) {
      assert ([x] + s)[1..] == s;
      UpToBounded(s, now);
      forall e | e in s ensures x.time <= e.time {
        var j :| 0 <= j < |s| && s[j] == e;
      }
    } else {
      var rest := s[1..];
      UpToInsert(x, rest, now);
      assert ([s[0]] + Sorting.Insert(x, rest, le))[1..] == Sorting.Insert(x, rest, le);
      if s[0].time > now {
        UpToLater(s, now);
      } else {
        assert ([s[0]] + UpTo(rest, now))[1..] == UpTo(rest, now);
      }
    }
  }

  lemma UpToLater(s: seq<Event>, now: real)
    requires Timely(s) && s != [] && s[0].time > now
    ensures UpTo(s, now) == []
  {
    UpToBounded(s, now);
  }

  lemma {:induction false} LastOfInsert(x: Event, s: seq<Event>)
    requires Timely(s)
    ensures var r := Sorting.Insert(x, s, (a: Event, b: Event) => a.time <= b.time);
            r != [] && r[|r| - 1] == if s != [] && x.time <= s[|s| - 1].time then s[|s| - 1] else x
  {
    if s != [] && s[0].time < x.time { LastOfInsert(x, s[1..]); }
  }

  lemma InOrderTimely(events: seq<Event>)
    ensures Timely(InOrder(events))
  {
    Sorting.SortSorts(events, (a: Event, b: Event) => a.time <= b.time);
  }

  lemma LatestInRest(events: seq<Event>, now: real, k: nat)
    requires IsLatest(events, now, k) && k > 0
    ensures IsLatest(events[1..], now, k - 1) && (events[0].time <= now ==> events[0].time <= events[k].time)
  {
    var rest := events[1..];
    forall j | 0 <= j < |rest| && j != k - 1 && rest[j].time <= now ensures Precedes(rest, j, k - 1) {
      assert Precedes(events, j + 1, k);
    }
    if events[0].time <= now { assert Precedes(events, 0, k); }
  }

  /** The counted events after one more is sorted in. */
  lemma CountedInsert(x: Event, rest: seq<Event>, now: real)
    ensures var before, after := UpTo(InOrder(rest), now), UpTo(InOrder([x] + rest), now);
            && (x.time > now ==> after == before)
            && (x.time <= now ==>
                  after != [] && after[|after| - 1]
                  == if before != [] && x.time <= before[|before| - 1].time then before[|before| - 1] else x)
  {
    assert ([x] + rest)[1..] == rest;
    InOrderTimely(rest);
    UpToInsert(x, InOrder(rest), now);
    UpToTimely(InOrder(rest), now);
    LastOfInsert(x, UpTo(InOrder(rest), now));
  }

  /** The fold ends with the latest event. */
  lemma {:induction false} LatestIsLast(events: seq<Event>, now: real, k: nat)
    requires IsLatest(events, now, k)
    ensures var run := UpTo(InOrder(events), now); run != [] && run[|run| - 1] == events[k]
  {
    var rest := events[1..];
    assert events == [events[0]] + rest;
    CountedInsert(events[0], rest, now);
    if k == 0 {
      EarlierCounted(events, now);
      var before := UpTo(InOrder(rest), now);
      assert before == [] || before[|before| - 1] in before;
    } else {
      LatestInRest(events, now, k);
      LatestIsLast(rest, now, k - 1);
    }
  }

  lemma EarlierCounted(events: seq<Event>, now: real)
    requires IsLatest(events, now, 0)
    ensures forall e | e in UpTo(InOrder(events[1..]), now) :: e.time < events[0].time
  {
    var rest := events[1..];
    MembersOfSort(rest);
    UpToBounded(InOrder(rest), now);
    forall e | e in UpTo(InOrder(rest), now) ensures e.time < events[0].time {
      var j :| 0 <= j < |rest| && rest[j] == e;
      assert Precedes(events, j + 1, 0);
    }
  }

  lemma {:induction false} UpToMember(s: seq<Event>, now: real, e: Event)
    ensures e in UpTo(s, now) <==> e in s && e.time <= now
  {
    if s != [] {
      UpToMember(s[1..], now, e);
      assert s == [s[0]] + s[1..];
    }
  }

  /** Evaluation fails exactly when an event that counts has an unknown type. */
  lemma InvalidIff(c: Config, events: seq<Event>, now: real, initial: CircuitState)
    ensures Evaluate(c, events, now, initial).Err? <==> exists e :: e in events && e.time <= now && e.kind == Unknown
  {
    forall e ensures e in UpTo(InOrder(events), now) <==> e in events && e.time <= now {
      UpToMember(InOrder(events), now, e);
      Sorting.SortPermutes(events, (a: Event, b: Event) => a.time <= b.time);
      assert e in events <==> e in multiset(events);
      assert e in InOrder(events) <==> e in multiset(InOrder(events));
    }
  }

  // ----- what the caller sees -----

  /** Tripped at `t`: refused with the rest of the open duration to wait, and half open from its end on. */
  function TrippedAt(c: Config, state: CircuitState, t: real, now: real): Snapshot {
    var left := c.openDuration - (now - t);
    if left > 0.0 then Snapshot(state, false, Some(left), left)
    else Snapshot(HalfOpen, true, None, 0.0)
  }

  /** What a machine shows: the time since it tripped decides, and any other state shows itself. */
  lemma MachineShows(c: Config, m: Machine, now: real)
    requires c.Valid()
    ensures m.state in {Open, Unavailable} && m.openedAt.Some? && m.openedAt.value <= now ==>
              Observe(c, m, now) == TrippedAt(c, m.state, m.openedAt.value, now)
    ensures m.state in {Closed, Degraded, HalfOpen} ==> Observe(c, m, now) == Snapshot(m.state, true, None, 0.0)
  {}

  /** Whatever came before, from any state: if the latest event is an outage, the circuit is unavailable since then. */
  lemma LatestOutageTrips(c: Config, events: seq<Event>, now: real, initial: CircuitState, k: nat)
    requires c.Valid() && IsLatest(events, now, k) && events[k].kind == Outage
    requires Evaluate(c, events, now, initial).Ok?
    ensures Evaluate(c, events, now, initial) == Ok(TrippedAt(c, Unavailable, events[k].time, now))
  {
    var run := UpTo(InOrder(events), now);
    LatestIsLast(events, now, k);
    MachineShows(c, After(c, InOrder(events), run, Machine(initial, None, None, [])), now);
  }

  /** If it is a manual reset, the circuit is closed. */
  lemma LatestResetCloses(c: Config, events: seq<Event>, now: real, initial: CircuitState, k: nat)
    requires c.Valid() && IsLatest(events, now, k) && events[k].kind == ManualReset
    requires Evaluate(c, events, now, initial).Ok?
    ensures Evaluate(c, events, now, initial) == Ok(Snapshot(Closed, true, None, 0.0))
  {
    LatestIsLast(events, now, k);
  }

  /** If it is a failure and its window holds the threshold of failures since the last clear, the circuit is open. */
  lemma LatestFailureTrips(c: Config, events: seq<Event>, now: real, initial: CircuitState, k: nat)
    requires c.Valid() && IsLatest(events, now, k) && IsFailure(events[k]) && Evaluate(c, events, now, initial).Ok?
    requires var ordered, start := InOrder(events), Machine(initial, None, None, []);
             var run := UpTo(ordered, now);
             |FailuresWithin(run[LastClear(c, ordered, run, start)..], events[k].time, c.window)| >= c.failureThreshold
    ensures Evaluate(c, events, now, initial) == Ok(TrippedAt(c, Open, events[k].time, now))
  {
    var ordered, start := InOrder(events), Machine(initial, None, None, []);
    var run := UpTo(ordered, now);
    LatestIsLast(events, now, k);
    InOrderTimely(events);
    UpToTimely(ordered, now);
    FailureEffect(c, ordered, run, start);
    MachineShows(c, After(c, ordered, run, start), now);
  }

  /** If no event counts, the initial state is what the caller sees; a tripped one without an opening time stays so. */
  lemma NothingCounted(c: Config, events: seq<Event>, now: real, initial: CircuitState)
    requires forall e | e in events :: e.time > now
    ensures Evaluate(c, events, now, initial)
              == Ok(Snapshot(initial, initial != Open && initial != Unavailable, None, 0.0))
  {
    InvalidIff(c, events, now, initial);
    forall e ensures e !in UpTo(InOrder(events), now) {
      UpToMember(InOrder(events), now, e);
      MembersOfSort(events);
    }
    assert UpTo(InOrder(events), now) == [] by {
      if UpTo(InOrder(events), now) != [] { assert UpTo(InOrder(events), now)[0] in UpTo(InOrder(events), now); }
    }
  }

  // ----- probing -----

  /** The number of successes with a time in [start, end]. */
  function SuccessCount(events: seq<Event>, start: real, end: real): nat {
    |set i | 0 <= i < |events| && events[i].kind == Success && start <= events[i].time <= end|
  }

  lemma {:induction false} SuccessesCounted(events: seq<Event>, start: real, end: real)
    ensures SuccessesSince(events, start, end) == SuccessCount(events, start, end)
    decreases |events|
  {
    if events != [] {
      var n := |events| - 1;
      var front, last := events[..n], events[n];
      SuccessesCounted(front, start, end);
      assert events == front + [last];
      SuccessesConcat(front, [last], start, end);
      assert [last][1..] == [];
      var counted := set i | 0 <= i < n && front[i].kind == Success && start <= front[i].time <= end;
      var hit := last.kind == Success && start <= last.time <= end;
      assert (set i | 0 <= i < |events| && events[i].kind == Success && start <= events[i].time <= end)
          == counted + (if hit then {n} else {});
    }
  }

  /**
   An open circuit lets successes pass without effect until the open duration is
   over; the first event from then on starts the probing: a success closes the
   circuit with enough successes at that time, or leaves it half open from
   then; a failure opens it anew.
   */
  lemma OpenCircuitProbes(c: Config, all: seq<Event>, m: Machine, e: Event)
    requires c.Valid() && m.state == Open && m.openedAt.Some? && e.kind in {Success, Failure, Timeout, RateLimited}
    ensures var after := Step(c, all, m, e);
            if e.time - m.openedAt.value < c.openDuration then
              && (e.kind == Success ==> after.state == Open && after.openedAt == m.openedAt)
            else if e.kind == Success then
              && after.halfOpenAt == Some(e.time)
              && after.state == if SuccessCount(all, e.time, e.time) >= c.successesToClose then Closed else HalfOpen
            else after.state == Open && after.openedAt == Some(e.time)
  {
    SuccessesCounted(all, e.time, e.time);
  }

  /** Probing since `h`, a success closes the circuit exactly with enough successes since then; a failure opens it. */
  lemma HalfOpenCircuitProbes(c: Config, all: seq<Event>, m: Machine, e: Event, h: real)
    requires c.Valid() && m.state == HalfOpen && m.halfOpenAt == Some(h) && h != 0.0
    ensures var after := Step(c, all, m, e);
            && (e.kind == Success ==>
                  after.state == if SuccessCount(all, h, e.time) >= c.successesToClose then Closed else HalfOpen)
            && (e.kind in {Failure, Timeout, RateLimited} ==> after.state == Open && after.openedAt == Some(e.time))
  {
    SuccessesCounted(all, h, e.time);
  }
}
