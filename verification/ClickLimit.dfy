/**
 The in-memory click counter of a link with a click limit.

 `CounterRace` is one counter under any number of concurrent reservations.
 `PruneCycle` is the whole life of the limit: counters seeded from a cached
 copy of the row, dropped when idle and seeded again, while the database
 count lags behind.
 */
module CounterRace {
  import opened Wrappers

  /**
   One counter as `ConsumeClick` calls see it. A call stores or loads the
   counter, adds one, and takes it back when that went over the limit.
   */
  datatype State = State(
    n: Option<int>,
    seed: int,
    reserving: set<nat>,
    over: set<nat>,
    accepted: nat,
    refused: nat)

  datatype Event =
    | LoadOrStore(call: nat, clickCount: int)
    | Add(call: nat)
    | Rollback(call: nat)

  const INITIAL := State(None, 0, {}, {}, 0, 0)

  ghost predicate Enabled(s: State, e: Event) {
    match e
    case LoadOrStore(c, _) => c !in s.reserving && c !in s.over
    case Add(c) => c in s.reserving && s.n.Some?
    case Rollback(c) => c in s.over && s.n.Some?
  }

  function Step(s: State, e: Event, max: int): State
    requires !e.LoadOrStore? ==> s.n.Some?
  {
    match e
    case LoadOrStore(c, count) =>
      var t := s.(reserving := s.reserving + {c});
      if s.n.None? then t.(n := Some(count), seed := count) else t
    case Add(c) =>
      var t := s.(reserving := s.reserving - {c}, n := Some(s.n.value + 1));
      if s.n.value + 1 > max then t.(over := s.over + {c}, refused := s.refused + 1)
      else t.(accepted := s.accepted + 1)
    case Rollback(c) => s.(over := s.over - {c}, n := Some(s.n.value - 1))
  }

  /** The state left by one call that nothing interrupts, and whether it was accepted. */
  function CallAlone(s: State, call: nat, clickCount: int, max: int): (State, bool) {
    var t := Step(Step(s, LoadOrStore(call, clickCount), max), Add(call), max);
    if call in t.over then (Step(t, Rollback(call), max), false) else (t, true)
  }

  ghost predicate Inv(s: State, max: int) {
    && s.reserving !! s.over
    && (s.n.None? ==> s.accepted == 0 && s.refused == 0 && s.reserving == {} && s.over == {})
    && (s.n.Some? ==> s.n.value == s.seed + s.accepted + |s.over|)
    && (s.accepted > 0 ==> s.seed + s.accepted <= max)
    && (s.refused > 0 ==> s.seed + s.accepted >= max)
    && (s.over != {} ==> s.refused > 0)
  }

  lemma StepKeepsInv(s: State, e: Event, max: int)
    requires Inv(s, max) && Enabled(s, e)
    ensures Inv(Step(s, e, max), max)
  {
    if e.Rollback? { assert |s.over - {e.call}| == |s.over| - 1; }
    if e.Add? && s.over == {} { assert |s.over| == 0; }
  }

  /** The states a counter goes through, oldest first. */
  ghost predicate IsRun(states: seq<State>, events: seq<Event>, max: int) {
    && |states| == |events| + 1 && states[0] == INITIAL
    && forall i :: 0 <= i < |events| ==>
         Enabled(states[i], events[i]) && states[i + 1] == Step(states[i], events[i], max)
  }

  lemma {:induction false} RunKeepsInv(states: seq<State>, events: seq<Event>, max: int, i: nat)
    requires IsRun(states, events, max) && i < |states|
    ensures Inv(states[i], max)
  {
    if i > 0 {
      RunKeepsInv(states, events, max, i - 1);
      StepKeepsInv(states[i - 1], events[i - 1], max);
    }
  }

  /**
   However the atomic steps interleave, the calls accepted never exceed what
   the seed left of the limit, and a call is turned away only when the limit
   has been handed out in full: additions still to be taken back waste nothing.
   */
  lemma LimitIsExact(states: seq<State>, events: seq<Event>, max: int, i: nat)
    requires IsRun(states, events, max) && i < |states|
    ensures var s := states[i];
            && s.accepted <= (if max > s.seed then max - s.seed else 0)
            && (s.refused > 0 ==> s.seed + s.accepted >= max)
  {
    RunKeepsInv(states, events, max, i);
  }

  /** Once nothing is in flight, the counter is the seed plus the accepted calls. */
  lemma QuietCounterIsExact(states: seq<State>, events: seq<Event>, max: int, i: nat)
    requires IsRun(states, events, max) && i < |states|
    requires states[i].n.Some? && states[i].over == {}
    ensures states[i].n.value == states[i].seed + states[i].accepted
  {
    RunKeepsInv(states, events, max, i);
  }
}

module PruneCycle {
  import opened Wrappers

  /**
   `idle` is how long a counter must be unused to be dropped, `settle` the
   longest time from a reservation to its click being counted in the database,
   `age` the greatest age of a row copy (cache lifetime, load and hold).
   */
  datatype Params = Params(max: int, idle: nat, settle: nat, age: nat)

  /** A counter object: `last` is the time of the last call that used it. */
  datatype Hit = Hit(n: int, last: int)

  /** A call holding counter `id` since it loaded or stored it. */
  datatype Call = Call(id: nat, since: int)

  /** A copy of the row's click count with the time it was read. */
  datatype Copy = Copy(count: int, readAt: int)

  datatype State = State(
    now: int,
    base: int,
    stored: int,
    counters: seq<Hit>,
    current: Option<nat>,
    reserving: map<nat, Call>,
    over: map<nat, Call>,
    unsettled: map<nat, int>,
    copies: set<Copy>,
    accepted: nat,
    lastUse: Option<int>)

  datatype Event =
    | Tick(delay: nat)
    | ReadRow
    | Acquire(call: nat, copy: Copy)
    | Add(call: nat)
    | Rollback(call: nat)
    | Flush(call: nat)
    | Prune(cutoff: int)

  function Start(base: int): State {
    State(0, base, base, [], None, map[], map[], map[], {}, 0, None)
  }

  ghost predicate Enabled(s: State, e: Event, p: Params) {
    match e
    case Tick(d) =>
      && (forall c :: c in s.reserving ==> s.now + d <= s.reserving[c].since + p.settle)
      && (forall c :: c in s.over ==> s.now + d <= s.over[c].since + p.settle)
      && (forall c :: c in s.unsettled ==> s.now + d <= s.unsettled[c] + p.settle)
    case ReadRow => true
    case Acquire(c, copy) =>
      && c !in s.reserving && c !in s.over && c !in s.unsettled
      && copy in s.copies && s.now <= copy.readAt + p.age
    case Add(c) => c in s.reserving && s.reserving[c].id < |s.counters|
    case Rollback(c) => c in s.over && s.over[c].id < |s.counters|
    case Flush(c) => c in s.unsettled
    case Prune(cutoff) => cutoff <= s.now - p.idle
  }

  function AcquireStep(s: State, c: nat, copy: Copy): State {
    if s.current.Some? && s.current.value < |s.counters| then
      var id := s.current.value;
      s.(counters := s.counters[id := s.counters[id].(last := s.now)],
         reserving := s.reserving[c := Call(id, s.now)],
         lastUse := Some(s.now))
    else
      var id := |s.counters|;
      s.(counters := s.counters + [Hit(copy.count, s.now)],
         current := Some(id),
         reserving := s.reserving[c := Call(id, s.now)],
         lastUse := Some(s.now))
  }

  function AddStep(s: State, c: nat, max: int): State
    requires c in s.reserving && s.reserving[c].id < |s.counters|
  {
    var call := s.reserving[c];
    var hit := s.counters[call.id];
    var t := s.(reserving := s.reserving - {c}, counters := s.counters[call.id := hit.(n := hit.n + 1)]);
    if hit.n + 1 > max then t.(over := s.over[c := call])
    else t.(unsettled := s.unsettled[c := call.since], accepted := s.accepted + 1)
  }

  function RollbackStep(s: State, c: nat): State
    requires c in s.over && s.over[c].id < |s.counters|
  {
    var id := s.over[c].id;
    s.(over := s.over - {c}, counters := s.counters[id := s.counters[id].(n := s.counters[id].n - 1)])
  }

  function PruneStep(s: State, cutoff: int): State {
    if s.current.Some? && s.current.value < |s.counters| && s.counters[s.current.value].last < cutoff
    then s.(current := None) else s
  }

  ghost function Step(s: State, e: Event, p: Params): State
    requires Enabled(s, e, p)
  {
    match e
    case Tick(d) => s.(now := s.now + d)
    case ReadRow => s.(copies := s.copies + {Copy(s.stored, s.now)})
    case Acquire(c, copy) => AcquireStep(s, c, copy)
    case Add(c) => AddStep(s, c, p.max)
    case Rollback(c) => RollbackStep(s, c)
    case Flush(c) => s.(unsettled := s.unsettled - {c}, stored := s.stored + 1)
    case Prune(cutoff) => PruneStep(s, cutoff)
  }

  ghost predicate IsRun(states: seq<State>, events: seq<Event>, p: Params) {
    && |states| == |events| + 1 && states[0] == Start(states[0].base)
    && forall i :: 0 <= i < |events| ==>
         Enabled(states[i], events[i], p) && states[i + 1] == Step(states[i], events[i], p)
  }

  // ------------------------------------------------------------- invariant

  ghost predicate InTime(s: State, since: int, p: Params) {
    s.lastUse.Some? && since <= s.lastUse.value && s.now <= since + p.settle
  }

  /** Calls in flight hold the current counter and are recent; so are unsettled clicks. */
  ghost predicate CallsInv(s: State, p: Params) {
    && s.reserving.Keys !! s.over.Keys && s.reserving.Keys !! s.unsettled.Keys
    && (forall c :: c in s.reserving ==>
          s.current == Some(s.reserving[c].id) && InTime(s, s.reserving[c].since, p))
    && (forall c :: c in s.over ==> s.current == Some(s.over[c].id) && InTime(s, s.over[c].since, p))
    && (forall c :: c in s.unsettled ==> InTime(s, s.unsettled[c], p))
  }

  /** Nothing is lost between acceptance and the database. */
  ghost predicate CountInv(s: State) {
    s.base + s.accepted == s.stored + |s.unsettled|
  }

  /** The current counter, if any, counts every accepted click and every addition to be taken back. */
  ghost predicate CounterInv(s: State) {
    && (s.lastUse.Some? ==> s.lastUse.value <= s.now)
    && (s.lastUse.None? ==> s.accepted == 0 && s.current.None?)
    && (s.current.Some? ==>
          && s.current.value < |s.counters|
          && s.counters[s.current.value].n == s.base + s.accepted + |s.over|
          && s.lastUse == Some(s.counters[s.current.value].last))
  }

  /** A row copy read late enough after the last reservation shows every accepted click. */
  ghost predicate CopiesInv(s: State, p: Params) {
    forall k :: k in s.copies ==>
      && k.readAt <= s.now
      && (s.lastUse.None? || k.readAt > s.lastUse.value + p.settle ==> k.count == s.base + s.accepted)
  }

  /** While no counter exists, the last reservation is more than `idle` ago. */
  ghost predicate IdleInv(s: State, p: Params) {
    s.current.None? && s.lastUse.Some? ==> s.lastUse.value < s.now - p.idle
  }

  ghost predicate LimitInv(s: State, p: Params) {
    && (s.accepted > 0 ==> s.base + s.accepted <= p.max)
    && (s.over != map[] ==> s.base + s.accepted >= p.max)
  }

  ghost predicate Inv(s: State, p: Params) {
    CallsInv(s, p) && CountInv(s) && CounterInv(s) && CopiesInv(s, p) && IdleInv(s, p) && LimitInv(s, p)
  }

  /** Long after the last reservation nothing is in flight and the database is up to date. */
  lemma SettledWhenQuiet(s: State, p: Params)
    requires Inv(s, p) && (s.lastUse.None? || s.now > s.lastUse.value + p.settle)
    ensures s.reserving == map[] && s.over == map[] && s.unsettled == map[]
    ensures s.stored == s.base + s.accepted
  {
    assert s.reserving.Keys == {} && s.over.Keys == {} && s.unsettled.Keys == {};
  }

  lemma AcquireKeepsInv(s: State, c: nat, copy: Copy, p: Params)
    requires Inv(s, p) && Enabled(s, Acquire(c, copy), p) && p.settle + p.age <= p.idle
    ensures Inv(AcquireStep(s, c, copy), p)
  {
    if s.current.None? {
      if s.lastUse.Some? {
        SettledWhenQuiet(s, p);
      } else {
        SettledWhenQuiet(s, p);
      }
      assert copy.count == s.base + s.accepted;
    }
  }

  lemma AddKeepsCalls(s: State, c: nat, p: Params)
    requires CallsInv(s, p) && Enabled(s, Add(c), p)
    ensures CallsInv(AddStep(s, c, p.max), p)
  {
  }

  lemma OneMore<T>(m: map<nat, T>, c: nat, v: T)
    requires c !in m
    ensures |m[c := v]| == |m| + 1
  {
    assert m[c := v].Keys == m.Keys + {c};
  }

  lemma AddKeepsCounts(s: State, c: nat, p: Params)
    requires CallsInv(s, p) && CountInv(s) && CounterInv(s) && Enabled(s, Add(c), p)
    ensures CountInv(AddStep(s, c, p.max)) && CounterInv(AddStep(s, c, p.max))
  {
    OneMore(s.over, c, s.reserving[c]);
    OneMore(s.unsettled, c, s.reserving[c].since);
  }

  lemma AddKeepsLimit(s: State, c: nat, p: Params)
    requires CallsInv(s, p) && CounterInv(s) && LimitInv(s, p) && Enabled(s, Add(c), p)
    ensures LimitInv(AddStep(s, c, p.max), p)
    ensures AddStep(s, c, p.max).accepted == s.accepted ==> s.base + s.accepted >= p.max
  {
    if s.over == map[] { assert |s.over| == 0; }
  }

  lemma AddKeepsInv(s: State, c: nat, p: Params)
    requires Inv(s, p) && Enabled(s, Add(c), p)
    ensures Inv(AddStep(s, c, p.max), p)
    ensures AddStep(s, c, p.max).accepted == s.accepted ==> s.base + s.accepted >= p.max
  {
    AddKeepsCalls(s, c, p);
    AddKeepsCounts(s, c, p);
    AddKeepsLimit(s, c, p);
    var t := AddStep(s, c, p.max);
    assert t.copies == s.copies && t.now == s.now && t.lastUse == s.lastUse && t.current == s.current;
    assert InTime(s, s.reserving[c].since, p);
    assert CopiesInv(t, p);
  }

  lemma OneLess<T>(m: map<nat, T>, c: nat)
    requires c in m
    ensures |m - {c}| == |m| - 1 && (m - {c}).Keys == m.Keys - {c}
  {
    assert (m - {c}).Keys == m.Keys - {c};
    assert |(m - {c}).Keys| == |m.Keys| - 1;
  }

  lemma RollbackKeepsCalls(s: State, c: nat, p: Params)
    requires CallsInv(s, p) && Enabled(s, Rollback(c), p)
    ensures CallsInv(RollbackStep(s, c), p)
  {
  }

  lemma RollbackKeepsInv(s: State, c: nat, p: Params)
    requires Inv(s, p) && Enabled(s, Rollback(c), p)
    ensures Inv(RollbackStep(s, c), p)
  {
    RollbackKeepsCalls(s, c, p);
    assert CounterInv(RollbackStep(s, c)) by {
      OneLess(s.over, c);
      assert s.current == Some(s.over[c].id);
    }
  }

  lemma FlushKeepsInv(s: State, c: nat, p: Params)
    requires Inv(s, p) && c in s.unsettled
    ensures Inv(Step(s, Flush(c), p), p)
  {
    assert (s.unsettled - {c}).Keys == s.unsettled.Keys - {c};
    assert |(s.unsettled - {c}).Keys| == |s.unsettled.Keys| - 1;
  }

  lemma ReadKeepsInv(s: State, p: Params)
    requires Inv(s, p)
    ensures Inv(Step(s, ReadRow, p), p)
  {
    if s.lastUse.None? || s.now > s.lastUse.value + p.settle { SettledWhenQuiet(s, p); }
  }

  lemma PruneKeepsInv(s: State, cutoff: int, p: Params)
    requires Inv(s, p) && Enabled(s, Prune(cutoff), p) && p.settle <= p.idle
    ensures Inv(PruneStep(s, cutoff), p)
  {
    if PruneStep(s, cutoff) != s { SettledWhenQuiet(s, p); }
  }

  lemma StepKeepsInv(s: State, e: Event, p: Params)
    requires Inv(s, p) && Enabled(s, e, p) && p.settle + p.age <= p.idle
    ensures Inv(Step(s, e, p), p)
  {
    match e
    case Tick(d) =>
    case ReadRow => ReadKeepsInv(s, p);
    case Acquire(c, copy) => AcquireKeepsInv(s, c, copy, p);
    case Add(c) => AddKeepsInv(s, c, p);
    case Rollback(c) => RollbackKeepsInv(s, c, p);
    case Flush(c) => FlushKeepsInv(s, c, p);
    case Prune(cutoff) => PruneKeepsInv(s, cutoff, p);
  }

  lemma {:induction false} RunKeepsInv(states: seq<State>, events: seq<Event>, p: Params, i: nat)
    requires IsRun(states, events, p) && i < |states| && p.settle + p.age <= p.idle
    ensures Inv(states[i], p) && states[i].base == states[0].base
  {
    if i > 0 {
      RunKeepsInv(states, events, p, i - 1);
      StepKeepsInv(states[i - 1], events[i - 1], p);
    }
  }

  // -------------------------------------------------------------- theorems

  ghost predicate WithinLimit(s: State, p: Params) {
    s.accepted <= (if p.max > s.base then p.max - s.base else 0)
  }

  /** Every reachable state of every run keeps the limit. */
  ghost predicate LimitHolds(p: Params) {
    forall states, events, i :: IsRun(states, events, p) && 0 <= i < |states| ==> WithinLimit(states[i], p)
  }

  /** Over any number of prune and re-seed cycles the limit is never exceeded. */
  lemma LimitSurvivesPruning(states: seq<State>, events: seq<Event>, p: Params, i: nat)
    requires IsRun(states, events, p) && i < |states| && p.settle + p.age <= p.idle
    ensures WithinLimit(states[i], p)
  {
    RunKeepsInv(states, events, p, i);
  }

  /** A reservation is turned away only when the whole limit has been used. */
  lemma RefusedOnlyWhenUsedUp(states: seq<State>, events: seq<Event>, p: Params, i: nat)
    requires IsRun(states, events, p) && i < |events| && p.settle + p.age <= p.idle
    requires events[i].Add? && states[i + 1].accepted == states[i].accepted
    ensures states[i].base + states[i].accepted >= p.max
  {
    RunKeepsInv(states, events, p, i);
    AddKeepsInv(states[i], events[i].call, p);
  }

  function Min(a: int, b: int): int { if a < b then a else b }

  /** A link with one click left; that click is used, and the row is copied just before it is counted. */
  function UseAndCopy(p: Params): (seq<State>, seq<Event>) {
    var m, base := Min(p.settle, p.idle + 1), p.max - 1;
    var first, stale := Copy(base, 0), Copy(base, m);
    var s0 := Start(base);
    var s1 := s0.(copies := {first});
    var s2 := s1.(counters := [Hit(base, 0)], current := Some(0), reserving := map[0 := Call(0, 0)],
                  lastUse := Some(0));
    var s3 := s2.(reserving := map[], counters := [Hit(p.max, 0)], unsettled := map[0 := 0], accepted := 1);
    var s4 := s3.(now := m);
    var s5 := s4.(copies := {first, stale});
    ([s0, s1, s2, s3, s4, s5], [ReadRow, Acquire(0, first), Add(0), Tick(m), ReadRow])
  }

  /** The click is counted, the idle counter dropped, and the stale copy seeds the next one. */
  function DropAndReseed(p: Params): (seq<State>, seq<Event>) {
    var m, base := Min(p.settle, p.idle + 1), p.max - 1;
    var stale, end := Copy(base, m), p.idle + 1;
    var s5 := UseAndCopy(p).0[5];
    var s6 := s5.(unsettled := map[], stored := p.max);
    var s7 := s6.(now := end);
    var s8 := s7.(current := None);
    var s9 := s8.(counters := [Hit(p.max, 0), Hit(base, end)], current := Some(1),
                  reserving := map[1 := Call(1, end)], lastUse := Some(end));
    var s10 := s9.(reserving := map[], counters := [Hit(p.max, 0), Hit(p.max, end)],
                   unsettled := map[1 := end], accepted := 2);
    ([s5, s6, s7, s8, s9, s10], [Flush(0), Tick(end - m), Prune(1), Acquire(1, stale), Add(1)])
  }

  ghost predicate Follows(states: seq<State>, events: seq<Event>, p: Params, i: nat)
    requires i < |events| < |states|
  {
    Enabled(states[i], events[i], p) && states[i + 1] == Step(states[i], events[i], p)
  }

  lemma UseAndCopyRuns(p: Params)
    ensures var (states, events) := UseAndCopy(p);
            forall i :: 0 <= i < 5 ==> Follows(states, events, p, i)
  {
    var (states, events) := UseAndCopy(p);
    assert Follows(states, events, p, 0);
    assert Follows(states, events, p, 1);
    assert states[2].reserving - {0} == map[];
    assert Follows(states, events, p, 2);
    assert Follows(states, events, p, 3);
    assert Follows(states, events, p, 4);
  }

  lemma DropAndReseedRuns(p: Params)
    requires p.settle + p.age > p.idle
    ensures var (states, events) := DropAndReseed(p);
            forall i :: 0 <= i < 5 ==> Follows(states, events, p, i)
  {
    var (states, events) := DropAndReseed(p);
    assert states[0].unsettled - {0} == map[];
    assert Follows(states, events, p, 0);
    assert Follows(states, events, p, 1);
    assert Follows(states, events, p, 2);
    assert Follows(states, events, p, 3);
    assert states[4].reserving - {1} == map[];
    assert Follows(states, events, p, 4);
  }

  lemma StaleSeedExceeds(p: Params) returns (states: seq<State>, events: seq<Event>)
    requires p.settle + p.age > p.idle
    ensures IsRun(states, events, p) && |states| == 11 && !WithinLimit(states[10], p)
    ensures forall i :: 0 <= i < |events| && events[i].Acquire? ==> events[i].copy.count < p.max
  {
    var (before, use) := UseAndCopy(p);
    var (after, reseed) := DropAndReseed(p);
    UseAndCopyRuns(p);
    DropAndReseedRuns(p);
    states, events := before[..5] + after, use + reseed;
    forall i | 0 <= i < |events|
      ensures Enabled(states[i], events[i], p) && states[i + 1] == Step(states[i], events[i], p)
    {
      if i < 5 { assert Follows(before, use, p, i); } else { assert Follows(after, reseed, p, i - 5); }
    }
  }

  /**
   Every run keeps the limit exactly when a dropped counter has been idle long
   enough for its clicks to be counted and for every older copy of the row to
   be gone.
   */
  lemma IdleTimeDecidesTheLimit(p: Params)
    ensures LimitHolds(p) <==> p.settle + p.age <= p.idle
  {
    if p.settle + p.age <= p.idle {
      forall states, events, i | IsRun(states, events, p) && 0 <= i < |states| ensures WithinLimit(states[i], p) {
        LimitSurvivesPruning(states, events, p, i);
      }
    } else {
      var states, events := StaleSeedExceeds(p);
      assert IsRun(states, events, p) && 0 <= 10 < |states|;
    }
  }
}
