/**
 Which requests get a redirect, which of them use up a click of a limited
 link, and which are recorded.
 */
module Redirect {
  import opened Wrappers
  import opened Links
  import CounterRace

  /** A GET or HEAD request for a code. Whether it comes from a bot follows from its user agent. */
  datatype Request = Request(get: bool, isBot: bool, hasCookie: bool, at: int)

  datatype Verdict = Missing | Hidden | Gone | AskPassword | Pass

  /** The checks in the order the handler makes them. */
  function Checks(found: Option<Link>, r: Request): Verdict {
    if found.None? then Missing
    else
      var l := found.value;
      if l.deletedAt.Some? then Gone
      else if l.details.status == Disabled then Hidden
      else if l.details.expiresAt.Some? && l.details.expiresAt.value < r.at then Gone
      else if l.details.maxClicks.Some? && l.clickCount >= l.details.maxClicks.value then Gone
      else if l.details.passwordHash.Some? && !r.hasCookie then AskPassword
      else Pass
  }

  /** The link is live, active, not expired, below its limit, and free of a password or opened by the cookie. */
  predicate Open(l: Link, r: Request) {
    && l.deletedAt == None && l.details.status == Active
    && (l.details.expiresAt.Some? ==> r.at <= l.details.expiresAt.value)
    && (l.details.maxClicks.Some? ==> l.clickCount < l.details.maxClicks.value)
    && (l.details.passwordHash.Some? ==> r.hasCookie)
  }

  /** Each verdict by the fields of the link alone. */
  lemma VerdictsInFields(found: Option<Link>, r: Request)
    ensures Checks(found, r) == Missing <==> found.None?
    ensures found.Some? ==>
              var l, v := found.value, Checks(found, r);
              var live, active := l.deletedAt == None, l.details.status == Active;
              var expired := l.details.expiresAt.Some? && l.details.expiresAt.value < r.at;
              var usedUp := l.details.maxClicks.Some? && l.details.maxClicks.value <= l.clickCount;
              && (v == Pass <==> Open(l, r))
              && (v == Hidden <==> live && !active)
              && (v == Gone <==> !live || (active && (expired || usedUp)))
              && (v == AskPassword <==>
                    live && active && !expired && !usedUp && l.details.passwordHash.Some? && !r.hasCookie)
  {
  }

  /** Whether the request has to reserve a click before it is served. */
  predicate Reserves(found: Option<Link>, r: Request) {
    Checks(found, r) == Pass && r.get && !r.isBot && found.value.details.maxClicks.Some?
  }

  /** The requests served so far for one limited link, and how many clicks were recorded for it. */
  datatype State = State(
    counter: CounterRace.State, waiting: map<nat, Request>, served: seq<Request>, recorded: nat)

  datatype Event =
    | Direct(found: Option<Link>, request: Request)
    | Reserve(call: nat, copy: Link, request: Request)
    | Add(call: nat)
    | Rollback(call: nat)

  /** Every copy of the row carries the same limit. */
  ghost predicate Enabled(s: State, e: Event, max: int) {
    match e
    case Direct(found, r) => !Reserves(found, r) && (found.Some? ==> found.value.details.maxClicks == Some(max))
    case Reserve(c, copy, r) =>
      && Reserves(Some(copy), r) && copy.details.maxClicks == Some(max)
      && c !in s.counter.reserving && c !in s.counter.over
    case Add(c) => c in s.counter.reserving && c in s.waiting && s.counter.n.Some?
    case Rollback(c) => c in s.counter.over && s.counter.n.Some?
  }

  function Serve(s: State, r: Request): State {
    s.(served := s.served + [r], recorded := s.recorded + if r.get then 1 else 0)
  }

  function Step(s: State, e: Event, max: int): State
    requires e.Add? ==> e.call in s.waiting
    requires e.Add? || e.Rollback? ==> s.counter.n.Some?
  {
    match e
    case Direct(found, r) => if Checks(found, r) == Pass then Serve(s, r) else s
    case Reserve(c, copy, r) =>
      s.(counter := CounterRace.Step(s.counter, CounterRace.LoadOrStore(c, copy.clickCount), max),
         waiting := s.waiting[c := r])
    case Add(c) =>
      var t := s.(counter := CounterRace.Step(s.counter, CounterRace.Add(c), max), waiting := s.waiting - {c});
      if c in t.counter.over then t else Serve(t, s.waiting[c])
    case Rollback(c) => s.(counter := CounterRace.Step(s.counter, CounterRace.Rollback(c), max))
  }

  /** The redirects that count against the limit. */
  function Counting(served: seq<Request>): nat {
    if served == [] then 0
    else
      var r := served[|served| - 1];
      Counting(served[..|served| - 1]) + (if r.get && !r.isBot then 1 else 0)
  }

  function Gets(served: seq<Request>): nat {
    if served == [] then 0
    else Gets(served[..|served| - 1]) + (if served[|served| - 1].get then 1 else 0)
  }

  lemma OneMoreServed(served: seq<Request>, r: Request)
    ensures Counting(served + [r]) == Counting(served) + (if r.get && !r.isBot then 1 else 0)
    ensures Gets(served + [r]) == Gets(served) + (if r.get then 1 else 0)
  {
    assert (served + [r])[..|served|] == served;
  }

  /** Redirects that count are reservations accepted, and clicks recorded are GETs served. */
  ghost predicate Inv(s: State, max: int) {
    && CounterRace.Inv(s.counter, max)
    && Counting(s.served) == s.counter.accepted
    && Gets(s.served) == s.recorded
    && forall c :: c in s.counter.reserving ==> c in s.waiting && s.waiting[c].get && !s.waiting[c].isBot
  }

  lemma ServeKeepsInv(s: State, r: Request, max: int)
    requires Inv(s, max) && !(r.get && !r.isBot)
    ensures Inv(Serve(s, r), max)
  {
    OneMoreServed(s.served, r);
  }

  lemma ReserveKeepsInv(s: State, c: nat, copy: Link, r: Request, max: int)
    requires Inv(s, max) && Enabled(s, Reserve(c, copy, r), max)
    ensures Inv(Step(s, Reserve(c, copy, r), max), max)
  {
    CounterRace.StepKeepsInv(s.counter, CounterRace.LoadOrStore(c, copy.clickCount), max);
  }

  lemma AddKeepsInv(s: State, c: nat, max: int)
    requires Inv(s, max) && Enabled(s, Add(c), max)
    ensures Inv(Step(s, Add(c), max), max)
  {
    CounterRace.StepKeepsInv(s.counter, CounterRace.Add(c), max);
    OneMoreServed(s.served, s.waiting[c]);
  }

  lemma StepKeepsInv(s: State, e: Event, max: int)
    requires Inv(s, max) && Enabled(s, e, max)
    ensures Inv(Step(s, e, max), max)
  {
    match e
    case Direct(found, r) => if Checks(found, r) == Pass { ServeKeepsInv(s, r, max); }
    case Reserve(c, copy, r) => ReserveKeepsInv(s, c, copy, r, max);
    case Add(c) => AddKeepsInv(s, c, max);
    case Rollback(c) => CounterRace.StepKeepsInv(s.counter, CounterRace.Rollback(c), max);
  }

  ghost predicate IsRun(states: seq<State>, events: seq<Event>, max: int) {
    && |states| == |events| + 1 && states[0] == State(CounterRace.INITIAL, map[], [], 0)
    && forall i :: 0 <= i < |events| ==>
         Enabled(states[i], events[i], max) && states[i + 1] == Step(states[i], events[i], max)
  }

  lemma {:induction false} RunKeepsInv(states: seq<State>, events: seq<Event>, max: int, i: nat)
    requires IsRun(states, events, max) && i < |states|
    ensures Inv(states[i], max)
  {
    if i > 0 {
      RunKeepsInv(states, events, max, i - 1);
      StepKeepsInv(states[i - 1], events[i - 1], max);
    }
  }

  /**
   However requests for a limited link interleave, the redirects of people
   never outnumber what its limit left, and each redirect that answers a GET
   is recorded once.
   */
  lemma PeopleStayWithinTheLimit(states: seq<State>, events: seq<Event>, max: int, i: nat)
    requires IsRun(states, events, max) && i < |states|
    ensures var s := states[i];
            && Counting(s.served) <= (if max > s.counter.seed then max - s.counter.seed else 0)
            && s.recorded == Gets(s.served)
  {
    RunKeepsInv(states, events, max, i);
  }
}

/**
 The same over the whole life of a limit: idle counters are pruned and seeded
 again from cached copies of the row, while the database count lags behind.
 */
module RedirectLimit {
  import opened Wrappers
  import opened Links
  import opened Redirect
  import P = PruneCycle

  datatype State = State(limit: P.State, waiting: map<nat, Request>, served: seq<Request>, recorded: nat)

  datatype Event =
    | Direct(found: Option<Link>, request: Request)
    | Reserve(call: nat, copy: Link, seen: P.Copy, request: Request)
    | Other(event: P.Event)

  /** Every copy of the row carries the limit and the count that was read. */
  ghost predicate Enabled(s: State, e: Event, p: P.Params) {
    match e
    case Direct(found, r) => !Reserves(found, r) && (found.Some? ==> found.value.details.maxClicks == Some(p.max))
    case Reserve(c, copy, seen, r) =>
      && Reserves(Some(copy), r) && copy.details.maxClicks == Some(p.max) && copy.clickCount == seen.count
      && P.Enabled(s.limit, P.Acquire(c, seen), p)
    case Other(event) => !event.Acquire? && P.Enabled(s.limit, event, p) && (event.Add? ==> event.call in s.waiting)
  }

  function Serve(s: State, r: Request): State {
    s.(served := s.served + [r], recorded := s.recorded + if r.get then 1 else 0)
  }

  ghost function Step(s: State, e: Event, p: P.Params): State
    requires Enabled(s, e, p)
  {
    match e
    case Direct(found, r) => if Checks(found, r) == Pass then Serve(s, r) else s
    case Reserve(c, _, seen, r) => s.(limit := P.AcquireStep(s.limit, c, seen), waiting := s.waiting[c := r])
    case Other(event) =>
      var t := s.(limit := P.Step(s.limit, event, p));
      if event.Add? && t.limit.accepted > s.limit.accepted then Serve(t, s.waiting[event.call]) else t
  }

  ghost predicate IsRun(states: seq<State>, events: seq<Event>, p: P.Params) {
    && |states| == |events| + 1 && states[0] == State.State(P.Start(states[0].limit.base), map[], [], 0)
    && forall i :: 0 <= i < |events| ==>
         Enabled(states[i], events[i], p) && states[i + 1] == Step(states[i], events[i], p)
  }

  // ------------------------------------------------------------- invariant

  /** Redirects that count are reservations accepted, and clicks recorded are GETs served. */
  ghost predicate Inv(s: State) {
    && Counting(s.served) == s.limit.accepted && Gets(s.served) == s.recorded
    && forall c :: c in s.limit.reserving ==> c in s.waiting && s.waiting[c].get && !s.waiting[c].isBot
  }

  lemma ServeKeepsInv(s: State, r: Request)
    requires Inv(s) && !(r.get && !r.isBot)
    ensures Inv(Serve(s, r))
  {
    OneMoreServed(s.served, r);
  }

  lemma ReserveKeepsInv(s: State, c: nat, seen: P.Copy, r: Request)
    requires Inv(s) && r.get && !r.isBot
    ensures var t := s.(limit := P.AcquireStep(s.limit, c, seen), waiting := s.waiting[c := r]);
            Inv(t) && t.limit.base == s.limit.base
  {
  }

  lemma AddKeepsInv(s: State, c: nat, p: P.Params)
    requires Inv(s) && Enabled(s, Other(P.Add(c)), p)
    ensures Inv(Step(s, Other(P.Add(c)), p)) && Step(s, Other(P.Add(c)), p).limit.base == s.limit.base
  {
    OneMoreServed(s.served, s.waiting[c]);
  }

  /** Only reservations change what is reserved or accepted. */
  lemma OthersReserveNothing(l: P.State, event: P.Event, p: P.Params)
    requires P.Enabled(l, event, p) && !event.Acquire? && !event.Add?
    ensures var m := P.Step(l, event, p);
            m.reserving == l.reserving && m.accepted == l.accepted && m.base == l.base
  {
  }

  lemma OtherKeepsInv(s: State, event: P.Event, p: P.Params)
    requires Inv(s) && Enabled(s, Other(event), p)
    ensures Inv(Step(s, Other(event), p)) && Step(s, Other(event), p).limit.base == s.limit.base
  {
    if event.Add? {
      AddKeepsInv(s, event.call, p);
    } else {
      OthersReserveNothing(s.limit, event, p);
    }
  }

  lemma StepKeepsInv(s: State, e: Event, p: P.Params)
    requires Inv(s) && Enabled(s, e, p)
    ensures Inv(Step(s, e, p)) && Step(s, e, p).limit.base == s.limit.base
  {
    match e
    case Direct(found, r) => if Checks(found, r) == Pass { ServeKeepsInv(s, r); }
    case Reserve(c, copy, seen, r) => ReserveKeepsInv(s, c, seen, r);
    case Other(event) => OtherKeepsInv(s, event, p);
  }

  lemma {:induction false} RunKeepsInv(states: seq<State>, events: seq<Event>, p: P.Params, i: nat)
    requires IsRun(states, events, p) && i < |states|
    ensures Inv(states[i]) && states[i].limit.base == states[0].limit.base
  {
    if i > 0 {
      RunKeepsInv(states, events, p, i - 1);
      StepKeepsInv(states[i - 1], events[i - 1], p);
    }
  }

  lemma StepKeepsLimit(s: State, e: Event, p: P.Params)
    requires P.Inv(s.limit, p) && Enabled(s, e, p) && p.settle + p.age <= p.idle
    ensures P.Inv(Step(s, e, p).limit, p)
  {
    match e
    case Direct(_, _) =>
    case Reserve(c, _, seen, _) => P.StepKeepsInv(s.limit, P.Acquire(c, seen), p);
    case Other(event) => P.StepKeepsInv(s.limit, event, p);
  }

  lemma {:induction false} RunKeepsLimit(states: seq<State>, events: seq<Event>, p: P.Params, i: nat)
    requires IsRun(states, events, p) && i < |states| && p.settle + p.age <= p.idle
    ensures P.Inv(states[i].limit, p)
  {
    if i == 0 {
      P.RunKeepsInv([states[0].limit], [], p, 0);
    } else {
      RunKeepsLimit(states, events, p, i - 1);
      StepKeepsLimit(states[i - 1], events[i - 1], p);
    }
  }

  // -------------------------------------------------------------- theorems

  /** The redirects of people never outnumber what the first seed left of the limit. */
  ghost predicate WithinLimit(s: State, p: P.Params) {
    Counting(s.served) <= if p.max > s.limit.base then p.max - s.limit.base else 0
  }

  ghost predicate LimitHolds(p: P.Params) {
    forall states, events, i :: IsRun(states, events, p) && 0 <= i < |states| ==> WithinLimit(states[i], p)
  }

  /** Over any number of prune and re-seed cycles, and each GET served is recorded once. */
  lemma PeopleStayWithinTheLimit(states: seq<State>, events: seq<Event>, p: P.Params, i: nat)
    requires IsRun(states, events, p) && i < |states| && p.settle + p.age <= p.idle
    ensures WithinLimit(states[i], p) && states[i].recorded == Gets(states[i].served)
  {
    RunKeepsInv(states, events, p, i);
    RunKeepsLimit(states, events, p, i);
  }

  /** A visit by a person to an active link without password or expiry. */
  const VISIT := Request(true, false, true, 0)

  function Plain(max: int, count: int): Link {
    Link("", [], Details("", "", None, Active, 302, None, None, Some(max)), count, None)
  }

  ghost predicate SeesRoom(event: P.Event, max: int) {
    event.Acquire? ==> event.copy.count < max
  }

  lemma OneMoreEvent(states: seq<State>, events: seq<Event>, p: P.Params, e: Event)
    requires IsRun(states, events, p) && Enabled(states[|events|], e, p)
    ensures IsRun(states + [Step(states[|events|], e, p)], events + [e], p)
  {
  }

  /** A step of the limit, as a step of redirects. */
  function LiftStep(step: P.Event, max: int): Event {
    if step.Acquire? then Event.Reserve(step.call, Plain(max, step.copy.count), step.copy, VISIT)
    else Event.Other(step)
  }

  lemma LiftedStepFollows(s: State, step: P.Event, p: P.Params)
    requires Inv(s) && P.Enabled(s.limit, step, p) && SeesRoom(step, p.max)
    ensures Enabled(s, LiftStep(step, p.max), p)
    ensures Step(s, LiftStep(step, p.max), p).limit == P.Step(s.limit, step, p)
  {
  }

  lemma PrefixIsRun(limits: seq<P.State>, steps: seq<P.Event>, p: P.Params)
    requires P.IsRun(limits, steps, p) && steps != []
    ensures P.IsRun(limits[..|steps|], steps[..|steps| - 1], p)
    ensures var n := |steps| - 1; P.Enabled(limits[n], steps[n], p) && limits[n + 1] == P.Step(limits[n], steps[n], p)
  {
  }

  /** A run of reservations from copies below the limit is a run of redirects. */
  lemma {:induction false} Lift(limits: seq<P.State>, steps: seq<P.Event>, p: P.Params)
    returns (states: seq<State>, events: seq<Event>)
    requires P.IsRun(limits, steps, p) && forall i :: 0 <= i < |steps| ==> SeesRoom(steps[i], p.max)
    ensures IsRun(states, events, p) && |events| == |steps| && states[|steps|].limit == limits[|steps|]
    decreases |steps|
  {
    if steps == [] {
      states, events := [State.State(limits[0], map[], [], 0)], [];
    } else {
      var n := |steps| - 1;
      PrefixIsRun(limits, steps, p);
      states, events := Lift(limits[..n + 1], steps[..n], p);
      RunKeepsInv(states, events, p, n);
      LiftedStepFollows(states[n], steps[n], p);
      var e := LiftStep(steps[n], p.max);
      OneMoreEvent(states, events, p, e);
      states, events := states + [Step(states[n], e, p)], events + [e];
    }
  }

  /** The limit is kept over all runs of redirects exactly when the idle time covers settling and the age of copies. */
  lemma IdleTimeDecidesTheRedirects(p: P.Params)
    ensures LimitHolds(p) <==> p.settle + p.age <= p.idle
  {
    if p.settle + p.age <= p.idle {
      forall states, events, i | IsRun(states, events, p) && 0 <= i < |states| ensures WithinLimit(states[i], p) {
        PeopleStayWithinTheLimit(states, events, p, i);
      }
    } else {
      var limits, steps := P.StaleSeedExceeds(p);
      var states, events := Lift(limits, steps, p);
      RunKeepsInv(states, events, p, |states| - 1);
      assert !WithinLimit(states[|states| - 1], p);
    }
  }
}

/** The handler itself, one request at a time. */
module RedirectHandler {
  import opened Wrappers
  import opened Lru
  import opened Links
  import opened CacheSpec
  import opened Resolver
  import opened Redirect
  import CounterRace
  import PruneCycle
  import Service
  import ClickFields
  import ClickSpec
  import ClickPipeline
  import RL = RedirectLimit

  datatype Answer = Unavailable | NotServed(verdict: Verdict) | Served(target: string)

  /** What a request gets once it is known whether its reservation, if it needs one, was accepted. */
  function AnswerOf(found: Option<Link>, r: Request, accepted: bool): Answer {
    var v := Checks(found, r);
    if v != Pass then NotServed(v)
    else if Reserves(found, r) && !accepted then NotServed(Gone)
    else Served(found.value.details.targetUrl)
  }

  /** A reservation when nothing else uses the counters: the counters after it, and whether it is accepted. */
  function Reservation(l: Link, at: int, counters: map<string, PruneCycle.Hit>): (map<string, PruneCycle.Hit>, bool)
    requires l.details.maxClicks.Some?
  {
    var before := if l.id in counters then Some(counters[l.id].n) else None;
    var (after, ok) :=
      CounterRace.CallAlone(Service.LinkService.Quiet(before), 0, l.clickCount, l.details.maxClicks.value);
    (if after.n.Some? then counters[l.id := PruneCycle.Hit(after.n.value, at)] else counters, ok)
  }

  /** The counters after a request; only one that needs a reservation touches them. */
  function CountersAfter(found: Option<Link>, r: Request, counters: map<string, PruneCycle.Hit>)
    : map<string, PruneCycle.Hit>
  {
    if Reserves(found, r) then Reservation(found.value, r.at, counters).0 else counters
  }

  predicate Accepts(found: Option<Link>, r: Request, counters: map<string, PruneCycle.Hit>) {
    Reserves(found, r) && Reservation(found.value, r.at, counters).1
  }

  /** The request uses up a click: a GET of a person that an open link with a limit serves. */
  predicate UsesClick(l: Link, r: Request) {
    Open(l, r) && r.get && !r.isBot && l.details.maxClicks.Some?
  }

  /** The live count of a link's clicks: its counter, or the row's count when there is none. */
  function LiveCount(l: Link, counters: map<string, PruneCycle.Hit>): int {
    if l.id in counters then counters[l.id].n else l.clickCount
  }

  /** There is room for one more click, if the request uses one. */
  predicate HasRoom(l: Link, r: Request, counters: map<string, PruneCycle.Hit>) {
    UsesClick(l, r) ==> LiveCount(l, counters) < l.details.maxClicks.value
  }

  /** The answer to a request for a link, by the link's fields and its counter. */
  predicate IsAnswer(answer: Answer, found: Option<Link>, r: Request, counters: map<string, PruneCycle.Hit>) {
    match found
    case None => answer == NotServed(Missing)
    case Some(l) =>
      var live, active := l.deletedAt == None, l.details.status == Active;
      var expired := l.details.expiresAt.Some? && l.details.expiresAt.value < r.at;
      var usedUp := l.details.maxClicks.Some? && l.details.maxClicks.value <= l.clickCount;
      && (answer.Served? <==> Open(l, r) && HasRoom(l, r, counters))
      && (answer.Served? ==> answer.target == l.details.targetUrl)
      && (answer == NotServed(Hidden) <==> live && !active)
      && (answer == NotServed(Gone) <==>
            !live || (active && (expired || usedUp)) || (Open(l, r) && !HasRoom(l, r, counters)))
      && (answer == NotServed(AskPassword) <==>
            live && active && !expired && !usedUp && l.details.passwordHash.Some? && !r.hasCookie)
      && answer != Unavailable && answer != NotServed(Missing) && answer != NotServed(Pass)
  }

  /** The counters before and after a request: one that uses a click is counted if there is room, and noted if not. */
  ghost predicate Counts(
    found: Option<Link>, r: Request, before: map<string, PruneCycle.Hit>, after: map<string, PruneCycle.Hit>)
  {
    if found.Some? && UsesClick(found.value, r) then
      var l, n := found.value, LiveCount(found.value, before);
      after == before[l.id := PruneCycle.Hit(if n < l.details.maxClicks.value then n + 1 else n, r.at)]
    else after == before
  }

  lemma AnswerInFields(found: Option<Link>, r: Request, counters: map<string, PruneCycle.Hit>)
    ensures IsAnswer(AnswerOf(found, r, Accepts(found, r, counters)), found, r, counters)
    ensures Counts(found, r, counters, CountersAfter(found, r, counters))
  {
    VerdictsInFields(found, r);
    if Reserves(found, r) {
      var l := found.value;
      var before := if l.id in counters then Some(counters[l.id].n) else None;
      AloneCounts(before, l.clickCount, l.details.maxClicks.value);
    }
  }

  /** The checks, and the reservation when one is needed. */
  method Admit(svc: Service.LinkService, found: Option<Link>, r: Request) returns (answer: Answer)
    requires svc.cache.Valid() && svc.CountersApart()
    modifies svc`hits, svc.hits.Values
    ensures answer == AnswerOf(found, r, Accepts(found, r, old(svc.Counters())))
    ensures IsAnswer(answer, found, r, old(svc.Counters()))
    ensures svc.CountersApart() && svc.Counters() == CountersAfter(found, r, old(svc.Counters()))
    ensures Counts(found, r, old(svc.Counters()), svc.Counters())
    ensures svc.cache.Valid() && svc.State() == old(svc.State())
  {
    AnswerInFields(found, r, svc.Counters());
    var v := Checks(found, r);
    if v != Pass {
      return NotServed(v);
    }
    if Reserves(found, r) {
      var ok := svc.ConsumeClick(found.value, r.at);
      assert svc.cache.Valid() && svc.cache.View() == old(svc.cache.View());
      if !ok {
        return NotServed(Gone);
      }
    }
    answer := Served(found.value.details.targetUrl);
  }

  /** Offers a click to the writer, beside the service. */
  method Offer(svc: Service.LinkService, writer: ClickPipeline.Writer, e: ClickSpec.Event)
    requires svc.cache.Valid() && svc.CountersApart() && writer.Valid() && !writer.closed
    modifies writer
    ensures writer.Valid() && writer.View() == ClickSpec.Offered(old(writer.View()), e)
    ensures ClickFields.Queues(old(writer.View()), e, writer.View())
    ensures svc.CountersApart() && svc.Counters() == old(svc.Counters())
    ensures svc.cache.Valid() && svc.State() == old(svc.State())
  {
    var _ := writer.Enqueue(e);
  }

  /** The answer, and the record of a GET that is served. */
  method Respond(svc: Service.LinkService, writer: ClickPipeline.Writer, found: Option<Link>, r: Request, visitor: int)
    returns (answer: Answer)
    requires svc.cache.Valid() && svc.CountersApart() && writer.Valid() && !writer.closed
    modifies svc`hits, svc.hits.Values, writer
    ensures answer == AnswerOf(found, r, Accepts(found, r, old(svc.Counters())))
    ensures svc.CountersApart() && svc.Counters() == CountersAfter(found, r, old(svc.Counters()))
    ensures svc.cache.Valid() && svc.State() == old(svc.State())
    ensures writer.Valid() && writer.View() == Recorded(old(writer.View()), answer, found, r, visitor)
    ensures IsAnswer(answer, found, r, old(svc.Counters()))
    ensures Counts(found, r, old(svc.Counters()), svc.Counters())
    ensures Records(old(writer.View()), answer, found, r, visitor, writer.View())
  {
    answer := Admit(svc, found, r);
    assert writer.Valid() && writer.View() == old(writer.View());
    if answer.Served? && r.get {
      Offer(svc, writer, ClickSpec.Event(found.value.id, r.at, r.isBot, visitor));
    }
  }

  /** The writer after an answer: a GET that is served is offered to it. */
  function Recorded(w: ClickSpec.State, answer: Answer, found: Option<Link>, r: Request, visitor: int)
    : ClickSpec.State
  {
    if answer.Served? && r.get && found.Some?
    then ClickSpec.Offered(w, ClickSpec.Event(found.value.id, r.at, r.isBot, visitor))
    else w
  }

  /** The response once the lookup is over, or that the database is unavailable. */
  method RespondIf(
    svc: Service.LinkService, writer: ClickPipeline.Writer, ok: bool, found: Option<Link>, r: Request, visitor: int)
    returns (answer: Answer)
    requires svc.cache.Valid() && svc.CountersApart() && writer.Valid() && !writer.closed
    modifies svc`hits, svc.hits.Values, writer
    ensures svc.cache.Valid() && svc.State() == old(svc.State()) && svc.CountersApart() && writer.Valid()
    ensures if ok then IsAnswer(answer, found, r, old(svc.Counters())) else answer == Unavailable
    ensures if ok then Counts(found, r, old(svc.Counters()), svc.Counters()) else svc.Counters() == old(svc.Counters())
    ensures Records(old(writer.View()), answer, found, r, visitor, writer.View())
    ensures answer == (if ok then AnswerOf(found, r, Accepts(found, r, old(svc.Counters()))) else Unavailable)
    ensures svc.Counters() == (if ok then CountersAfter(found, r, old(svc.Counters())) else old(svc.Counters()))
    ensures writer.View() == Recorded(old(writer.View()), answer, found, r, visitor)
  {
    if !ok {
      return Unavailable;
    }
    answer := Respond(svc, writer, found, r, visitor);
  }

  /** A GET that is served is offered to the writer as a click on its link; nothing else is. */
  predicate Records(
    before: ClickSpec.State, answer: Answer, found: Option<Link>, r: Request, visitor: int, after: ClickSpec.State)
  {
    if answer.Served? && r.get then
      found.Some?
      && ClickFields.Queues(before, ClickSpec.Event(found.value.id, r.at, r.isBot, visitor), after)
    else after == before
  }

  /** The link asked for; looking it up leaves the counters alone. */
  method Resolve(svc: Service.LinkService, code: Code, at: int, dbUp: bool) returns (ok: bool, found: Option<Link>)
    requires svc.cache.Valid() && WellFormed(svc.rows) && svc.CountersApart()
    modifies svc.cache.shards, svc.cache.Nodes()
    ensures svc.cache.Valid() && (svc.State(), ok, found) == Resolved(old(svc.State()), code, at, dbUp)
    ensures IsFound(old(svc.State()), code, at, dbUp, ok, found)
    ensures svc.CountersApart() && svc.Counters() == old(svc.Counters())
  {
    ok, found := svc.ResolveForRedirect(code, at, at, dbUp);
    assert forall h :: h in svc.hits.Values ==> unchanged(h);
    svc.CountersUntouched();
  }

  /** What is found: the cached answer, else the one row with the code in any casing; neither without the database. */
  ghost predicate IsFound(s: Svc, code: Code, at: int, dbUp: bool, ok: bool, found: Option<Link>)
    requires |s.cache.shards| == SHARD_COUNT
  {
    match Lookup(s.cache, code, at)
    case Some(entry) => ok && found == entry.link
    case None =>
      && ok == dbUp
      && (ok ==> (found.None? <==> forall id :: id in s.rows ==> !SameButForCase(s.rows[id].code, code)))
      && (ok ==> forall id :: id in s.rows && SameButForCase(s.rows[id].code, code) ==> found == Some(s.rows[id]))
  }

  /** A lookup: on a miss it needs the database. */
  ghost function Resolved(s: Svc, code: Code, at: int, dbUp: bool): (Svc, bool, Option<Link>)
    requires |s.cache.shards| == SHARD_COUNT
  {
    if dbUp || Lookup(s.cache, code, at).Some? then
      var (t, found) := ResolveStep(s, code, at, at);
      (t, true, found)
    else
      (Svc(s.rows, CacheSpec.Apply(s.cache, Get(code, at))), false, None)
  }

  /**
   Resolve, then respond; `dbUp` is whether the database answers. The whole new
   state of service and writer follows from the old one.
   */
  method HandleRedirect(
    svc: Service.LinkService, writer: ClickPipeline.Writer, code: Code, r: Request, visitor: int, dbUp: bool)
    returns (answer: Answer, ok: bool, found: Option<Link>)
    requires svc.cache.Valid() && WellFormed(svc.rows) && svc.CountersApart()
    requires writer.Valid() && !writer.closed
    modifies svc`hits, svc.hits.Values, svc.cache.shards, svc.cache.Nodes(), writer
    ensures svc.cache.Valid() && svc.CountersApart() && writer.Valid()
    ensures IsFound(old(svc.State()), code, r.at, dbUp, ok, found)
    ensures if ok then IsAnswer(answer, found, r, old(svc.Counters())) else answer == Unavailable
    ensures if ok then Counts(found, r, old(svc.Counters()), svc.Counters()) else svc.Counters() == old(svc.Counters())
    ensures Records(old(writer.View()), answer, found, r, visitor, writer.View())
    ensures (svc.State(), ok, found) == Resolved(old(svc.State()), code, r.at, dbUp)
    ensures && answer == (if ok then AnswerOf(found, r, Accepts(found, r, old(svc.Counters()))) else Unavailable)
            && svc.Counters() == (if ok then CountersAfter(found, r, old(svc.Counters())) else old(svc.Counters()))
            && writer.View() == Recorded(old(writer.View()), answer, found, r, visitor)
  {
    ok, found := Resolve(svc, code, r.at, dbUp);
    assert writer.Valid() && writer.View() == old(writer.View());
    ghost var state := svc.State();
    answer := RespondIf(svc, writer, ok, found, r, visitor);
    assert svc.State() == state;
  }

  // ----------------------------------------------- the handler as machine steps

  /** The counters hold for the link what the machine's current counter is. */
  predicate Reflects(counters: map<string, PruneCycle.Hit>, id: string, l: PruneCycle.State) {
    match l.current
    case None => id !in counters
    case Some(k) => k < |l.counters| && id in counters && counters[id] == l.counters[k]
  }

  /** The steps of one uninterrupted reservation: take the counter, add, and take back when that went over the limit. */
  ghost function StepsOf(s: RL.State, c: nat, copy: Link, seen: PruneCycle.Copy, r: Request, p: PruneCycle.Params)
    : (t: RL.State)
    requires RL.Enabled(s, RL.Reserve(c, copy, seen, r), p)
    requires s.limit.current.Some? ==> s.limit.current.value < |s.limit.counters|
  {
    var s1 := RL.Step(s, RL.Reserve(c, copy, seen, r), p);
    var s2 := RL.Step(s1, RL.Other(PruneCycle.Add(c)), p);
    if c in s2.limit.over then RL.Step(s2, RL.Other(PruneCycle.Rollback(c)), p) else s2
  }

  /** The count a reservation starts from: the current counter, or the copy when there is none. */
  function CountBefore(current: Option<int>, copy: int): int {
    if current.Some? then current.value else copy
  }

  lemma AloneCounts(before: Option<int>, copy: int, max: int)
    ensures var (after, ok) := CounterRace.CallAlone(Service.LinkService.Quiet(before), 0, copy, max);
            var n := CountBefore(before, copy);
            ok == (n < max) && after.n == Some(if ok then n + 1 else n)
  {
  }

  /** The current counter of the machine. */
  function Current(l: PruneCycle.State): Option<int> {
    if l.current.Some? && l.current.value < |l.counters| then Some(l.counters[l.current.value].n) else None
  }

  lemma AcquireCounts(l: PruneCycle.State, c: nat, copy: PruneCycle.Copy)
    ensures var t := PruneCycle.AcquireStep(l, c, copy);
            && t.current.Some? && t.current.value < |t.counters|
            && t.counters[t.current.value] == PruneCycle.Hit(CountBefore(Current(l), copy.count), l.now)
            && c in t.reserving && t.reserving[c].id == t.current.value
            && t.over == l.over && t.accepted == l.accepted
  {
  }

  /** Adding, and taking back when that went over the limit, to the counter last acquired. */
  lemma AddCountsOne(l: PruneCycle.State, c: nat, max: int)
    requires l.current.Some? && l.current.value < |l.counters| && c !in l.over
    requires c in l.reserving && l.reserving[c].id == l.current.value
    ensures var hit := l.counters[l.current.value];
            var added := PruneCycle.AddStep(l, c, max);
            && (c in added.over <==> hit.n >= max)
            && (c in added.over ==> added.over[c].id == l.current.value && added.accepted == l.accepted)
            && (c !in added.over ==> added.accepted == l.accepted + 1)
            && added.current == l.current && |added.counters| == |l.counters|
            && added.counters[l.current.value] == PruneCycle.Hit(hit.n + 1, hit.last)
  {
  }

  lemma StepsCount(
    s: RL.State, c: nat, copy: Link, seen: PruneCycle.Copy, r: Request, p: PruneCycle.Params)
    requires RL.Enabled(s, RL.Reserve(c, copy, seen, r), p)
    requires s.limit.current.Some? ==> s.limit.current.value < |s.limit.counters|
    ensures var t := StepsOf(s, c, copy, seen, r, p);
            var n := CountBefore(Current(s.limit), copy.clickCount);
            && t.limit.current.Some? && t.limit.current.value < |t.limit.counters|
            && t.limit.counters[t.limit.current.value] == PruneCycle.Hit(if n < p.max then n + 1 else n, s.limit.now)
            && t.served == (if n < p.max then s.served + [r] else s.served)
  {
    var acquired := PruneCycle.AcquireStep(s.limit, c, seen);
    AcquireCounts(s.limit, c, seen);
    AddCountsOne(acquired, c, p.max);
  }

  /**
   What the handler does to the counters, and whether it serves the request,
   is what these steps of the machine do, whatever else is in flight.
   */
  lemma HandlerTakesMachineSteps(
    s: RL.State, c: nat, copy: Link, seen: PruneCycle.Copy, r: Request, p: PruneCycle.Params,
    counters: map<string, PruneCycle.Hit>)
    requires RL.Enabled(s, RL.Reserve(c, copy, seen, r), p) && r.at == s.limit.now
    requires Reflects(counters, copy.id, s.limit)
    ensures var t := StepsOf(s, c, copy, seen, r, p);
            && Reflects(CountersAfter(Some(copy), r, counters), copy.id, t.limit)
            && t.served == (if Accepts(Some(copy), r, counters) then s.served + [r] else s.served)
            && (AnswerOf(Some(copy), r, Accepts(Some(copy), r, counters)).Served? <==> t.served != s.served)
  {
    StepsCount(s, c, copy, seen, r, p);
    var before := if copy.id in counters then Some(counters[copy.id].n) else None;
    assert before == Current(s.limit);
    AloneCounts(before, copy.clickCount, p.max);
    assert |s.served + [r]| > |s.served|;
  }
}
