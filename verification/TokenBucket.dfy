/**
 The token-bucket limiter, with its clock as an integer and its tokens as real
 numbers.

 `BucketSpec` describes a limiter by what each key has left; a key that was
 forgotten has its full allowance. `Limiter` is the map of buckets that is
 updated in place.
 */
module BucketSpec {
  import opened Wrappers

  /** `n` requests per `interval` nanoseconds. */
  datatype Rate = Rate(n: nat, interval: int)

  datatype Bucket = Bucket(tokens: real, lastRefill: int, lastAccess: int)

  type Buckets = map<string, Bucket>

  ghost predicate Limits(r: Rate) {
    r.n >= 1 && r.interval >= 1
  }

  function PerTick(r: Rate): (p: real)
    requires r.interval >= 1
    ensures p >= 0.0
  {
    r.n as real / r.interval as real
  }

  /** What accrues over a number of ticks. */
  function Accrued(r: Rate, ticks: int): real
    requires r.interval >= 1
    decreases if ticks < 0 then -ticks else ticks
  {
    if ticks == 0 then 0.0
    else if ticks > 0 then Accrued(r, ticks - 1) + PerTick(r)
    else Accrued(r, ticks + 1) - PerTick(r)
  }

  lemma {:induction false} AccruedIsProduct(r: Rate, ticks: int)
    requires r.interval >= 1
    ensures Accrued(r, ticks) == ticks as real * PerTick(r)
    decreases if ticks < 0 then -ticks else ticks
  {
    var p := PerTick(r);
    if ticks > 0 {
      AccruedIsProduct(r, ticks - 1);
      assert ticks as real * p == (ticks - 1) as real * p + p;
    } else if ticks < 0 {
      AccruedIsProduct(r, ticks + 1);
      assert ticks as real * p == (ticks + 1) as real * p - p;
    }
  }

  function Cap(r: Rate, tokens: real): real {
    if tokens > r.n as real then r.n as real else tokens
  }

  /** What a bucket holds at `now`, refilled since it was last touched. */
  function Level(r: Rate, b: Bucket, now: int): real
    requires r.interval >= 1
  {
    Cap(r, b.tokens + Accrued(r, now - b.lastRefill))
  }

  /** What `key` has left at `now`; a key without a bucket has everything. */
  function Left(r: Rate, bs: Buckets, key: string, now: int): real
    requires r.interval >= 1
  {
    if key in bs then Level(r, bs[key], now) else r.n as real
  }

  ghost predicate Full(r: Rate, b: Bucket, now: int)
    requires r.interval >= 1
  {
    b.tokens + Accrued(r, now - b.lastRefill) >= r.n as real
  }

  /** Every bucket is within bounds, and was refilled when it was last used. */
  ghost predicate Inv(r: Rate, bs: Buckets, now: int) {
    forall k :: k in bs ==>
      0.0 <= bs[k].tokens <= r.n as real && bs[k].lastRefill == bs[k].lastAccess <= now
  }

  // ------------------------------------------------------------------ steps

  /** One request at `now`: the bucket it leaves and whether it was let through. */
  function AllowStep(r: Rate, bs: Buckets, key: string, now: int): (Buckets, bool)
    requires r.interval >= 1
  {
    var left := Left(r, bs, key, now);
    if left < 1.0 then (bs[key := Bucket(left, now, now)], false)
    else (bs[key := Bucket(left - 1.0, now, now)], true)
  }

  datatype Op =
    | Allow(key: string, at: int)
    | Forget(keys: set<string>, at: int)

  /** Forgetting is harmless when the buckets dropped are full. */
  ghost predicate Harmless(r: Rate, bs: Buckets, op: Op)
    requires r.interval >= 1
  {
    op.Forget? ==> forall k :: k in op.keys && k in bs ==> Full(r, bs[k], op.at)
  }

  function Step(r: Rate, bs: Buckets, op: Op): Buckets
    requires r.interval >= 1
  {
    match op
    case Allow(key, at) => AllowStep(r, bs, key, at).0
    case Forget(keys, _) => bs - keys
  }

  function Run(r: Rate, ops: seq<Op>): Buckets
    requires r.interval >= 1
  {
    if ops == [] then map[] else Step(r, Run(r, ops[..|ops| - 1]), ops[|ops| - 1])
  }

  /** The same requests at a limiter that never forgets a bucket. */
  function RunKeepingAll(r: Rate, ops: seq<Op>): Buckets
    requires r.interval >= 1
  {
    if ops == [] then map[]
    else
      var bs, op := RunKeepingAll(r, ops[..|ops| - 1]), ops[|ops| - 1];
      if op.Allow? then Step(r, bs, op) else bs
  }

  /** The clock never goes back, and only full buckets are forgotten. */
  ghost predicate Orderly(r: Rate, ops: seq<Op>)
    requires r.interval >= 1
  {
    ops == [] || (
      var before := ops[..|ops| - 1];
      && Orderly(r, before)
      && (before != [] ==> before[|before| - 1].at <= ops[|ops| - 1].at)
      && Harmless(r, Run(r, before), ops[|ops| - 1]))
  }

  function Clock(ops: seq<Op>, start: int): int {
    if ops == [] then start else ops[|ops| - 1].at
  }

  // ---------------------------------------------------------------- accrual

  lemma {:induction false} Accrues(r: Rate, from: int, mid: int, until: int)
    requires r.interval >= 1 && from <= mid <= until
    ensures Accrued(r, mid - from) + Accrued(r, until - mid) == Accrued(r, until - from)
    decreases until - mid
  {
    if mid < until { Accrues(r, from, mid, until - 1); }
  }

  lemma {:induction false} AccrualIsMonotone(r: Rate, a: int, b: int)
    requires r.interval >= 1 && a <= b
    ensures Accrued(r, a) <= Accrued(r, b)
    decreases b - a
  {
    if a < b { AccrualIsMonotone(r, a, b - 1); }
  }

  /** A whole interval accrues the whole allowance. */
  lemma IntervalAccruesAll(r: Rate)
    requires r.interval >= 1
    ensures Accrued(r, r.interval) == r.n as real
  {
    AccruedIsProduct(r, r.interval);
  }

  /** What is left at a later time depends only on what is left now. */
  lemma LeftLater(r: Rate, bs: Buckets, key: string, now: int, later: int)
    requires Limits(r) && now <= later && Inv(r, bs, now)
    ensures Left(r, bs, key, later) == Cap(r, Left(r, bs, key, now) + Accrued(r, later - now))
  {
    AccrualIsMonotone(r, 0, later - now);
    if key in bs { Accrues(r, bs[key].lastRefill, now, later); }
  }

  lemma StepLeavesBucket(r: Rate, bs: Buckets, key: string, now: int)
    requires Limits(r) && Inv(r, bs, now)
    ensures Inv(r, AllowStep(r, bs, key, now).0, now)
    ensures 0.0 <= Left(r, bs, key, now) <= r.n as real
    ensures var (after, ok) := AllowStep(r, bs, key, now);
            && (ok <==> Left(r, bs, key, now) >= 1.0)
            && Left(r, after, key, now) == Left(r, bs, key, now) - (if ok then 1.0 else 0.0)
            && forall k, t :: k != key ==> Left(r, after, k, t) == Left(r, bs, k, t)
  {
    if key in bs { AccrualIsMonotone(r, 0, now - bs[key].lastRefill); }
  }

  /** Forgetting full buckets leaves every key with what it had. */
  lemma ForgettingFullIsInvisible(r: Rate, bs: Buckets, keys: set<string>, now: int, key: string)
    requires Limits(r) && Harmless(r, bs, Forget(keys, now))
    ensures Left(r, bs - keys, key, now) == Left(r, bs, key, now)
  {
  }

  // --------------------------------------------------------------- theorems

  /** Tokens stay between zero and the rate's count throughout every run. */
  lemma {:induction false} TokensInRange(r: Rate, ops: seq<Op>, start: int)
    requires Limits(r) && Orderly(r, ops)
    ensures Inv(r, Run(r, ops), Clock(ops, start))
  {
    if ops != [] {
      var before, op := ops[..|ops| - 1], ops[|ops| - 1];
      TokensInRange(r, before, op.at);
      if op.Allow? { StepLeavesBucket(r, Run(r, before), op.key, op.at); }
    }
  }

  lemma {:induction false} KeptTokensInRange(r: Rate, ops: seq<Op>, start: int)
    requires Limits(r) && Orderly(r, ops)
    ensures Inv(r, RunKeepingAll(r, ops), Clock(ops, start))
  {
    if ops != [] {
      var before, op := ops[..|ops| - 1], ops[|ops| - 1];
      KeptTokensInRange(r, before, op.at);
      if op.Allow? { StepLeavesBucket(r, RunKeepingAll(r, before), op.key, op.at); }
    }
  }

  /** One request keeps two limiters alike on a key. */
  lemma SameStep(r: Rate, a: Buckets, b: Buckets, k: string, at: int, key: string)
    requires Limits(r) && Inv(r, a, at) && Inv(r, b, at)
    requires Left(r, a, k, at) == Left(r, b, k, at) && Left(r, a, key, at) == Left(r, b, key, at)
    ensures Left(r, AllowStep(r, a, k, at).0, key, at) == Left(r, AllowStep(r, b, k, at).0, key, at)
  {
    StepLeavesBucket(r, a, k, at);
    StepLeavesBucket(r, b, k, at);
  }

  lemma AlikeLater(r: Rate, a: Buckets, b: Buckets, key: string, at: int, now: int)
    requires Limits(r) && at <= now && Inv(r, a, at) && Inv(r, b, at)
    requires Left(r, a, key, at) == Left(r, b, key, at)
    ensures Left(r, a, key, now) == Left(r, b, key, now)
  {
    LeftLater(r, a, key, at, now);
    LeftLater(r, b, key, at, now);
  }

  ghost predicate Alike(r: Rate, a: Buckets, b: Buckets, now: int)
    requires r.interval >= 1
  {
    forall key, later :: now <= later ==> Left(r, a, key, later) == Left(r, b, key, later)
  }

  lemma SameStepAlike(r: Rate, a: Buckets, b: Buckets, k: string, at: int)
    requires Limits(r) && Inv(r, a, at) && Inv(r, b, at) && Alike(r, a, b, at)
    ensures Alike(r, AllowStep(r, a, k, at).0, AllowStep(r, b, k, at).0, at)
  {
    forall key, later | at <= later
      ensures Left(r, AllowStep(r, a, k, at).0, key, later) == Left(r, AllowStep(r, b, k, at).0, key, later)
    {
      SameStep(r, a, b, k, at, key);
      StepLeavesBucket(r, a, k, at);
      StepLeavesBucket(r, b, k, at);
      AlikeLater(r, AllowStep(r, a, k, at).0, AllowStep(r, b, k, at).0, key, at, later);
    }
  }

  lemma ForgetAlike(r: Rate, a: Buckets, b: Buckets, keys: set<string>, at: int)
    requires Limits(r) && Inv(r, a, at) && Inv(r, b, at)
    requires Harmless(r, a, Forget(keys, at)) && Alike(r, a, b, at)
    ensures Alike(r, a - keys, b, at)
  {
    forall key, later | at <= later ensures Left(r, a - keys, key, later) == Left(r, b, key, later) {
      ForgettingFullIsInvisible(r, a, keys, at, key);
      AlikeLater(r, a - keys, a, key, at, later);
    }
  }

  /** After any run the two limiters are alike for every key, now and at every later time. */
  lemma {:induction false} ForgettingIsInvisible(r: Rate, ops: seq<Op>, now: int)
    requires Limits(r) && Orderly(r, ops) && Clock(ops, now) <= now
    ensures Alike(r, Run(r, ops), RunKeepingAll(r, ops), now)
  {
    if ops != [] {
      var before, op := ops[..|ops| - 1], ops[|ops| - 1];
      ForgettingIsInvisible(r, before, op.at);
      match op {
        case Forget(keys, at) =>
          TokensInRange(r, before, at);
          KeptTokensInRange(r, before, at);
          ForgetAlike(r, Run(r, before), RunKeepingAll(r, before), keys, at);
        case Allow(k, at) =>
          TokensInRange(r, before, at);
          KeptTokensInRange(r, before, at);
          SameStepAlike(r, Run(r, before), RunKeepingAll(r, before), k, at);
      }
    }
  }

  /** The next request gets the same answer from both. */
  lemma SameAnswers(r: Rate, ops: seq<Op>, key: string, now: int)
    requires Limits(r) && Orderly(r, ops) && Clock(ops, now) <= now
    ensures AllowStep(r, Run(r, ops), key, now).1 == AllowStep(r, RunKeepingAll(r, ops), key, now).1
  {
    ForgettingIsInvisible(r, ops, now);
  }

  /** How many requests of `key` the operations after the first `from` let through. */
  function Admitted(r: Rate, ops: seq<Op>, from: nat, key: string): nat
    requires r.interval >= 1
  {
    if |ops| <= from then 0
    else
      var before, op := ops[..|ops| - 1], ops[|ops| - 1];
      Admitted(r, before, from, key)
      + (if op.Allow? && op.key == key && AllowStep(r, Run(r, before), key, op.at).1 then 1 else 0)
  }

  /** Tokens spent and left are covered by the allowance and what accrued since `start`. */
  ghost predicate Covered(r: Rate, bs: Buckets, key: string, spent: nat, start: int, now: int)
    requires r.interval >= 1
  {
    spent as real + Left(r, bs, key, now) <= r.n as real + Accrued(r, now - start)
  }

  lemma NothingSpent(r: Rate, bs: Buckets, key: string, start: int, now: int)
    requires Limits(r) && start <= now
    ensures Covered(r, bs, key, 0, start, now)
  {
    AccrualIsMonotone(r, 0, now - start);
  }

  lemma CoveredAfterAllow(r: Rate, bs: Buckets, key: string, spent: nat, start: int, k: string, at: int)
    requires Limits(r) && Inv(r, bs, at) && Covered(r, bs, key, spent, start, at)
    ensures var (after, ok) := AllowStep(r, bs, k, at);
            Covered(r, after, key, if ok && k == key then spent + 1 else spent, start, at)
  {
    StepLeavesBucket(r, bs, k, at);
  }

  lemma CoveredAfterForget(r: Rate, bs: Buckets, key: string, spent: nat, start: int, keys: set<string>, at: int)
    requires Limits(r) && Harmless(r, bs, Forget(keys, at)) && Covered(r, bs, key, spent, start, at)
    ensures Covered(r, bs - keys, key, spent, start, at)
  {
    ForgettingFullIsInvisible(r, bs, keys, at, key);
  }

  /** What is covered stays covered as time passes. */
  lemma CoveredLater(r: Rate, bs: Buckets, key: string, spent: nat, start: int, at: int, now: int)
    requires Limits(r) && start <= at <= now && Inv(r, bs, at) && Covered(r, bs, key, spent, start, at)
    ensures Covered(r, bs, key, spent, start, now)
  {
    LeftLater(r, bs, key, at, now);
    Accrues(r, start, at, now);
  }

  lemma {:induction false} SpentAndLeft(r: Rate, ops: seq<Op>, from: nat, key: string, start: int, now: int)
    requires Limits(r) && Orderly(r, ops) && from <= |ops|
    requires Clock(ops[..from], start) <= start <= now && Clock(ops, start) <= now
    requires forall i :: from <= i < |ops| ==> start <= ops[i].at
    ensures Covered(r, Run(r, ops), key, Admitted(r, ops, from, key), start, now)
  {
    if |ops| == from {
      NothingSpent(r, Run(r, ops), key, start, now);
    } else {
      var before, op := ops[..|ops| - 1], ops[|ops| - 1];
      assert before[..from] == ops[..from];
      SpentAndLeft(r, before, from, key, start, op.at);
      TokensInRange(r, before, op.at);
      var bs, spent := Run(r, before), Admitted(r, before, from, key);
      match op {
        case Forget(keys, at) => CoveredAfterForget(r, bs, key, spent, start, keys, at);
        case Allow(k, at) => CoveredAfterAllow(r, bs, key, spent, start, k, at);
      }
      TokensInRange(r, ops, op.at);
      CoveredLater(r, Run(r, ops), key, Admitted(r, ops, from, key), start, op.at, now);
    }
  }

  /**
   In every window of length T a key is let through at most n + T * n / interval
   times, whatever other keys do and however many full buckets are forgotten.
   */
  lemma AdmissionBound(r: Rate, ops: seq<Op>, from: nat, key: string, start: int, span: nat)
    requires Limits(r) && Orderly(r, ops) && from <= |ops|
    requires Clock(ops[..from], start) <= start
    requires forall i :: from <= i < |ops| ==> start <= ops[i].at <= start + span
    ensures Admitted(r, ops, from, key) as real <= r.n as real + span as real * PerTick(r)
  {
    AdmissionCovered(r, ops, from, key, start, start + span);
    assert start + span - start == span;
    AccruedIsProduct(r, span);
  }

  lemma AdmissionCovered(r: Rate, ops: seq<Op>, from: nat, key: string, start: int, end: int)
    requires Limits(r) && Orderly(r, ops) && from <= |ops|
    requires Clock(ops[..from], start) <= start <= end
    requires forall i :: from <= i < |ops| ==> start <= ops[i].at <= end
    ensures Admitted(r, ops, from, key) as real <= r.n as real + Accrued(r, end - start)
  {
    if |ops| > from {
      SpentAndLeft(r, ops, from, key, start, end);
      TokensInRange(r, ops, end);
      LeftIsNonNegative(r, Run(r, ops), key, end);
    } else {
      AccrualIsMonotone(r, 0, end - start);
    }
  }

  lemma LeftIsNonNegative(r: Rate, bs: Buckets, key: string, now: int)
    requires Limits(r) && Inv(r, bs, now)
    ensures 0.0 <= Left(r, bs, key, now)
  {
    if key in bs { AccrualIsMonotone(r, 0, now - bs[key].lastRefill); }
  }

  /** A bucket untouched for a whole interval has refilled. */
  lemma IdleIsFull(r: Rate, b: Bucket, now: int)
    requires Limits(r) && b.tokens >= 0.0 && b.lastRefill <= now - r.interval
    ensures Full(r, b, now)
  {
    AccrualIsMonotone(r, r.interval, now - b.lastRefill);
    IntervalAccruesAll(r);
  }

  /** The keys idle for at least `idle`. */
  function Idle(bs: Buckets, cutoff: int): set<string> {
    set k | k in bs && bs[k].lastAccess <= cutoff
  }

  /** Collecting buckets idle for an interval or more forgets only full ones. */
  lemma CollectingIdleIsHarmless(r: Rate, bs: Buckets, idle: int, now: int)
    requires Limits(r) && Inv(r, bs, now) && r.interval <= idle
    ensures Harmless(r, bs, Forget(Idle(bs, now - idle), now))
  {
    forall k | k in Idle(bs, now - idle) && k in bs ensures Full(r, bs[k], now) {
      IdleIsFull(r, bs[k], now);
    }
  }

  // ------------------------------------------------------ collecting runs

  /** What happens to a limiter: requests, and collections of the buckets idle by then. */
  datatype Act =
    | Request(key: string, at: int)
    | Collect(at: int)

  /** Without an idle time, collections are not carried out. */
  function ActStep(r: Rate, idle: Option<int>, bs: Buckets, act: Act): Buckets
    requires r.interval >= 1
  {
    match act
    case Request(key, at) => AllowStep(r, bs, key, at).0
    case Collect(at) => if idle.Some? then bs - Idle(bs, at - idle.value) else bs
  }

  function RunActs(r: Rate, idle: Option<int>, acts: seq<Act>): Buckets
    requires r.interval >= 1
  {
    if acts == [] then map[] else ActStep(r, idle, RunActs(r, idle, acts[..|acts| - 1]), acts[|acts| - 1])
  }

  predicate InOrder(acts: seq<Act>) {
    forall i, j :: 0 <= i < j < |acts| ==> acts[i].at <= acts[j].at
  }

  /** The answer a request gets after a run. */
  predicate Answer(r: Rate, idle: Option<int>, acts: seq<Act>, key: string, at: int)
    requires r.interval >= 1
  {
    AllowStep(r, RunActs(r, idle, acts), key, at).1
  }

  /** Request `i` of the run is answered as if nothing were ever collected. */
  predicate AnsweredAlike(r: Rate, idle: int, acts: seq<Act>, i: nat)
    requires r.interval >= 1 && i < |acts| && acts[i].Request?
  {
    Answer(r, Some(idle), acts[..i], acts[i].key, acts[i].at) == Answer(r, None, acts[..i], acts[i].key, acts[i].at)
  }

  /** Over every run on an ordered clock, no answer tells of a collection. */
  ghost predicate CollectingIsUnobservable(r: Rate, idle: int)
    requires r.interval >= 1
  {
    forall acts: seq<Act>, i :: InOrder(acts) && 0 <= i < |acts| && acts[i].Request? ==> AnsweredAlike(r, idle, acts, i)
  }

  /** The run as operations that forget. */
  function AsOps(r: Rate, idle: int, acts: seq<Act>): seq<Op>
    requires r.interval >= 1
  {
    if acts == [] then []
    else
      var front := acts[..|acts| - 1];
      AsOps(r, idle, front) + [AsOp(r, idle, RunActs(r, Some(idle), front), acts[|acts| - 1])]
  }

  function AsOp(r: Rate, idle: int, bs: Buckets, act: Act): Op {
    match act
    case Request(key, at) => Allow(key, at)
    case Collect(at) => Forget(Idle(bs, at - idle), at)
  }

  lemma OrderlyOneMore(r: Rate, before: seq<Op>, op: Op)
    requires r.interval >= 1 && Orderly(r, before) && Harmless(r, Run(r, before), op)
    requires before != [] ==> before[|before| - 1].at <= op.at
    ensures var ops := before + [op];
            && Orderly(r, ops) && Run(r, ops) == Step(r, Run(r, before), op)
            && RunKeepingAll(r, ops) ==
               if op.Allow? then Step(r, RunKeepingAll(r, before), op) else RunKeepingAll(r, before)
  {
    var ops := before + [op];
    assert ops[..|ops| - 1] == before && ops[|ops| - 1] == op;
  }

  lemma OpIsHarmless(r: Rate, idle: int, before: seq<Op>, bs: Buckets, act: Act)
    requires Limits(r) && r.interval <= idle && Orderly(r, before) && Run(r, before) == bs
    requires before != [] ==> before[|before| - 1].at <= act.at
    ensures Harmless(r, bs, AsOp(r, idle, bs, act))
  {
    if act.Collect? {
      TokensInRange(r, before, act.at);
      assert Inv(r, bs, act.at);
      CollectingIdleIsHarmless(r, bs, idle, act.at);
    }
  }

  /** The operations are orderly and do to both limiters what the run does. */
  ghost predicate Mirrors(r: Rate, idle: int, acts: seq<Act>, ops: seq<Op>)
    requires r.interval >= 1
  {
    && Orderly(r, ops) && |ops| == |acts| && (acts != [] ==> ops[|ops| - 1].at == acts[|acts| - 1].at)
    && Run(r, ops) == RunActs(r, Some(idle), acts) && RunKeepingAll(r, ops) == RunActs(r, None, acts)
  }

  lemma MirrorsOneMore(r: Rate, idle: int, acts: seq<Act>, ops: seq<Op>, act: Act)
    requires Limits(r) && r.interval <= idle && Mirrors(r, idle, acts, ops)
    requires acts != [] ==> acts[|acts| - 1].at <= act.at
    ensures Mirrors(r, idle, acts + [act], ops + [AsOp(r, idle, RunActs(r, Some(idle), acts), act)])
  {
    var bs := RunActs(r, Some(idle), acts);
    OpIsHarmless(r, idle, ops, bs, act);
    OrderlyOneMore(r, ops, AsOp(r, idle, bs, act));
    OneMoreAct(r, Some(idle), acts, act);
    OneMoreAct(r, None, acts, act);
  }

  /** Collecting after an interval or more is a run that forgets only full buckets. */
  lemma {:induction false} CollectingIsOrderly(r: Rate, idle: int, acts: seq<Act>)
    requires Limits(r) && r.interval <= idle && InOrder(acts)
    ensures Mirrors(r, idle, acts, AsOps(r, idle, acts))
  {
    if acts != [] {
      var front, last := acts[..|acts| - 1], acts[|acts| - 1];
      CollectingIsOrderly(r, idle, front);
      MirrorsOneMore(r, idle, front, AsOps(r, idle, front), last);
      assert front + [last] == acts;
    }
  }

  lemma AlikeWhenIntervalPassed(r: Rate, idle: int, acts: seq<Act>, i: nat)
    requires Limits(r) && r.interval <= idle && InOrder(acts) && i < |acts| && acts[i].Request?
    ensures AnsweredAlike(r, idle, acts, i)
  {
    CollectingIsOrderly(r, idle, acts[..i]);
    SameAnswers(r, AsOps(r, idle, acts[..i]), acts[i].key, acts[i].at);
  }

  /** `n` requests of a key at one moment. */
  function Burst(key: string, at: int, n: nat): seq<Act> {
    seq(n, _ => Request(key, at))
  }

  /** The allowance is used up, the bucket is collected at `t`, and the key comes back. */
  function ReturnAfterCollection(r: Rate, t: nat, key: string, n: nat): seq<Act>
    requires r.n >= 1
  {
    Burst(key, 0, r.n) + [Collect(t)] + Burst(key, t, n)
  }

  lemma OneMoreAct(r: Rate, idle: Option<int>, acts: seq<Act>, act: Act)
    requires r.interval >= 1
    ensures RunActs(r, idle, acts + [act]) == ActStep(r, idle, RunActs(r, idle, acts), act)
  {
    assert (acts + [act])[..|acts|] == acts;
  }

  /** Requests at one moment take one token each, as long as there are any. */
  lemma {:induction false} BurstTakes(r: Rate, idle: Option<int>, acts: seq<Act>, key: string, at: int, n: nat)
    requires Limits(r) && Inv(r, RunActs(r, idle, acts), at)
    requires Left(r, RunActs(r, idle, acts), key, at) >= n as real
    ensures var bs := RunActs(r, idle, acts + Burst(key, at, n));
            Inv(r, bs, at) && Left(r, bs, key, at) == Left(r, RunActs(r, idle, acts), key, at) - n as real
  {
    if n == 0 {
      assert acts + Burst(key, at, 0) == acts;
    } else {
      var front := acts + Burst(key, at, n - 1);
      BurstTakes(r, idle, acts, key, at, n - 1);
      StepLeavesBucket(r, RunActs(r, idle, front), key, at);
      OneMoreAct(r, idle, front, Request(key, at));
      assert acts + Burst(key, at, n) == front + [Request(key, at)];
    }
  }

  lemma AccruedBeforeInterval(r: Rate, idle: int)
    requires Limits(r) && 0 <= idle < r.interval
    ensures 0.0 <= Accrued(r, idle) < r.n as real
  {
    AccrualIsMonotone(r, 0, idle);
    AccrualIsMonotone(r, idle + 1, r.interval);
    IntervalAccruesAll(r);
    assert Accrued(r, idle) == Accrued(r, idle + 1) - PerTick(r);
    PositiveRate(r);
  }

  /** After the allowance is used up, nothing is left for the key. */
  lemma AllUsed(r: Rate, idle: Option<int>, key: string)
    requires Limits(r)
    ensures var bs := RunActs(r, idle, Burst(key, 0, r.n)); Inv(r, bs, 0) && Left(r, bs, key, 0) == 0.0
  {
    BurstTakes(r, idle, [], key, 0, r.n);
    assert [] + Burst(key, 0, r.n) == Burst(key, 0, r.n);
  }

  lemma RefillsFromNothing(r: Rate, bs: Buckets, key: string, idle: int)
    requires Limits(r) && 0 <= idle < r.interval && Inv(r, bs, 0) && Left(r, bs, key, 0) == 0.0
    ensures Inv(r, bs, idle) && Left(r, bs, key, idle) == Accrued(r, idle)
  {
    AccruedBeforeInterval(r, idle);
    LeftLater(r, bs, key, 0, idle);
  }

  /** Time alone gives the key less than all. */
  lemma TimeAloneRefills(r: Rate, idle: int, key: string)
    requires Limits(r) && 0 <= idle < r.interval
    ensures var bs := RunActs(r, None, Burst(key, 0, r.n) + [Collect(idle)]);
            Inv(r, bs, idle) && Left(r, bs, key, idle) == Accrued(r, idle)
  {
    AllUsed(r, None, key);
    OneMoreAct(r, None, Burst(key, 0, r.n), Collect(idle));
    RefillsFromNothing(r, RunActs(r, None, Burst(key, 0, r.n)), key, idle);
  }

  /** The collection gives it everything. */
  lemma CollectionRefills(r: Rate, idle: int, t: nat, key: string)
    requires Limits(r) && idle <= t
    ensures var bs := RunActs(r, Some(idle), Burst(key, 0, r.n) + [Collect(t)]);
            Inv(r, bs, t) && Left(r, bs, key, t) == r.n as real
  {
    var a := Burst(key, 0, r.n);
    AllUsed(r, Some(idle), key);
    OneMoreAct(r, Some(idle), a, Collect(t));
    var bs := RunActs(r, Some(idle), a);
    assert key in bs ==> key in Idle(bs, t - idle);
  }

  function Whole(tokens: real): nat {
    if tokens < 0.0 then 0 else tokens.Floor
  }

  lemma WholeIsFloor(tokens: real, n: nat)
    requires 0.0 <= tokens < n as real
    ensures Whole(tokens) as real <= tokens < Whole(tokens) as real + 1.0 && Whole(tokens) + 1 <= n
  {
  }

  /** After `n` requests the next is let through exactly if a token is left. */
  lemma AnswerAfterBurst(r: Rate, idle: Option<int>, acts: seq<Act>, key: string, at: int, n: nat)
    requires Limits(r) && Inv(r, RunActs(r, idle, acts), at)
    requires Left(r, RunActs(r, idle, acts), key, at) >= n as real
    ensures Answer(r, idle, acts + Burst(key, at, n), key, at) <==>
              Left(r, RunActs(r, idle, acts), key, at) - n as real >= 1.0
  {
    BurstTakes(r, idle, acts, key, at, n);
  }

  /**
   With any shorter idle time a run shows it: after as many further requests as
   time alone allows, the next is let through only by the limiter that collects.
   */
  lemma CollectingSoonerShows(r: Rate, idle: int, t: nat, key: string)
    requires Limits(r) && idle <= t < r.interval
    ensures var acts := ReturnAfterCollection(r, t, key, Whole(Accrued(r, t)));
            Answer(r, Some(idle), acts, key, t) && !Answer(r, None, acts, key, t)
  {
    var n := Whole(Accrued(r, t));
    var b := Burst(key, 0, r.n) + [Collect(t)];
    AccruedBeforeInterval(r, t);
    WholeIsFloor(Accrued(r, t), r.n);
    CollectionRefills(r, idle, t, key);
    TimeAloneRefills(r, t, key);
    AnswerAfterBurst(r, Some(idle), b, key, t, n);
    AnswerAfterBurst(r, None, b, key, t, n);
  }

  /** Collection goes unnoticed over all runs if and only if the idle time is an interval or more. */
  lemma IntervalDecidesCollecting(r: Rate, idle: int)
    requires Limits(r)
    ensures CollectingIsUnobservable(r, idle) <==> r.interval <= idle
  {
    if r.interval <= idle {
      forall acts: seq<Act>, i | InOrder(acts) && 0 <= i < |acts| && acts[i].Request?
        ensures AnsweredAlike(r, idle, acts, i)
      {
        AlikeWhenIntervalPassed(r, idle, acts, i);
      }
    } else {
      var t: nat := if idle < 0 then 0 else idle;
      CollectingSoonerShows(r, idle, t, "");
      var acts := ReturnAfterCollection(r, t, "", Whole(Accrued(r, t)));
      var all := acts + [Request("", t)];
      assert all[..|acts|] == acts && InOrder(all);
      assert !AnsweredAlike(r, idle, all, |acts|);
    }
  }

  lemma PositiveRate(r: Rate)
    requires Limits(r)
    ensures PerTick(r) > 0.0
  {
  }
}

/** Sorting the eviction sample by last access. */
module AccessOrder {
  datatype Access = Access(key: string, at: int)

  ghost predicate Sorted(s: seq<Access>) {
    forall i, j :: 0 <= i < j < |s| ==> s[i].at <= s[j].at
  }

  function Insert(x: Access, s: seq<Access>): (r: seq<Access>)
    ensures |r| == |s| + 1
    ensures multiset(r) == multiset(s) + multiset{x}
  {
    if s == [] || x.at <= s[0].at then [x] + s
    else
      assert s == [s[0]] + s[1..];
      [s[0]] + Insert(x, s[1..])
  }

  lemma {:induction false} InsertSorts(x: Access, s: seq<Access>)
    requires Sorted(s)
    ensures Sorted(Insert(x, s))
  {
    if s != [] && x.at > s[0].at {
      InsertSorts(x, s[1..]);
      var rest := Insert(x, s[1..]);
      forall j | 0 <= j < |rest| ensures s[0].at <= rest[j].at {
        assert rest[j] in multiset(rest);
        if rest[j] != x {
          var k :| 0 <= k < |s[1..]| && s[1..][k] == rest[j];
          assert s[k + 1] == rest[j];
        }
      }
    }
  }

  function SortByAccess(s: seq<Access>): (r: seq<Access>)
    ensures |r| == |s|
    ensures multiset(r) == multiset(s)
  {
    if s == [] then []
    else
      assert s == [s[0]] + s[1..];
      Insert(s[0], SortByAccess(s[1..]))
  }

  lemma {:induction false} SortByAccessSorts(s: seq<Access>)
    ensures Sorted(SortByAccess(s))
  {
    if s != [] {
      SortByAccessSorts(s[1..]);
      InsertSorts(s[0], SortByAccess(s[1..]));
    }
  }

  function KeysOf(s: seq<Access>): set<string> {
    set a | a in s :: a.key
  }

  lemma SortKeepsElements(s: seq<Access>)
    ensures forall a :: a in SortByAccess(s) <==> a in s
    ensures KeysOf(SortByAccess(s)) == KeysOf(s)
  {
    forall a ensures a in SortByAccess(s) <==> a in s {
      assert a in SortByAccess(s) <==> a in multiset(SortByAccess(s));
      assert a in s <==> a in multiset(s);
    }
  }

  lemma KeysOfStep(s: seq<Access>, i: nat)
    requires i < |s|
    ensures KeysOf(s[..i + 1]) == KeysOf(s[..i]) + {s[i].key}
  {
    assert s[..i + 1] == s[..i] + [s[i]];
    assert forall a :: a in s[..i + 1] <==> a in s[..i] || a == s[i];
  }

  /** As many keys as elements: no key twice, in any prefix. */
  lemma {:induction false} DistinctPrefix(s: seq<Access>, i: nat)
    requires i <= |s| && |KeysOf(s)| == |s|
    ensures |KeysOf(s[..i])| == i
    decreases |s| - i
  {
    if i == |s| {
      assert s[..i] == s;
    } else {
      DistinctPrefix(s, i + 1);
      KeysOfStep(s, i);
      AtMostOnePerElement(s[..i]);
    }
  }

  lemma {:induction false} AtMostOnePerElement(s: seq<Access>)
    ensures |KeysOf(s)| <= |s|
  {
    if s != [] {
      AtMostOnePerElement(s[..|s| - 1]);
      KeysOfStep(s, |s| - 1);
      assert s[..|s| - 1 + 1] == s;
    }
  }
}

module RateLimit {
  import opened BucketSpec
  import opened AccessOrder
  import Sets

  const SAMPLE_SIZE: nat := 1000

  /** The sampled buckets were not full, and those dropped are the least recently used of them. */
  ghost predicate OldestOfSample(r: Rate, bs: Buckets, sample: set<string>, victims: set<string>, now: int)
    requires r.interval >= 1
  {
    && victims <= sample <= bs.Keys
    && |victims| == (if |sample| / 10 + 1 < |sample| then |sample| / 10 + 1 else |sample|)
    && (forall k :: k in sample ==> !Full(r, bs[k], now))
    && (forall v, k :: v in victims && k in sample - victims ==> bs[v].lastAccess <= bs[k].lastAccess)
  }

  /** How many of `n` buckets an eviction looks at. */
  function Looked(n: nat): nat {
    if n < 1000 then n else 1000
  }

  /** Nothing in a whole sample had refilled, and its least recently used buckets were dropped. */
  ghost predicate Forced(r: Rate, bs: Buckets, dropped: set<string>, now: int)
    requires r.interval >= 1
  {
    exists sample: set<string> :: |sample| == Looked(|bs|) && OldestOfSample(r, bs, sample, dropped, now)
  }

  /** Full buckets of a sample were dropped, and nothing else. */
  ghost predicate Unforced(r: Rate, bs: Buckets, dropped: set<string>, now: int)
    requires r.interval >= 1
  {
    Harmless(r, bs, Forget(dropped, now)) && |dropped| <= Looked(|bs|)
  }

  /** A sample element records the last access of a bucket that is not full. */
  ghost predicate Sampled(r: Rate, bs: Buckets, a: Access, now: int)
    requires r.interval >= 1
  {
    a.key in bs && a.at == bs[a.key].lastAccess && !Full(r, bs[a.key], now)
  }

  lemma Smaller(m: Buckets, gone: set<string>)
    requires gone != {} && gone <= m.Keys
    ensures |m - gone| < |m|
  {
    assert (m - gone).Keys == m.Keys - gone;
    assert |m.Keys - gone| == |m.Keys| - |gone|;
  }

  lemma VictimsAreOldest(sample: seq<Access>, sorted: seq<Access>, i: nat, v: Access, k: Access)
    requires sorted == SortByAccess(sample) && i <= |sorted|
    requires v in sorted[..i] && k in sorted && k !in sorted[..i]
    ensures v.at <= k.at
  {
    SortByAccessSorts(sample);
    var a :| 0 <= a < i && sorted[a] == v;
    var b :| 0 <= b < |sorted| && sorted[b] == k;
    assert forall j :: 0 <= j < i ==> sorted[j] in sorted[..i];
  }

  /** `after` is `before` without exactly the keys in `dropped`. */
  ghost predicate Pruned(before: Buckets, after: Buckets, dropped: set<string>) {
    && dropped <= before.Keys && dropped !! after.Keys
    && (forall k :: k in before ==> k in after || k in dropped)
    && (forall k :: k in after ==> k in before && after[k] == before[k])
  }

  lemma PruneOneMore(before: Buckets, after: Buckets, dropped: set<string>, key: string)
    requires Pruned(before, after, dropped) && key in before
    ensures Pruned(before, after - {key}, dropped + {key})
  {
  }

  lemma PrunedIsDifference(before: Buckets, after: Buckets, dropped: set<string>)
    requires Pruned(before, after, dropped)
    ensures after == before - dropped
  {
  }

  /** One request at a map from which other keys have been dropped. */
  lemma AllowAfterDrop(r: Rate, bs: Buckets, dropped: set<string>, key: string, now: int, b: Bucket, ok: bool)
    requires r.interval >= 1 && key !in dropped
    requires var first := if key in bs then bs[key] else Bucket(r.n as real, now, now);
             var left := Level(r, first, now);
             ok == (left >= 1.0) && b == Bucket(if ok then left - 1.0 else left, now, now)
    ensures (bs - dropped)[key := b] == AllowStep(r, bs, key, now).0 - dropped
    ensures ok == AllowStep(r, bs, key, now).1
  {
    assert AllowStep(r, bs, key, now) == (bs[key := b], ok);
    assert (bs - dropped)[key := b] == bs[key := b] - dropped;
  }

  lemma SameElsewhere(m: Buckets, n: Buckets, key: string, b: Bucket)
    requires m - {key} == n - {key}
    ensures m[key := b] == n[key := b]
  {
    forall k | k != key ensures (k in m <==> k in n) && (k in m ==> m[k] == n[k]) {
      assert k in m <==> k in m - {key};
      assert k in n <==> k in n - {key};
      if k in m { assert m[k] == (m - {key})[k] == (n - {key})[k]; }
    }
  }

  lemma OneKeyMore(m: Buckets, key: string, b: Bucket)
    ensures |m[key := b]| == if key in m then |m| else |m| + 1
  {
    assert m[key := b].Keys == m.Keys + {key};
  }

  lemma SampleOneMore(r: Rate, bs: Buckets, sample: seq<Access>, a: Access, now: int)
    requires r.interval >= 1 && |KeysOf(sample)| == |sample| && a.key !in KeysOf(sample)
    requires forall x :: x in sample ==> Sampled(r, bs, x, now)
    requires Sampled(r, bs, a, now)
    ensures var next := sample + [a];
            && KeysOf(next) == KeysOf(sample) + {a.key} && |KeysOf(next)| == |next|
            && forall x :: x in next ==> Sampled(r, bs, x, now)
  {
    var next := sample + [a];
    KeysOfStep(next, |sample|);
    assert next[..|sample|] == sample && next[..|sample| + 1] == next;
  }

  /** The first `i` of the sorted sample are its least recently used keys. */
  lemma PrefixIsOldest(r: Rate, bs: Buckets, sample: seq<Access>, i: nat, now: int)
    requires r.interval >= 1 && |KeysOf(sample)| == |sample| && sample != []
    requires forall a :: a in sample ==> Sampled(r, bs, a, now)
    requires i == if |sample| / 10 + 1 < |sample| then |sample| / 10 + 1 else |sample|
    ensures OldestOfSample(r, bs, KeysOf(sample), KeysOf(SortByAccess(sample)[..i]), now)
    ensures KeysOf(SortByAccess(sample)[..i]) != {} && KeysOf(SortByAccess(sample)[..i]) <= bs.Keys
  {
    var sorted := SortByAccess(sample);
    SortKeepsElements(sample);
    DistinctPrefix(sorted, i);
    assert forall a :: a in sorted[..i] ==> a in sorted;
    var victims := KeysOf(sorted[..i]);
    forall v, k | v in victims && k in KeysOf(sample) - victims ensures bs[v].lastAccess <= bs[k].lastAccess {
      var va :| va in sorted[..i] && va.key == v;
      var ka :| ka in sample && ka.key == k;
      assert Sampled(r, bs, va, now) && Sampled(r, bs, ka, now);
      VictimsAreOldest(sample, sorted, i, va, ka);
    }
    forall k | k in KeysOf(sample) ensures k in bs && !Full(r, bs[k], now) {
      var a :| a in sample && a.key == k;
      assert Sampled(r, bs, a, now);
    }
  }

  /** What a request finds: the tokens of its bucket and those accrued since, up to `n`; `n` if it has no bucket. */
  function Finds(r: Rate, bs: Buckets, key: string, now: int): real
    requires r.interval >= 1
  {
    if key !in bs then r.n as real
    else
      var accrued := (now - bs[key].lastRefill) as real * (r.n as real / r.interval as real);
      if bs[key].tokens + accrued <= r.n as real then bs[key].tokens + accrued else r.n as real
  }

  /** One request, by what it finds: it passes with a whole token, takes that, and leaves a bucket touched now. */
  lemma AllowTakesOneToken(r: Rate, bs: Buckets, key: string, now: int)
    requires r.interval >= 1
    ensures var (after, ok) := AllowStep(r, bs, key, now);
            && (ok <==> Finds(r, bs, key, now) >= 1.0)
            && after == bs[key := Bucket(Finds(r, bs, key, now) - (if ok then 1.0 else 0.0), now, now)]
  {
    assert Left(r, bs, key, now) == Finds(r, bs, key, now) by { LeftIsFound(r, bs, key, now); }
  }

  lemma LeftIsFound(r: Rate, bs: Buckets, key: string, now: int)
    requires r.interval >= 1
    ensures Left(r, bs, key, now) == Finds(r, bs, key, now)
  {
    if key in bs {
      AccruedIsProduct(r, now - bs[key].lastRefill);
      assert PerTick(r) == r.n as real / r.interval as real;
    }
  }

  class Limiter {
    const rate: Rate
    const maxKeys: nat
    var buckets: Buckets

    ghost predicate Valid()
      reads this
    {
      rate.interval >= 1 && 1 <= maxKeys && |buckets| <= maxKeys
    }

    constructor (rate: Rate)
      requires rate.interval >= 1
      ensures Valid() && buckets == map[] && this.rate == rate && maxKeys == 500000
    {
      this.rate, maxKeys, buckets := rate, 500000, map[];
    }

    /**
     One request. Keys dropped to make room are never the requested one; unless
     the eviction was forced, they were all full.
     */
    method Allow(key: string, now: int, evictionTime: int)
      returns (ok: bool, ghost dropped: set<string>, ghost forced: bool)
      requires Valid()
      modifies this
      ensures Valid()
      ensures rate.n == 0 ==> ok && buckets == old(buckets)
      ensures rate.n >= 1 ==> buckets == AllowStep(rate, old(buckets), key, now).0 - dropped
      ensures rate.n >= 1 ==> ok == AllowStep(rate, old(buckets), key, now).1
      ensures rate.n >= 1 ==>
                var found := Finds(rate, old(buckets), key, now);
                && (ok <==> found >= 1.0)
                && buckets == old(buckets)[key := Bucket(found - (if ok then 1.0 else 0.0), now, now)] - dropped
      ensures key !in dropped
      ensures dropped != {} <==> rate.n >= 1 && |old(buckets)| == maxKeys && key !in old(buckets)
      ensures !forced ==> Unforced(rate, old(buckets), dropped, evictionTime)
      ensures forced ==> Forced(rate, old(buckets), dropped, evictionTime)
    {
      AllowTakesOneToken(rate, buckets, key, now);
      dropped, forced := {}, false;
      if rate.n == 0 {
        return true, {}, false;
      }
      dropped, forced := Ready(key, now, evictionTime);
      var b;
      b, ok := Take(buckets[key], now);
      OneKeyMore(buckets, key, b);
      AllowAfterDrop(rate, old(buckets), dropped, key, now, b, ok);
      SameElsewhere(buckets, old(buckets) - dropped, key, b);
      buckets := buckets[key := b];
    }

    /** Gives the key a full bucket if it has none, making room first when the map is full. */
    method Ready(key: string, now: int, evictionTime: int) returns (ghost dropped: set<string>, ghost forced: bool)
      requires Valid()
      modifies this
      ensures Valid() && key in buckets && key !in dropped
      ensures buckets[key] == if key in old(buckets) then old(buckets)[key] else Bucket(rate.n as real, now, now)
      ensures buckets - {key} == old(buckets) - dropped - {key}
      ensures dropped != {} <==> |old(buckets)| == maxKeys && key !in old(buckets)
      ensures !forced ==> Unforced(rate, old(buckets), dropped, evictionTime)
      ensures forced ==> Forced(rate, old(buckets), dropped, evictionTime)
    {
      dropped, forced := {}, false;
      if key !in buckets {
        if |buckets| >= maxKeys {
          dropped, forced := EvictOldest(evictionTime);
        }
        OneKeyMore(buckets, key, Bucket(rate.n as real, now, now));
        buckets := buckets[key := Bucket(rate.n as real, now, now)];
      }
      assert buckets - {key} == old(buckets) - dropped - {key};
    }

    /** Refill up to the cap, then take one token if there is one. */
    method Take(bucket: Bucket, now: int) returns (b: Bucket, ok: bool)
      requires rate.interval >= 1
      ensures var left := Level(rate, bucket, now);
              ok == (left >= 1.0) && b == Bucket(if ok then left - 1.0 else left, now, now)
    {
      b := bucket.(lastAccess := now);
      var elapsed := now - b.lastRefill;
      var refillRate := PerTick(rate);
      AccruedIsProduct(rate, elapsed);
      b := b.(tokens := b.tokens + elapsed as real * refillRate);
      if b.tokens > rate.n as real {
        b := b.(tokens := rate.n as real);
      }
      b := b.(lastRefill := now);
      ok := b.tokens >= 1.0;
      if ok {
        b := b.(tokens := b.tokens - 1.0);
      }
    }

    /** What a request would be told now, without taking a token. */
    method Peek(key: string, now: int) returns (ok: bool)
      requires Valid()
      ensures ok == (rate.n == 0 || AllowStep(rate, buckets, key, now).1)
      ensures ok <==> rate.n == 0 || Finds(rate, buckets, key, now) >= 1.0
    {
      AllowTakesOneToken(rate, buckets, key, now);
      if rate.n == 0 {
        return true;
      }
      if key !in buckets {
        return true;
      }
      var b := buckets[key];
      AccruedIsProduct(rate, now - b.lastRefill);
      var tokens := b.tokens + (now - b.lastRefill) as real * PerTick(rate);
      return tokens >= 1.0;
    }

    method Reset(key: string)
      requires Valid()
      modifies this
      ensures Valid() && buckets == old(buckets) - {key}
    {
      assert (buckets - {key}).Keys <= buckets.Keys;
      Sets.SubsetSize((buckets - {key}).Keys, buckets.Keys);
      buckets := buckets - {key};
    }

    /** Makes room: full buckets of a sample if it has any, else the oldest tenth of it. */
    method EvictOldest(now: int) returns (ghost dropped: set<string>, ghost forced: bool)
      requires Valid() && buckets != map[]
      modifies this
      ensures Valid() && |buckets| < |old(buckets)|
      ensures buckets == old(buckets) - dropped && dropped <= old(buckets).Keys && dropped != {}
      ensures !forced ==> Unforced(rate, old(buckets), dropped, now)
      ensures forced ==> Forced(rate, old(buckets), dropped, now)
    {
      var removed, sample;
      removed, sample, dropped := DropFull(now);
      forced := removed == 0;
      if removed > 0 {
        Smaller(old(buckets), dropped);
        return;
      }
      assert dropped == {} && buckets == old(buckets);
      dropped := DropOldest(sample, now);
      assert |KeysOf(sample)| == Looked(|old(buckets)|);
    }

    /** Drops the least recently used tenth of the sample. */
    method DropOldest(sample: seq<Access>, now: int) returns (ghost dropped: set<string>)
      requires rate.interval >= 1 && sample != [] && |KeysOf(sample)| == |sample|
      requires forall a :: a in sample ==> Sampled(rate, buckets, a, now)
      modifies this
      ensures buckets == old(buckets) - dropped && |buckets| < |old(buckets)|
      ensures OldestOfSample(rate, old(buckets), KeysOf(sample), dropped, now) && dropped != {}
    {
      var sorted := SortByAccess(sample);
      SortKeepsElements(sample);
      ghost var bs := buckets;
      var i := 0;
      while i < |sample| / 10 + 1 && i < |sample|
        invariant 0 <= i <= |sample| && i <= |sample| / 10 + 1
        invariant KeysOf(sorted[..i]) <= bs.Keys && Pruned(bs, buckets, KeysOf(sorted[..i]))
      {
        KeysOfStep(sorted, i);
        assert Sampled(rate, bs, sorted[i], now);
        PruneOneMore(bs, buckets, KeysOf(sorted[..i]), sorted[i].key);
        buckets := buckets - {sorted[i].key};
        i := i + 1;
      }
      dropped := KeysOf(sorted[..i]);
      PrefixIsOldest(rate, bs, sample, i, now);
      PrunedIsDifference(bs, buckets, dropped);
      Smaller(bs, dropped);
    }

    method HasRefilled(b: Bucket, now: int) returns (full: bool)
      requires rate.interval >= 1
      ensures full <==> Full(rate, b, now)
    {
      AccruedIsProduct(rate, now - b.lastRefill);
      return b.tokens + (now - b.lastRefill) as real * PerTick(rate) >= rate.n as real;
    }

    /** One pass over at most a sample of the map, dropping what has refilled. */
    method DropFull(now: int) returns (removed: nat, sample: seq<Access>, ghost dropped: set<string>)
      requires Valid() && buckets != map[]
      modifies this
      ensures buckets == old(buckets) - dropped && dropped <= old(buckets).Keys
      ensures removed == |dropped| && removed + |sample| == Looked(|old(buckets)|)
      ensures Harmless(rate, old(buckets), Forget(dropped, now))
      ensures |KeysOf(sample)| == |sample|
      ensures forall a :: a in sample ==> Sampled(rate, old(buckets), a, now)
    {
      removed, sample, dropped := 0, [], {};
      var todo := buckets.Keys;
      ghost var bs := buckets;
      while todo != {} && |sample| + removed < SAMPLE_SIZE
        invariant todo <= buckets.Keys && Pruned(bs, buckets, dropped)
        invariant removed == |dropped| && Harmless(rate, bs, Forget(dropped, now))
        invariant |KeysOf(sample)| == |sample| && KeysOf(sample) !! todo
        invariant forall a :: a in sample ==> Sampled(rate, bs, a, now)
        invariant |sample| + removed + |todo| == |bs| && |sample| + removed <= SAMPLE_SIZE
        decreases |todo|
      {
        var k :| k in todo;
        todo := todo - {k};
        var full := HasRefilled(buckets[k], now);
        if full {
          buckets := buckets - {k};
          removed, dropped := removed + 1, dropped + {k};
        } else {
          SampleOneMore(rate, bs, sample, Access(k, buckets[k].lastAccess), now);
          sample := sample + [Access(k, buckets[k].lastAccess)];
        }
      }
      assert buckets == bs - dropped;
    }

    /** Drops exactly the buckets idle for `idle`. */
    method GC(idle: int, now: int)
      requires Valid()
      modifies this
      ensures Valid() && buckets == old(buckets) - Idle(old(buckets), now - idle)
      ensures forall k :: k in buckets <==> k in old(buckets) && old(buckets)[k].lastAccess > now - idle
      ensures forall k :: k in buckets ==> buckets[k] == old(buckets)[k]
    {
      ghost var cutoff := now - idle;
      ghost var bs := buckets;
      var todo := buckets.Keys;
      while todo != {}
        invariant todo <= buckets.Keys <= bs.Keys
        invariant forall k :: k in bs ==> (k in buckets <==> k in todo || bs[k].lastAccess > cutoff)
        invariant forall k :: k in buckets ==> buckets[k] == bs[k]
        decreases |todo|
      {
        var k :| k in todo;
        todo := todo - {k};
        if buckets[k].lastAccess <= now - idle {
          buckets := buckets - {k};
        }
      }
      assert buckets == bs - Idle(bs, cutoff);
      Sets.SubsetSize(buckets.Keys, bs.Keys);
    }

    method Len() returns (n: nat)
      requires Valid()
      ensures n == |buckets| <= maxKeys
    {
      return |buckets|;
    }
  }
}
