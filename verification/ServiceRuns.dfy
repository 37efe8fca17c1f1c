/**
 The cache agrees with the link table over every interleaving of the link
 service: visitors hit, load and land while operations of the service store
 their change and, later, one by one, invalidate the codes it concerns.
 */
module ServiceRuns {
  import opened Wrappers
  import opened Lru
  import opened CacheSpec
  import opened Links
  import A = Agreement
  import R = Resolver
  import S = Staleness
  import W = ServiceWrites

  /** A move of a visitor, of an operation storing its change, or of one carrying out an invalidation. */
  datatype Move = Visit(event: S.Event) | Store(op: R.Op) | Forget(code: Code)

  /** The link table, the invalidations not carried out yet, and the cache with its visitors. */
  datatype World = World(table: R.Table, awaiting: multiset<Code>, front: S.State)

  ghost predicate Allowed(w: World, m: Move, latency: nat) {
    match m
    case Visit(e) => !e.Write? && !e.Drop? && w.front.versions != [] && S.Enabled(w.front, e, latency)
    case Store(op) => !op.Resolve? && R.Addressed(Plain(w.table), op)
    case Forget(code) => code in w.awaiting
  }

  /** The table as an operation sees it; what it writes does not depend on the cache. */
  function Plain(t: R.Table): (s: R.Svc)
    ensures s.rows == t && |s.cache.shards| == SHARD_COUNT
  {
    R.Svc(t, Empty(1))
  }

  ghost function Next(w: World, m: Move): (v: World)
    requires w.front.versions != [] && |w.front.cache.shards| == SHARD_COUNT
    ensures v.front.versions != [] && |v.front.cache.shards| == SHARD_COUNT
  {
    match m
    case Visit(e) => w.(front := S.Apply(w.front, e))
    case Store(op) =>
      var t := R.Step(Plain(w.table), op).rows;
      World(t, w.awaiting + multiset(W.Dropped(Plain(w.table), op)), S.Apply(w.front, S.Write(W.ByCode(t))))
    case Forget(code) => w.(awaiting := w.awaiting - multiset{code}, front := S.Apply(w.front, S.Drop(code)))
  }

  ghost function Exec(t: R.Table, cap: nat, run: seq<Move>): (w: World)
    ensures w.front.versions != [] && |w.front.cache.shards| == SHARD_COUNT
  {
    if run == [] then World(t, multiset{}, S.Start(W.ByCode(t), cap))
    else Next(Exec(t, cap, run[..|run| - 1]), run[|run| - 1])
  }

  ghost predicate Possible(t: R.Table, cap: nat, latency: nat, run: seq<Move>) {
    run == [] || (
      && Possible(t, cap, latency, run[..|run| - 1])
      && Allowed(Exec(t, cap, run[..|run| - 1]), run[|run| - 1], latency))
  }

  /** The codes, in lower case, an invalidation of which is still to come. */
  function Pending(w: World): set<Code> {
    set c | c in w.awaiting :: Lower(c)
  }

  /** Every answer for a code with no invalidation to come is what the table answers now. */
  ghost predicate AllAnswersAgree(w: World)
    requires |w.front.cache.shards| == SHARD_COUNT
  {
    forall code, value :: S.Answers(w.front, code, value) && Lower(code) !in Pending(w) ==>
      Agree(value, R.GetLinkByCode(w.table, code))
  }

  /** A load is under way whose row was changed, with all invalidations over, since it was read. */
  ghost predicate LoadFellBehind(w: World)
    requires w.front.versions != []
  {
    exists f :: f in w.front.loads && Lower(f.code) !in Pending(w) && A.Overtaken(w.front, f)
  }

  // ------------------------------------------------------------- invariant

  ghost predicate Orderly(w: World)
    requires w.front.versions != []
  {
    R.WellFormed(w.table) && S.Current(w.front) == W.ByCode(w.table) && A.LoadsHold(w.front)
  }

  lemma FewerPending(c: CacheSpec.Cache<Link>, rows: map<Code, Link>, less: set<Code>, more: set<Code>)
    requires |c.shards| == SHARD_COUNT && less <= more && A.InStep(c, rows, less)
    ensures A.InStep(c, rows, more)
  {
  }

  lemma StartIsOrderly(t: R.Table, cap: nat)
    requires R.WellFormed(t) && 1 <= cap
    ensures Orderly(Exec(t, cap, [])) && A.StoredAgree(Exec(t, cap, []).front, Pending(Exec(t, cap, [])))
  {
    A.StartAgrees(W.ByCode(t), cap);
  }

  lemma StoreStaysOrderly(w: World, op: R.Op)
    requires w.front.versions != [] && |w.front.cache.shards| == SHARD_COUNT
    requires Orderly(w) && R.Addressed(Plain(w.table), op)
    ensures Orderly(Next(w, Store(op)))
  {
    var next := W.ByCode(R.Step(Plain(w.table), op).rows);
    W.StaysWellFormed(Plain(w.table), op);
    A.StepHolds(w.front, S.Write(next));
    assert Next(w, Store(op)).front == S.Apply(w.front, S.Write(next));
  }

  lemma MoveStaysOrderly(w: World, m: Move, latency: nat)
    requires w.front.versions != [] && |w.front.cache.shards| == SHARD_COUNT
    requires Orderly(w) && Allowed(w, m, latency)
    ensures Orderly(Next(w, m))
  {
    match m
    case Visit(e) => A.StepHolds(w.front, e);
    case Store(op) => StoreStaysOrderly(w, op);
    case Forget(code) => A.StepHolds(w.front, S.Drop(code));
  }

  lemma {:induction false} RunStaysOrderly(t: R.Table, cap: nat, latency: nat, run: seq<Move>)
    requires R.WellFormed(t) && 1 <= cap && Possible(t, cap, latency, run)
    ensures Orderly(Exec(t, cap, run))
  {
    if run == [] {
      StartIsOrderly(t, cap);
    } else {
      var front, last := run[..|run| - 1], run[|run| - 1];
      RunStaysOrderly(t, cap, latency, front);
      assert Allowed(Exec(t, cap, front), last, latency);
      MoveStaysOrderly(Exec(t, cap, front), last, latency);
    }
  }

  lemma StoredCodesArePending(w: World, op: R.Op)
    requires R.WellFormed(w.table) && R.Addressed(Plain(w.table), op)
    requires w.front.versions != [] && |w.front.cache.shards| == SHARD_COUNT
    ensures A.Changed(W.ByCode(w.table), W.ByCode(R.Step(Plain(w.table), op).rows)) <= Pending(Next(w, Store(op)))
    ensures Pending(w) <= Pending(Next(w, Store(op)))
  {
    var codes, v := W.Dropped(Plain(w.table), op), Next(w, Store(op));
    W.ChangedCodesAreCleared(Plain(w.table), op);
    forall c | W.Clears(codes, c) ensures c in Pending(v) {
      var i :| 0 <= i < |codes| && Lower(codes[i]) == c;
      assert codes[i] in multiset(codes) && codes[i] in v.awaiting;
    }
  }

  lemma ForgottenCodeWasDropped(w: World, code: Code)
    requires w.front.versions != [] && |w.front.cache.shards| == SHARD_COUNT
    ensures Pending(w) - {Lower(code)} <= Pending(Next(w, Forget(code)))
  {
    forall c | c in Pending(w) - {Lower(code)} ensures c in Pending(Next(w, Forget(code))) {
      var a :| a in w.awaiting && Lower(a) == c;
      assert a in Next(w, Forget(code)).awaiting;
    }
  }

  lemma StoreKeepsInStep(w: World, op: R.Op)
    requires w.front.versions != [] && |w.front.cache.shards| == SHARD_COUNT && R.Addressed(Plain(w.table), op)
    requires Orderly(w) && A.StoredAgree(w.front, Pending(w))
    ensures A.StoredAgree(Next(w, Store(op)).front, Pending(Next(w, Store(op))))
  {
    var v := Next(w, Store(op));
    var next := W.ByCode(v.table);
    StoredCodesArePending(w, op);
    assert A.InStep(v.front.cache, next, Pending(w) + A.Changed(S.Current(w.front), next)) by {
      A.WriteKeepsAgreement(w.front, Pending(w), next);
    }
    FewerPending(v.front.cache, next, Pending(w) + A.Changed(S.Current(w.front), next), Pending(v));
  }

  lemma ForgetKeepsInStep(w: World, code: Code)
    requires w.front.versions != [] && A.StoredAgree(w.front, Pending(w))
    ensures A.StoredAgree(Next(w, Forget(code)).front, Pending(Next(w, Forget(code))))
  {
    var v := Next(w, Forget(code));
    assert v.front == w.front.(cache := CacheSpec.Apply(w.front.cache, Invalidate(code)));
    A.CacheStepKeepsAgreement(w.front, Pending(w), Invalidate(code));
    ForgottenCodeWasDropped(w, code);
    FewerPending(v.front.cache, S.Current(w.front), Pending(w) - {Lower(code)}, Pending(v));
  }

  /** No move but an overtaken load landing puts the cache out of step with the table. */
  lemma MoveKeepsInStep(w: World, m: Move, latency: nat)
    requires w.front.versions != [] && |w.front.cache.shards| == SHARD_COUNT
    requires Orderly(w) && A.StoredAgree(w.front, Pending(w)) && Allowed(w, m, latency) && !LoadFellBehind(w)
    ensures A.StoredAgree(Next(w, m).front, Pending(Next(w, m)))
  {
    match m
    case Visit(e) =>
      assert !A.StaleLanding(w.front, Pending(w), e);
      A.StepKeepsAgreement(w.front, Pending(w), e, latency);
    case Store(op) => StoreKeepsInStep(w, op);
    case Forget(code) => ForgetKeepsInStep(w, code);
  }

  // -------------------------------------------------------------- theorems

  /** A load that fell behind is an answer that is wrong now; when there is none, all answers follow the cache. */
  lemma AnswersOfOneMoment(w: World)
    requires w.front.versions != [] && |w.front.cache.shards| == SHARD_COUNT && Orderly(w)
    ensures LoadFellBehind(w) ==> !AllAnswersAgree(w)
    ensures !LoadFellBehind(w) && A.StoredAgree(w.front, Pending(w)) ==> AllAnswersAgree(w)
  {
    if f :| f in w.front.loads && Lower(f.code) !in Pending(w) && A.Overtaken(w.front, f) {
      W.ByCodeIsLookup(w.table, f.code);
      assert S.Answers(w.front, f.code, f.value);
    } else if A.StoredAgree(w.front, Pending(w)) {
      A.StoredAgreeingHitsAgree(w.front, Pending(w));
      forall code, value | S.Answers(w.front, code, value) && Lower(code) !in Pending(w)
        ensures Agree(value, R.GetLinkByCode(w.table, code))
      {
        W.ByCodeIsLookup(w.table, code);
        if f :| f in w.front.loads && Lower(f.code) == Lower(code) && f.value == value {
          assert !A.Overtaken(w.front, f);
        }
      }
    }
  }

  lemma {:induction false} PrefixIsPossible(t: R.Table, cap: nat, latency: nat, run: seq<Move>, i: nat)
    requires i <= |run| && Possible(t, cap, latency, run)
    ensures Possible(t, cap, latency, run[..i])
    decreases |run|
  {
    if i == |run| {
      assert run[..i] == run;
    } else {
      PrefixIsPossible(t, cap, latency, run[..|run| - 1], i);
      assert run[..|run| - 1][..i] == run[..i];
    }
  }

  lemma {:induction false} InStepSoFar(t: R.Table, cap: nat, latency: nat, run: seq<Move>)
    requires R.WellFormed(t) && 1 <= cap && Possible(t, cap, latency, run)
    requires forall i :: 0 <= i <= |run| ==> !LoadFellBehind(Exec(t, cap, run[..i]))
    ensures A.StoredAgree(Exec(t, cap, run).front, Pending(Exec(t, cap, run)))
  {
    if run == [] {
      StartIsOrderly(t, cap);
    } else {
      var n := |run| - 1;
      forall i | 0 <= i <= n ensures !LoadFellBehind(Exec(t, cap, run[..n][..i])) {
        assert run[..n][..i] == run[..i];
      }
      InStepSoFar(t, cap, latency, run[..n]);
      RunStaysOrderly(t, cap, latency, run[..n]);
      MoveKeepsInStep(Exec(t, cap, run[..n]), run[n], latency);
    }
  }

  lemma AnswersAgreeSoFar(t: R.Table, cap: nat, latency: nat, run: seq<Move>, i: nat)
    requires R.WellFormed(t) && 1 <= cap && Possible(t, cap, latency, run) && i <= |run|
    requires forall j :: 0 <= j <= i ==> !LoadFellBehind(Exec(t, cap, run[..j]))
    ensures AllAnswersAgree(Exec(t, cap, run[..i]))
  {
    var front := run[..i];
    forall j | 0 <= j <= i ensures !LoadFellBehind(Exec(t, cap, front[..j])) {
      assert front[..j] == run[..j];
    }
    assert front[..i] == front;
    PrefixIsPossible(t, cap, latency, run, i);
    InStepSoFar(t, cap, latency, front);
    RunStaysOrderly(t, cap, latency, front);
    AnswersOfOneMoment(Exec(t, cap, front));
  }

  /**
   In every interleaving of visitors and operations of the service, every
   answer at every time, from the cache or from a load and under any casing of
   the code, is what the table answers, unless an invalidation of the code is
   still to come; and that exactly when no load is ever under way whose row
   was changed, and invalidated, since it was read.
   */
  lemma AnswersAgreeIffNoLoadFallsBehind(t: R.Table, cap: nat, latency: nat, run: seq<Move>)
    requires R.WellFormed(t) && 1 <= cap && Possible(t, cap, latency, run)
    ensures (forall i :: 0 <= i <= |run| ==> AllAnswersAgree(Exec(t, cap, run[..i])))
            <==> (forall i :: 0 <= i <= |run| ==> !LoadFellBehind(Exec(t, cap, run[..i])))
  {
    if i :| 0 <= i <= |run| && LoadFellBehind(Exec(t, cap, run[..i])) {
      PrefixIsPossible(t, cap, latency, run, i);
      RunStaysOrderly(t, cap, latency, run[..i]);
      AnswersOfOneMoment(Exec(t, cap, run[..i]));
    } else {
      forall i | 0 <= i <= |run| ensures AllAnswersAgree(Exec(t, cap, run[..i])) {
        AnswersAgreeSoFar(t, cap, latency, run, i);
      }
    }
  }
}
