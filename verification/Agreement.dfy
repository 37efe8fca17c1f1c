/**
 When the redirect cache agrees with the link table, over runs in which hits,
 loads, writes and invalidations of any number of requests interleave.

 Between a write and the invalidation that follows it the cache may be behind;
 a code is dirty then. Everything here is about codes that are not.
 */
module Agreement {
  import opened Wrappers
  import opened Lru
  import opened CacheSpec
  import opened Links
  import opened Staleness
  import Resolver

  /** The codes whose row two tables disagree about. */
  function Changed(before: map<Code, Link>, after: map<Code, Link>): set<Code> {
    set c | c in before.Keys + after.Keys && !Agree(At(before, c), At(after, c))
  }

  function At(rows: map<Code, Link>, key: Code): Option<Link> {
    if key in rows then Some(rows[key]) else None
  }

  /** The codes whose row was changed since they were last invalidated. */
  function Dirty(rows: map<Code, Link>, cap: nat, run: seq<Event>): set<Code> {
    if run == [] then {}
    else
      var front := run[..|run| - 1];
      DirtyAfter(Dirty(rows, cap, front), Exec(rows, cap, front), run[|run| - 1])
  }

  function DirtyAfter(dirty: set<Code>, s: State, e: Event): set<Code>
    requires s.versions != []
  {
    match e
    case Write(next) => dirty + Changed(Current(s), next)
    case Drop(code) => dirty - {Lower(code)}
    case _ => dirty
  }

  /** Every hit on a code that is not dirty shows the current row. */
  ghost predicate HitsAgree(s: State, dirty: set<Code>)
    requires s.versions != [] && |s.cache.shards| == SHARD_COUNT
  {
    forall code :: Lower(code) !in dirty && Lookup(s.cache, code, s.now).Some? ==>
      Agree(Lookup(s.cache, code, s.now).value.link, Row(Current(s), code))
  }

  /** The row of a load was changed since the load read it. */
  ghost predicate Overtaken(s: State, f: Load)
    requires s.versions != []
  {
    f.version < |s.versions| && !Agree(Row(s.versions[f.version].rows, f.code), Row(Current(s), f.code))
  }

  /** A load that was overtaken lands after the invalidation that came with the change. */
  ghost predicate StaleLanding(s: State, dirty: set<Code>, e: Event)
    requires s.versions != []
  {
    e.Land? && Lower(e.load.code) !in dirty && Overtaken(s, e.load)
  }

  // ------------------------------------------------------------- invariants

  /** Loads under way hold the row of the version they read. */
  ghost predicate LoadsHold(s: State) {
    forall f :: f in s.loads ==>
      f.version < |s.versions| && f.value == Row(s.versions[f.version].rows, f.code)
  }

  /** What is stored of codes that are not dirty is the current row. */
  ghost predicate InStep(c: CacheSpec.Cache<Link>, rows: map<Code, Link>, dirty: set<Code>)
    requires |c.shards| == SHARD_COUNT
  {
    forall code, entry :: Stored(c, code, entry) && code !in dirty ==> Agree(entry.link, At(rows, code))
  }

  ghost predicate StoredAgree(s: State, dirty: set<Code>)
    requires s.versions != []
  {
    s.cache.Valid() && InStep(s.cache, Current(s), dirty)
  }

  lemma ReadHolds(s: State, code: Code)
    requires s.versions != [] && LoadsHold(s)
    ensures LoadsHold(s.(loads := s.loads + {Load(code, Row(Current(s), code), s.now, |s.versions| - 1)}))
  {
  }

  lemma WriteHolds(s: State, v: Version)
    requires LoadsHold(s)
    ensures LoadsHold(s.(versions := s.versions + [v]))
  {
  }

  lemma StepHolds(s: State, e: Event)
    requires s.versions != [] && |s.cache.shards| == SHARD_COUNT && LoadsHold(s)
    ensures LoadsHold(Staleness.Apply(s, e))
  {
    match e
    case Read(code) => ReadHolds(s, code);
    case Write(next) => WriteHolds(s, Version(s.now, next));
    case Tick(_) =>
    case Drop(_) =>
    case Hit(_) =>
    case Land(_) =>
    case Finish(_) =>
  }

  lemma {:induction false} LoadsKeepTheirRow(rows: map<Code, Link>, cap: nat, latency: nat, run: seq<Event>)
    requires Possible(rows, cap, latency, run)
    ensures LoadsHold(Exec(rows, cap, run))
  {
    if run != [] {
      LoadsKeepTheirRow(rows, cap, latency, run[..|run| - 1]);
      StepHolds(Exec(rows, cap, run[..|run| - 1]), run[|run| - 1]);
    }
  }

  lemma WriteKeepsAgreement(s: State, dirty: set<Code>, next: map<Code, Link>)
    requires s.versions != [] && StoredAgree(s, dirty)
    ensures StoredAgree(Staleness.Apply(s, Write(next)), DirtyAfter(dirty, s, Write(next)))
  {
    forall code, entry | Stored(s.cache, code, entry) && code !in dirty + Changed(Current(s), next)
      ensures Agree(entry.link, At(next, code))
    {
      assert Agree(At(Current(s), code), At(next, code));
    }
  }

  lemma CacheOpKeepsAgreement(c: CacheSpec.Cache<Link>, rows: map<Code, Link>, dirty: set<Code>, op: Op<Link>)
    requires c.Valid() && InStep(c, rows, dirty)
    requires op.Put? ==> Lower(op.code) in dirty || Agree(op.entry.link, At(rows, Lower(op.code)))
    ensures CacheSpec.Apply(c, op).Valid()
    ensures InStep(CacheSpec.Apply(c, op), rows, if op.Invalidate? then dirty - {Lower(op.code)} else dirty)
  {
    ApplyKeeps(c, op);
    var d := CacheSpec.Apply(c, op);
    forall code, entry | Stored(d, code, entry) && (code !in dirty || (op.Invalidate? && code == Lower(op.code)))
      ensures Agree(entry.link, At(rows, code))
    {
    }
  }

  lemma CacheStepKeepsAgreement(s: State, dirty: set<Code>, op: Op<Link>)
    requires s.versions != [] && StoredAgree(s, dirty)
    requires op.Put? ==> Lower(op.code) in dirty || Agree(op.entry.link, At(Current(s), Lower(op.code)))
    ensures StoredAgree(s.(cache := CacheSpec.Apply(s.cache, op)),
                        if op.Invalidate? then dirty - {Lower(op.code)} else dirty)
  {
    CacheOpKeepsAgreement(s.cache, Current(s), dirty, op);
  }

  lemma StepKeepsAgreement(s: State, dirty: set<Code>, e: Event, latency: nat)
    requires s.versions != [] && StoredAgree(s, dirty) && LoadsHold(s)
    requires Enabled(s, e, latency) && !StaleLanding(s, dirty, e)
    ensures StoredAgree(Staleness.Apply(s, e), DirtyAfter(dirty, s, e))
  {
    match e
    case Write(next) => WriteKeepsAgreement(s, dirty, next);
    case Drop(code) => CacheStepKeepsAgreement(s, dirty, Invalidate(code));
    case Hit(code) => CacheStepKeepsAgreement(s, dirty, Get(code, s.now));
    case Land(f) => CacheStepKeepsAgreement(s, dirty, Put(f.code, Entry(f.value, s.now + Ttl(f.value))));
    case _ =>
  }

  lemma StoredAgreeingHitsAgree(s: State, dirty: set<Code>)
    requires s.versions != [] && StoredAgree(s, dirty)
    ensures HitsAgree(s, dirty)
  {
    forall code | Lower(code) !in dirty && Lookup(s.cache, code, s.now).Some?
      ensures Agree(Lookup(s.cache, code, s.now).value.link, Row(Current(s), code))
    {
      HitIsStored(s.cache, code, s.now);
    }
  }

  lemma StartAgrees(rows: map<Code, Link>, cap: nat)
    requires 1 <= cap
    ensures StoredAgree(Start(rows, cap), {})
  {
    RunKeepsInv(rows, cap, 0, []);
  }

  /** Up to the first stale landing, if there is one, cache and table agree. */
  lemma {:induction false} AgreesSoFar(rows: map<Code, Link>, cap: nat, latency: nat, run: seq<Event>)
    requires 1 <= cap && Possible(rows, cap, latency, run)
    requires forall i :: 0 <= i < |run| ==> !LandsStale(rows, cap, run, i)
    ensures StoredAgree(Exec(rows, cap, run), Dirty(rows, cap, run))
  {
    if run == [] {
      StartAgrees(rows, cap);
    } else {
      var n := |run| - 1;
      var front := run[..n];
      forall i | 0 <= i < n ensures !LandsStale(rows, cap, front, i) {
        assert front[..i] == run[..i] && !LandsStale(rows, cap, run, i);
      }
      AgreesSoFar(rows, cap, latency, front);
      LoadsKeepTheirRow(rows, cap, latency, front);
      assert !LandsStale(rows, cap, run, n);
      StepKeepsAgreement(Exec(rows, cap, front), Dirty(rows, cap, front), run[n], latency);
    }
  }

  /** Event `i` of the run is a stale landing. */
  ghost predicate LandsStale(rows: map<Code, Link>, cap: nat, run: seq<Event>, i: nat)
    requires i < |run|
  {
    StaleLanding(Exec(rows, cap, run[..i]), Dirty(rows, cap, run[..i]), run[i])
  }

  /** After the first `i` events of the run, every hit shows the current row. */
  ghost predicate AgreesAfter(rows: map<Code, Link>, cap: nat, run: seq<Event>, i: nat)
    requires i <= |run|
  {
    HitsAgree(Exec(rows, cap, run[..i]), Dirty(rows, cap, run[..i]))
  }

  lemma {:induction false} PrefixIsPossible(rows: map<Code, Link>, cap: nat, latency: nat, run: seq<Event>, i: nat)
    requires i <= |run| && Possible(rows, cap, latency, run)
    ensures Possible(rows, cap, latency, run[..i])
    decreases |run|
  {
    if i == |run| {
      assert run[..i] == run;
    } else {
      PrefixIsPossible(rows, cap, latency, run[..|run| - 1], i);
      assert run[..|run| - 1][..i] == run[..i];
    }
  }

  /** A stale landing is seen at once. */
  lemma LandingShows(s: State, dirty: set<Code>, f: Load)
    requires s.versions != [] && |s.cache.shards| == SHARD_COUNT && 1 <= s.cache.cap
    requires f in s.loads && LoadsHold(s) && StaleLanding(s, dirty, Land(f))
    ensures !HitsAgree(Staleness.Apply(s, Land(f)), dirty)
  {
    var t := Staleness.Apply(s, Land(f));
    assert Lookup(t.cache, f.code, t.now) == Some(Entry(f.value, s.now + Ttl(f.value))) by {
      Landed(s, f, s.now);
    }
    assert !Agree(f.value, Row(Current(t), f.code));
  }

  lemma StaleLandingShows(rows: map<Code, Link>, cap: nat, latency: nat, run: seq<Event>, i: nat)
    requires 1 <= cap && Possible(rows, cap, latency, run) && i < |run| && LandsStale(rows, cap, run, i)
    ensures !AgreesAfter(rows, cap, run, i + 1)
  {
    var front, next := run[..i], run[..i + 1];
    PrefixIsPossible(rows, cap, latency, run, i);
    PrefixIsPossible(rows, cap, latency, run, i + 1);
    assert next[..|next| - 1] == front && next[|next| - 1] == run[i];
    CapacityStays(rows, cap, front);
    LoadsKeepTheirRow(rows, cap, latency, front);
    LandingShows(Exec(rows, cap, front), Dirty(rows, cap, front), run[i].load);
  }

  lemma {:induction false} CapacityStays(rows: map<Code, Link>, cap: nat, run: seq<Event>)
    ensures Exec(rows, cap, run).cache.cap == cap
  {
    if run != [] { CapacityStays(rows, cap, run[..|run| - 1]); }
  }

  // -------------------------------------------------------------- theorems

  /**
   In every interleaving, all hits at all times show the current row if and
   only if no load lands whose row was changed, and invalidated, since the
   load read it.
   */
  lemma AgreesIffNoStaleLanding(rows: map<Code, Link>, cap: nat, latency: nat, run: seq<Event>)
    requires 1 <= cap && Possible(rows, cap, latency, run)
    ensures (forall i :: 0 <= i <= |run| ==> AgreesAfter(rows, cap, run, i))
            <==> (forall i :: 0 <= i < |run| ==> !LandsStale(rows, cap, run, i))
  {
    if i :| 0 <= i < |run| && LandsStale(rows, cap, run, i) {
      StaleLandingShows(rows, cap, latency, run, i);
    } else {
      forall i | 0 <= i <= |run| ensures AgreesAfter(rows, cap, run, i) {
        var front := run[..i];
        PrefixIsPossible(rows, cap, latency, run, i);
        forall j | 0 <= j < i ensures !LandsStale(rows, cap, front, j) {
          assert front[..j] == run[..j] && !LandsStale(rows, cap, run, j);
        }
        AgreesSoFar(rows, cap, latency, front);
        StoredAgreeingHitsAgree(Exec(rows, cap, front), Dirty(rows, cap, front));
      }
    }
  }

  /** At no time is a load under way whose row was changed since it was read. */
  ghost predicate NoLoadOverlapsAWrite(rows: map<Code, Link>, cap: nat, run: seq<Event>) {
    forall i, f :: 0 <= i <= |run| && f in Exec(rows, cap, run[..i]).loads ==> !Overtaken(Exec(rows, cap, run[..i]), f)
  }

  lemma NoOverlapNoStaleLanding(rows: map<Code, Link>, cap: nat, latency: nat, run: seq<Event>, i: nat)
    requires Possible(rows, cap, latency, run) && NoLoadOverlapsAWrite(rows, cap, run) && i < |run|
    ensures !LandsStale(rows, cap, run, i)
  {
    PrefixIsPossible(rows, cap, latency, run, i + 1);
    var next := run[..i + 1];
    assert next[..|next| - 1] == run[..i] && next[|next| - 1] == run[i];
  }

  /**
   When no load overlaps a write of its row, every answer, from the cache or
   from a load, is the current row or, if there is none, not-found; loads and
   hits of any number of visitors may overlap each other.
   */
  lemma AnswersAgree(
    rows: map<Code, Link>, cap: nat, latency: nat, run: seq<Event>, code: Code, value: Option<Link>)
    requires 1 <= cap && Possible(rows, cap, latency, run) && NoLoadOverlapsAWrite(rows, cap, run)
    requires Lower(code) !in Dirty(rows, cap, run) && Answers(Exec(rows, cap, run), code, value)
    ensures Agree(value, Row(Current(Exec(rows, cap, run)), code))
  {
    var s := Exec(rows, cap, run);
    assert run[..|run|] == run;
    if f :| f in s.loads && Lower(f.code) == Lower(code) && f.value == value {
      LoadsKeepTheirRow(rows, cap, latency, run);
      assert !Overtaken(s, f);
    } else {
      assert HitsAgree(s, Dirty(rows, cap, run)) by {
        NoOverlapHitsAgree(rows, cap, latency, run);
      }
    }
  }

  lemma NoOverlapHitsAgree(rows: map<Code, Link>, cap: nat, latency: nat, run: seq<Event>)
    requires 1 <= cap && Possible(rows, cap, latency, run) && NoLoadOverlapsAWrite(rows, cap, run)
    ensures HitsAgree(Exec(rows, cap, run), Dirty(rows, cap, run))
  {
    forall i | 0 <= i < |run| ensures !LandsStale(rows, cap, run, i) {
      NoOverlapNoStaleLanding(rows, cap, latency, run, i);
    }
    AgreesSoFar(rows, cap, latency, run);
    StoredAgreeingHitsAgree(Exec(rows, cap, run), Dirty(rows, cap, run));
  }
}

/**
 The writes of the link service: each invalidates every code whose row it
 changes, so once its invalidations are over it leaves no code dirty.
 */
module ServiceWrites {
  import opened Wrappers
  import Lru
  import opened CacheSpec
  import opened Links
  import opened Resolver
  import S = Staleness
  import A = Agreement

  type Code = Lru.Code

  /** The link table by lowercased code. */
  ghost function ByCode(t: Table): map<Code, Link> {
    map c | c in Codes(t) :: Found(t, c)
  }

  function Codes(t: Table): set<Code> {
    set id | id in t :: Lower(t[id].code)
  }

  ghost function Found(t: Table, c: Code): Link
    requires c in Codes(t)
  {
    CodesExist(t, c);
    GetLinkByCode(t, c).value
  }

  lemma CodesExist(t: Table, c: Code)
    requires c in Codes(t)
    ensures GetLinkByCode(t, c).Some?
  {
    var id :| id in t && Lower(t[id].code) == c;
    LowerIdempotent(t[id].code);
    assert HasCode(t, id, c);
  }

  /** The table by code is what lookups see. */
  lemma ByCodeIsLookup(t: Table, code: Code)
    requires WellFormed(t)
    ensures S.Row(ByCode(t), code) == GetLinkByCode(t, code)
  {
    LowerIdempotent(code);
    FoundByAnyCasing(t, code);
    SameKeySameRow(t, code, Lower(code));
    if id :| HasCode(t, id, code) {
      assert Lower(code) in Codes(t);
    } else {
      assert Lower(code) !in Codes(t);
    }
  }

  /** The codes an operation invalidates. */
  ghost function Dropped(s: Svc, op: Op): seq<Code> {
    match op
    case Create(id, _, attempts) =>
      if id !in s.rows && FirstFree(s.rows, attempts).Some? then [FirstFree(s.rows, attempts).value] else []
    case Update(id, patch, valid) =>
      if !UpdateAccepted(s.rows, id, patch, valid) then []
      else
        var before, after := s.rows[id].code, Edited(s.rows[id], patch).code;
        if after != before then [before, after] else [before]
    case Delete(_, code, _) => [code]
    case Restore(_, code) => [code]
    case Purge(_, code) => [code]
    case Resolve(_, _, _) => []
    case Flush(_) => []
  }

  /** The row an operation writes, if it writes one. */
  function Touched(op: Op): Option<string> {
    match op
    case Create(id, _, _) => Some(id)
    case Update(id, _, _) => Some(id)
    case Delete(id, _, _) => Some(id)
    case Restore(id, _) => Some(id)
    case Purge(id, _) => Some(id)
    case Resolve(_, _, _) => None
    case Flush(_) => None
  }

  predicate Names(codes: seq<Code>, c: Code) {
    exists i :: 0 <= i < |codes| && Lower(codes[i]) == Lower(c)
  }

  lemma StaysWellFormed(s: Svc, op: Op)
    requires WellFormed(s.rows) && |s.cache.shards| == SHARD_COUNT && Addressed(s, op)
    ensures WellFormed(Step(s, op).rows)
  {
    var fresh_ := Svc(s.rows, Empty(1));
    assert Coherent(fresh_) && Addressed(fresh_, op);
    StepKeepsCoherence(fresh_, op);
  }

  lemma OneRowWritten(s: Svc, op: Op, id: string)
    requires |s.cache.shards| == SHARD_COUNT && Touched(op) == Some(id)
    ensures var after := Step(s, op).rows;
            forall j :: j != id ==> (j in s.rows <==> j in after) && (j in s.rows ==> s.rows[j] == after[j])
  {
  }

  lemma WrittenCodesAreDropped(s: Svc, op: Op, id: string, c: Code)
    requires WellFormed(s.rows) && |s.cache.shards| == SHARD_COUNT && Addressed(s, op) && Touched(op) == Some(id)
    requires HasCode(s.rows, id, c) || HasCode(Step(s, op).rows, id, c)
    ensures Step(s, op).rows == s.rows || Names(Dropped(s, op), c)
  {
    if Step(s, op).rows != s.rows {
      var codes := Dropped(s, op);
      assert Lower(codes[0]) == Lower(c) || (|codes| == 2 && Lower(codes[1]) == Lower(c));
    }
  }

  lemma CountingChangesNoAnswer(rows: Table, counts: map<string, int>, c: Code)
    requires WellFormed(rows) && WellFormed(AddCounts(rows, counts))
    ensures Agree(GetLinkByCode(rows, c), GetLinkByCode(AddCounts(rows, counts), c))
  {
    FoundByAnyCasing(rows, c);
    FoundByAnyCasing(AddCounts(rows, counts), c);
    if id :| HasCode(rows, id, c) {
      assert HasCode(AddCounts(rows, counts), id, c);
    } else if id :| HasCode(AddCounts(rows, counts), id, c) {
      assert HasCode(rows, id, c);
    }
  }

  /** A lookup whose answer an operation changes is for a code the operation invalidates. */
  lemma ChangedAnswersAreDropped(s: Svc, op: Op, c: Code)
    requires WellFormed(s.rows) && |s.cache.shards| == SHARD_COUNT && Addressed(s, op)
    requires !Agree(GetLinkByCode(s.rows, c), GetLinkByCode(Step(s, op).rows, c))
    ensures Names(Dropped(s, op), c)
  {
    StaysWellFormed(s, op);
    if op.Flush? {
      CountingChangesNoAnswer(s.rows, op.counts, c);
    } else if Touched(op).Some? {
      var id := Touched(op).value;
      OneRowWritten(s, op, id);
      if !HasCode(s.rows, id, c) && !HasCode(Step(s, op).rows, id, c) {
        OtherCodesUnchanged(s.rows, Step(s, op).rows, id, c);
      } else {
        WrittenCodesAreDropped(s, op, id, c);
      }
    }
  }

  /** A run followed by the events of an operation: its write, then its invalidations. */
  ghost function Then(run: seq<S.Event>, s: Svc, op: Op): seq<S.Event>
    requires |s.cache.shards| == SHARD_COUNT
  {
    (run + [S.Write(ByCode(Step(s, op).rows))]) + Drops(Dropped(s, op))
  }

  function Drops(codes: seq<Code>): (es: seq<S.Event>)
    ensures |es| == |codes| && forall i :: 0 <= i < |es| ==> es[i] == S.Drop(codes[i])
  {
    seq(|codes|, i requires 0 <= i < |codes| => S.Drop(codes[i]))
  }

  lemma OneMoreEvent(rows: map<Code, Link>, cap: nat, run: seq<S.Event>, e: S.Event)
    ensures S.Exec(rows, cap, run + [e]) == S.Apply(S.Exec(rows, cap, run), e)
    ensures A.Dirty(rows, cap, run + [e]) ==
            A.DirtyAfter(A.Dirty(rows, cap, run), S.Exec(rows, cap, run), e)
  {
    var all := run + [e];
    assert all[..|all| - 1] == run && all[|all| - 1] == e;
  }

  predicate Clears(codes: seq<Code>, c: Code) {
    exists i :: 0 <= i < |codes| && Lower(codes[i]) == c
  }

  lemma FirstDropOut(run: seq<S.Event>, codes: seq<Code>)
    requires codes != []
    ensures run + Drops(codes) == (run + [S.Drop(codes[0])]) + Drops(codes[1..])
  {
  }

  /** Invalidations leave the table as it is and clean their codes. */
  lemma {:induction false} DropsClean(rows: map<Code, Link>, cap: nat, run: seq<S.Event>, codes: seq<Code>)
    ensures S.Exec(rows, cap, run + Drops(codes)).versions == S.Exec(rows, cap, run).versions
    ensures forall c :: c in A.Dirty(rows, cap, run + Drops(codes)) ==>
              c in A.Dirty(rows, cap, run) && !Clears(codes, c)
    decreases |codes|
  {
    if codes == [] {
      assert run + Drops(codes) == run;
    } else {
      var next := run + [S.Drop(codes[0])];
      FirstDropOut(run, codes);
      DropsClean(rows, cap, next, codes[1..]);
      assert S.Exec(rows, cap, next).versions == S.Exec(rows, cap, run).versions
             && A.Dirty(rows, cap, next) == A.Dirty(rows, cap, run) - {Lower(codes[0])} by {
        OneMoreEvent(rows, cap, run, S.Drop(codes[0]));
      }
      forall c | c in A.Dirty(rows, cap, run + Drops(codes)) ensures !Clears(codes, c) {
        NotAmong(codes, c);
      }
    }
  }

  lemma NotAmong(codes: seq<Code>, c: Code)
    requires codes != [] && Lower(codes[0]) != c && !Clears(codes[1..], c)
    ensures !Clears(codes, c)
  {
    forall i | 0 <= i < |codes| ensures Lower(codes[i]) != c {
      if i > 0 { assert codes[1..][i - 1] == codes[i]; }
    }
  }

  lemma ChangedCodesAreNamed(s: Svc, op: Op, c: Code)
    requires WellFormed(s.rows) && |s.cache.shards| == SHARD_COUNT && Addressed(s, op)
    requires c in A.Changed(ByCode(s.rows), ByCode(Step(s, op).rows))
    ensures Lower(c) == c && Names(Dropped(s, op), c)
  {
    var after := Step(s, op).rows;
    StaysWellFormed(s, op);
    if id :| id in s.rows && Lower(s.rows[id].code) == c {
      LowerIdempotent(s.rows[id].code);
    } else {
      var id :| id in after && Lower(after[id].code) == c;
      LowerIdempotent(after[id].code);
    }
    ByCodeIsLookup(s.rows, c);
    ByCodeIsLookup(after, c);
    ChangedAnswersAreDropped(s, op, c);
  }

  /**
   Whatever was dirty before, an operation of the link service adds nothing to
   it once its invalidations are over. So runs in which all writes are such
   operations have no dirty codes outside of them.
   */
  lemma OperationsLeaveNothingDirty(rows: map<Code, Link>, cap: nat, run: seq<S.Event>, s: Svc, op: Op)
    requires WellFormed(s.rows) && |s.cache.shards| == SHARD_COUNT && Addressed(s, op)
    requires S.Current(S.Exec(rows, cap, run)) == ByCode(s.rows)
    ensures WellFormed(Step(s, op).rows)
    ensures A.Dirty(rows, cap, Then(run, s, op)) <= A.Dirty(rows, cap, run)
    ensures S.Current(S.Exec(rows, cap, Then(run, s, op))) == ByCode(Step(s, op).rows)
  {
    StaysWellFormed(s, op);
    ChangedCodesAreCleared(s, op);
    WriteThenDrops(rows, cap, run, ByCode(Step(s, op).rows), Dropped(s, op));
  }

  lemma WriteThenDrops(
    rows: map<Code, Link>, cap: nat, run: seq<S.Event>, next: map<Code, Link>, codes: seq<Code>)
    requires forall c :: c in A.Changed(S.Current(S.Exec(rows, cap, run)), next) ==> Clears(codes, c)
    ensures var all := (run + [S.Write(next)]) + Drops(codes);
            && S.Current(S.Exec(rows, cap, all)) == next
            && A.Dirty(rows, cap, all) <= A.Dirty(rows, cap, run)
  {
    var written := run + [S.Write(next)];
    WriteDirties(rows, cap, run, next);
    DropsClean(rows, cap, written, codes);
  }

  lemma WriteDirties(rows: map<Code, Link>, cap: nat, run: seq<S.Event>, next: map<Code, Link>)
    ensures var written := run + [S.Write(next)];
            && S.Current(S.Exec(rows, cap, written)) == next
            && forall c :: c in A.Dirty(rows, cap, written) ==>
                 c in A.Dirty(rows, cap, run) || c in A.Changed(S.Current(S.Exec(rows, cap, run)), next)
  {
    OneMoreEvent(rows, cap, run, S.Write(next));
  }

  lemma ChangedCodesAreCleared(s: Svc, op: Op)
    requires WellFormed(s.rows) && |s.cache.shards| == SHARD_COUNT && Addressed(s, op)
    ensures forall c :: c in A.Changed(ByCode(s.rows), ByCode(Step(s, op).rows)) ==> Clears(Dropped(s, op), c)
  {
    var codes := Dropped(s, op);
    forall c | c in A.Changed(ByCode(s.rows), ByCode(Step(s, op).rows)) ensures Clears(codes, c) {
      ChangedCodesAreNamed(s, op, c);
      var i :| 0 <= i < |codes| && Lower(codes[i]) == Lower(c);
    }
  }
}
