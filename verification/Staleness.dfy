/**
 How old an answer of the redirect resolver can be when lookups, loads,
 invalidations and writes interleave freely.

 A load reads the row at one moment and puts it into the cache at a later one;
 between the two, other requests may write the row and invalidate the cache.
 The only thing assumed of a load is that it ends within `latency`.
 */
module Staleness {
  import opened Wrappers
  import opened Lru
  import opened CacheSpec
  import Cache
  import opened Links

  /** The link table, by lowercased code, from `since` until the next version. */
  datatype Version = Version(since: int, rows: map<Code, Link>)

  /** A load that has read the table, at some version of it, and whose answer is still being handed out. */
  datatype Load = Load(code: Code, value: Option<Link>, readAt: int, version: nat)

  datatype State = State(now: int, versions: seq<Version>, cache: CacheSpec.Cache<Link>, loads: set<Load>)

  datatype Event =
    | Tick(delay: nat)
    | Write(rows: map<Code, Link>)
    | Drop(dropped: Code)
    | Hit(looked: Code)
    | Read(wanted: Code)
    | Land(load: Load)
    | Finish(done: Load)

  function Ttl(value: Option<Link>): int {
    if value.Some? then Cache.DEFAULT_TTL else Cache.NEGATIVE_TTL
  }

  function Row(rows: map<Code, Link>, code: Code): Option<Link> {
    if Lower(code) in rows then Some(rows[Lower(code)]) else None
  }

  function Current(s: State): map<Code, Link>
    requires s.versions != []
  {
    s.versions[|s.versions| - 1].rows
  }

  ghost predicate Enabled(s: State, e: Event, latency: nat) {
    match e
    case Tick(d) => forall f :: f in s.loads ==> s.now + d <= f.readAt + latency
    case Land(f) => f in s.loads
    case Finish(f) => f in s.loads
    case _ => true
  }

  function Apply(s: State, e: Event): (t: State)
    requires s.versions != [] && |s.cache.shards| == SHARD_COUNT
    ensures t.versions != [] && |t.cache.shards| == SHARD_COUNT
  {
    match e
    case Tick(d) => s.(now := s.now + d)
    case Write(rows) => s.(versions := s.versions + [Version(s.now, rows)])
    case Drop(code) => s.(cache := CacheSpec.Apply(s.cache, Invalidate(code)))
    case Hit(code) => s.(cache := CacheSpec.Apply(s.cache, Get(code, s.now)))
    case Read(code) => s.(loads := s.loads + {Load(code, Row(Current(s), code), s.now, |s.versions| - 1)})
    case Land(f) => s.(cache := CacheSpec.Apply(s.cache, Put(f.code, Entry(f.value, s.now + Ttl(f.value)))))
    case Finish(f) => s.(loads := s.loads - {f})
  }

  function Start(rows: map<Code, Link>, cap: nat): State {
    State(0, [Version(0, rows)], Empty(cap), {})
  }

  function Exec(rows: map<Code, Link>, cap: nat, run: seq<Event>): (s: State)
    ensures s.versions != [] && |s.cache.shards| == SHARD_COUNT
  {
    if run == [] then Start(rows, cap) else Apply(Exec(rows, cap, run[..|run| - 1]), run[|run| - 1])
  }

  ghost predicate Possible(rows: map<Code, Link>, cap: nat, latency: nat, run: seq<Event>) {
    run == [] || (
      && Possible(rows, cap, latency, run[..|run| - 1])
      && Enabled(Exec(rows, cap, run[..|run| - 1]), run[|run| - 1], latency))
  }

  /** What a visitor may be told right now: a cache hit or the result of a load under way. */
  ghost predicate Answers(s: State, code: Code, value: Option<Link>)
    requires |s.cache.shards| == SHARD_COUNT
  {
    || (Lookup(s.cache, code, s.now).Some? && Lookup(s.cache, code, s.now).value.link == value)
    || (exists f :: f in s.loads && Lower(f.code) == Lower(code) && f.value == value)
  }

  /** Version `v` of the table was in force at moment `t`. */
  ghost predicate InForce(versions: seq<Version>, v: int, t: int) {
    && 0 <= v < |versions| && versions[v].since <= t
    && (v + 1 < |versions| ==> t <= versions[v + 1].since)
  }

  /** At moment `t` the table held `value` under the code. */
  ghost predicate TrueAt(versions: seq<Version>, code: Code, value: Option<Link>, t: int) {
    exists v :: InForce(versions, v, t) && Row(versions[v].rows, code) == value
  }

  ghost predicate TrueWithin(s: State, code: Code, value: Option<Link>, from: int, to: int) {
    exists t :: from <= t <= to && t <= s.now && TrueAt(s.versions, code, value, t)
  }

  // ------------------------------------------------------------- invariant

  ghost predicate Inv(s: State, latency: nat) {
    && s.versions != [] && s.cache.Valid()
    && s.versions[|s.versions| - 1].since <= s.now
    && (forall f :: f in s.loads ==>
          f.readAt <= s.now <= f.readAt + latency && TrueAt(s.versions, f.code, f.value, f.readAt))
    && (forall code, entry :: Stored(s.cache, code, entry) ==> Witnessed(s, code, entry, latency))
  }

  /** An entry landed no more than `latency` after a moment at which it was true. */
  ghost predicate Witnessed(s: State, code: Code, entry: Entry<Link>, latency: nat) {
    var landed := entry.expires - Ttl(entry.link);
    landed <= s.now && TrueWithin(s, code, entry.link, landed - latency, landed)
  }

  lemma TrueAtIsStable(versions: seq<Version>, next: Version, code: Code, value: Option<Link>, t: int)
    requires TrueAt(versions, code, value, t) && t <= next.since
    ensures TrueAt(versions + [next], code, value, t)
  {
    var v :| InForce(versions, v, t) && Row(versions[v].rows, code) == value;
    assert InForce(versions + [next], v, t);
  }

  lemma WriteKeepsInv(s: State, rows: map<Code, Link>, latency: nat)
    requires Inv(s, latency)
    ensures Inv(Apply(s, Write(rows)), latency)
  {
    var t, next := Apply(s, Write(rows)), Version(s.now, rows);
    forall f | f in s.loads ensures TrueAt(t.versions, f.code, f.value, f.readAt) {
      TrueAtIsStable(s.versions, next, f.code, f.value, f.readAt);
    }
    forall code, entry | Stored(s.cache, code, entry) ensures Witnessed(t, code, entry, latency) {
      assert Witnessed(s, code, entry, latency);
      var landed := entry.expires - Ttl(entry.link);
      var m :| landed - latency <= m <= landed && m <= s.now && TrueAt(s.versions, code, entry.link, m);
      TrueAtIsStable(s.versions, next, code, entry.link, m);
    }
  }

  lemma CacheOpKeepsInv(s: State, op: Op<Link>, latency: nat)
    requires Inv(s, latency)
    requires op.Put? ==> Witnessed(s, Lower(op.code), op.entry, latency)
    ensures Inv(s.(cache := CacheSpec.Apply(s.cache, op)), latency)
  {
    ApplyKeeps(s.cache, op);
    var t := s.(cache := CacheSpec.Apply(s.cache, op));
    forall code, entry | Stored(t.cache, code, entry) ensures Witnessed(t, code, entry, latency) {
      assert Witnessed(s, code, entry, latency);
    }
  }

  lemma TickKeepsInv(s: State, d: nat, latency: nat)
    requires Inv(s, latency) && Enabled(s, Tick(d), latency)
    ensures Inv(Apply(s, Tick(d)), latency)
  {
    var t := Apply(s, Tick(d));
    forall code, entry | Stored(t.cache, code, entry) ensures Witnessed(t, code, entry, latency) {
      assert Stored(s.cache, code, entry);
      assert Witnessed(s, code, entry, latency);
    }
  }

  lemma ReadIsTrueNow(s: State, code: Code)
    requires s.versions != [] && s.versions[|s.versions| - 1].since <= s.now
    ensures TrueAt(s.versions, code, Row(Current(s), code), s.now)
  {
    assert InForce(s.versions, |s.versions| - 1, s.now);
  }

  lemma RowIgnoresCase(versions: seq<Version>, a: Code, b: Code, value: Option<Link>, t: int)
    requires Lower(a) == Lower(b) && TrueAt(versions, a, value, t)
    ensures TrueAt(versions, b, value, t)
  {
  }

  lemma LandKeepsInv(s: State, f: Load, latency: nat)
    requires Inv(s, latency) && f in s.loads
    ensures Inv(Apply(s, Land(f)), latency)
  {
    var entry := Entry(f.value, s.now + Ttl(f.value));
    assert Witnessed(s, Lower(f.code), entry, latency) by {
      LowerIdempotent(f.code);
      RowIgnoresCase(s.versions, f.code, Lower(f.code), f.value, f.readAt);
    }
    CacheOpKeepsInv(s, Put(f.code, entry), latency);
    assert Apply(s, Land(f)) == s.(cache := CacheSpec.Apply(s.cache, Put(f.code, entry)));
  }

  lemma StepKeepsInv(s: State, e: Event, latency: nat)
    requires Inv(s, latency) && Enabled(s, e, latency)
    ensures Inv(Apply(s, e), latency)
  {
    match e
    case Tick(d) => TickKeepsInv(s, d, latency);
    case Write(rows) => WriteKeepsInv(s, rows, latency);
    case Drop(code) => CacheOpKeepsInv(s, Invalidate(code), latency);
    case Hit(code) => CacheOpKeepsInv(s, Get(code, s.now), latency);
    case Read(code) => ReadIsTrueNow(s, code);
    case Finish(f) =>
    case Land(f) => LandKeepsInv(s, f, latency);
  }

  lemma {:induction false} RunKeepsInv(rows: map<Code, Link>, cap: nat, latency: nat, run: seq<Event>)
    requires 1 <= cap && Possible(rows, cap, latency, run)
    ensures Inv(Exec(rows, cap, run), latency)
  {
    if run != [] {
      RunKeepsInv(rows, cap, latency, run[..|run| - 1]);
      StepKeepsInv(Exec(rows, cap, run[..|run| - 1]), run[|run| - 1], latency);
    }
  }

  // -------------------------------------------------------------- theorems

  /**
   In every interleaving, an answer given now was true at some moment no more
   than its time to live plus the load latency ago.
   */
  lemma BoundedStaleness(
    rows: map<Code, Link>, cap: nat, latency: nat, run: seq<Event>, code: Code, value: Option<Link>)
    requires 1 <= cap && Possible(rows, cap, latency, run)
    requires Answers(Exec(rows, cap, run), code, value)
    ensures var s := Exec(rows, cap, run);
            var lifetime := if value.Some? then 300_000_000_000 else 60_000_000_000;
            TrueWithin(s, code, value, s.now - (lifetime + latency), s.now)
  {
    var s := Exec(rows, cap, run);
    RunKeepsInv(rows, cap, latency, run);
    if Lookup(s.cache, code, s.now).Some? && Lookup(s.cache, code, s.now).value.link == value {
      var entry := Lookup(s.cache, code, s.now).value;
      HitIsStored(s.cache, code, s.now);
      assert Witnessed(s, Lower(code), entry, latency);
      var landed := entry.expires - Ttl(value);
      var m :| landed - latency <= m <= landed && m <= s.now && TrueAt(s.versions, Lower(code), value, m);
      LowerIdempotent(code);
      RowIgnoresCase(s.versions, Lower(code), code, value, m);
    } else {
      var f :| f in s.loads && Lower(f.code) == Lower(code) && f.value == value;
      RowIgnoresCase(s.versions, f.code, code, value, f.readAt);
    }
  }

  /** The run in which a load overlaps a write: it puts the old row after the invalidation. */
  function OverlappingRun(code: Code, before: Link, after: Link, latency: nat): seq<Event> {
    var load := Load(code, Some(before), 0, 0);
    [Read(code), Write(map[Lower(code) := after]), Drop(code), Tick(latency), Land(load), Finish(load),
     Tick(Cache.DEFAULT_TTL)]
  }

  /**
   Invalidation after the write does not make the cache agree with the store:
   the bound above is reached. The row answered stopped being true exactly
   `latency` plus the time to live earlier, for every latency.
   */
  lemma StalenessBoundIsReached(cap: nat, latency: nat, code: Code, before: Link, after: Link)
    requires 1 <= cap && before != after
    ensures var rows, run := map[Lower(code) := before], OverlappingRun(code, before, after, latency);
            var s := Exec(rows, cap, run);
            && Possible(rows, cap, latency, run)
            && Answers(s, code, Some(before))
            && Row(Current(s), code) == Some(after)
            && forall t :: t > s.now - (300_000_000_000 + latency) ==> !TrueAt(s.versions, code, Some(before), t)
  {
    var rows := map[Lower(code) := before];
    var run := OverlappingRun(code, before, after, latency);
    OverlapState(cap, latency, code, before, after);
    var s := Exec(rows, cap, run);
    assert s.versions == [Version(0, rows), Version(0, map[Lower(code) := after])];
  }

  lemma OverlapState(cap: nat, latency: nat, code: Code, before: Link, after: Link)
    requires 1 <= cap
    ensures var rows, run := map[Lower(code) := before], OverlappingRun(code, before, after, latency);
            var s := Exec(rows, cap, run);
            && Possible(rows, cap, latency, run)
            && s.now == latency + Cache.DEFAULT_TTL
            && s.versions == [Version(0, rows), Version(0, map[Lower(code) := after])]
            && Lookup(s.cache, code, s.now) == Some(Entry(Some(before), s.now))
  {
    var rows, f := map[Lower(code) := before], Load(code, Some(before), 0, 0);
    var all := OverlappingRun(code, before, after, latency);
    var s4 := LoadOverWrite(rows, map[Lower(code) := after], cap, latency, all, f);
    LandAndAge(rows, cap, latency, all, s4, f);
    assert all[..7] == all;
  }

  /** The first half: the load reads the old row, and the write and its invalidation pass. */
  lemma LoadOverWrite(
    rows: map<Code, Link>, next: map<Code, Link>, cap: nat, latency: nat, all: seq<Event>, f: Load)
    returns (s: State)
    requires 1 <= cap && |all| == 7 && f.value == Row(rows, f.code) && f.readAt == 0 && f.version == 0
    requires all[0] == Read(f.code) && all[1] == Write(next) && all[2] == Drop(f.code) && all[3] == Tick(latency)
    ensures Possible(rows, cap, latency, all[..4]) && s == Exec(rows, cap, all[..4])
    ensures s.now == latency && s.loads == {f} && s.versions == [Version(0, rows), Version(0, next)]
    ensures s.cache.cap == cap
  {
    assert all[..0] == [];
    var s1 := Extend(rows, cap, latency, all, 0, Start(rows, cap));
    assert s1.loads == {f};
    var s2 := Extend(rows, cap, latency, all, 1, s1);
    var s3 := Extend(rows, cap, latency, all, 2, s2);
    s := Extend(rows, cap, latency, all, 3, s3);
  }

  /** The second half: the load lands, ends, and its entry ages. */
  lemma LandAndAge(rows: map<Code, Link>, cap: nat, latency: nat, all: seq<Event>, s4: State, f: Load)
    requires 1 <= cap && |all| == 7 && f.value.Some?
    requires all[4] == Land(f) && all[5] == Finish(f) && all[6] == Tick(Cache.DEFAULT_TTL)
    requires Possible(rows, cap, latency, all[..4]) && s4 == Exec(rows, cap, all[..4])
    requires s4.loads == {f} && s4.cache.cap == cap
    ensures Possible(rows, cap, latency, all[..7])
    ensures var s := Exec(rows, cap, all[..7]);
            && s.now == s4.now + Cache.DEFAULT_TTL && s.versions == s4.versions
            && Lookup(s.cache, f.code, s.now) == Some(Entry(f.value, s.now))
  {
    var s5 := Extend(rows, cap, latency, all, 4, s4);
    Landed(s4, f, s4.now + Cache.DEFAULT_TTL);
    FinishAndAge(rows, cap, latency, all, s5, f);
  }

  lemma FinishAndAge(rows: map<Code, Link>, cap: nat, latency: nat, all: seq<Event>, s5: State, f: Load)
    requires |all| == 7 && all[5] == Finish(f) && all[6] == Tick(Cache.DEFAULT_TTL)
    requires Possible(rows, cap, latency, all[..5]) && s5 == Exec(rows, cap, all[..5]) && s5.loads == {f}
    ensures Possible(rows, cap, latency, all[..7])
    ensures Exec(rows, cap, all[..7]) == s5.(loads := {}, now := s5.now + Cache.DEFAULT_TTL)
  {
    var s6 := Extend(rows, cap, latency, all, 5, s5);
    assert s6.loads == {};
    var s7 := Extend(rows, cap, latency, all, 6, s6);
  }

  lemma Landed(s: State, f: Load, now: int)
    requires s.versions != [] && |s.cache.shards| == SHARD_COUNT && 1 <= s.cache.cap && now <= s.now + Ttl(f.value)
    ensures Lookup(Apply(s, Land(f)).cache, f.code, now) == Some(Entry(f.value, s.now + Ttl(f.value)))
    ensures Apply(s, Land(f)).now == s.now && Apply(s, Land(f)).versions == s.versions
  {
    var entry := Entry(f.value, s.now + Ttl(f.value));
    PutThenGet(s.cache, f.code, f.code, entry, now);
    assert Apply(s, Land(f)) == s.(cache := CacheSpec.Apply(s.cache, Put(f.code, entry)));
  }

  /** One more event of a concrete run. */
  lemma Extend(rows: map<Code, Link>, cap: nat, latency: nat, run: seq<Event>, i: nat, s: State) returns (t: State)
    requires i < |run| && Possible(rows, cap, latency, run[..i]) && Exec(rows, cap, run[..i]) == s
    requires Enabled(s, run[i], latency)
    ensures t == Exec(rows, cap, run[..i + 1]) && Possible(rows, cap, latency, run[..i + 1])
    ensures s.versions != [] && |s.cache.shards| == SHARD_COUNT && t == Apply(s, run[i])
  {
    var next := run[..i + 1];
    assert next[..|next| - 1] == run[..i] && next[|next| - 1] == run[i];
    t := Exec(rows, cap, next);
  }
}
