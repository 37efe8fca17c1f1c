/**
 The link service as a function of its requests, one at a time: the link
 table, the cache in front of it, and the rule that every change to a link is
 stored first and invalidated second.
 */
module Resolver {
  import opened Wrappers
  import opened Lru
  import opened CacheSpec
  import opened Links
  import Cache

  /** The links table, by id. */
  type Table = map<string, Link>

  datatype Svc = Svc(rows: Table, cache: CacheSpec.Cache<Link>)

  /** The fields of an edit request; an absent field leaves the link as it is. */
  datatype Patch = Patch(
    code: Option<Code>,
    targetUrl: Option<string>,
    title: Option<string>,
    status: Option<Status>,
    redirectStatus: Option<int>,
    passwordHash: Option<Option<string>>,
    expiresAt: Option<Option<int>>,
    maxClicks: Option<Option<int>>)

  datatype Op =
    | Resolve(code: Code, now: int, landed: int)
    | Create(id: string, details: Details, attempts: seq<Option<Code>>)
    | Update(target: string, patch: Patch, valid: bool)
    | Delete(gone: string, goneCode: Code, at: int)
    | Purge(purged: string, purgedCode: Code)
    | Restore(restored: string, restoredCode: Code)
    | Flush(counts: map<string, int>)

  // ------------------------------------------------------------- the table

  /** Ids are keys and codes are unique up to letter case. */
  ghost predicate WellFormed(rows: Table) {
    && (forall id :: id in rows ==> rows[id].id == id)
    && (forall i, j :: i in rows && j in rows && Lower(rows[i].code) == Lower(rows[j].code) ==> i == j)
  }

  ghost predicate HasCode(rows: Table, id: string, code: Code) {
    id in rows && Lower(rows[id].code) == Lower(code)
  }

  ghost predicate CodeExists(rows: Table, code: Code) {
    exists id :: HasCode(rows, id, code)
  }

  /** The exact code first, then the code in any casing. */
  ghost function GetLinkByCode(rows: Table, code: Code): Option<Link> {
    if exists id :: id in rows && rows[id].code == code then
      var id :| id in rows && rows[id].code == code;
      Some(rows[id])
    else if CodeExists(rows, code) then
      var id :| HasCode(rows, id, code);
      Some(rows[id])
    else None
  }

  /** The two queries together find the one row with the code in any casing. */
  lemma FoundByAnyCasing(rows: Table, code: Code)
    requires WellFormed(rows)
    ensures GetLinkByCode(rows, code).None? <==> !CodeExists(rows, code)
    ensures forall id :: HasCode(rows, id, code) ==> GetLinkByCode(rows, code) == Some(rows[id])
  {
    if id :| id in rows && rows[id].code == code { assert HasCode(rows, id, code); }
  }

  /** The one row whose code is the code asked for but for the case of letters, or nothing if there is none. */
  lemma FoundButForCase(rows: Table, code: Code)
    requires WellFormed(rows)
    ensures GetLinkByCode(rows, code).None? <==> forall id :: id in rows ==> !SameButForCase(rows[id].code, code)
    ensures forall id :: id in rows && SameButForCase(rows[id].code, code) ==>
              GetLinkByCode(rows, code) == Some(rows[id])
  {
    FoundByAnyCasing(rows, code);
    forall id | id in rows ensures HasCode(rows, id, code) <==> SameButForCase(rows[id].code, code) {
      SameKeyIffSameButForCase(rows[id].code, code);
    }
  }

  lemma CasingDoesNotMatter(rows: Table, a: Code, b: Code)
    requires WellFormed(rows) && SameButForCase(a, b)
    ensures GetLinkByCode(rows, a) == GetLinkByCode(rows, b)
  {
    SameKeyIffSameButForCase(a, b);
    SameKeySameRow(rows, a, b);
  }

  lemma SameKeySameRow(rows: Table, a: Code, b: Code)
    requires WellFormed(rows) && Lower(a) == Lower(b)
    ensures GetLinkByCode(rows, a) == GetLinkByCode(rows, b)
  {
    FoundByAnyCasing(rows, a);
    FoundByAnyCasing(rows, b);
    if id :| HasCode(rows, id, a) { assert HasCode(rows, id, b); }
    if id :| HasCode(rows, id, b) { assert HasCode(rows, id, a); }
  }

  function Or<T>(field: Option<T>, old_: T): T {
    if field.Some? then field.value else old_
  }

  function Merge(d: Details, p: Patch): Details {
    Details(Or(p.targetUrl, d.targetUrl), Or(p.title, d.title), d.userId, Or(p.status, d.status),
            Or(p.redirectStatus, d.redirectStatus), Or(p.passwordHash, d.passwordHash),
            Or(p.expiresAt, d.expiresAt), Or(p.maxClicks, d.maxClicks))
  }

  function Edited(l: Link, patch: Patch): Link {
    l.(code := Or(patch.code, l.code), details := Merge(l.details, patch))
  }

  /** What an edit leaves of a link, field by field: what the patch names is the patch's, all else is as it was. */
  predicate Takes(before: Link, p: Patch, after: Link) {
    && after.code == (if p.code.Some? then p.code.value else before.code)
    && after.details.targetUrl == (if p.targetUrl.Some? then p.targetUrl.value else before.details.targetUrl)
    && after.details.title == (if p.title.Some? then p.title.value else before.details.title)
    && after.details.status == (if p.status.Some? then p.status.value else before.details.status)
    && after.details.redirectStatus ==
       (if p.redirectStatus.Some? then p.redirectStatus.value else before.details.redirectStatus)
    && after.details.passwordHash ==
       (if p.passwordHash.Some? then p.passwordHash.value else before.details.passwordHash)
    && after.details.expiresAt == (if p.expiresAt.Some? then p.expiresAt.value else before.details.expiresAt)
    && after.details.maxClicks == (if p.maxClicks.Some? then p.maxClicks.value else before.details.maxClicks)
    && after.id == before.id && after.details.userId == before.details.userId
    && after.clickCount == before.clickCount && after.deletedAt == before.deletedAt
  }

  /** The same rows but for the one named. */
  ghost predicate OthersStay(rows: Table, after: Table, id: string) {
    forall j :: j != id ==> (j in rows <==> j in after) && (j in rows ==> after[j] == rows[j])
  }

  function Marked(rows: Table, id: string, deletedAt: Option<int>): Table {
    if id in rows then rows[id := rows[id].(deletedAt := deletedAt)] else rows
  }

  /** The first code tried that the unique index accepts; an attempt that hits a reserved word tries none. */
  ghost function FirstFree(rows: Table, attempts: seq<Option<Code>>): Option<Code> {
    if attempts == [] then None
    else if attempts[0].None? || CodeExists(rows, attempts[0].value) then FirstFree(rows, attempts[1..])
    else attempts[0]
  }

  function AddCounts(rows: Table, counts: map<string, int>): Table {
    map id | id in rows ::
      if id in counts then rows[id].(clickCount := rows[id].clickCount + counts[id]) else rows[id]
  }

  // ------------------------------------------------------------- the steps

  function Invalidated(c: CacheSpec.Cache<Link>, code: Code): CacheSpec.Cache<Link>
    requires |c.shards| == SHARD_COUNT
  {
    CacheSpec.Apply(c, Invalidate(code))
  }

  /** A lookup at `now`; on a miss the row is read and put into the cache at `landed`. */
  ghost function ResolveStep(s: Svc, code: Code, now: int, landed: int): (Svc, Option<Link>)
    requires |s.cache.shards| == SHARD_COUNT
  {
    var cache := CacheSpec.Apply(s.cache, Get(code, now));
    match Lookup(s.cache, code, now)
    case Some(entry) => (Svc(s.rows, cache), entry.link)
    case None => (Svc(s.rows, Loaded(cache, code, GetLinkByCode(s.rows, code), landed)), GetLinkByCode(s.rows, code))
  }

  /** The cache after a load has put its answer, under the row's own code when there is a row. */
  function Loaded(c: CacheSpec.Cache<Link>, code: Code, found: Option<Link>, landed: int): CacheSpec.Cache<Link>
    requires |c.shards| == SHARD_COUNT
  {
    match found
    case None => CacheSpec.Apply(c, Put(code, Entry(None, landed + Cache.NEGATIVE_TTL)))
    case Some(l) => CacheSpec.Apply(c, Put(l.code, Entry(Some(l), landed + Cache.DEFAULT_TTL)))
  }

  ghost function CreateStep(s: Svc, id: string, details: Details, attempts: seq<Option<Code>>): Svc
    requires |s.cache.shards| == SHARD_COUNT
  {
    match FirstFree(s.rows, attempts)
    case None => s
    case Some(code) =>
      if id in s.rows then s
      else Svc(s.rows[id := Link(id, code, details, 0, None)], Invalidated(s.cache, code))
  }

  /** The edit is refused when another request field is invalid or the new code exists. */
  ghost predicate UpdateAccepted(rows: Table, id: string, patch: Patch, valid: bool) {
    && id in rows && valid
    && (patch.code.Some? && patch.code.value != rows[id].code ==> !CodeExists(rows, patch.code.value))
  }

  ghost function UpdateStep(s: Svc, id: string, patch: Patch, valid: bool): Svc
    requires |s.cache.shards| == SHARD_COUNT
  {
    if !UpdateAccepted(s.rows, id, patch, valid) then s
    else
      var edited := Edited(s.rows[id], patch);
      Svc(s.rows[id := edited], BothInvalidated(s.cache, s.rows[id].code, edited.code))
  }

  /** The old code is invalidated, and the new one when it differs. */
  function BothInvalidated(c: CacheSpec.Cache<Link>, before: Code, after: Code): CacheSpec.Cache<Link>
    requires |c.shards| == SHARD_COUNT
  {
    var d := Invalidated(c, before);
    if after != before then Invalidated(d, after) else d
  }

  function PurgeStep(s: Svc, id: string, code: Code): Svc
    requires |s.cache.shards| == SHARD_COUNT
  {
    Svc(s.rows - {id}, Invalidated(s.cache, code))
  }

  function MarkStep(s: Svc, id: string, code: Code, deletedAt: Option<int>): Svc
    requires |s.cache.shards| == SHARD_COUNT
  {
    Svc(Marked(s.rows, id, deletedAt), Invalidated(s.cache, code))
  }

  ghost function Step(s: Svc, op: Op): (t: Svc)
    requires |s.cache.shards| == SHARD_COUNT
    ensures |t.cache.shards| == SHARD_COUNT
  {
    match op
    case Resolve(code, now, landed) => ResolveStep(s, code, now, landed).0
    case Create(id, details, attempts) => CreateStep(s, id, details, attempts)
    case Update(id, patch, valid) => UpdateStep(s, id, patch, valid)
    case Delete(id, code, at) => MarkStep(s, id, code, Some(at))
    case Restore(id, code) => MarkStep(s, id, code, None)
    case Purge(id, code) => PurgeStep(s, id, code)
    case Flush(counts) => s.(rows := AddCounts(s.rows, counts))
  }

  /** Callers name a link by its id together with its present code. */
  ghost predicate Addressed(s: Svc, op: Op) {
    match op
    case Delete(id, code, _) => id in s.rows ==> HasCode(s.rows, id, code)
    case Restore(id, code) => id in s.rows ==> HasCode(s.rows, id, code)
    case Purge(id, code) => id in s.rows ==> HasCode(s.rows, id, code)
    case _ => true
  }

  // ------------------------------------------------------------- coherence

  ghost predicate Coherent(s: Svc) {
    && WellFormed(s.rows) && s.cache.Valid()
    && forall code, entry :: Stored(s.cache, code, entry) ==>
         Lower(code) == code && Agree(entry.link, GetLinkByCode(s.rows, code))
  }

  /** Rows under other codes are found as before. */
  lemma OtherCodesUnchanged(rows: Table, after: Table, id: string, code: Code)
    requires WellFormed(rows) && WellFormed(after)
    requires forall j :: j != id ==> (j in rows <==> j in after) && (j in rows ==> rows[j] == after[j])
    requires !HasCode(rows, id, code) && !HasCode(after, id, code)
    ensures GetLinkByCode(rows, code) == GetLinkByCode(after, code)
  {
    FoundByAnyCasing(rows, code);
    FoundByAnyCasing(after, code);
    if j :| HasCode(rows, j, code) { assert HasCode(after, j, code); }
    if j :| HasCode(after, j, code) { assert HasCode(rows, j, code); }
  }

  /** After a change to one row and the invalidation of its codes, the cache still agrees. */
  lemma ChangeKeepsCoherence(s: Svc, t: Svc, id: string)
    requires Coherent(s) && WellFormed(t.rows) && t.cache.Valid()
    requires forall j :: j != id ==> (j in s.rows <==> j in t.rows) && (j in s.rows ==> s.rows[j] == t.rows[j])
    requires forall code, entry :: Stored(t.cache, code, entry) ==>
               && Stored(s.cache, code, entry)
               && !HasCode(s.rows, id, code) && !HasCode(t.rows, id, code)
    ensures Coherent(t)
  {
    forall code, entry | Stored(t.cache, code, entry) ensures Agree(entry.link, GetLinkByCode(t.rows, code)) {
      assert Stored(s.cache, code, entry);
      OtherCodesUnchanged(s.rows, t.rows, id, code);
    }
  }

  /** A cache operation keeps agreement when what it puts is what the table holds. */
  lemma CacheOpKeepsCoherence(s: Svc, op: Lru.Op<Link>)
    requires Coherent(s)
    requires op.Put? ==> Agree(op.entry.link, GetLinkByCode(s.rows, op.code))
    ensures Coherent(s.(cache := CacheSpec.Apply(s.cache, op)))
  {
    ApplyKeeps(s.cache, op);
    LowerIdempotent(op.code);
    SameKeySameRow(s.rows, op.code, Lower(op.code));
    var t := s.(cache := CacheSpec.Apply(s.cache, op));
    forall code, entry | Stored(t.cache, code, entry)
      ensures Lower(code) == code && Agree(entry.link, GetLinkByCode(s.rows, code))
    {
    }
  }

  lemma HitAgrees(s: Svc, code: Code, now: int)
    requires Coherent(s) && Lookup(s.cache, code, now).Some?
    ensures Agree(Lookup(s.cache, code, now).value.link, GetLinkByCode(s.rows, code))
  {
    HitIsStored(s.cache, code, now);
    LowerIdempotent(code);
    SameKeySameRow(s.rows, code, Lower(code));
  }

  lemma ResolveKeepsCoherence(s: Svc, code: Code, now: int, landed: int)
    requires Coherent(s)
    ensures Coherent(ResolveStep(s, code, now, landed).0)
    ensures Agree(ResolveStep(s, code, now, landed).1, GetLinkByCode(s.rows, code))
  {
    var looked := s.(cache := CacheSpec.Apply(s.cache, Get(code, now)));
    CacheOpKeepsCoherence(s, Get(code, now));
    if Lookup(s.cache, code, now).Some? {
      HitAgrees(s, code, now);
    } else if GetLinkByCode(s.rows, code).None? {
      CacheOpKeepsCoherence(looked, Put(code, Entry(None, landed + Cache.NEGATIVE_TTL)));
    } else {
      var l := GetLinkByCode(s.rows, code).value;
      FoundByAnyCasing(s.rows, code);
      SameKeySameRow(s.rows, code, l.code);
      CacheOpKeepsCoherence(looked, Put(l.code, Entry(Some(l), landed + Cache.DEFAULT_TTL)));
    }
  }

  /**
   Once resolved, a code is answered from the cache, found or not found, for
   as long as the entry lasts.
   */
  lemma ResolvedIsCached(s: Svc, code: Code, now: int, landed: int, later: int)
    requires WellFormed(s.rows) && s.cache.Valid()
    ensures |ResolveStep(s, code, now, landed).0.cache.shards| == SHARD_COUNT
    ensures var (t, answer) := ResolveStep(s, code, now, landed);
            match Lookup(s.cache, code, now)
            case Some(entry) => later <= entry.expires ==> Lookup(t.cache, code, later) == Some(entry)
            case None =>
              var expires := landed + (if answer.Some? then 300_000_000_000 else 60_000_000_000);
              later <= expires ==> Lookup(t.cache, code, later) == Some(Entry(answer, expires))
  {
    var looked := CacheSpec.Apply(s.cache, Get(code, now));
    var found := GetLinkByCode(s.rows, code);
    if Lookup(s.cache, code, now).Some? {
      if later <= Lookup(s.cache, code, now).value.expires { GetThenGet(s.cache, code, now, later); }
    } else {
      LoadedIsFound(looked, s.rows, code, landed, later);
    }
  }

  lemma RowHasTheCode(rows: Table, code: Code)
    requires WellFormed(rows) && GetLinkByCode(rows, code).Some?
    ensures SameButForCase(code, GetLinkByCode(rows, code).value.code)
  {
    FoundByAnyCasing(rows, code);
    SameKeyIffSameButForCase(code, GetLinkByCode(rows, code).value.code);
  }

  lemma LoadedIsFound(c: CacheSpec.Cache<Link>, rows: Table, code: Code, landed: int, later: int)
    requires WellFormed(rows) && |c.shards| == SHARD_COUNT && 1 <= c.cap
    ensures var found := GetLinkByCode(rows, code);
            var expires := landed + (if found.Some? then Cache.DEFAULT_TTL else Cache.NEGATIVE_TTL);
            later <= expires ==> Lookup(Loaded(c, code, found, landed), code, later) == Some(Entry(found, expires))
  {
    var found := GetLinkByCode(rows, code);
    var expires := landed + (if found.Some? then Cache.DEFAULT_TTL else Cache.NEGATIVE_TTL);
    var key := if found.Some? then found.value.code else code;
    assert SameButForCase(code, key) by {
      if found.Some? { RowHasTheCode(rows, code); }
    }
    assert Loaded(c, code, found, landed) == CacheSpec.Apply(c, Put(key, Entry(found, expires)));
    if later <= expires { PutThenGet(c, key, code, Entry(found, expires), later); }
  }

  /** No row has the code in any casing. */
  predicate Usable(rows: Table, attempt: Option<Code>) {
    attempt.Some? && forall id :: id in rows ==> !SameButForCase(rows[id].code, attempt.value)
  }

  lemma FreeIffNoRowHasIt(rows: Table, code: Code)
    ensures CodeExists(rows, code) <==> !Usable(rows, Some(code))
  {
    forall id | id in rows ensures HasCode(rows, id, code) <==> SameButForCase(rows[id].code, code) {
      SameKeyIffSameButForCase(rows[id].code, code);
    }
    if CodeExists(rows, code) {
      var id :| HasCode(rows, id, code);
      assert SameButForCase(rows[id].code, code);
    }
  }

  /** The first usable attempt is taken; creation fails only when every attempt is reserved or taken. */
  lemma {:induction false} FirstFreeIsFree(rows: Table, attempts: seq<Option<Code>>)
    ensures FirstFree(rows, attempts).Some? ==>
              exists i :: && 0 <= i < |attempts| && attempts[i] == FirstFree(rows, attempts)
                          && Usable(rows, attempts[i]) && forall j :: 0 <= j < i ==> !Usable(rows, attempts[j])
    ensures FirstFree(rows, attempts).None? <==> forall i :: 0 <= i < |attempts| ==> !Usable(rows, attempts[i])
  {
    if attempts != [] {
      FirstFreeIsFree(rows, attempts[1..]);
      if attempts[0].Some? { FreeIffNoRowHasIt(rows, attempts[0].value); }
      assert forall i :: 1 <= i < |attempts| ==> attempts[i] == attempts[1..][i - 1];
    }
  }

  lemma CreateKeepsCoherence(s: Svc, id: string, details: Details, attempts: seq<Option<Code>>)
    requires Coherent(s)
    ensures Coherent(CreateStep(s, id, details, attempts))
  {
    var t := CreateStep(s, id, details, attempts);
    FirstFreeIsFree(s.rows, attempts);
    if t != s {
      var code := t.rows[id].code;
      FreeIffNoRowHasIt(s.rows, code);
      assert forall j :: j in s.rows ==> !HasCode(s.rows, j, code);
      ApplyKeeps(s.cache, Invalidate(code));
      ChangeKeepsCoherence(s, t, id);
    }
  }

  lemma UpdateKeepsCoherence(s: Svc, id: string, patch: Patch, valid: bool)
    requires Coherent(s)
    ensures Coherent(UpdateStep(s, id, patch, valid))
  {
    if UpdateAccepted(s.rows, id, patch, valid) {
      var t := UpdateStep(s, id, patch, valid);
      var before, after := s.rows[id].code, t.rows[id].code;
      if before != after { assert forall j :: j in s.rows ==> !HasCode(s.rows, j, after); }
      assert WellFormed(t.rows);
      CacheOpKeepsCoherence(s, Invalidate(before));
      InvalidationForgets(s, before);
      if before != after {
        var s1 := s.(cache := Invalidated(s.cache, before));
        CacheOpKeepsCoherence(s1, Invalidate(after));
        InvalidationForgets(s1, after);
      }
      ChangeKeepsCoherence(s, t, id);
    }
  }

  /** After an invalidation nothing is stored under the code, and nothing new elsewhere. */
  lemma InvalidationForgets(s: Svc, k: Code)
    requires Coherent(s)
    ensures forall code, entry :: Stored(Invalidated(s.cache, k), code, entry) ==>
              Stored(s.cache, code, entry) && Lower(code) == code && code != Lower(k)
  {
    ApplyKeeps(s.cache, Invalidate(k));
  }

  lemma MarkKeepsCoherence(s: Svc, id: string, code: Code, deletedAt: Option<int>)
    requires Coherent(s) && (id in s.rows ==> HasCode(s.rows, id, code))
    ensures Coherent(MarkStep(s, id, code, deletedAt))
  {
    ApplyKeeps(s.cache, Invalidate(code));
    ChangeKeepsCoherence(s, MarkStep(s, id, code, deletedAt), id);
  }

  lemma PurgeKeepsCoherence(s: Svc, id: string, code: Code)
    requires Coherent(s) && (id in s.rows ==> HasCode(s.rows, id, code))
    ensures Coherent(PurgeStep(s, id, code))
  {
    ApplyKeeps(s.cache, Invalidate(code));
    ChangeKeepsCoherence(s, PurgeStep(s, id, code), id);
  }

  lemma FlushKeepsCoherence(s: Svc, counts: map<string, int>)
    requires Coherent(s)
    ensures Coherent(Step(s, Flush(counts)))
    ensures var rows := Step(s, Flush(counts)).rows;
            forall id :: (id in rows <==> id in s.rows) && (id in rows ==>
              rows[id] == s.rows[id].(clickCount := s.rows[id].clickCount + if id in counts then counts[id] else 0))
  {
    var after := AddCounts(s.rows, counts);
    forall code, entry | Stored(s.cache, code, entry) ensures Agree(entry.link, GetLinkByCode(after, code)) {
      FoundByAnyCasing(s.rows, code);
      FoundByAnyCasing(after, code);
      if id :| HasCode(s.rows, id, code) { assert HasCode(after, id, code); }
      if id :| HasCode(after, id, code) { assert HasCode(s.rows, id, code); }
    }
  }

  lemma StepKeepsCoherence(s: Svc, op: Op)
    requires Coherent(s) && Addressed(s, op)
    ensures Coherent(Step(s, op))
  {
    match op
    case Resolve(code, now, landed) => ResolveKeepsCoherence(s, code, now, landed);
    case Create(id, details, attempts) => CreateKeepsCoherence(s, id, details, attempts);
    case Update(id, patch, valid) => UpdateKeepsCoherence(s, id, patch, valid);
    case Delete(id, code, at) => MarkKeepsCoherence(s, id, code, Some(at));
    case Restore(id, code) => MarkKeepsCoherence(s, id, code, None);
    case Purge(id, code) => PurgeKeepsCoherence(s, id, code);
    case Flush(counts) => FlushKeepsCoherence(s, counts);
  }

  // -------------------------------------------------------------- theorems

  /** A run of requests from an empty cache, none overlapping another. */
  ghost predicate IsRun(states: seq<Svc>, ops: seq<Op>) {
    && |states| == |ops| + 1
    && WellFormed(states[0].rows) && states[0].cache.cap >= 1
    && states[0].cache == Empty(states[0].cache.cap)
    && forall i :: 0 <= i < |ops| ==>
         && |states[i].cache.shards| == SHARD_COUNT
         && Addressed(states[i], ops[i]) && states[i + 1] == Step(states[i], ops[i])
  }

  lemma {:induction false} RunKeepsCoherence(states: seq<Svc>, ops: seq<Op>, i: nat)
    requires IsRun(states, ops) && i < |states|
    ensures Coherent(states[i])
  {
    if i > 0 {
      RunKeepsCoherence(states, ops, i - 1);
      StepKeepsCoherence(states[i - 1], ops[i - 1]);
    }
  }

  /**
   At any point of any run, resolving a code in any casing gives the row that
   the table holds for it now, or not-found when there is none.
   */
  lemma CacheAgreesWithStore(states: seq<Svc>, ops: seq<Op>, i: nat, asked: Code, now: int, landed: int)
    requires IsRun(states, ops) && i < |states|
    ensures |states[i].cache.shards| == SHARD_COUNT
    ensures var (rows, answer) := (states[i].rows, ResolveStep(states[i], asked, now, landed).1);
            && (answer.None? <==> forall id :: id in rows ==> !SameButForCase(rows[id].code, asked))
            && (forall id :: id in rows && SameButForCase(rows[id].code, asked) ==> Agree(answer, Some(rows[id])))
  {
    RunKeepsCoherence(states, ops, i);
    ResolveKeepsCoherence(states[i], asked, now, landed);
    FoundButForCase(states[i].rows, asked);
  }

  /** An accepted edit changes its link as the patch says, and no other. */
  lemma EditTakesThePatch(s: Svc, id: string, patch: Patch, valid: bool)
    requires |s.cache.shards| == SHARD_COUNT && UpdateAccepted(s.rows, id, patch, valid)
    ensures var rows := UpdateStep(s, id, patch, valid).rows;
            id in rows && Takes(s.rows[id], patch, rows[id]) && OthersStay(s.rows, rows, id)
  {
  }

  /** After an accepted edit the link's code, old or new, is in no casing answered from the cache. */
  lemma EditIsForgotten(s: Svc, id: string, patch: Patch, valid: bool, asked: Code, now: int)
    requires WellFormed(s.rows) && s.cache.Valid() && UpdateAccepted(s.rows, id, patch, valid)
    ensures var t := UpdateStep(s, id, patch, valid);
            && |t.cache.shards| == SHARD_COUNT
            && Lookup(t.cache, asked, now) ==
               if SameButForCase(asked, s.rows[id].code) || SameButForCase(asked, t.rows[id].code) then None
               else Lookup(s.cache, asked, now)
  {
    var before, after := s.rows[id].code, Edited(s.rows[id], patch).code;
    ApplyKeeps(s.cache, Invalidate(before));
    InvalidateThenGet(s.cache, before, asked, now);
    InvalidateThenGet(Invalidated(s.cache, before), after, asked, now);
  }

  /** So a resolve after an accepted edit gives the edited link under its code, and nothing under a code given up. */
  lemma EditIsSeenAtOnce(s: Svc, id: string, patch: Patch, valid: bool, asked: Code, now: int, landed: int)
    requires WellFormed(s.rows) && s.cache.Valid() && UpdateAccepted(s.rows, id, patch, valid)
    ensures var t := UpdateStep(s, id, patch, valid);
            && |t.cache.shards| == SHARD_COUNT && id in t.rows
            && (SameButForCase(asked, t.rows[id].code) ==> ResolveStep(t, asked, now, landed).1 == Some(t.rows[id]))
            && (SameButForCase(asked, s.rows[id].code) && !SameButForCase(asked, t.rows[id].code) ==>
                  ResolveStep(t, asked, now, landed).1 == None)
  {
    var t := UpdateStep(s, id, patch, valid);
    EditIsForgotten(s, id, patch, valid, asked, now);
    EditStaysWellFormed(s, id, patch, valid);
    FoundButForCase(t.rows, asked);
    SameKeyIffSameButForCase(asked, t.rows[id].code);
    SameKeyIffSameButForCase(t.rows[id].code, asked);
    SameKeyIffSameButForCase(asked, s.rows[id].code);
    forall j | j in t.rows && j != id && SameButForCase(asked, s.rows[id].code)
      ensures !SameButForCase(t.rows[j].code, asked)
    {
      SameKeyIffSameButForCase(t.rows[j].code, asked);
      assert t.rows[j] == s.rows[j];
    }
  }

  lemma EditStaysWellFormed(s: Svc, id: string, patch: Patch, valid: bool)
    requires WellFormed(s.rows) && |s.cache.shards| == SHARD_COUNT && UpdateAccepted(s.rows, id, patch, valid)
    ensures WellFormed(UpdateStep(s, id, patch, valid).rows)
  {
    var t := UpdateStep(s, id, patch, valid);
    if s.rows[id].code != t.rows[id].code {
      assert forall j :: j in s.rows ==> !HasCode(s.rows, j, t.rows[id].code);
    }
  }

  /** Once a link is marked deleted, restored or purged, a resolve gives the row as it is then, or nothing. */
  lemma ChangedRowIsSeenAtOnce(s: Svc, id: string, deletedAt: Option<int>, asked: Code, now: int, landed: int)
    requires WellFormed(s.rows) && s.cache.Valid() && id in s.rows && SameButForCase(asked, s.rows[id].code)
    ensures var t := MarkStep(s, id, s.rows[id].code, deletedAt);
            && |t.cache.shards| == SHARD_COUNT
            && ResolveStep(t, asked, now, landed).1 == Some(s.rows[id].(deletedAt := deletedAt))
    ensures var t := PurgeStep(s, id, s.rows[id].code);
            && |t.cache.shards| == SHARD_COUNT && ResolveStep(t, asked, now, landed).1 == None
  {
    InvalidateThenGet(s.cache, s.rows[id].code, asked, now);
    var marked, purged := Marked(s.rows, id, deletedAt), s.rows - {id};
    FoundButForCase(marked, asked);
    FoundButForCase(purged, asked);
    SameKeyIffSameButForCase(marked[id].code, asked);
    SameKeyIffSameButForCase(asked, s.rows[id].code);
    forall j | j in purged ensures !SameButForCase(purged[j].code, asked) {
      SameKeyIffSameButForCase(purged[j].code, asked);
    }
  }

  /** A rename that only changes letter case is always refused: the link's own row takes the code. */
  lemma RecasingIsRefused(rows: Table, id: string, patch: Patch, valid: bool)
    requires id in rows && patch.code.Some?
    requires patch.code.value != rows[id].code && SameButForCase(patch.code.value, rows[id].code)
    ensures !UpdateAccepted(rows, id, patch, valid)
  {
    SameKeyIffSameButForCase(patch.code.value, rows[id].code);
    assert HasCode(rows, id, patch.code.value);
  }

  /** A rename is accepted exactly when the code is the present one, letter for letter, or no row has it in any case. */
  lemma RenameAcceptedIff(rows: Table, id: string, patch: Patch)
    requires id in rows && patch.code.Some?
    ensures UpdateAccepted(rows, id, patch, true)
            <==> patch.code.value == rows[id].code || Usable(rows, patch.code)
  {
    FreeIffNoRowHasIt(rows, patch.code.value);
  }
}
