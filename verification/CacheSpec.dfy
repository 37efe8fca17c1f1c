/**
 The whole cache as a value: sixty-four shards, each replaced independently,
 every operation keyed on the lowercased code.
 */
module CacheSpec {
  import opened Wrappers
  import opened Bytes
  import opened Lru

  const SHARD_COUNT: nat := 64

  function LowerByte(b: byte): byte {
    if 'A' as int <= b <= 'Z' as int then b + 32 else b
  }

  function Lower(code: Code): (r: Code) {
    seq(|code|, i requires 0 <= i < |code| => LowerByte(code[i]))
  }

  lemma LowerByteIdempotent(b: byte)
    ensures LowerByte(LowerByte(b)) == LowerByte(b)
  {
  }

  lemma LowerIdempotent(code: Code)
    ensures Lower(Lower(code)) == Lower(code)
  {
    forall i | 0 <= i < |code| ensures Lower(Lower(code))[i] == Lower(code)[i] {
      LowerByteIdempotent(code[i]);
    }
  }

  /** Equal but for the case of the letters A to Z. */
  predicate SameButForCase(a: Code, b: Code) {
    |a| == |b| && forall i :: 0 <= i < |a| ==>
      || a[i] == b[i]
      || (65 <= a[i] <= 90 && b[i] == a[i] + 32)
      || (65 <= b[i] <= 90 && a[i] == b[i] + 32)
  }

  /** The key of a code: its capitals A to Z are replaced, all else stays. */
  lemma LowerIs(code: Code)
    ensures |Lower(code)| == |code|
    ensures forall i :: 0 <= i < |code| ==> Lower(code)[i] == if 65 <= code[i] <= 90 then code[i] + 32 else code[i]
  {
  }

  /** Two codes share a key exactly when they are equal but for the case of letters. */
  lemma SameKeyIffSameButForCase(a: Code, b: Code)
    ensures Lower(a) == Lower(b) <==> SameButForCase(a, b)
  {
    LowerIs(a);
    LowerIs(b);
    if Lower(a) == Lower(b) {
      forall i | 0 <= i < |a|
        ensures a[i] == b[i] || (65 <= a[i] <= 90 && b[i] == a[i] + 32) || (65 <= b[i] <= 90 && a[i] == b[i] + 32)
      {
        assert Lower(a)[i] == Lower(b)[i];
      }
    }
  }

  /** FNV-1a over the bytes of the code, with 32-bit wrap-around. */
  function Fnv1a(code: Code): nat {
    if code == [] then 2166136261
    else Xor(Fnv1a(code[..|code| - 1]), code[|code| - 1]) * 16777619 % TWO_32
  }

  function ShardOf(code: Code): (i: nat)
    ensures i < SHARD_COUNT
  {
    Fnv1a(code) % SHARD_COUNT
  }

  datatype Cache<+L> = Cache(shards: seq<seq<Slot<L>>>, cap: nat) {
    ghost predicate Valid() {
      && |shards| == SHARD_COUNT && 1 <= cap
      && forall i :: 0 <= i < SHARD_COUNT ==> Distinct(shards[i]) && |shards[i]| <= cap
    }
  }

  function Empty<L>(cap: nat): Cache<L> {
    Cache(seq(SHARD_COUNT, i => []), cap)
  }

  function Size<L>(shards: seq<seq<Slot<L>>>): nat {
    if shards == [] then 0 else Size(shards[..|shards| - 1]) + |shards[|shards| - 1]|
  }

  function Keyed<L>(op: Op<L>): Op<L> {
    match op
    case Get(code, now) => Get(Lower(code), now)
    case Put(code, entry) => Put(Lower(code), entry)
    case Invalidate(code) => Invalidate(Lower(code))
  }

  function Apply<L>(c: Cache<L>, op: Op<L>): Cache<L>
    requires |c.shards| == SHARD_COUNT
  {
    var k := Keyed(op);
    var i := ShardOf(k.code);
    c.(shards := c.shards[i := Step(c.shards[i], c.cap, k)])
  }

  /** `c` with the list of one shard replaced. */
  function WithShard<L>(c: Cache<L>, i: nat, order: seq<Slot<L>>): Cache<L>
    requires i < |c.shards|
  {
    c.(shards := c.shards[i := order])
  }

  lemma ApplyIsOneShard<L>(c: Cache<L>, op: Op<L>, key: Code)
    requires |c.shards| == SHARD_COUNT && key == Lower(op.code)
    ensures op.Get? ==> Apply(c, op) == WithShard(c, ShardOf(key), GetStep(c.shards[ShardOf(key)], key, op.now).0)
    ensures op.Put? ==>
              Apply(c, op) == WithShard(c, ShardOf(key), PutStep(c.shards[ShardOf(key)], c.cap, key, op.entry))
    ensures op.Invalidate? ==> Apply(c, op) == WithShard(c, ShardOf(key), Without(c.shards[ShardOf(key)], key))
  {
  }

  /** What `Get` returns: a hit, positive or negative, or nothing. */
  function Lookup<L>(c: Cache<L>, code: Code, now: int): Option<Entry<L>>
    requires |c.shards| == SHARD_COUNT
  {
    GetStep(c.shards[ShardOf(Lower(code))], Lower(code), now).1
  }

  function ApplyAll<L>(ops: seq<Op<L>>, cap: nat): (c: Cache<L>)
    ensures |c.shards| == SHARD_COUNT && c.cap == cap
  {
    if ops == [] then Empty(cap) else Apply(ApplyAll(ops[..|ops| - 1], cap), ops[|ops| - 1])
  }

  /** The operations of a run that reach shard `i`, under their lowercased code. */
  function OpsOf<L>(ops: seq<Op<L>>, i: nat): seq<Op<L>> {
    if ops == [] then []
    else
      var rest, k := OpsOf(ops[..|ops| - 1], i), Keyed(ops[|ops| - 1]);
      if ShardOf(k.code) == i then rest + [k] else rest
  }

  /** Each shard behaves as if it alone received its own operations. */
  lemma {:induction false} ShardsAreIndependent<L>(ops: seq<Op<L>>, cap: nat, i: nat)
    requires i < SHARD_COUNT
    ensures ApplyAll(ops, cap).shards[i] == Run(OpsOf(ops, i), cap)
  {
    if ops != [] {
      var before := ops[..|ops| - 1];
      ShardsAreIndependent(before, cap, i);
      var k := Keyed(ops[|ops| - 1]);
      if ShardOf(k.code) == i {
        var mine := OpsOf(before, i) + [k];
        assert mine[..|mine| - 1] == OpsOf(before, i);
      }
    }
  }

  lemma {:induction false} OpsOfUpTo<L>(ops: seq<Op<L>>, i: nat, now: int)
    requires UpTo(ops, now)
    ensures UpTo(OpsOf(ops, i), now)
  {
    if ops != [] { OpsOfUpTo(ops[..|ops| - 1], i, now); }
  }

  /** One lookup after a run: what it must return in terms of the operations alone. */
  lemma LookupAfterRun<L>(ops: seq<Op<L>>, cap: nat, code: Code, now: int)
    requires 1 <= cap && UpTo(ops, now)
    ensures var k := Lower(code);
            var mine := OpsOf(ops, ShardOf(k));
            var hit := Lookup(ApplyAll(ops, cap), code, now);
            && (hit.Some? ==> hit == LastPut(mine, k) && now <= hit.value.expires)
            && (hit.None? && LastPut(mine, k).Some? ==>
                  now > LastPut(mine, k).value.expires || cap <= |UsedSince(mine, cap, k)|)
  {
    var k := Lower(code);
    var i := ShardOf(k);
    ShardsAreIndependent(ops, cap, i);
    OpsOfUpTo(ops, i, now);
    var mine := OpsOf(ops, i);
    if Lookup(ApplyAll(ops, cap), code, now).Some? {
      HitReturnsLastPut(mine, cap, k, now);
    } else if |UsedSince(mine, cap, k)| < cap {
      LookupIsLastPut(mine, cap, k, now);
    }
  }

  /** The slot stored for a lowercased code, if any. */
  ghost predicate Stored<L>(c: Cache<L>, code: Code, entry: Entry<L>)
    requires |c.shards| == SHARD_COUNT
  {
    exists j :: 0 <= j < |c.shards[ShardOf(code)]| && c.shards[ShardOf(code)][j] == Slot(code, entry)
  }

  /** Applying an operation keeps the shape and stores nothing it was not given. */
  lemma ApplyKeeps<L>(c: Cache<L>, op: Op<L>)
    requires c.Valid()
    ensures Apply(c, op).Valid()
    ensures forall code, entry :: Stored(Apply(c, op), code, entry) ==>
              if code == Lower(op.code) then
                (op.Put? && entry == op.entry) || (op.Get? && Stored(c, code, entry))
              else Stored(c, code, entry)
  {
    var k := Keyed(op);
    var i := ShardOf(k.code);
    StepKeepsShape(c.shards[i], c.cap, k);
    forall code, entry | Stored(Apply(c, op), code, entry)
      ensures if code == k.code then
                (op.Put? && entry == op.entry) || (op.Get? && Stored(c, code, entry))
              else Stored(c, code, entry)
    {
      var s := ShardOf(code);
      var j :| 0 <= j < |Apply(c, op).shards[s]| && Apply(c, op).shards[s][j] == Slot(code, entry);
      if s == i { StepOrigin(c.shards[i], c.cap, k, j); }
    }
  }

  /** A step that does not use its code leaves no slot under it. */
  lemma NoneLeft<L>(order: seq<Slot<L>>, cap: nat, op: Op<L>, j: nat)
    requires Distinct(order) && j < |Step(order, cap, op)| && Touched(order, op).None?
    ensures Step(order, cap, op)[j].code != op.code
  {
    WithoutKeepsShape(order, op.code);
  }

  lemma StepOrigin<L>(order: seq<Slot<L>>, cap: nat, op: Op<L>, j: nat)
    requires Distinct(order) && j < |Step(order, cap, op)|
    ensures var slot := Step(order, cap, op)[j];
            if slot.code == op.code then
              (op.Put? && slot.entry == op.entry) || (op.Get? && exists m :: 0 <= m < |order| && order[m] == slot)
            else exists m :: 0 <= m < |order| && order[m] == slot
  {
    var slot := Step(order, cap, op)[j];
    if Touched(order, op) != Some(slot.code) {
      StepKeepsSlot(order, cap, op, j);
      assert slot == order[RankBefore(j, Find(order, op.code), Touched(order, op).Some?)];
      if slot.code == op.code { NoneLeft(order, cap, op, j); }
    } else if op.Get? {
      assert slot == order[Find(order, op.code)];
    }
  }

  /** What a hit returns is stored under the lowercased code and unexpired. */
  lemma HitIsStored<L>(c: Cache<L>, code: Code, now: int)
    requires c.Valid() && Lookup(c, code, now).Some?
    ensures Stored(c, Lower(code), Lookup(c, code, now).value)
    ensures now <= Lookup(c, code, now).value.expires
  {
    var order := c.shards[ShardOf(Lower(code))];
    assert order[Find(order, Lower(code))] == Slot(Lower(code), Lookup(c, code, now).value);
  }

  /** What was put is found under every casing, until it expires. */
  lemma PutThenGet<L>(c: Cache<L>, code: Code, asked: Code, entry: Entry<L>, now: int)
    requires |c.shards| == SHARD_COUNT && now <= entry.expires && 1 <= c.cap && SameButForCase(asked, code)
    ensures Lookup(Apply(c, Put(code, entry)), asked, now) == Some(entry)
  {
    SameKeyIffSameButForCase(asked, code);
    var order := c.shards[ShardOf(Lower(code))];
    assert PutStep(order, c.cap, Lower(code), entry)[0] == Slot(Lower(code), entry);
  }

  lemma FindInWithout<L>(order: seq<Slot<L>>, code: Code, asked: Code)
    requires Distinct(order) && asked != code
    ensures var w, f, i := Without(order, code), Find(order, code), Find(order, asked);
            Find(w, asked) == if i == |order| then |w| else if i < f then i else i - 1
  {
    var w, f, i := Without(order, code), Find(order, code), Find(order, asked);
    if i < |order| {
      var j := if i < f then i else i - 1;
      assert w[j] == order[i];
      WithoutKeepsShape(order, code);
      FindUnique(w, j);
    } else {
      assert forall m :: 0 <= m < |w| ==> w[m].code != asked;
    }
  }

  lemma AnswerAt<L>(order: seq<Slot<L>>, asked: Code, now: int)
    ensures var i := Find(order, asked);
            GetStep(order, asked, now).1 ==
            if i == |order| || now > order[i].entry.expires then None else Some(order[i].entry)
  {
  }

  lemma OthersAreFoundAsBefore<L>(order: seq<Slot<L>>, code: Code, asked: Code, now: int)
    requires Distinct(order) && asked != code
    ensures GetStep(Without(order, code), asked, now).1 == GetStep(order, asked, now).1
  {
    var w, i, j := Without(order, code), Find(order, asked), Find(Without(order, code), asked);
    AnswerAt(order, asked, now);
    AnswerAt(w, asked, now);
    assert (i == |order| <==> j == |w|) && (i < |order| ==> w[j] == order[i]) by {
      FindInWithout(order, code, asked);
    }
  }

  /** After an invalidation the code is missed under every casing, and every other code is found as before. */
  lemma InvalidateThenGet<L>(c: Cache<L>, code: Code, asked: Code, now: int)
    requires c.Valid()
    ensures Lookup(Apply(c, Invalidate(code)), asked, now) ==
            if SameButForCase(asked, code) then None else Lookup(c, asked, now)
  {
    SameKeyIffSameButForCase(asked, code);
    if ShardOf(Lower(asked)) == ShardOf(Lower(code)) {
      var order := c.shards[ShardOf(Lower(code))];
      WithoutKeepsShape(order, Lower(code));
      if Lower(asked) != Lower(code) { OthersAreFoundAsBefore(order, Lower(code), Lower(asked), now); }
    }
  }

  lemma LookupIgnoresCase<L>(c: Cache<L>, code: Code, asked: Code, now: int)
    requires |c.shards| == SHARD_COUNT && SameButForCase(asked, code)
    ensures Lookup(c, asked, now) == Lookup(c, code, now)
  {
    SameKeyIffSameButForCase(asked, code);
  }

  /** A hit is found again, until it expires. */
  lemma GetThenGet<L>(c: Cache<L>, code: Code, now: int, later: int)
    requires c.Valid() && Lookup(c, code, now).Some? && later <= Lookup(c, code, now).value.expires
    ensures Lookup(Apply(c, Get(code, now)), code, later) == Lookup(c, code, now)
  {
    var order := c.shards[ShardOf(Lower(code))];
    var hit := GetStep(order, Lower(code), now);
    assert hit.0[0] == Slot(Lower(code), hit.1.value);
  }
}
