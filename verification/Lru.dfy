/**
 The replacement policy of one cache shard as a function of its operations.

 A shard is the list of its slots, most recently used first. The three steps
 below are what `Get`, `put` and `Invalidate` do to that list; the theorems
 speak about whole runs of operations.
 */
module Lru {
  import opened Wrappers
  import opened Bytes
  import Sets

  /** A link code: the bytes of the URL path segment. */
  type Code = seq<byte>

  /** What is cached for a code: the link, or `None` for a negative entry. */
  datatype Entry<+L> = Entry(link: Option<L>, expires: int)

  datatype Slot<+L> = Slot(code: Code, entry: Entry<L>)

  datatype Op<+L> =
    | Get(code: Code, now: int)
    | Put(code: Code, entry: Entry<L>)
    | Invalidate(code: Code)

  // ---------------------------------------------------------------- steps

  ghost predicate Holds<L>(order: seq<Slot<L>>, code: Code) {
    exists i :: 0 <= i < |order| && order[i].code == code
  }

  ghost predicate Distinct<L>(order: seq<Slot<L>>) {
    forall i, j :: 0 <= i < j < |order| ==> order[i].code != order[j].code
  }

  /** The position of `code`, or the length of the list when it is absent. */
  function Find<L>(order: seq<Slot<L>>, code: Code): (i: nat)
    ensures i <= |order|
    ensures i < |order| ==> order[i].code == code
    ensures forall j :: 0 <= j < i ==> order[j].code != code
  {
    if order == [] then 0
    else if order[0].code == code then 0
    else 1 + Find(order[1..], code)
  }

  /** The list without the slot of `code`, the others in their order. */
  function Without<L>(order: seq<Slot<L>>, code: Code): (w: seq<Slot<L>>)
    ensures |w| == if Find(order, code) < |order| then |order| - 1 else |order|
    ensures forall m :: 0 <= m < |w| ==> w[m] == order[if m < Find(order, code) then m else m + 1]
  {
    if order == [] then []
    else if order[0].code == code then order[1..]
    else [order[0]] + Without(order[1..], code)
  }

  /** `slot` in front, replacing any slot of the same code. */
  function ToFront<L>(order: seq<Slot<L>>, slot: Slot<L>): seq<Slot<L>> {
    [slot] + Without(order, slot.code)
  }

  function GetStep<L>(order: seq<Slot<L>>, code: Code, now: int): (seq<Slot<L>>, Option<Entry<L>>) {
    var i := Find(order, code);
    if i == |order| then (order, None)
    else if now > order[i].entry.expires then (Without(order, code), None)
    else (ToFront(order, order[i]), Some(order[i].entry))
  }

  function PutStep<L>(order: seq<Slot<L>>, cap: nat, code: Code, entry: Entry<L>): seq<Slot<L>> {
    if Find(order, code) < |order| then ToFront(order, Slot(code, entry))
    else if |order| + 1 > cap then ([Slot(code, entry)] + order)[..|order|]
    else [Slot(code, entry)] + order
  }

  function Step<L>(order: seq<Slot<L>>, cap: nat, op: Op<L>): seq<Slot<L>> {
    match op
    case Get(code, now) => GetStep(order, code, now).0
    case Put(code, entry) => PutStep(order, cap, code, entry)
    case Invalidate(code) => Without(order, code)
  }

  function Run<L>(ops: seq<Op<L>>, cap: nat): seq<Slot<L>> {
    if ops == [] then [] else Step(Run(ops[..|ops| - 1], cap), cap, ops[|ops| - 1])
  }

  // ---------------------------------------------------- what a run should do

  /** The entry most recently put under `code` with no later invalidation. */
  function LastPut<L>(ops: seq<Op<L>>, code: Code): Option<Entry<L>> {
    if ops == [] then None
    else
      match ops[|ops| - 1]
      case Put(c, e) => if c == code then Some(e) else LastPut(ops[..|ops| - 1], code)
      case Invalidate(c) => if c == code then None else LastPut(ops[..|ops| - 1], code)
      case Get(_, _) => LastPut(ops[..|ops| - 1], code)
  }

  /** The code an operation uses: the one put, or the one a lookup hits. */
  function Touched<L>(order: seq<Slot<L>>, op: Op<L>): Option<Code> {
    match op
    case Put(c, _) => Some(c)
    case Get(c, now) => if GetStep(order, c, now).1.Some? then Some(c) else None
    case Invalidate(_) => None
  }

  /** The other codes used since `code` itself was last used. */
  function UsedSince<L>(ops: seq<Op<L>>, cap: nat, code: Code): set<Code> {
    if ops == [] then {}
    else
      var before := ops[..|ops| - 1];
      match Touched(Run(before, cap), ops[|ops| - 1])
      case None => UsedSince(before, cap, code)
      case Some(c) => if c == code then {} else UsedSince(before, cap, code) + {c}
  }

  /** Every lookup of the run happened no later than `now`. */
  ghost predicate UpTo<L>(ops: seq<Op<L>>, now: int) {
    forall i :: 0 <= i < |ops| && ops[i].Get? ==> ops[i].now <= now
  }

  // ------------------------------------------------------------ invariants

  lemma {:induction false} FindUnique<L>(order: seq<Slot<L>>, i: nat)
    requires Distinct(order) && i < |order|
    ensures Find(order, order[i].code) == i
  {
  }

  lemma WithoutKeepsShape<L>(order: seq<Slot<L>>, code: Code)
    requires Distinct(order)
    ensures Distinct(Without(order, code)) && !Holds(Without(order, code), code)
  {
    var w := Without(order, code);
    assert forall m :: 0 <= m < |w| ==> w[m].code != code;
  }

  lemma StepKeepsShape<L>(order: seq<Slot<L>>, cap: nat, op: Op<L>)
    requires Distinct(order) && |order| <= cap && 1 <= cap
    ensures Distinct(Step(order, cap, op)) && |Step(order, cap, op)| <= cap
  {
    WithoutKeepsShape(order, op.code);
  }

  /** Capacity and one slot per code hold after every run. */
  lemma {:induction false} RunKeepsShape<L>(ops: seq<Op<L>>, cap: nat)
    requires 1 <= cap
    ensures Distinct(Run(ops, cap)) && |Run(ops, cap)| <= cap
  {
    if ops != [] {
      RunKeepsShape(ops[..|ops| - 1], cap);
      StepKeepsShape(Run(ops[..|ops| - 1], cap), cap, ops[|ops| - 1]);
    }
  }

  /** Where the slot now at `m` stood before a step that used or took out position `f`. */
  function RankBefore(m: nat, f: nat, touched: bool): int {
    var k := if touched then m - 1 else m;
    if k < f then k else k + 1
  }

  /** Every slot but the touched one is an old slot, and the old slots keep their relative order. */
  lemma StepKeepsSlot<L>(order: seq<Slot<L>>, cap: nat, op: Op<L>, m: nat)
    requires Distinct(order) && m < |Step(order, cap, op)|
    requires Touched(order, op) != Some(Step(order, cap, op)[m].code)
    ensures var k := RankBefore(m, Find(order, op.code), Touched(order, op).Some?);
            && 0 <= k < |order|
            && Step(order, cap, op)[m] == order[k]
            && Find(order, order[k].code) == k
  {
    match op
    case Invalidate(code) => FindUnique(order, RankBefore(m, Find(order, code), false));
    case Get(code, now) => GetKeepsSlot(order, code, now, m);
    case Put(code, entry) => PutKeepsSlot(order, cap, code, entry, m);
  }

  lemma GetKeepsSlot<L>(order: seq<Slot<L>>, code: Code, now: int, m: nat)
    requires Distinct(order) && m < |GetStep(order, code, now).0|
    requires GetStep(order, code, now).1.Some? ==> GetStep(order, code, now).0[m].code != code
    ensures var k := RankBefore(m, Find(order, code), GetStep(order, code, now).1.Some?);
            && 0 <= k < |order|
            && GetStep(order, code, now).0[m] == order[k]
            && Find(order, order[k].code) == k
  {
    var f := Find(order, code);
    var (after, hit) := GetStep(order, code, now);
    if hit.Some? {
      assert m > 0 && after[m] == Without(order, code)[m - 1];
    }
    FindUnique(order, RankBefore(m, f, hit.Some?));
  }

  lemma PutKeepsSlot<L>(order: seq<Slot<L>>, cap: nat, code: Code, entry: Entry<L>, m: nat)
    requires Distinct(order) && m < |PutStep(order, cap, code, entry)|
    requires PutStep(order, cap, code, entry)[m].code != code
    ensures var k := RankBefore(m, Find(order, code), true);
            && 0 <= k < |order|
            && PutStep(order, cap, code, entry)[m] == order[k]
            && Find(order, order[k].code) == k
  {
    var f, after := Find(order, code), PutStep(order, cap, code, entry);
    assert m > 0;
    if f < |order| {
      assert after[m] == Without(order, code)[m - 1];
    } else {
      assert after[m] == order[m - 1];
    }
    FindUnique(order, RankBefore(m, f, true));
  }

  /** Everything the shard holds is the last entry put under its code. */
  lemma {:induction false} SlotIsLastPut<L>(ops: seq<Op<L>>, cap: nat, i: nat)
    requires 1 <= cap && i < |Run(ops, cap)|
    ensures LastPut(ops, Run(ops, cap)[i].code) == Some(Run(ops, cap)[i].entry)
  {
    var before, op := ops[..|ops| - 1], ops[|ops| - 1];
    var order := Run(before, cap);
    RunKeepsShape(before, cap);
    RunKeepsShape(ops, cap);
    var slot := Run(ops, cap)[i];
    if Touched(order, op) == Some(slot.code) {
      TouchedIsFirst(order, cap, op);
      assert i == 0;
      if op.Get? { SlotIsLastPut(before, cap, Find(order, slot.code)); }
    } else {
      StepKeepsSlot(order, cap, op, i);
      if op.Invalidate? { WithoutKeepsShape(order, op.code); }
      SlotIsLastPut(before, cap, Find(order, slot.code));
    }
  }

  /** The slots in front of `code` were all used since `code` was. */
  lemma {:induction false} FrontWasUsed<L>(ops: seq<Op<L>>, cap: nat, i: nat, j: nat)
    requires 1 <= cap && j < i < |Run(ops, cap)|
    ensures Run(ops, cap)[j].code in UsedSince(ops, cap, Run(ops, cap)[i].code)
  {
    var before, op := ops[..|ops| - 1], ops[|ops| - 1];
    var order := Run(before, cap);
    RunKeepsShape(before, cap);
    RunKeepsShape(ops, cap);
    var back, front := Run(ops, cap)[i].code, Run(ops, cap)[j].code;
    if Touched(order, op).Some? { TouchedIsFirst(order, cap, op); }
    StepKeepsSlot(order, cap, op, i);
    if Touched(order, op) != Some(front) {
      StepKeepsSlot(order, cap, op, j);
      FrontWasUsed(before, cap, Find(order, back), Find(order, front));
    }
  }

  lemma TouchedIsFirst<L>(order: seq<Slot<L>>, cap: nat, op: Op<L>)
    requires Touched(order, op).Some? && 1 <= cap
    ensures Step(order, cap, op) != [] && Step(order, cap, op)[0].code == Touched(order, op).value
  {
  }

  function Codes<L>(order: seq<Slot<L>>): (s: set<Code>)
    ensures forall c :: c in s <==> exists i :: 0 <= i < |order| && order[i].code == c
  {
    set i | 0 <= i < |order| :: order[i].code
  }

  lemma {:induction false} DistinctCount<L>(order: seq<Slot<L>>)
    requires Distinct(order)
    ensures |Codes(order)| == |order|
  {
    if order != [] {
      var init := order[..|order| - 1];
      DistinctCount(init);
      assert Codes(order) == Codes(init) + {order[|order| - 1].code};
    }
  }

  // -------------------------------------------------------------- theorems

  /** A hit returns the last entry put under the code, still unexpired. */
  lemma HitReturnsLastPut<L>(ops: seq<Op<L>>, cap: nat, code: Code, now: int)
    requires 1 <= cap
    requires GetStep(Run(ops, cap), code, now).1.Some?
    ensures GetStep(Run(ops, cap), code, now).1 == LastPut(ops, code)
    ensures now <= LastPut(ops, code).value.expires
  {
    SlotIsLastPut(ops, cap, Find(Run(ops, cap), code));
  }

  /** At the moment `code` is evicted, `cap` distinct other codes were used since. */
  lemma EvictionNeedsCapCodes<L>(ops: seq<Op<L>>, cap: nat, newCode: Code, entry: Entry<L>, i: nat)
    requires 1 <= cap && i < |Run(ops, cap)|
    requires newCode != Run(ops, cap)[i].code
    requires !Holds(PutStep(Run(ops, cap), cap, newCode, entry), Run(ops, cap)[i].code)
    ensures cap <= |UsedSince(ops, cap, Run(ops, cap)[i].code) + {newCode}|
  {
    var order := Run(ops, cap);
    RunKeepsShape(ops, cap);
    EvictsOnlyTheLast(order, cap, newCode, entry, i);
    var front := order[..i];
    forall c | c in Codes(front) ensures c in UsedSince(ops, cap, order[i].code) {
      var j :| 0 <= j < |front| && front[j].code == c;
      FrontWasUsed(ops, cap, i, j);
    }
    DistinctCount(front);
    assert newCode !in Codes(front);
    Sets.SubsetSize(Codes(front) + {newCode}, UsedSince(ops, cap, order[i].code) + {newCode});
  }

  /** `put` drops a slot only when the shard is full, the code is new and the slot is the last. */
  lemma EvictsOnlyTheLast<L>(order: seq<Slot<L>>, cap: nat, newCode: Code, entry: Entry<L>, i: nat)
    requires Distinct(order) && |order| <= cap && i < |order| && newCode != order[i].code
    ensures Holds(PutStep(order, cap, newCode, entry), order[i].code) <==> i < cap - 1 || Holds(order, newCode)
  {
    var after, f := PutStep(order, cap, newCode, entry), Find(order, newCode);
    if f < |order| {
      RemovalKeepsOthers(order, newCode, i);
      var w := Without(order, newCode);
      var k :| 0 <= k < |w| && w[k].code == order[i].code;
      assert after[k + 1].code == order[i].code;
    } else if i < cap - 1 {
      assert after[i + 1].code == order[i].code;
    }
  }

  /**
   An unexpired entry is still there unless at least `cap` distinct other codes
   of the shard were used since its own last use.
   */
  lemma {:induction false} EntrySurvives<L>(ops: seq<Op<L>>, cap: nat, code: Code, now: int)
    requires 1 <= cap && UpTo(ops, now)
    requires LastPut(ops, code).Some? && now <= LastPut(ops, code).value.expires
    requires |UsedSince(ops, cap, code)| < cap
    ensures Holds(Run(ops, cap), code)
  {
    var before, op := ops[..|ops| - 1], ops[|ops| - 1];
    var order := Run(before, cap);
    RunKeepsShape(before, cap);
    if Touched(order, op) == Some(code) {
      TouchedIsFirst(order, cap, op);
    } else {
      Sets.SubsetSize(UsedSince(before, cap, code), UsedSince(ops, cap, code));
      EntrySurvives(before, cap, code, now);
      var i :| 0 <= i < |order| && order[i].code == code;
      SlotIsLastPut(before, cap, i);
      FindUnique(order, i);
      if op.Put? {
        if !Holds(Run(ops, cap), code) { EvictionNeedsCapCodes(before, cap, op.code, op.entry, i); }
      } else {
        LookupKeepsOthers(order, cap, op, i);
      }
    }
  }

  lemma LookupKeepsOthers<L>(order: seq<Slot<L>>, cap: nat, op: Op<L>, i: nat)
    requires Distinct(order) && i < |order| && order[i].code != op.code && !op.Put?
    ensures Holds(Step(order, cap, op), order[i].code)
  {
    match op
    case Invalidate(code) =>
      RemovalKeepsOthers(order, code, i);
      assert Step(order, cap, op) == Without(order, code);
    case Get(code, now) =>
      GetKeepsOthers(order, code, now, i);
      assert Step(order, cap, op) == GetStep(order, code, now).0;
  }

  lemma GetKeepsOthers<L>(order: seq<Slot<L>>, code: Code, now: int, i: nat)
    requires Distinct(order) && i < |order| && order[i].code != code
    ensures Holds(GetStep(order, code, now).0, order[i].code)
  {
    var w, after := Without(order, code), GetStep(order, code, now).0;
    var f := Find(order, code);
    if f == |order| {
      assert after[i].code == order[i].code;
    } else {
      RemovalKeepsOthers(order, code, i);
      if now <= order[f].entry.expires {
        var k :| 0 <= k < |w| && w[k].code == order[i].code;
        assert after == [order[f]] + w;
        assert after[k + 1] == w[k];
      }
    }
  }

  lemma RemovalKeepsOthers<L>(order: seq<Slot<L>>, code: Code, i: nat)
    requires i < |order| && order[i].code != code
    ensures Holds(Without(order, code), order[i].code)
  {
    var w, f := Without(order, code), Find(order, code);
    if i < f { assert w[i] == order[i]; } else { assert w[i - 1] == order[i]; }
  }

  /** Both directions together: with few enough codes used, a lookup hits exactly the last put. */
  lemma LookupIsLastPut<L>(ops: seq<Op<L>>, cap: nat, code: Code, now: int)
    requires 1 <= cap && UpTo(ops, now)
    requires |UsedSince(ops, cap, code)| < cap
    ensures GetStep(Run(ops, cap), code, now).1 ==
            match LastPut(ops, code)
            case None => None
            case Some(e) => if now <= e.expires then Some(e) else None
  {
    var order := Run(ops, cap);
    RunKeepsShape(ops, cap);
    if GetStep(order, code, now).1.Some? {
      HitReturnsLastPut(ops, cap, code, now);
    } else if LastPut(ops, code).Some? && now <= LastPut(ops, code).value.expires {
      EntrySurvives(ops, cap, code, now);
      var i :| 0 <= i < |order| && order[i].code == code;
      FindUnique(order, i);
      SlotIsLastPut(ops, cap, i);
      assert false;
    }
  }
}
