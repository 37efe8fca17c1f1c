/**
 The redirect cache as it runs: heap nodes reached both through a map and
 through a recency list, sixty-four shards of them. Each method computes the
 corresponding step of `Lru` and `CacheSpec`.
 */
module Cache {
  import opened Wrappers
  import opened Bytes
  import opened Lru
  import CacheSpec

  const SECOND: int := 1_000_000_000
  const DEFAULT_TTL: int := 300 * SECOND
  const NEGATIVE_TTL: int := 60 * SECOND

  class Node<L> {
    const code: Code
    var entry: Entry<L>

    constructor (code: Code, entry: Entry<L>)
      ensures this.code == code && this.entry == entry
    {
      this.code, this.entry := code, entry;
    }
  }

  /** The position of `el` in a list, or the length of the list. */
  function IndexOf<T(==)>(s: seq<T>, el: T): (i: nat)
    ensures i <= |s|
    ensures i < |s| ==> s[i] == el
    ensures forall j :: 0 <= j < i ==> s[j] != el
  {
    if s == [] then 0 else if s[0] == el then 0 else 1 + IndexOf(s[1..], el)
  }

  /** The list without `el`, as the linked list's Remove leaves it. */
  function Unlink<T(==)>(s: seq<T>, el: T): (r: seq<T>)
    ensures |r| == if IndexOf(s, el) < |s| then |s| - 1 else |s|
    ensures forall m :: 0 <= m < |r| ==> r[m] == s[if m < IndexOf(s, el) then m else m + 1]
  {
    if s == [] then [] else if s[0] == el then s[1..] else [s[0]] + Unlink(s[1..], el)
  }

  lemma UnlinkKeepsOthers<T>(s: seq<T>, el: T, x: T)
    requires x in s && x != el
    ensures x in Unlink(s, el)
  {
    var j :| 0 <= j < |s| && s[j] == x;
    assert Unlink(s, el)[if j < IndexOf(s, el) then j else j - 1] == x;
  }

  /** The map and the list hold the same nodes, exactly one per code. */
  ghost predicate Linked<L>(items: map<Code, Node<L>>, order: seq<Node<L>>) {
    && (forall n :: n in order ==> n.code in items && items[n.code] == n)
    && (forall i, j :: 0 <= i < j < |order| ==> order[i] != order[j])
    && (forall c :: c in items ==> items[c].code == c && items[c] in order)
  }

  lemma LinkedUnlink<L>(items: map<Code, Node<L>>, order: seq<Node<L>>, el: Node<L>)
    requires Linked(items, order) && el in order
    ensures var rest := Unlink(order, el);
            && el !in rest && (forall n :: n in order <==> n in rest || n == el)
            && (forall i, j :: 0 <= i < j < |rest| ==> rest[i] != rest[j])
  {
    var rest, f := Unlink(order, el), IndexOf(order, el);
    forall n | n in order && n != el ensures n in rest {
      UnlinkKeepsOthers(order, el, n);
    }
    forall i, j | 0 <= i < j < |rest| ensures rest[i] != rest[j] {
      assert rest[i] == order[if i < f then i else i + 1] && rest[j] == order[if j < f then j else j + 1];
    }
  }

  lemma LinkedPush<L>(items: map<Code, Node<L>>, order: seq<Node<L>>, el: Node<L>)
    requires Linked(items, order) && el.code !in items
    ensures Linked(items[el.code := el], [el] + order)
  {
    var all := [el] + order;
    assert forall n :: n in all <==> n == el || n in order;
  }

  lemma LinkedDrop<L>(items: map<Code, Node<L>>, order: seq<Node<L>>, el: Node<L>)
    requires Linked(items, order) && el in order
    ensures Linked(items - {el.code}, Unlink(order, el))
  {
    LinkedUnlink(items, order, el);
  }

  lemma LinkedToFront<L>(items: map<Code, Node<L>>, order: seq<Node<L>>, el: Node<L>)
    requires Linked(items, order) && el in order
    ensures Linked(items, [el] + Unlink(order, el))
    ensures forall n :: n in order <==> n in [el] + Unlink(order, el)
  {
    LinkedUnlink(items, order, el);
    var rest := Unlink(order, el);
    assert forall n :: n in [el] + rest <==> n == el || n in rest;
  }

  /** Cutting off the last node is unlinking it. */
  lemma UnlinkLast<L>(items: map<Code, Node<L>>, order: seq<Node<L>>)
    requires Linked(items, order) && order != []
    ensures Unlink(order, order[|order| - 1]) == order[..|order| - 1]
  {
    var el := order[|order| - 1];
    assert IndexOf(order, el) == |order| - 1;
  }

  /** What a recency list holds, most recent first. */
  ghost function Slots<L>(order: seq<Node<L>>): (v: seq<Slot<L>>)
    reads order
    ensures |v| == |order|
    ensures forall i :: 0 <= i < |order| ==> v[i] == Slot(order[i].code, order[i].entry)
  {
    seq(|order|, i requires 0 <= i < |order| reads order => Slot(order[i].code, order[i].entry))
  }

  lemma SlotsDistinct<L>(items: map<Code, Node<L>>, order: seq<Node<L>>)
    requires Linked(items, order)
    ensures Distinct(Slots(order))
  {
    forall i, j | 0 <= i < j < |order| ensures order[i].code != order[j].code {
      assert order[i] in order && order[j] in order;
    }
  }

  /** The node the map gives for a code stands where the policy finds the code. */
  lemma MapFindsTheSlot<L>(items: map<Code, Node<L>>, order: seq<Node<L>>, code: Code)
    requires Linked(items, order)
    ensures code in items <==> Find(Slots(order), code) < |order|
    ensures code in items ==> IndexOf(order, items[code]) == Find(Slots(order), code)
  {
    if code in items {
      var i := IndexOf(order, items[code]);
      assert Slots(order)[i].code == code;
      SlotsDistinct(items, order);
      FindUnique(Slots(order), i);
    }
  }

  /** Unlinking a node is the policy's removal of its code. */
  lemma SlotsUnlink<L>(items: map<Code, Node<L>>, order: seq<Node<L>>, el: Node<L>)
    requires Linked(items, order) && el in order
    ensures Slots(Unlink(order, el)) == Without(Slots(order), el.code)
  {
    MapFindsTheSlot(items, order, el.code);
  }

  lemma SlotsCons<L>(el: Node<L>, order: seq<Node<L>>)
    ensures Slots([el] + order) == [Slot(el.code, el.entry)] + Slots(order)
  {
  }

  /** The list after a move to the front, in one step. */
  lemma SlotsToFront<L>(items: map<Code, Node<L>>, order: seq<Node<L>>, el: Node<L>, moved: seq<Node<L>>)
    requires Linked(items, order) && el in order && moved == [el] + Unlink(order, el)
    ensures Linked(items, moved) && |moved| == |order|
    ensures forall n :: n in order <==> n in moved
    ensures Slots(moved) == ToFront(Slots(order), Slot(el.code, el.entry))
  {
    LinkedToFront(items, order, el);
    SlotsUnlink(items, order, el);
    SlotsCons(el, Unlink(order, el));
    assert IndexOf(order, el) < |order|;
  }

  class Shard<L> {
    var items: map<Code, Node<L>>
    var order: seq<Node<L>>
    const cap: nat

    ghost predicate Valid()
      reads this
    {
      1 <= cap && |order| <= cap && Linked(items, order)
    }

    ghost function View(): seq<Slot<L>>
      reads this, order
    {
      Slots(order)
    }

    constructor (cap: nat)
      requires 1 <= cap
      ensures Valid() && View() == [] && order == [] && this.cap == cap
    {
      items, order, this.cap := map[], [], cap;
    }

    /** Removing a node from both structures. */
    method Drop(code: Code)
      requires Valid() && code in items
      modifies this
      ensures Valid() && View() == Without(old(View()), code)
      ensures forall n :: n in order ==> n in old(order)
    {
      var el := items[code];
      LinkedDrop(items, order, el);
      LinkedUnlink(items, order, el);
      SlotsUnlink(items, order, el);
      order, items := Unlink(order, el), items - {code};
    }

    /** Moving a node to the front, after its entry may have been replaced. */
    method MoveToFront(el: Node<L>)
      requires Valid() && el in order
      modifies this
      ensures Valid() && View() == ToFront(old(View()), Slot(el.code, el.entry))
      ensures forall n :: n in order <==> n in old(order)
    {
      var moved := [el] + Unlink(order, el);
      SlotsToFront(items, order, el, moved);
      order := moved;
    }

    method Get(code: Code, now: int) returns (hit: Option<Entry<L>>)
      requires Valid()
      modifies this
      ensures Valid() && (View(), hit) == GetStep(old(View()), code, now)
      ensures forall n :: n in order ==> n in old(order)
    {
      MapFindsTheSlot(items, order, code);
      if code !in items {
        return None;
      }
      var el := items[code];
      if now > el.entry.expires {
        Drop(code);
        return None;
      }
      MoveToFront(el);
      return Some(el.entry);
    }

    method Put(code: Code, entry: Entry<L>)
      requires Valid()
      modifies this, order
      ensures Valid() && View() == PutStep(old(View()), cap, code, entry)
      ensures forall n :: n in order ==> n in old(order) || fresh(n)
    {
      MapFindsTheSlot(items, order, code);
      if code in items {
        items[code].entry := entry;
        MapFindsTheSlot(items, order, code);
        assert Without(View(), code) == Without(old(View()), code);
        MoveToFront(items[code]);
      } else {
        Push(code, entry);
      }
    }

    /** A new node in front; the last one goes when the shard is over capacity. */
    method Push(code: Code, entry: Entry<L>)
      requires Valid() && code !in items
      modifies this
      ensures Valid()
      ensures View() == var all := [Slot(code, entry)] + old(View()); if |all| > cap then all[..|all| - 1] else all
      ensures forall n :: n in order ==> n in old(order) || fresh(n)
    {
      var el := new Node(code, entry);
      var pushed := [el] + order;
      LinkedPush(items, order, el);
      SlotsCons(el, order);
      order, items := pushed, items[code := el];
      assert Linked(items, order) && View() == [Slot(code, entry)] + old(View());
      if |order| > cap {
        CutLast();
      }
    }

    /** Dropping the node at the back of the list. */
    method CutLast()
      requires order != [] && Linked(items, order) && |order| == cap + 1 && 1 <= cap
      modifies this
      ensures Valid() && order == old(order[..|order| - 1]) && View() == old(View()[..|order| - 1])
    {
      UnlinkLast(items, order);
      LinkedDrop(items, order, order[|order| - 1]);
      assert Slots(order[..|order| - 1]) == Slots(order)[..|order| - 1];
      items := items - {order[|order| - 1].code};
      order := order[..|order| - 1];
    }

    method Invalidate(code: Code)
      requires Valid()
      modifies this
      ensures Valid() && View() == Without(old(View()), code)
      ensures forall n :: n in order ==> n in old(order)
    {
      MapFindsTheSlot(items, order, code);
      if code in items {
        Drop(code);
      } else {
        WithoutAbsent(View(), code);
      }
    }
  }

  lemma WithoutAbsent<L>(order: seq<Slot<L>>, code: Code)
    requires Find(order, code) == |order|
    ensures Without(order, code) == order
  {
  }

  /** Lowercases ASCII letters; a code without capitals is returned as it is. */
  method ToLower(s: Code) returns (r: Code)
    ensures r == CacheSpec.Lower(s) && |r| == |s|
    ensures forall i :: 0 <= i < |s| ==> r[i] == if 65 <= s[i] <= 90 then s[i] + 32 else s[i]
  {
    var upper, i := false, 0;
    while i < |s| && !upper
      invariant 0 <= i <= |s|
      invariant !upper ==> forall j :: 0 <= j < i ==> CacheSpec.LowerByte(s[j]) == s[j]
    {
      if 'A' as int <= s[i] <= 'Z' as int {
        upper := true;
      }
      i := i + 1;
    }
    if !upper {
      assert CacheSpec.Lower(s) == s;
      return s;
    }
    var b := s;
    for k := 0 to |s|
      invariant |b| == |s|
      invariant forall j :: 0 <= j < k ==> b[j] == CacheSpec.LowerByte(s[j])
      invariant forall j :: k <= j < |s| ==> b[j] == s[j]
    {
      if 'A' as int <= b[k] <= 'Z' as int {
        b := b[k := b[k] + 32];
      }
    }
    return b;
  }

  /** FNV-1a, inlined over the bytes of the code, modulo the shard count. */
  method ShardFor(code: Code) returns (i: nat)
    ensures i == CacheSpec.ShardOf(code)
  {
    var h: nat := 2166136261;
    for k := 0 to |code|
      invariant h == CacheSpec.Fnv1a(code[..k])
    {
      assert code[..k + 1][..k] == code[..k];
      h := Xor(h, code[k]) * 16777619 % TWO_32;
    }
    assert code[..|code|] == code;
    return h % CacheSpec.SHARD_COUNT;
  }

  /** The key of a code and the shard that holds it. */
  method Locate(code: Code) returns (key: Code, i: nat)
    ensures key == CacheSpec.Lower(code) && i == CacheSpec.ShardOf(key)
  {
    key := ToLower(code);
    i := ShardFor(key);
  }

  function PerShard(totalCapacity: int): int {
    var total := if totalCapacity <= 0 then 50000 else totalCapacity;
    if total / CacheSpec.SHARD_COUNT < 16 then 16 else total / CacheSpec.SHARD_COUNT
  }

  ghost function AllNodes<L>(shards: seq<Shard<L>>): set<Node<L>>
    reads shards
  {
    set i, n | 0 <= i < |shards| && n in shards[i].order :: n
  }

  /** The recency lists of the shards, in shard order. */
  ghost function Views<L>(shards: seq<Shard<L>>): (v: seq<seq<Slot<L>>>)
    reads shards, AllNodes(shards)
    ensures |v| == |shards|
    ensures forall i :: 0 <= i < |shards| ==> v[i] == shards[i].View()
  {
    if shards == [] then []
    else
      var init, last := shards[..|shards| - 1], shards[|shards| - 1];
      assert AllNodes(init) <= AllNodes(shards) && forall n :: n in last.order ==> n in AllNodes(shards);
      Views(init) + [last.View()]
  }

  class Cache<L> {
    const shards: seq<Shard<L>>
    const capacity: nat

    ghost function Nodes(): set<Node<L>>
      reads shards
    {
      AllNodes(shards)
    }

    ghost predicate Valid()
      reads shards
    {
      && |shards| == CacheSpec.SHARD_COUNT && 1 <= capacity
      && (forall i :: 0 <= i < |shards| ==> shards[i].Valid() && shards[i].cap == capacity)
      && (forall i, j :: 0 <= i < j < |shards| ==> shards[i] != shards[j] && Apart(shards[i], shards[j]))
    }

    static ghost predicate Apart(a: Shard<L>, b: Shard<L>)
      reads a, b
    {
      forall n :: n in a.order ==> n !in b.order
    }

    ghost function View(): CacheSpec.Cache<L>
      requires Valid()
      reads shards, Nodes()
    {
      CacheSpec.Cache(Views(shards), capacity)
    }

    constructor (totalCapacity: int)
      ensures Valid() && |shards| == 64
      ensures capacity == if totalCapacity <= 0 then 781 else if totalCapacity < 1024 then 16 else totalCapacity / 64
      ensures fresh(shards) && Nodes() == {}
      ensures View() == CacheSpec.Empty(capacity)
    {
      var perShard := PerShard(totalCapacity);
      var made: seq<Shard<L>> := [];
      while |made| < CacheSpec.SHARD_COUNT
        invariant |made| <= CacheSpec.SHARD_COUNT
        invariant fresh(made)
        invariant forall i :: 0 <= i < |made| ==> made[i].Valid() && made[i].order == [] && made[i].cap == perShard
        invariant forall i, j :: 0 <= i < j < |made| ==> made[i] != made[j]
      {
        var sh := new Shard<L>(perShard);
        made := made + [sh];
      }
      shards, capacity := made, perShard;
      new;
      assert forall i :: 0 <= i < |shards| ==> shards[i].View() == [];
    }

    lemma NodesOfOthers(i: nat)
      requires Valid() && i < |shards|
      ensures forall n :: n in shards[i].order ==> n in Nodes()
      ensures forall j, n :: 0 <= j < |shards| && j != i && n in shards[j].order ==> n !in shards[i].order
    {
      forall j, n | 0 <= j < |shards| && j != i && n in shards[j].order ensures n !in shards[i].order {
        if i < j { assert Apart(shards[i], shards[j]); } else { assert Apart(shards[j], shards[i]); }
      }
    }

    /** A change confined to one shard is that change in the view of the whole cache. */
    twostate lemma OneShardChanged(i: nat, new order: seq<Slot<L>>)
      requires old(Valid()) && i < |shards|
      requires shards[i].Valid() && shards[i].View() == order
      requires forall n :: n in shards[i].order ==> n in old(shards[i].order) || fresh(n)
      requires forall j :: 0 <= j < |shards| && j != i ==> unchanged(shards[j])
      requires forall j, n :: 0 <= j < |shards| && j != i && n in old(shards[j].order) ==> unchanged(n)
      ensures Valid()
      ensures View() == CacheSpec.WithShard(old(View()), i, order)
      ensures forall n :: n in Nodes() ==> n in old(Nodes()) || (n in shards[i].order && n !in old(shards[i].order))
    {
      forall j | 0 <= j < |shards| && j != i
        ensures shards[j].Valid() && shards[j].View() == old(shards[j].View())
        ensures Apart(shards[i], shards[j]) && Apart(shards[j], shards[i])
      {
        forall n | n in shards[j].order ensures n !in shards[i].order {
          if i < j { assert old(Apart(shards[i], shards[j])); } else { assert old(Apart(shards[j], shards[i])); }
        }
        assert shards[j].View() == old(shards[j].View());
      }
      forall j, k | 0 <= j < k < |shards| ensures Apart(shards[j], shards[k]) {
        if j != i && k != i { assert old(Apart(shards[j], shards[k])); }
      }
      assert View().shards == old(View()).shards[i := order];
    }

    method Get(code: Code, now: int) returns (hit: Option<Entry<L>>)
      requires Valid()
      modifies shards
      ensures Valid() && hit == CacheSpec.Lookup(old(View()), code, now)
      ensures View() == CacheSpec.Apply(old(View()), Lru.Get(code, now))
      ensures Nodes() <= old(Nodes())
    {
      var key, i := Locate(code);
      CacheSpec.ApplyIsOneShard(View(), Lru.Get(code, now), key);
      hit := GetIn(i, key, now);
    }

    method GetIn(i: nat, key: Code, now: int) returns (hit: Option<Entry<L>>)
      requires Valid() && i < |shards|
      modifies shards
      ensures Valid() && hit == GetStep(old(View()).shards[i], key, now).1
      ensures View() == CacheSpec.WithShard(old(View()), i, GetStep(old(View()).shards[i], key, now).0)
      ensures Nodes() <= old(Nodes())
    {
      hit := shards[i].Get(key, now);
      OneShardChanged(i, shards[i].View());
    }

    method Put(code: Code, link: L, now: int)
      requires Valid()
      modifies shards, Nodes()
      ensures Valid()
      ensures View() == CacheSpec.Apply(old(View()), Lru.Put(code, Entry(Some(link), now + DEFAULT_TTL)))
      ensures forall n :: n in Nodes() ==> n in old(Nodes()) || fresh(n)
    {
      Store(code, Entry(Some(link), now + DEFAULT_TTL));
    }

    method PutMissing(code: Code, now: int)
      requires Valid()
      modifies shards, Nodes()
      ensures Valid()
      ensures View() == CacheSpec.Apply(old(View()), Lru.Put(code, Entry(None, now + NEGATIVE_TTL)))
      ensures forall n :: n in Nodes() ==> n in old(Nodes()) || fresh(n)
    {
      Store(code, Entry(None, now + NEGATIVE_TTL));
    }

    method Store(code: Code, entry: Entry<L>)
      requires Valid()
      modifies shards, Nodes()
      ensures Valid() && View() == CacheSpec.Apply(old(View()), Lru.Put(code, entry))
      ensures forall n :: n in Nodes() ==> n in old(Nodes()) || fresh(n)
    {
      var key, i := Locate(code);
      CacheSpec.ApplyIsOneShard(View(), Lru.Put(code, entry), key);
      StoreIn(i, key, entry);
    }

    method StoreIn(i: nat, key: Code, entry: Entry<L>)
      requires Valid() && i < |shards|
      modifies shards, Nodes()
      ensures Valid()
      ensures View() == CacheSpec.WithShard(old(View()), i, PutStep(old(View()).shards[i], capacity, key, entry))
      ensures forall n :: n in Nodes() ==> n in old(Nodes()) || fresh(n)
    {
      NodesOfOthers(i);
      shards[i].Put(key, entry);
      OneShardChanged(i, shards[i].View());
    }

    method Invalidate(code: Code)
      requires Valid()
      modifies shards
      ensures Valid() && View() == CacheSpec.Apply(old(View()), Lru.Invalidate(code))
      ensures Nodes() <= old(Nodes())
    {
      var key, i := Locate(code);
      CacheSpec.ApplyIsOneShard(View(), Lru.Invalidate(code), key);
      InvalidateIn(i, key);
    }

    method InvalidateIn(i: nat, key: Code)
      requires Valid() && i < |shards|
      modifies shards
      ensures Valid()
      ensures View() == CacheSpec.WithShard(old(View()), i, Without(old(View()).shards[i], key))
      ensures Nodes() <= old(Nodes())
    {
      shards[i].Invalidate(key);
      OneShardChanged(i, shards[i].View());
    }

    method Len() returns (n: nat)
      requires Valid()
      ensures n == CacheSpec.Size(View().shards)
      ensures n <= 64 * capacity
    {
      n := 0;
      for i := 0 to |shards|
        invariant n == CacheSpec.Size(View().shards[..i]) && n <= i * capacity
      {
        assert View().shards[..i + 1][..i] == View().shards[..i];
        n := n + |shards[i].order|;
      }
      assert View().shards[..|shards|] == View().shards;
    }
  }
}
