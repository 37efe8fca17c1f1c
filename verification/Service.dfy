/**
 The link service as it runs: the links table, the heap cache and the table of
 live click counters. Each method is proved to compute the step of `Resolver`,
 or the uninterrupted call of `CounterRace`, that the theorems speak about.
 */
module Service {
  import opened Wrappers
  import opened Lru
  import opened CacheSpec
  import opened Links
  import opened Resolver
  import Cache
  import CounterRace
  import PruneCycle

  class HitCounter {
    var n: int
    var last: int

    constructor (n: int)
      ensures this.n == n
    {
      this.n, last := n, 0;
    }

    /** One call that nothing interrupts: add, compare, and take back when that went over the limit. */
    method Reserve(max: int, now: int) returns (ok: bool)
      modifies this
      ensures ok <==> old(n) + 1 <= max
      ensures n == (if ok then old(n) + 1 else old(n)) && last == now
    {
      last := now;
      n := n + 1;
      ok := n <= max;
      if !ok {
        n := n - 1;
      }
    }
  }

  class LinkService {
    var rows: Table
    const cache: Cache.Cache<Link>
    var hits: map<string, HitCounter>

    constructor (capacity: int)
      ensures cache.Valid() && rows == map[] && hits == map[] && fresh(cache)
      ensures Coherent(State())
    {
      cache := new Cache.Cache<Link>(capacity);
      rows, hits := map[], map[];
      new;
      assert State().cache == Empty(cache.capacity);
    }

    ghost function State(): Svc
      requires cache.Valid()
      reads this, cache.shards, cache.Nodes()
    {
      Svc(rows, cache.View())
    }

    // ---------------------------------------------------------- the table

    method CodeTaken(code: Code) returns (taken: bool)
      ensures taken <==> CodeExists(rows, code)
      ensures taken <==> exists id :: id in rows && SameButForCase(rows[id].code, code)
    {
      FreeIffNoRowHasIt(rows, code);
      var ids := set id | id in rows && Lower(rows[id].code) == Lower(code);
      taken := ids != {};
      if taken {
        var id :| id in ids;
        assert HasCode(rows, id, code);
      } else {
        assert forall id :: HasCode(rows, id, code) ==> id in ids;
      }
    }

    /** An exact match first, then a match in any casing. */
    method GetLink(code: Code) returns (l: Option<Link>)
      requires WellFormed(rows)
      ensures l == GetLinkByCode(rows, code)
      ensures l.None? <==> forall id :: id in rows ==> !SameButForCase(rows[id].code, code)
      ensures forall id :: id in rows && SameButForCase(rows[id].code, code) ==> l == Some(rows[id])
    {
      FoundByAnyCasing(rows, code);
      FoundButForCase(rows, code);
      var exact := set id | id in rows && rows[id].code == code;
      if exact != {} {
        var id :| id in exact;
        assert HasCode(rows, id, code);
        return Some(rows[id]);
      }
      var folded := set id | id in rows && Lower(rows[id].code) == Lower(code);
      if folded != {} {
        var id :| id in folded;
        assert HasCode(rows, id, code);
        return Some(rows[id]);
      }
      assert forall id :: HasCode(rows, id, code) ==> id in folded;
      return None;
    }

    /** The insert fails when the id or the code is already there. */
    method CreateLink(l: Link) returns (ok: bool)
      modifies this`rows
      ensures ok <==> l.id !in old(rows) && !CodeExists(old(rows), l.code)
      ensures rows == if ok then old(rows)[l.id := l] else old(rows)
    {
      var taken := CodeTaken(l.code);
      ok := l.id !in rows && !taken;
      if ok {
        rows := rows[l.id := l];
      }
    }

    // ------------------------------------------------------- the requests

    /** `dbUp` is whether the database answers; if it does not, nothing is cached. */
    method ResolveForRedirect(code: Code, now: int, landed: int, dbUp: bool) returns (ok: bool, l: Option<Link>)
      requires cache.Valid() && WellFormed(rows)
      modifies cache.shards, cache.Nodes()
      ensures cache.Valid() && (ok <==> dbUp || Lookup(old(cache.View()), code, now).Some?)
      ensures ok ==> (State(), l) == ResolveStep(old(State()), code, now, landed)
      ensures !ok ==> l.None? && State() == Svc(old(rows), CacheSpec.Apply(old(cache.View()), Get(code, now)))
      ensures Lookup(old(cache.View()), code, now).Some? ==> l == Lookup(old(cache.View()), code, now).value.link
      ensures ok && Lookup(old(cache.View()), code, now).None? ==>
                && (l.None? <==> forall id :: id in rows ==> !SameButForCase(rows[id].code, code))
                && forall id :: id in rows && SameButForCase(rows[id].code, code) ==> l == Some(rows[id])
    {
      var e := cache.Get(code, now);
      if e.Some? {
        return true, e.value.link;
      }
      if !dbUp {
        return false, None;
      }
      l := Load(code, landed);
      ok := true;
    }

    /** A miss: read the row and put it, or its absence, into the cache. */
    method Load(code: Code, landed: int) returns (l: Option<Link>)
      requires cache.Valid() && WellFormed(rows)
      modifies cache.shards, cache.Nodes()
      ensures cache.Valid() && l == GetLinkByCode(rows, code)
      ensures cache.View() == Loaded(old(cache.View()), code, l, landed)
      ensures l.None? <==> forall id :: id in rows ==> !SameButForCase(rows[id].code, code)
      ensures forall id :: id in rows && SameButForCase(rows[id].code, code) ==> l == Some(rows[id])
    {
      l := GetLink(code);
      PutFound(code, l, landed);
    }

    method PutFound(code: Code, l: Option<Link>, landed: int)
      requires cache.Valid()
      modifies cache.shards, cache.Nodes()
      ensures cache.Valid() && cache.View() == Loaded(old(cache.View()), code, l, landed)
    {
      if l.None? {
        cache.PutMissing(code, landed);
      } else {
        cache.Put(l.value.code, l.value, landed);
      }
    }

    /** Insert the link, then drop any negative entry an earlier miss left for its code. */
    method TryCreate(l: Link) returns (ok: bool)
      requires cache.Valid()
      modifies this`rows, cache.shards
      ensures cache.Valid()
      ensures ok <==> l.id !in old(rows) && !CodeExists(old(rows), l.code)
      ensures rows == if ok then old(rows)[l.id := l] else old(rows)
      ensures cache.View() == if ok then Invalidated(old(cache.View()), l.code) else old(cache.View())
    {
      ok := CreateLink(l);
      assert cache.Valid() && cache.View() == old(cache.View());
      if ok {
        cache.Invalidate(l.code);
      }
    }

    /**
     A custom alias is one attempt; generated codes are tried in turn. The
     first `reached` attempts reach the database; a failure ends the creation.
     */
    method Create(id: string, details: Details, attempts: seq<Option<Code>>, reached: nat)
      returns (ok: bool, ghost used: nat)
      requires cache.Valid() && reached <= |attempts|
      modifies this`rows, cache.shards
      ensures cache.Valid() && State() == CreateStep(old(State()), id, details, attempts[..reached])
      ensures ok ==> used < reached && Usable(old(rows), attempts[used]) && id !in old(rows)
      ensures ok ==> rows == old(rows)[id := Link(id, attempts[used].value, details, 0, None)]
      ensures ok ==> forall j :: 0 <= j < used ==> !Usable(old(rows), attempts[j])
      ensures !ok ==> rows == old(rows)
      ensures !ok && id !in old(rows) ==> forall j :: 0 <= j < reached ==> !Usable(old(rows), attempts[j])
    {
      ghost var tried := attempts[..reached];
      var i := 0;
      while i < reached
        invariant 0 <= i <= reached && cache.Valid()
        invariant rows == old(rows) && cache.View() == old(cache.View())
        invariant id !in rows ==> FirstFree(rows, tried) == FirstFree(rows, tried[i..])
        invariant id !in rows ==> forall j :: 0 <= j < i ==> !Usable(rows, attempts[j])
      {
        assert tried[i..][0] == attempts[i] && tried[i..][1..] == tried[i + 1..];
        if attempts[i].Some? {
          FreeIffNoRowHasIt(rows, attempts[i].value);
          var inserted := TryCreate(Link(id, attempts[i].value, details, 0, None));
          if inserted {
            return true, i;
          }
        }
        i := i + 1;
      }
      return false, i;
    }

    /** The edited link, or a refusal; nothing is stored yet. */
    method Edit(id: string, patch: Patch, valid: bool) returns (ok: bool, l: Link)
      requires id in rows
      ensures ok <==> UpdateAccepted(rows, id, patch, valid)
      ensures ok ==> l == Edited(rows[id], patch)
    {
      var refused := !valid;
      l := rows[id];
      if patch.code.Some? && patch.code.value != l.code {
        var taken := CodeTaken(patch.code.value);
        if taken {
          refused := true;
        } else {
          l := l.(code := patch.code.value);
        }
      }
      l := l.(details := Merge(l.details, patch));
      ok := !refused;
    }

    /** `valid` is whether the other fields pass validation, `writes` whether the database does its part. */
    method Update(id: string, patch: Patch, valid: bool, writes: bool) returns (ok: bool)
      requires cache.Valid()
      modifies this`rows, this`hits, cache.shards
      ensures cache.Valid() && State() == UpdateStep(old(State()), id, patch, valid && writes)
      ensures ok <==> && id in old(rows) && valid && writes
                      && (patch.code.None? || patch.code.value == old(rows)[id].code || Usable(old(rows), patch.code))
      ensures ok ==> id in rows && Takes(old(rows)[id], patch, rows[id]) && OthersStay(old(rows), rows, id)
      ensures !ok ==> rows == old(rows)
      ensures hits == if ok then old(hits) - {id} else old(hits)
    {
      if patch.code.Some? { FreeIffNoRowHasIt(rows, patch.code.value); }
      if id !in rows {
        return false;
      }
      var oldCode := rows[id].code;
      var accepted, l := Edit(id, patch, valid);
      assert cache.Valid() && cache.View() == old(cache.View());
      if accepted && writes {
        Save(id, l, oldCode);
      }
      return accepted && writes;
    }

    /** Store the row first, then forget its counter and both its codes. */
    method Save(id: string, l: Link, oldCode: Code)
      requires cache.Valid()
      modifies this`rows, this`hits, cache.shards
      ensures cache.Valid() && rows == old(rows)[id := l] && hits == old(hits) - {id}
      ensures cache.View() == BothInvalidated(old(cache.View()), oldCode, l.code)
    {
      rows := rows[id := l];
      hits := hits - {id};
      assert cache.Valid() && cache.View() == old(cache.View());
      InvalidateBoth(oldCode, l.code);
    }

    method InvalidateBoth(before: Code, after: Code)
      requires cache.Valid()
      modifies cache.shards
      ensures cache.Valid() && cache.View() == BothInvalidated(old(cache.View()), before, after)
    {
      cache.Invalidate(before);
      if after != before {
        cache.Invalidate(after);
      }
    }

    /** Sets or clears the deletion mark of the row, if there is one; the cache is not touched. */
    method Mark(id: string, deletedAt: Option<int>)
      requires cache.Valid()
      modifies this`rows
      ensures rows == Marked(old(rows), id, deletedAt)
      ensures cache.Valid() && cache.View() == old(cache.View())
    {
      if id in rows {
        rows := rows[id := rows[id].(deletedAt := deletedAt)];
      }
    }

    method Forget(id: string, code: Code)
      requires cache.Valid()
      modifies this`hits, cache.shards
      ensures cache.Valid() && cache.View() == Invalidated(old(cache.View()), code)
      ensures hits == old(hits) - {id}
    {
      hits := hits - {id};
      assert cache.Valid() && cache.View() == old(cache.View());
      cache.Invalidate(code);
    }

    /** `writes` is whether the statement succeeds; if it does not, counter and cache keep what they have. */
    method Delete(id: string, code: Code, at: int, writes: bool) returns (ok: bool)
      requires cache.Valid()
      modifies this`rows, this`hits, cache.shards
      ensures cache.Valid() && ok == writes
      ensures State() == if ok then MarkStep(old(State()), id, code, Some(at)) else old(State())
      ensures hits == if ok then old(hits) - {id} else old(hits)
      ensures ok && id in old(rows) ==> rows == old(rows)[id := old(rows)[id].(deletedAt := Some(at))]
      ensures !ok || id !in old(rows) ==> rows == old(rows)
    {
      if !writes {
        return false;
      }
      Mark(id, Some(at));
      Forget(id, code);
      return true;
    }

    method Purge(id: string, code: Code, writes: bool) returns (ok: bool)
      requires cache.Valid()
      modifies this`rows, this`hits, cache.shards
      ensures cache.Valid() && ok == writes
      ensures State() == if ok then PurgeStep(old(State()), id, code) else old(State())
      ensures hits == if ok then old(hits) - {id} else old(hits)
      ensures !ok ==> rows == old(rows)
      ensures ok ==> id !in rows && OthersStay(old(rows), rows, id)
    {
      if !writes {
        return false;
      }
      rows := rows - {id};
      assert cache.Valid() && cache.View() == old(cache.View());
      Forget(id, code);
      return true;
    }

    method Restore(id: string, code: Code, writes: bool) returns (ok: bool)
      requires cache.Valid()
      modifies this`rows, cache.shards
      ensures cache.Valid() && ok == writes
      ensures State() == if ok then MarkStep(old(State()), id, code, None) else old(State())
      ensures ok && id in old(rows) ==> rows == old(rows)[id := old(rows)[id].(deletedAt := None)]
      ensures !ok || id !in old(rows) ==> rows == old(rows)
    {
      if !writes {
        return false;
      }
      Mark(id, None);
      cache.Invalidate(code);
      return true;
    }

    // ------------------------------------------------------ click counters

    /** Different links have different counters. */
    ghost predicate CountersApart()
      reads this
    {
      forall i, j :: i in hits && j in hits && i != j ==> hits[i] != hits[j]
    }

    ghost function Counters(): map<string, PruneCycle.Hit>
      reads this, hits.Values
    {
      map id | id in hits :: PruneCycle.Hit(hits[id].n, hits[id].last)
    }

    /** The counters depend on nothing but themselves. */
    twostate lemma CountersUntouched()
      requires hits == old(hits) && forall h :: h in hits.Values ==> unchanged(h)
      ensures Counters() == old(Counters()) && (old(CountersApart()) ==> CountersApart())
    {
      forall id | id in hits ensures Counters()[id] == old(Counters())[id] {
        assert hits[id] in hits.Values;
      }
    }

    /** The machine state in which nothing but this call is in flight. */
    static function Quiet(n: Option<int>): CounterRace.State {
      CounterRace.State(n, 0, {}, {}, 0, 0)
    }

    method ConsumeClick(l: Link, now: int) returns (ok: bool)
      requires CountersApart()
      modifies this`hits, hits.Values
      ensures CountersApart()
      ensures l.details.maxClicks.None? ==> ok && hits == old(hits) && Counters() == old(Counters())
      ensures l.details.maxClicks.Some? ==>
                var before := if l.id in old(hits) then Some(old(Counters())[l.id].n) else None;
                var max := l.details.maxClicks.value;
                var (after, accepted) := CounterRace.CallAlone(Quiet(before), 0, l.clickCount, max);
                && ok == accepted && after.n.Some?
                && Counters() == old(Counters())[l.id := PruneCycle.Hit(after.n.value, now)]
      ensures l.details.maxClicks.Some? ==>
                var n := if l.id in old(hits) then old(Counters())[l.id].n else l.clickCount;
                && (ok <==> n < l.details.maxClicks.value)
                && Counters() == old(Counters())[l.id := PruneCycle.Hit(if ok then n + 1 else n, now)]
    {
      if l.details.maxClicks.None? {
        return true;
      }
      var c := new HitCounter(l.clickCount);
      if l.id !in hits {
        hits := hits[l.id := c];
      }
      var ctr := hits[l.id];
      ok := ctr.Reserve(l.details.maxClicks.value, now);
    }

    /** Drops exactly the counters last used before the cutoff. */
    method PruneHits(idle: int, now: int)
      requires CountersApart()
      modifies this`hits
      ensures CountersApart()
      ensures Counters() ==
              map id | id in old(Counters()) && old(Counters())[id].last >= now - idle :: old(Counters())[id]
    {
      var todo := hits.Keys;
      while todo != {}
        invariant todo <= old(hits).Keys
        invariant forall id :: id in hits <==> id in old(hits) && (id in todo || old(hits[id].last) >= now - idle)
        invariant forall id :: id in hits ==> hits[id] == old(hits[id])
        decreases |todo|
      {
        var id :| id in todo;
        todo := todo - {id};
        if id in hits && hits[id].last < now - idle {
          hits := hits - {id};
        }
      }
      CountersPruned(now - idle);
    }

    /** Dropping counters from the table drops them from the counters and leaves the others as they were. */
    twostate lemma CountersPruned(cutoff: int)
      requires old(CountersApart()) && forall h :: h in old(hits.Values) ==> unchanged(h)
      requires forall id :: id in hits <==> id in old(hits) && old(hits[id].last) >= cutoff
      requires forall id :: id in hits ==> hits[id] == old(hits[id])
      ensures CountersApart()
      ensures Counters() == map id | id in old(Counters()) && old(Counters())[id].last >= cutoff :: old(Counters())[id]
    {
      forall id | id in hits ensures Counters()[id] == old(Counters())[id] {
        assert old(hits[id]) in old(hits.Values);
      }
    }
  }
}
