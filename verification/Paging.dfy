/**
 Pages requested by text: a client sends back, as the cursor of its next
 request, the text the last response named.
 */
module Paging {
  import opened Wrappers
  import opened Keyset
  import C = Cursor

  type Text = C.Text

  /** How a key is written as a cursor, and how a cursor is read. */
  datatype Codec<!V, !I> = Codec(write: Key<V, I> -> Text, read: Text -> Option<Key<V, I>>)

  datatype Response<V, I> = InvalidCursor | Page(rows: seq<Key<V, I>>, next: Text)

  function NextText<V, I>(c: Codec<V, I>, next: Option<Key<V, I>>): Text {
    if next.Some? then c.write(next.value) else []
  }

  /** The empty cursor asks for the first page; one that cannot be read is refused. */
  ghost function Respond<V(!new), I(!new)>(
    o: Order<V, I>, c: Codec<V, I>, rows: set<Key<V, I>>, cursor: Text, limit: nat): Response<V, I>
    requires Total(o) && limit >= 1
  {
    var start := if cursor == [] then None else c.read(cursor);
    if cursor != [] && start.None? then InvalidCursor
    else
      var (page, next) := List(o, rows, start, limit);
      Page(page, NextText(c, next))
  }

  /** A key that comes back from its cursor, which is not the empty one. */
  ghost predicate Travels<V(!new), I(!new)>(c: Codec<V, I>, k: Key<V, I>) {
    c.write(k) != [] && c.read(c.write(k)) == Some(k)
  }

  ghost predicate AllTravel<V(!new), I(!new)>(c: Codec<V, I>, rows: set<Key<V, I>>) {
    forall k :: k in rows ==> Travels(c, k)
  }

  function NextOf<V, I>(r: Response<V, I>): Text {
    if r.Page? then r.next else []
  }

  /** The key a response names as next. */
  function NextKey<V, I>(c: Codec<V, I>, r: Response<V, I>): Option<Key<V, I>> {
    if NextOf(r) == [] then None else c.read(NextOf(r))
  }

  /** One response: its rows and the key it names are the keyset page beyond `k`. */
  lemma ResponseIsPage<V(!new), I(!new)>(
    o: Order<V, I>, c: Codec<V, I>, rows: set<Key<V, I>>, k: Option<Key<V, I>>, limit: nat)
    requires Total(o) && limit >= 1 && AllTravel(c, rows) && (k.Some? ==> Travels(c, k.value))
    ensures var r := Respond(o, c, rows, NextText(c, k), limit);
            && r.Page?
            && List(o, rows, k, limit) == (r.rows, NextKey(c, r))
            && r.next == NextText(c, NextKey(c, r))
            && (NextKey(c, r).Some? ==> Travels(c, NextKey(c, r).value) && r.next != [])
  {
    PageCut(o, rows, k, limit);
    var next := List(o, rows, k, limit).1;
    if next.Some? { assert next.value in rows && Travels(c, next.value); }
  }

  // ----------------------------------------------------- a walk, request by request

  /** The cursor of request `i`, when the first one asks for the page beyond `k`. */
  function AskedCursor<V, I>(c: Codec<V, I>, k: Option<Key<V, I>>, responses: seq<Response<V, I>>, i: nat): Text
    requires i <= |responses|
  {
    if i == 0 then NextText(c, k) else NextOf(responses[i - 1])
  }

  /** A client follows `next` until it is empty; request `i` meets the rows `tables[i]`. */
  ghost predicate IsWalk<V(!new), I(!new)>(
    o: Order<V, I>, c: Codec<V, I>, limit: nat, tables: seq<set<Key<V, I>>>, responses: seq<Response<V, I>>)
    requires Total(o) && limit >= 1
  {
    && 1 <= |tables| == |responses|
    && forall i :: 0 <= i < |responses| ==>
         && responses[i].Page?
         && responses[i] == Respond(o, c, tables[i], AskedCursor(c, None, responses, i), limit)
         && (responses[i].next == [] <==> i == |responses| - 1)
  }

  /** The key behind the cursor of request `i`. */
  function CursorOf<V, I>(c: Codec<V, I>, responses: seq<Response<V, I>>, i: nat): Option<Key<V, I>>
    requires i <= |responses|
  {
    if i == 0 then None else NextKey(c, responses[i - 1])
  }

  /** Each response of a walk is the keyset page beyond its cursor's key. */
  lemma {:induction false} WalkStep<V(!new), I(!new)>(
    o: Order<V, I>, c: Codec<V, I>, limit: nat, tables: seq<set<Key<V, I>>>, responses: seq<Response<V, I>>, i: nat)
    requires Total(o) && limit >= 1 && IsWalk(o, c, limit, tables, responses) && i < |tables|
    requires forall t :: 0 <= t < |tables| ==> AllTravel(c, tables[t])
    ensures List(o, tables[i], CursorOf(c, responses, i), limit) == (responses[i].rows, CursorOf(c, responses, i + 1))
    ensures responses[i].next == NextText(c, CursorOf(c, responses, i + 1))
    ensures CursorOf(c, responses, i + 1).Some? ==> Travels(c, CursorOf(c, responses, i + 1).value)
    ensures CursorOf(c, responses, i + 1).Some? <==> i + 1 < |tables|
  {
    var k, r := CursorOf(c, responses, i), responses[i];
    assert (k.Some? ==> Travels(c, k.value)) && r == Respond(o, c, tables[i], NextText(c, k), limit) by {
      if i > 0 { WalkStep(o, c, limit, tables, responses, i - 1); }
    }
    ResponseIsPage(o, c, tables[i], k, limit);
    assert CursorOf(c, responses, i + 1) == NextKey(c, r);
  }

  function CursorsOf<V, I>(c: Codec<V, I>, responses: seq<Response<V, I>>): (cs: seq<Option<Key<V, I>>>)
    ensures |cs| == |responses| + 1
    ensures forall i :: 0 <= i <= |responses| ==> cs[i] == CursorOf(c, responses, i)
  {
    seq(|responses| + 1, i requires 0 <= i <= |responses| => CursorOf(c, responses, i))
  }

  function PagesOf<V, I>(responses: seq<Response<V, I>>): (ps: seq<seq<Key<V, I>>>)
    ensures |ps| == |responses|
    ensures forall i :: 0 <= i < |responses| && responses[i].Page? ==> ps[i] == responses[i].rows
  {
    seq(|responses|, i requires 0 <= i < |responses| => if responses[i].Page? then responses[i].rows else [])
  }

  lemma WalkPage<V(!new), I(!new)>(
    o: Order<V, I>, c: Codec<V, I>, limit: nat, tables: seq<set<Key<V, I>>>, responses: seq<Response<V, I>>, i: nat)
    requires Total(o) && limit >= 1 && IsWalk(o, c, limit, tables, responses) && i < |tables|
    requires forall t :: 0 <= t < |tables| ==> AllTravel(c, tables[t])
    ensures PageAt(o, limit, tables[i], CursorsOf(c, responses), PagesOf(responses), i)
    ensures CursorsOf(c, responses)[i + 1].Some? <==> i + 1 < |tables|
  {
    WalkStep(o, c, limit, tables, responses, i);
    var cs, ps := CursorsOf(c, responses), PagesOf(responses);
    assert cs[i] == CursorOf(c, responses, i) && cs[i + 1] == CursorOf(c, responses, i + 1);
    assert ps[i] == responses[i].rows;
  }

  /** A walk is a keyset traversal of the rows it met. */
  lemma WalkIsTraversal<V(!new), I(!new)>(
    o: Order<V, I>, c: Codec<V, I>, limit: nat, tables: seq<set<Key<V, I>>>, responses: seq<Response<V, I>>)
    requires Total(o) && limit >= 1 && IsWalk(o, c, limit, tables, responses)
    requires forall t :: 0 <= t < |tables| ==> AllTravel(c, tables[t])
    ensures IsTraversal(o, limit, tables, CursorsOf(c, responses), PagesOf(responses))
  {
    var cs, ps := CursorsOf(c, responses), PagesOf(responses);
    forall i | 0 <= i < |tables| ensures PageAt(o, limit, tables[i], cs, ps, i) {
      WalkPage(o, c, limit, tables, responses, i);
    }
    forall i | 0 <= i <= |tables| ensures cs[i].Some? <==> 0 < i < |tables| {
      if i > 0 { WalkPage(o, c, limit, tables, responses, i - 1); }
    }
  }

  /**
   A client that follows the text cursors sees every row that is there
   throughout with an unchanged key exactly once.
   */
  lemma EveryRowSeenOnce<V(!new), I(!new)>(
    o: Order<V, I>, c: Codec<V, I>, limit: nat, tables: seq<set<Key<V, I>>>, responses: seq<Response<V, I>>,
    k: Key<V, I>)
    returns (i: nat, m: nat)
    requires Total(o) && limit >= 1 && IsWalk(o, c, limit, tables, responses)
    requires forall t :: 0 <= t < |tables| ==> AllTravel(c, tables[t]) && k in tables[t]
    ensures i < |responses| && m < |responses[i].rows| && responses[i].rows[m] == k
    ensures forall j, n :: 0 <= j < |responses| && 0 <= n < |responses[j].rows| && responses[j].rows[n] == k
                           ==> j == i && n == m
  {
    WalkIsTraversal(o, c, limit, tables, responses);
    var pages := PagesOf(responses);
    i, m := EveryLastingRowShownOnce(o, limit, tables, CursorsOf(c, responses), pages, k);
    forall j, n | 0 <= j < |responses| && 0 <= n < |responses[j].rows| && responses[j].rows[n] == k
      ensures j == i && n == m
    {
      assert pages[j][n] == k;
    }
  }

  // -------------------------------------------------- a walk over a fixed table

  /** The rows of all responses, in the order they arrive. */
  function Shown<V, I>(responses: seq<Response<V, I>>): seq<Key<V, I>> {
    if responses == [] then []
    else (if responses[0].Page? then responses[0].rows else []) + Shown(responses[1..])
  }

  /** The responses from rows that do not change, starting beyond `k`. */
  ghost function Walk<V(!new), I(!new)>(
    o: Order<V, I>, c: Codec<V, I>, rows: set<Key<V, I>>, k: Option<Key<V, I>>, limit: nat): seq<Response<V, I>>
    requires Total(o) && limit >= 1
    decreases Eligible(o, rows, k)
  {
    var (page, next) := List(o, rows, k, limit);
    if next.None? then [Page(page, [])]
    else
      NextEligible(o, rows, k, limit);
      [Page(page, c.write(next.value))] + Walk(o, c, rows, next, limit)
  }

  lemma {:induction false} WalkShows<V(!new), I(!new)>(
    o: Order<V, I>, c: Codec<V, I>, rows: set<Key<V, I>>, k: Option<Key<V, I>>, limit: nat)
    requires Total(o) && limit >= 1
    ensures Shown(Walk(o, c, rows, k, limit)) == Traverse(o, rows, k, limit)
    decreases Eligible(o, rows, k)
  {
    var next := List(o, rows, k, limit).1;
    if next.Some? {
      NextEligible(o, rows, k, limit);
      WalkShows(o, c, rows, next, limit);
      assert Walk(o, c, rows, k, limit)[1..] == Walk(o, c, rows, next, limit);
    }
  }

  lemma {:induction false} WalkAnswers<V(!new), I(!new)>(
    o: Order<V, I>, c: Codec<V, I>, rows: set<Key<V, I>>, k: Option<Key<V, I>>, limit: nat, i: nat)
    requires Total(o) && limit >= 1 && AllTravel(c, rows) && (k.Some? ==> Travels(c, k.value))
    requires i < |Walk(o, c, rows, k, limit)|
    ensures var w := Walk(o, c, rows, k, limit);
            && w[i].Page? && w[i] == Respond(o, c, rows, AskedCursor(c, k, w, i), limit)
            && (w[i].next == [] <==> i == |w| - 1)
    decreases Eligible(o, rows, k)
  {
    var next := List(o, rows, k, limit).1;
    var w := Walk(o, c, rows, k, limit);
    ResponseIsPage(o, c, rows, k, limit);
    if next.Some? {
      NextEligible(o, rows, k, limit);
      var rest := Walk(o, c, rows, next, limit);
      assert w == [w[0]] + rest;
      if i > 0 {
        WalkAnswers(o, c, rows, next, limit, i - 1);
        assert AskedCursor(c, next, rest, i - 1) == AskedCursor(c, k, w, i);
      }
    }
  }

  /**
   On a table that does not change, following the text cursors ends, and has
   then shown the rows in ORDER BY order, each once.
   */
  lemma StaticWalkIsComplete<V(!new), I(!new)>(o: Order<V, I>, c: Codec<V, I>, rows: set<Key<V, I>>, limit: nat)
    returns (responses: seq<Response<V, I>>)
    requires Total(o) && limit >= 1 && AllTravel(c, rows)
    ensures IsWalk(o, c, limit, seq(|responses|, _ => rows), responses)
    ensures Shown(responses) == Sorted(o, rows)
  {
    responses := Walk(o, c, rows, None, limit);
    forall i | 0 <= i < |responses|
      ensures responses[i].Page? && (responses[i].next == [] <==> i == |responses| - 1)
      ensures responses[i] == Respond(o, c, rows, AskedCursor(c, None, responses, i), limit)
    {
      WalkAnswers(o, c, rows, None, limit, i);
    }
    WalkShows(o, c, rows, None, limit);
    TraversalIsSortedTable(o, rows, limit);
  }

  lemma {:induction false} ShownIsJoined<V, I>(responses: seq<Response<V, I>>, i: nat)
    requires i <= |responses|
    ensures Shown(responses[i..]) == Joined(PagesOf(responses), i)
    decreases |responses| - i
  {
    if i < |responses| {
      ShownIsJoined(responses, i + 1);
      assert responses[i..][0] == responses[i] && responses[i..][1..] == responses[i + 1..];
    }
  }

  /** Every client that has followed the text cursors to the end over rows that do not change has seen them in order. */
  lemma CompletedWalkIsSorted<V(!new), I(!new)>(
    o: Order<V, I>, c: Codec<V, I>, limit: nat, tables: seq<set<Key<V, I>>>, responses: seq<Response<V, I>>,
    rows: set<Key<V, I>>)
    requires Total(o) && limit >= 1 && AllTravel(c, rows) && IsWalk(o, c, limit, tables, responses)
    requires forall t :: 0 <= t < |tables| ==> tables[t] == rows
    ensures Shown(responses) == Sorted(o, rows)
  {
    WalkIsTraversal(o, c, limit, tables, responses);
    CompletedTraversalIsSorted(o, limit, tables, CursorsOf(c, responses), PagesOf(responses), rows);
    ShownIsJoined(responses, 0);
    assert responses[0..] == responses;
  }
}
