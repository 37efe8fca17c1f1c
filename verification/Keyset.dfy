/**
 Keyset pagination: pages of a table ordered by a sort value and, among equal
 values, by id, each page starting after the last key of the one before.
 */
module Keyset {
  import opened Wrappers

  /** What a row is ordered by. */
  datatype Key<V, I> = Key(val: V, id: I)

  /** The comparisons the database uses for the sort column and for ids, and the direction. */
  datatype Order<!V, !I> = Order(valLess: (V, V) -> bool, idLess: (I, I) -> bool, descending: bool)

  ghost predicate StrictTotal<T(!new)>(less: (T, T) -> bool) {
    && (forall a :: !less(a, a))
    && (forall a, b, c :: less(a, b) && less(b, c) ==> less(a, c))
    && (forall a, b :: a != b ==> less(a, b) || less(b, a))
  }

  ghost predicate Total<V(!new), I(!new)>(o: Order<V, I>) {
    StrictTotal(o.valLess) && StrictTotal(o.idLess)
  }

  /** The condition a page adds to the query: the row lies beyond the cursor. */
  predicate After<V(==), I>(o: Order<V, I>, row: Key<V, I>, cursor: Key<V, I>) {
    if o.descending then
      o.valLess(row.val, cursor.val) || (row.val == cursor.val && o.idLess(row.id, cursor.id))
    else
      o.valLess(cursor.val, row.val) || (row.val == cursor.val && o.idLess(cursor.id, row.id))
  }

  lemma AfterIsStrict<V(!new), I(!new)>(o: Order<V, I>, a: Key<V, I>, b: Key<V, I>)
    requires Total(o)
    ensures !(After(o, a, b) && After(o, b, a))
    ensures a == b <==> !After(o, a, b) && !After(o, b, a)
  {
  }

  lemma AfterIsTransitive<V(!new), I(!new)>(o: Order<V, I>, a: Key<V, I>, b: Key<V, I>, c: Key<V, I>)
    requires Total(o) && After(o, a, b) && After(o, b, c)
    ensures After(o, a, c)
  {
  }

  // ---------------------------------------------------------------- ORDER BY

  ghost predicate IsFirst<V(!new), I(!new)>(o: Order<V, I>, s: set<Key<V, I>>, m: Key<V, I>) {
    m in s && forall k :: k in s && k != m ==> After(o, k, m)
  }

  lemma FirstExists<V(!new), I(!new)>(o: Order<V, I>, s: set<Key<V, I>>)
    requires Total(o) && s != {}
    ensures exists m :: IsFirst(o, s, m)
  {
    var x :| x in s;
    if s == {x} {
      assert IsFirst(o, s, x);
    } else {
      FirstExists(o, s - {x});
      var m :| IsFirst(o, s - {x}, m);
      AfterIsStrict(o, x, m);
      if After(o, x, m) {
        assert IsFirst(o, s, m);
      } else {
        forall k | k in s && k != x ensures After(o, k, x) {
          if k != m { AfterIsTransitive(o, k, m, x); }
        }
        assert IsFirst(o, s, x);
      }
    }
  }

  /** The rows in order. */
  ghost function Sorted<V(!new), I(!new)>(o: Order<V, I>, s: set<Key<V, I>>): seq<Key<V, I>>
    requires Total(o)
  {
    if s == {} then []
    else
      FirstExists(o, s);
      var m :| IsFirst(o, s, m);
      [m] + Sorted(o, s - {m})
  }

  ghost predicate Ascending<V(!new), I(!new)>(o: Order<V, I>, s: seq<Key<V, I>>) {
    forall i, j :: 0 <= i < j < |s| ==> After(o, s[j], s[i])
  }

  /** The sorted rows are exactly the rows, each once, in order. */
  lemma {:induction false} SortedIsOrdered<V(!new), I(!new)>(o: Order<V, I>, s: set<Key<V, I>>)
    requires Total(o)
    ensures Ascending(o, Sorted(o, s)) && |Sorted(o, s)| == |s|
    ensures forall k :: k in Sorted(o, s) <==> k in s
  {
    if s != {} {
      var m := FirstOfSorted(o, s);
      SortedIsOrdered(o, s - {m});
      FirstAndRest(o, m, Sorted(o, s - {m}));
    }
  }

  lemma FirstOfSorted<V(!new), I(!new)>(o: Order<V, I>, s: set<Key<V, I>>) returns (m: Key<V, I>)
    requires Total(o) && s != {}
    ensures IsFirst(o, s, m) && Sorted(o, s) == [m] + Sorted(o, s - {m})
  {
    FirstExists(o, s);
    m := Sorted(o, s)[0];
  }

  lemma FirstAndRest<V(!new), I(!new)>(o: Order<V, I>, m: Key<V, I>, rest: seq<Key<V, I>>)
    requires Ascending(o, rest) && forall k :: k in rest ==> After(o, k, m)
    ensures Ascending(o, [m] + rest)
    ensures forall k :: k in [m] + rest <==> k == m || k in rest
  {
  }

  lemma FirstIsMember<T>(s: seq<T>)
    requires s != []
    ensures exists k :: k in s
  {
    assert s[0] in s;
  }

  /** Order and elements determine a sequence. */
  lemma {:induction false} AscendingIsUnique<V(!new), I(!new)>(o: Order<V, I>, a: seq<Key<V, I>>, b: seq<Key<V, I>>)
    requires Total(o) && Ascending(o, a) && Ascending(o, b)
    requires forall k :: k in a <==> k in b
    ensures a == b
  {
    if a == [] {
      if b != [] { FirstIsMember(b); }
    } else {
      assert a[0] in a && a[0] in b && b[0] in b && b[0] in a;
      var i :| 0 <= i < |a| && a[i] == b[0];
      var j :| 0 <= j < |b| && b[j] == a[0];
      AfterIsStrict(o, a[0], b[0]);
      assert a[0] == b[0];
      forall k ensures k in a[1..] <==> k in b[1..] {
        TailElements(o, a, k);
        TailElements(o, b, k);
      }
      AscendingIsUnique(o, a[1..], b[1..]);
      assert a == [a[0]] + a[1..] && b == [b[0]] + b[1..];
    }
  }

  lemma TailElements<V(!new), I(!new)>(o: Order<V, I>, s: seq<Key<V, I>>, k: Key<V, I>)
    requires Total(o) && Ascending(o, s) && s != []
    ensures k in s[1..] <==> k in s && k != s[0]
  {
    if k in s[1..] {
      var i :| 0 <= i < |s[1..]| && s[1..][i] == k;
      assert s[i + 1] == k;
      AfterIsStrict(o, s[i + 1], s[0]);
    }
    if k in s && k != s[0] {
      var i :| 0 <= i < |s| && s[i] == k;
      assert s[1..][i - 1] == k;
    }
  }

  // ------------------------------------------------------------------- pages

  /** The rows a page may show: all of them, or those beyond the cursor. */
  ghost function Eligible<V(!new), I(!new)>(
    o: Order<V, I>, rows: set<Key<V, I>>, cursor: Option<Key<V, I>>): set<Key<V, I>>
  {
    set k | k in rows && (cursor.Some? ==> After(o, k, cursor.value))
  }

  /** One more row than the limit is fetched; if it is there, the last row shown becomes the next cursor. */
  ghost function List<V(!new), I(!new)>(o: Order<V, I>, rows: set<Key<V, I>>, cursor: Option<Key<V, I>>, limit: nat)
    : (seq<Key<V, I>>, Option<Key<V, I>>)
    requires Total(o) && limit >= 1
  {
    var all := Sorted(o, Eligible(o, rows, cursor));
    var fetched := if |all| > limit + 1 then all[..limit + 1] else all;
    if |fetched| > limit then (fetched[..limit], Some(fetched[limit - 1])) else (fetched, None)
  }

  /** What a page shows: the eligible rows up to the next cursor, in order. */
  lemma PageCut<V(!new), I(!new)>(o: Order<V, I>, rows: set<Key<V, I>>, cursor: Option<Key<V, I>>, limit: nat)
    requires Total(o) && limit >= 1
    ensures var (page, next) := List(o, rows, cursor, limit);
            && Ascending(o, page) && |page| <= limit
            && (forall k :: k in page <==>
                  k in Eligible(o, rows, cursor) && (next.Some? ==> !After(o, k, next.value)))
            && (next.Some? ==>
                  |page| == limit && next.value == page[limit - 1] && next.value in Eligible(o, rows, cursor))
  {
    var eligible := Eligible(o, rows, cursor);
    var all := Sorted(o, eligible);
    var (page, next) := List(o, rows, cursor, limit);
    SortedIsOrdered(o, eligible);
    assert page == all[..|page|];
    if next.Some? {
      forall k ensures k in page <==> k in eligible && !After(o, k, next.value) {
        if k in page {
          var i :| 0 <= i < limit && all[i] == k;
          AfterIsStrict(o, k, next.value);
        }
        if k in eligible && !After(o, k, next.value) {
          var i :| 0 <= i < |all| && all[i] == k;
          assert i < limit;
          assert page[i] == k;
        }
      }
    }
  }

  /** Another page follows exactly when something beyond the cursor is not shown yet; a page is then full. */
  lemma NextIffMore<V(!new), I(!new)>(o: Order<V, I>, rows: set<Key<V, I>>, cursor: Option<Key<V, I>>, limit: nat)
    requires Total(o) && limit >= 1
    ensures var (page, next) := List(o, rows, cursor, limit);
            && (next.Some? <==> exists k :: k in Eligible(o, rows, cursor) && k !in page)
            && |page| == if |Eligible(o, rows, cursor)| > limit then limit else |Eligible(o, rows, cursor)|
  {
    var (page, next) := List(o, rows, cursor, limit);
    var all := Sorted(o, Eligible(o, rows, cursor));
    SortedIsOrdered(o, Eligible(o, rows, cursor));
    PageCut(o, rows, cursor, limit);
    if next.Some? {
      var k := all[limit];
      assert k in all && After(o, k, next.value);
    }
  }

  lemma LeftOutComesLater<V(!new), I(!new)>(
    o: Order<V, I>, rows: set<Key<V, I>>, cursor: Option<Key<V, I>>, limit: nat, shown: Key<V, I>, left: Key<V, I>)
    requires Total(o) && limit >= 1
    requires shown in List(o, rows, cursor, limit).0
    requires left in Eligible(o, rows, cursor) && left !in List(o, rows, cursor, limit).0
    ensures After(o, left, shown)
  {
    PageCut(o, rows, cursor, limit);
    var next := List(o, rows, cursor, limit).1;
    AfterIsStrict(o, shown, next.value);
    if shown != next.value { AfterIsTransitive(o, left, next.value, shown); }
  }

  /** Following the cursor leaves exactly the rows beyond this page. */
  lemma NextEligible<V(!new), I(!new)>(o: Order<V, I>, rows: set<Key<V, I>>, cursor: Option<Key<V, I>>, limit: nat)
    requires Total(o) && limit >= 1 && List(o, rows, cursor, limit).1.Some?
    ensures var (page, next) := List(o, rows, cursor, limit);
            && Eligible(o, rows, next) == Eligible(o, rows, cursor) - (set k | k in page)
            && Eligible(o, rows, next) < Eligible(o, rows, cursor)
  {
    PageCut(o, rows, cursor, limit);
    var (page, next) := List(o, rows, cursor, limit);
    forall k | k in Eligible(o, rows, next) ensures k in Eligible(o, rows, cursor) {
      if cursor.Some? { AfterIsTransitive(o, k, next.value, cursor.value); }
    }
    AfterIsStrict(o, next.value, next.value);
  }

  // ------------------------------------------------------- a static traversal

  /** All pages from a cursor on, until none follows. */
  ghost function Traverse<V(!new), I(!new)>(o: Order<V, I>, rows: set<Key<V, I>>, cursor: Option<Key<V, I>>, limit: nat)
    : seq<Key<V, I>>
    requires Total(o) && limit >= 1
    decreases Eligible(o, rows, cursor)
  {
    var (page, next) := List(o, rows, cursor, limit);
    if next.None? then page
    else
      NextEligible(o, rows, cursor, limit);
      page + Traverse(o, rows, next, limit)
  }

  lemma {:induction false} TraverseFrom<V(!new), I(!new)>(
    o: Order<V, I>, rows: set<Key<V, I>>, cursor: Option<Key<V, I>>, limit: nat)
    requires Total(o) && limit >= 1
    ensures Ascending(o, Traverse(o, rows, cursor, limit))
    ensures forall k :: k in Traverse(o, rows, cursor, limit) <==> k in Eligible(o, rows, cursor)
    decreases Eligible(o, rows, cursor)
  {
    var (page, next) := List(o, rows, cursor, limit);
    PageCut(o, rows, cursor, limit);
    if next.Some? {
      NextEligible(o, rows, cursor, limit);
      TraverseFrom(o, rows, next, limit);
      AscendingAppends(o, page, Traverse(o, rows, next, limit), next.value);
      assert forall k ::
          k in page + Traverse(o, rows, next, limit) <==> k in page || k in Traverse(o, rows, next, limit);
    }
  }

  /** Ascending rows up to a cursor followed by ascending rows beyond it. */
  lemma AscendingAppends<V(!new), I(!new)>(o: Order<V, I>, a: seq<Key<V, I>>, b: seq<Key<V, I>>, cut: Key<V, I>)
    requires Total(o) && Ascending(o, a) && Ascending(o, b)
    requires forall k :: k in a ==> !After(o, k, cut)
    requires forall k :: k in b ==> After(o, k, cut)
    ensures Ascending(o, a + b)
  {
    forall i, j | 0 <= i < |a| && 0 <= j < |b| ensures After(o, b[j], a[i]) {
      assert a[i] in a && b[j] in b;
      AfterIsStrict(o, a[i], cut);
      if a[i] != cut { AfterIsTransitive(o, b[j], cut, a[i]); }
    }
  }

  /**
   From the empty cursor on a table that does not change, the pages together
   are the rows in ORDER BY order, each once, however many sort values tie.
   */
  lemma TraversalIsSortedTable<V(!new), I(!new)>(o: Order<V, I>, rows: set<Key<V, I>>, limit: nat)
    requires Total(o) && limit >= 1
    ensures Traverse(o, rows, None, limit) == Sorted(o, rows)
  {
    TraverseFrom(o, rows, None, limit);
    SortedIsOrdered(o, rows);
    assert Eligible(o, rows, None) == rows;
    AscendingIsUnique(o, Traverse(o, rows, None, limit), Sorted(o, rows));
  }

  // --------------------------------------------- a traversal of a changing table

  /** Page `i` is read from `tables[i]`; the traversal ends with the page that has no next cursor. */
  ghost predicate IsTraversal<V(!new), I(!new)>(
    o: Order<V, I>, limit: nat, tables: seq<set<Key<V, I>>>,
    cursors: seq<Option<Key<V, I>>>, pages: seq<seq<Key<V, I>>>)
    requires Total(o) && limit >= 1
  {
    && 1 <= |tables| == |pages| && |cursors| == |tables| + 1
    && (forall i :: 0 <= i <= |tables| ==> (cursors[i].Some? <==> 0 < i < |tables|))
    && (forall i :: 0 <= i < |tables| ==> PageAt(o, limit, tables[i], cursors, pages, i))
  }

  /** Page `i` and the cursor after it are what the list gives for cursor `i`. */
  ghost predicate PageAt<V(!new), I(!new)>(
    o: Order<V, I>, limit: nat, rows: set<Key<V, I>>,
    cursors: seq<Option<Key<V, I>>>, pages: seq<seq<Key<V, I>>>, i: nat)
    requires Total(o) && limit >= 1 && i < |pages| && i + 1 < |cursors|
  {
    List(o, rows, cursors[i], limit) == (pages[i], cursors[i + 1])
  }

  /** Everything on page `i` and later lies beyond the cursor of page `i`. */
  lemma {:induction false} LaterPagesLieBeyond<V(!new), I(!new)>(
    o: Order<V, I>, limit: nat, tables: seq<set<Key<V, I>>>,
    cursors: seq<Option<Key<V, I>>>, pages: seq<seq<Key<V, I>>>, i: nat, j: nat, k: Key<V, I>)
    requires Total(o) && limit >= 1 && IsTraversal(o, limit, tables, cursors, pages)
    requires 0 < i <= j < |tables| && k in pages[j]
    ensures After(o, k, cursors[i].value)
    decreases j - i
  {
    PageCut(o, tables[j], cursors[j], limit);
    assert PageAt(o, limit, tables[j], cursors, pages, j);
    assert k in Eligible(o, tables[j], cursors[j]);
    if i < j {
      LaterPagesLieBeyond(o, limit, tables, cursors, pages, i + 1, j, k);
      PageCut(o, tables[i], cursors[i], limit);
      assert PageAt(o, limit, tables[i], cursors, pages, i);
      AfterIsTransitive(o, k, cursors[i + 1].value, cursors[i].value);
    }
  }

  /** Whatever happens to the table between pages, no key is shown twice. */
  lemma NothingShownTwice<V(!new), I(!new)>(
    o: Order<V, I>, limit: nat, tables: seq<set<Key<V, I>>>,
    cursors: seq<Option<Key<V, I>>>, pages: seq<seq<Key<V, I>>>, i: nat, m: nat, j: nat, n: nat)
    requires Total(o) && limit >= 1 && IsTraversal(o, limit, tables, cursors, pages)
    requires i < |pages| && m < |pages[i]| && j < |pages| && n < |pages[j]|
    requires pages[i][m] == pages[j][n]
    ensures i == j && m == n
  {
    if i < j {
      ShownOnlyEarlier(o, limit, tables, cursors, pages, i, j, pages[i][m]);
    } else if j < i {
      ShownOnlyEarlier(o, limit, tables, cursors, pages, j, i, pages[i][m]);
    } else {
      PageCut(o, tables[i], cursors[i], limit);
      assert PageAt(o, limit, tables[i], cursors, pages, i);
      AfterIsStrict(o, pages[i][m], pages[i][m]);
    }
  }

  /** A key shown on one page is on no later page. */
  lemma ShownOnlyEarlier<V(!new), I(!new)>(
    o: Order<V, I>, limit: nat, tables: seq<set<Key<V, I>>>,
    cursors: seq<Option<Key<V, I>>>, pages: seq<seq<Key<V, I>>>, i: nat, j: nat, k: Key<V, I>)
    requires Total(o) && limit >= 1 && IsTraversal(o, limit, tables, cursors, pages)
    requires i < j < |pages| && k in pages[i]
    ensures k !in pages[j]
  {
    PageCut(o, tables[i], cursors[i], limit);
    assert PageAt(o, limit, tables[i], cursors, pages, i);
    if k in pages[j] {
      LaterPagesLieBeyond(o, limit, tables, cursors, pages, i + 1, j, k);
    }
  }

  /** A row that is there throughout is shown on some page at or after the one whose cursor it lies beyond. */
  lemma {:induction false} ShownFrom<V(!new), I(!new)>(
    o: Order<V, I>, limit: nat, tables: seq<set<Key<V, I>>>,
    cursors: seq<Option<Key<V, I>>>, pages: seq<seq<Key<V, I>>>, i: nat, k: Key<V, I>) returns (j: nat)
    requires Total(o) && limit >= 1 && IsTraversal(o, limit, tables, cursors, pages)
    requires i < |tables| && k in Eligible(o, tables[i], cursors[i])
    requires forall t :: 0 <= t < |tables| ==> k in tables[t]
    ensures j < |pages| && k in pages[j]
    decreases |tables| - i
  {
    PageCut(o, tables[i], cursors[i], limit);
    assert PageAt(o, limit, tables[i], cursors, pages, i);
    if k in pages[i] {
      j := i;
    } else {
      j := ShownFrom(o, limit, tables, cursors, pages, i + 1, k);
    }
  }

  /**
   A completed traversal shows every row that was there throughout with an
   unchanged key exactly once, whatever was inserted or deleted meanwhile.
   */
  lemma EveryLastingRowShownOnce<V(!new), I(!new)>(
    o: Order<V, I>, limit: nat, tables: seq<set<Key<V, I>>>,
    cursors: seq<Option<Key<V, I>>>, pages: seq<seq<Key<V, I>>>, k: Key<V, I>) returns (i: nat, m: nat)
    requires Total(o) && limit >= 1 && IsTraversal(o, limit, tables, cursors, pages)
    requires forall t :: 0 <= t < |tables| ==> k in tables[t]
    ensures i < |pages| && m < |pages[i]| && pages[i][m] == k
    ensures forall j, n :: 0 <= j < |pages| && 0 <= n < |pages[j]| && pages[j][n] == k ==> j == i && n == m
  {
    i := ShownFrom(o, limit, tables, cursors, pages, 0, k);
    m :| 0 <= m < |pages[i]| && pages[i][m] == k;
    forall j, n | 0 <= j < |pages| && 0 <= n < |pages[j]| && pages[j][n] == k ensures j == i && n == m {
      NothingShownTwice(o, limit, tables, cursors, pages, i, m, j, n);
    }
  }

  /** The pages from page `i` on, in the order they are shown. */
  function Joined<V, I>(pages: seq<seq<Key<V, I>>>, i: nat): seq<Key<V, I>>
    requires i <= |pages|
    decreases |pages| - i
  {
    if i == |pages| then [] else pages[i] + Joined(pages, i + 1)
  }

  lemma {:induction false} JoinedFrom<V(!new), I(!new)>(
    o: Order<V, I>, limit: nat, tables: seq<set<Key<V, I>>>, cursors: seq<Option<Key<V, I>>>,
    pages: seq<seq<Key<V, I>>>, rows: set<Key<V, I>>, i: nat)
    requires Total(o) && limit >= 1 && IsTraversal(o, limit, tables, cursors, pages) && i < |pages|
    requires forall t :: 0 <= t < |tables| ==> tables[t] == rows
    ensures Joined(pages, i) == Traverse(o, rows, cursors[i], limit)
    decreases |pages| - i
  {
    assert PageAt(o, limit, tables[i], cursors, pages, i);
    if i + 1 < |pages| {
      JoinedFrom(o, limit, tables, cursors, pages, rows, i + 1);
    } else {
      assert Joined(pages, i + 1) == [];
    }
  }

  /** Over rows that do not change, every completed traversal has shown exactly the sorted rows. */
  lemma CompletedTraversalIsSorted<V(!new), I(!new)>(
    o: Order<V, I>, limit: nat, tables: seq<set<Key<V, I>>>, cursors: seq<Option<Key<V, I>>>,
    pages: seq<seq<Key<V, I>>>, rows: set<Key<V, I>>)
    requires Total(o) && limit >= 1 && IsTraversal(o, limit, tables, cursors, pages)
    requires forall t :: 0 <= t < |tables| ==> tables[t] == rows
    ensures Joined(pages, 0) == Sorted(o, rows)
  {
    JoinedFrom(o, limit, tables, cursors, pages, rows, 0);
    TraversalIsSortedTable(o, rows, limit);
  }
}
