/**
 Deleting an account together with its links: the loop that asks for a page of
 live links, deletes each of them, and follows the page's cursor, while the
 deletions change the very table it is paging through.
 */
module AccountDeletion {
  import opened Wrappers
  import opened Keyset
  import opened Paging
  import opened Listing

  type LinkKey = Key<SortVal, Text>

  /** The filter of the loop: the user's live links, newest first, a hundred at a time. */
  function Own(user: Text, cursor: Text): Filter {
    Filter(user, [], [], AnyLive, CreatedAt, false, cursor, 100)
  }

  predicate LiveOf(user: Text, row: Row) {
    row.userId == Some(user) && row.deletedAt.None?
  }

  /** The links an account still has. */
  function LiveLinks(t: Table, user: Text): set<Text> {
    set id | id in t && t[id].userId == Some(user) && t[id].deletedAt == None
  }

  lemma SameSize(ids: set<Text>, keys: set<LinkKey>)
    requires forall k :: k in keys ==> k.id in ids
    requires forall id :: id in ids ==> exists k :: k in keys && k.id == id
    requires forall j, k :: j in keys && k in keys && j.id == k.id ==> j == k
    ensures |ids| == |keys|
  {
    if keys != {} {
      var k :| k in keys;
      SameSize(ids - {k.id}, keys - {k});
    } else {
      assert ids == {};
    }
  }

  /** The rows the loop asks for are the live links of the account, one each. */
  lemma RowsAreLiveLinks(db: Database, t: Table, user: Text)
    requires user != [] && WellFormed(t)
    ensures |Rows(db, t, Own(user, []))| == |LiveLinks(t, user)|
  {
    var ids, keys := LiveLinks(t, user), Rows(db, t, Own(user, []));
    forall id | id in ids ensures exists k :: k in keys && k.id == id {
      assert SortKey(CreatedAt, t[id]) in keys;
    }
    SameSize(ids, keys);
  }

  /** The table with the rows of `ids` marked deleted. */
  function Marked(t: Table, ids: set<Text>, now: int): Table {
    map id | id in t :: if id in ids then t[id].(deletedAt := Some(now)) else t[id]
  }

  /** The live links of `user`, except those whose deletion fails. */
  function Deletable(t: Table, user: Text, stuck: set<Text>): set<Text> {
    set id | id in t && LiveOf(user, t[id]) && id !in stuck
  }

  /** The table after all of them have been deleted. */
  function Cleared(t: Table, user: Text, stuck: set<Text>, now: int): Table {
    Marked(t, Deletable(t, user, stuck), now)
  }

  /** Those of them up to the cursor. */
  function DeletableUpTo(db: Database, t: Table, user: Text, stuck: set<Text>, cursor: Option<LinkKey>): set<Text> {
    set id | id in Deletable(t, user, stuck) && Passed(db, t[id], cursor)
  }

  function ClearedUpTo(db: Database, t: Table, user: Text, stuck: set<Text>, now: int, cursor: Option<LinkKey>): Table {
    Marked(t, DeletableUpTo(db, t, user, stuck, cursor), now)
  }

  predicate Passed(db: Database, row: Row, cursor: Option<LinkKey>) {
    cursor.Some? && !After(Order(db.valLess, db.idLess, true), SortKey(CreatedAt, row), cursor.value)
  }

  class LinkStore {
    var links: Table
    const db: Database

    constructor (links: Table, db: Database)
      ensures this.links == links && this.db == db
    {
      this.links, this.db := links, db;
    }

    /** The first row of a non-empty result in the query's order. */
    method First(o: Order<SortVal, Text>, s: set<LinkKey>) returns (m: LinkKey)
      requires Total(o) && s != {}
      ensures IsFirst(o, s, m)
    {
      m :| m in s;
      var todo := s - {m};
      while todo != {}
        invariant todo <= s && m in s - todo
        invariant forall k :: k in s - todo && k != m ==> After(o, k, m)
        decreases |todo|
      {
        var k :| k in todo;
        todo := todo - {k};
        if After(o, m, k) {
          forall x | x in s - todo && x != k ensures After(o, x, k) {
            if x != m { AfterIsTransitive(o, x, m, k); }
          }
          m := k;
        } else {
          AfterIsStrict(o, m, k);
        }
      }
    }

    /** ORDER BY and LIMIT: the first `n` rows in order. */
    method OrderByLimit(o: Order<SortVal, Text>, s: set<LinkKey>, n: nat) returns (out: seq<LinkKey>)
      requires Total(o)
      ensures out == if |Sorted(o, s)| > n then Sorted(o, s)[..n] else Sorted(o, s)
    {
      out := [];
      var rest := s;
      ghost var tail := Sorted(o, s);
      while |out| < n && rest != {}
        invariant |out| <= n && Sorted(o, s) == out + tail && tail == Sorted(o, rest)
        decreases |rest|
      {
        var m := First(o, rest);
        FirstOfSorted(o, rest, m);
        ghost var left := Sorted(o, rest - {m});
        MoveFirst(out, m, left);
        out, rest, tail := out + [m], rest - {m}, left;
      }
      SortedIsOrdered(o, rest);
      CutAt(out, tail, n);
    }

    static lemma MoveFirst(front: seq<LinkKey>, m: LinkKey, rest: seq<LinkKey>)
      ensures front + ([m] + rest) == (front + [m]) + rest
    {
    }

    static lemma CutAt(front: seq<LinkKey>, rest: seq<LinkKey>, n: nat)
      requires |front| <= n && (|front| == n || rest == [])
      ensures front == if |front + rest| > n then (front + rest)[..n] else front + rest
    {
    }

    static lemma FirstOfSorted(o: Order<SortVal, Text>, s: set<LinkKey>, m: LinkKey)
      requires Total(o) && IsFirst(o, s, m)
      ensures Sorted(o, s) == [m] + Sorted(o, s - {m})
    {
      var first := Keyset.FirstOfSorted(o, s);
      AfterIsStrict(o, m, first);
    }

    /** The list query: one row more than the page is fetched to know whether another page follows. */
    method ListLinks(f: Filter) returns (r: Response<SortVal, Text>)
      requires Total(OrderOf(db, f))
      ensures r == Listing.ListLinks(db, links, f)
      ensures WellFormed(links) ==>
                if f.cursor != [] && ReadKey(f.sort, f.cursor).None? then r == InvalidCursor
                else IsPage(db, links, f, if f.cursor == [] then None else ReadKey(f.sort, f.cursor), r)
    {
      if WellFormed(links) { PageByColumns(db, links, f); }
      var limit := PageSize(f.limit);
      var rows := set id | id in links && Selected(db, f, links[id]) :: SortKey(f.sort, links[id]);
      var start: Option<LinkKey> := None;
      if f.cursor != [] {
        start := ReadKey(f.sort, f.cursor);
        if start.None? {
          return InvalidCursor;
        }
        rows := set k | k in rows && After(OrderOf(db, f), k, start.value);
      }
      assert rows == Eligible(OrderOf(db, f), Rows(db, links, f), start);
      var out := OrderByLimit(OrderOf(db, f), rows, limit + 1);
      FetchedIsList(OrderOf(db, f), Rows(db, links, f), start, limit, out);
      var next: Text := [];
      if |out| > limit {
        next := WriteKey(out[limit - 1]);
        out := out[..limit];
      }
      return Page(out, next);
    }

    /** One row more than the page is enough to cut the page and to know its cursor. */
    static lemma FetchedIsList(
      o: Order<SortVal, Text>, rows: set<LinkKey>, start: Option<LinkKey>, limit: nat, out: seq<LinkKey>)
      requires Total(o) && limit >= 1
      requires var all := Sorted(o, Eligible(o, rows, start));
               out == if |all| > limit + 1 then all[..limit + 1] else all
      ensures List(o, rows, start, limit) ==
              if |out| > limit then (out[..limit], Some(out[limit - 1])) else (out, None)
    {
    }

    /** Marks the row deleted, unless the store fails for it. */
    method SoftDelete(id: Text, now: int, stuck: set<Text>)
      modifies this`links
      ensures links == if id in old(links) && id !in stuck
                       then old(links)[id := old(links)[id].(deletedAt := Some(now))] else old(links)
    {
      if id in links && id !in stuck {
        links := links[id := links[id].(deletedAt := Some(now))];
      }
    }

    /** Deletes the links of one page; failures are ignored. */
    method DeletePage(page: seq<LinkKey>, now: int, stuck: set<Text>)
      modifies this`links
      ensures links == PageCleared(old(links), page, stuck, now)
    {
      var i := 0;
      assert links == PageCleared(links, page[..0], stuck, now);
      while i < |page|
        invariant 0 <= i <= |page| && links == PageCleared(old(links), page[..i], stuck, now)
      {
        OneMoreCleared(old(links), page, i, stuck, now);
        SoftDelete(page[i].id, now, stuck);
        i := i + 1;
      }
      assert page[..i] == page;
    }

    /** The loop itself. */
    method DeletePages(user: Text, now: int, stuck: set<Text>, pages: nat)
      returns (ok: bool, asked: nat, ghost reached: Option<LinkKey>)
      requires user != [] && WellFormed(links) && Total(LoopOrder(db))
      modifies this`links
      ensures asked <= pages && (!ok ==> asked == pages)
      ensures ok <==> pages >= 1 && |Rows(db, old(links), Own(user, []))| <= 100 * pages
      ensures ok ==> links == Cleared(old(links), user, stuck, now)
      ensures !ok ==> links == ClearedUpTo(db, old(links), user, stuck, now, reached)
      ensures !ok ==> 100 * pages + |Ahead(db, links, user, reached)| == |Rows(db, old(links), Own(user, []))|
    {
      var cursor: Text := [];
      ghost var t0 := links;
      asked, reached := 0, None;
      assert links == ClearedUpTo(db, t0, user, stuck, now, None);
      ghost var all := |Rows(db, links, Own(user, []))|;
      assert Ahead(db, links, user, None) == Rows(db, links, Own(user, []));
      while asked < pages
        invariant asked <= pages && (asked > 0 ==> 100 * asked < all)
        invariant 100 * asked + |Ahead(db, links, user, reached)| == all
        invariant WellFormed(links) && links == ClearedUpTo(db, t0, user, stuck, now, reached)
        invariant cursor == NextText(LinkCodec(CreatedAt), reached)
        invariant reached.Some? ==> Travels(LinkCodec(CreatedAt), reached.value)
        decreases Ahead(db, links, user, reached)
      {
        ghost var t := links;
        var r := ListLinks(Own(user, cursor));
        asked := asked + 1;
        OwnPage(db, t, user, reached);
        assert r == Listing.ListLinks(db, t, Own(user, NextText(LinkCodec(CreatedAt), reached)));
        ghost var next := List(LoopOrder(db), Rows(db, t, Own(user, [])), reached, 100).1;
        PageCounts(db, t, user, reached, stuck, now);
        DeletePage(r.rows, now, stuck);
        PageAdvances(db, t0, t, user, stuck, now, reached);
        if r.next == [] {
          return true, asked, reached;
        }
        cursor, reached := r.next, next;
      }
      ok := false;
    }

    /**
     The whole loop ends, whatever deletions fail, and leaves no live link of
     the user except those whose deletion failed; other rows are untouched. The
     first `pages` queries are answered, each for a hundred links; if another is
     needed, the loop gives up with what lies up to some cursor deleted.
     */
    method DeleteAllLinks(user: Text, now: int, stuck: set<Text>, pages: nat)
      returns (ok: bool, asked: nat, ghost reached: Option<LinkKey>)
      requires user != [] && WellFormed(links) && Total(LoopOrder(db))
      modifies this`links
      ensures asked <= pages && (!ok ==> asked == pages)
      ensures ok <==> pages >= 1 && |LiveLinks(old(links), user)| <= 100 * pages
      ensures ok ==> links == Cleared(old(links), user, stuck, now)
      ensures ok ==> forall id :: id in links ==>
                (LiveOf(user, links[id]) <==> LiveOf(user, old(links)[id]) && id in stuck)
      ensures ok ==> links.Keys == old(links).Keys && forall id :: id in links ==>
                links[id] == if old(links)[id].userId == Some(user) && old(links)[id].deletedAt == None && id !in stuck
                             then old(links)[id].(deletedAt := Some(now)) else old(links)[id]
      ensures !ok ==> links == ClearedUpTo(db, old(links), user, stuck, now, reached)
      ensures !ok ==> 100 * pages + |Ahead(db, links, user, reached)| == |LiveLinks(old(links), user)|
    {
      RowsAreLiveLinks(db, links, user);
      ghost var t0 := links;
      ok, asked, reached := DeletePages(user, now, stuck, pages);
      if ok { ClearedByColumns(t0, user, stuck, now); }
    }
  }

  /** The cleared table, row by row: the live links of the user are marked, but for those whose deletion fails. */
  lemma ClearedByColumns(t: Table, user: Text, stuck: set<Text>, now: int)
    ensures var u := Cleared(t, user, stuck, now);
            && u.Keys == t.Keys
            && (forall id :: id in u ==>
                  var live := t[id].userId == Some(user) && t[id].deletedAt == None;
                  u[id] == if live && id !in stuck then t[id].(deletedAt := Some(now)) else t[id])
            && (forall id :: id in u ==> (LiveOf(user, u[id]) <==> LiveOf(user, t[id]) && id in stuck))
  {
  }

  function LoopOrder(db: Database): Order<SortVal, Text> {
    Order(db.valLess, db.idLess, true)
  }

  function PageIds(page: seq<LinkKey>, stuck: set<Text>): set<Text> {
    set k | k in page && k.id !in stuck :: k.id
  }

  function PageCleared(t: Table, page: seq<LinkKey>, stuck: set<Text>, now: int): Table {
    Marked(t, PageIds(page, stuck), now)
  }

  lemma MarkedTwice(t: Table, a: set<Text>, b: set<Text>, c: set<Text>, now: int)
    requires forall id :: id in t ==> (id in c <==> id in a || id in b)
    ensures Marked(Marked(t, a, now), b, now) == Marked(t, c, now)
  {
  }

  lemma OneMoreCleared(t: Table, page: seq<LinkKey>, i: nat, stuck: set<Text>, now: int)
    requires i < |page|
    ensures PageCleared(t, page[..i + 1], stuck, now) ==
            var u := PageCleared(t, page[..i], stuck, now);
            var id := page[i].id;
            if id in u && id !in stuck then u[id := u[id].(deletedAt := Some(now))] else u
  {
    assert page[..i + 1] == page[..i] + [page[i]];
    assert forall k :: k in page[..i + 1] <==> k in page[..i] || k == page[i];
  }

  /** The response to the loop's request is the page of live links beyond the cursor. */
  lemma OwnPage(db: Database, t: Table, user: Text, c: Option<LinkKey>)
    requires WellFormed(t) && Total(LoopOrder(db)) && (c.Some? ==> Travels(LinkCodec(CreatedAt), c.value))
    ensures var codec := LinkCodec(CreatedAt);
            var r := Listing.ListLinks(db, t, Own(user, NextText(codec, c)));
            var (page, next) := List(LoopOrder(db), Rows(db, t, Own(user, [])), c, 100);
            && r.Page? && r.rows == page && r.next == NextText(codec, next) && (r.next == [] <==> next.None?)
            && (next.Some? ==> Travels(codec, next.value))
  {
    var codec, f := LinkCodec(CreatedAt), Own(user, []);
    RowsTravel(db, t, f);
    CursorDoesNotFilter(db, t, f, NextText(codec, c));
    assert f.(cursor := NextText(codec, c)) == Own(user, NextText(codec, c));
    ResponseIsPage(LoopOrder(db), codec, Rows(db, t, f), c, 100);
  }

  /** Deleting one page turns "cleared up to the cursor" into "cleared up to the next", or into "cleared". */
  lemma PageAdvances(db: Database, t0: Table, t: Table, user: Text, stuck: set<Text>, now: int, c: Option<LinkKey>)
    requires user != [] && WellFormed(t0) && Total(LoopOrder(db)) && t == ClearedUpTo(db, t0, user, stuck, now, c)
    ensures var (page, next) := List(LoopOrder(db), Rows(db, t, Own(user, [])), c, 100);
            var after := PageCleared(t, page, stuck, now);
            && WellFormed(after)
            && (next.None? ==> after == Cleared(t0, user, stuck, now))
            && (next.Some? ==> after == ClearedUpTo(db, t0, user, stuck, now, next))
            && (next.Some? ==> Ahead(db, after, user, next) < Ahead(db, t, user, c))
  {
    var (page, next) := List(LoopOrder(db), Rows(db, t, Own(user, [])), c, 100);
    var after := PageCleared(t, page, stuck, now);
    var behind := DeletableUpTo(db, t0, user, stuck, c);
    var all := if next.None? then Deletable(t0, user, stuck) else DeletableUpTo(db, t0, user, stuck, next);
    forall id | id in t0 ensures id in all <==> id in behind || id in PageIds(page, stuck) {
      OnPage(db, t0, t, user, stuck, now, c, id);
    }
    MarkedTwice(t0, behind, PageIds(page, stuck), all, now);
    if next.Some? {
      FewerLeft(db, t, user, c, page, stuck, now);
    }
  }

  /** The page's rows lie behind the next cursor, and deleting them brings back no other. */
  /** The links still ahead of the loop. */
  ghost function Ahead(db: Database, t: Table, user: Text, c: Option<LinkKey>): set<LinkKey> {
    Eligible(LoopOrder(db), Rows(db, t, Own(user, [])), c)
  }

  /** Deleting a page changes nothing of what lies beyond its cursor, and a full page takes a hundred links away. */
  lemma PageCounts(db: Database, t: Table, user: Text, c: Option<LinkKey>, stuck: set<Text>, now: int)
    requires Total(LoopOrder(db)) && WellFormed(t)
    ensures var o, rows := LoopOrder(db), Rows(db, t, Own(user, []));
            var (page, next) := List(o, rows, c, 100);
            var left := |Ahead(db, t, user, c)|;
            && (next.None? ==> left <= 100)
            && (next.Some? ==> |Ahead(db, PageCleared(t, page, stuck, now), user, next)| == left - 100 > 0)
  {
    var o, rows := LoopOrder(db), Rows(db, t, Own(user, []));
    var (page, next) := List(o, rows, c, 100);
    SortedIsOrdered(o, Eligible(o, rows, c));
    if next.Some? {
      NextEligible(o, rows, c, 100);
      PageCut(o, rows, c, 100);
      var shown := set k | k in page;
      DistinctKeys(o, page);
      BeyondThePage(db, t, user, c, stuck, now);
      assert shown <= Eligible(o, rows, c);
      assert |Eligible(o, rows, c) - shown| == |Eligible(o, rows, c)| - |shown|;
    }
  }

  lemma {:induction false} DistinctKeys(o: Order<SortVal, Text>, page: seq<LinkKey>)
    requires Total(o) && Ascending(o, page)
    ensures |set k | k in page| == |page|
  {
    if page != [] {
      var n := |page| - 1;
      DistinctKeys(o, page[..n]);
      forall i | 0 <= i < n ensures page[i] != page[n] {
        AfterIsStrict(o, page[n], page[i]);
      }
      assert (set k | k in page) == (set k | k in page[..n]) + {page[n]};
    }
  }

  /** The links beyond a page's cursor are not on the page, and stay as they are. */
  lemma BeyondThePage(db: Database, t: Table, user: Text, c: Option<LinkKey>, stuck: set<Text>, now: int)
    requires Total(LoopOrder(db)) && WellFormed(t)
    requires List(LoopOrder(db), Rows(db, t, Own(user, [])), c, 100).1.Some?
    ensures var o, rows := LoopOrder(db), Rows(db, t, Own(user, []));
            var (page, next) := List(o, rows, c, 100);
            Eligible(o, Rows(db, PageCleared(t, page, stuck, now), Own(user, [])), next) == Eligible(o, rows, next)
  {
    var o, rows, f := LoopOrder(db), Rows(db, t, Own(user, [])), Own(user, []);
    var (page, next) := List(o, rows, c, 100);
    var after := PageCleared(t, page, stuck, now);
    PageCut(o, rows, c, 100);
    forall k | k in Rows(db, after, f) ensures k in rows {
      var id :| id in after && Selected(db, f, after[id]) && SortKey(CreatedAt, after[id]) == k;
      assert after[id] == t[id];
    }
    forall k | k in Eligible(o, rows, next) ensures k in Rows(db, after, f) {
      var id :| id in t && Selected(db, f, t[id]) && SortKey(CreatedAt, t[id]) == k;
      StaysIfBeyond(db, t, page, next.value, id, stuck, now);
      assert after[id] == t[id];
    }
  }

  lemma StaysIfBeyond(
    db: Database, t: Table, page: seq<LinkKey>, next: LinkKey, id: Text, stuck: set<Text>, now: int)
    requires Total(LoopOrder(db)) && WellFormed(t) && id in t
    requires forall k :: k in page ==> !After(LoopOrder(db), k, next)
    requires forall k :: k in page ==> k.id in t && k == SortKey(CreatedAt, t[k.id])
    requires After(LoopOrder(db), SortKey(CreatedAt, t[id]), next)
    ensures PageCleared(t, page, stuck, now)[id] == t[id]
  {
  }

  lemma FewerLeft(
    db: Database, t: Table, user: Text, c: Option<LinkKey>, page: seq<LinkKey>, stuck: set<Text>, now: int)
    requires Total(LoopOrder(db)) && List(LoopOrder(db), Rows(db, t, Own(user, [])), c, 100).1.Some?
    ensures var next := List(LoopOrder(db), Rows(db, t, Own(user, [])), c, 100).1;
            Eligible(LoopOrder(db), Rows(db, PageCleared(t, page, stuck, now), Own(user, [])), next)
            < Eligible(LoopOrder(db), Rows(db, t, Own(user, [])), c)
  {
    var o, rows, after := LoopOrder(db), Rows(db, t, Own(user, [])), PageCleared(t, page, stuck, now);
    NextEligible(o, rows, c, 100);
    forall k | k in Rows(db, after, Own(user, [])) ensures k in rows {
      var id :| id in after && Selected(db, Own(user, []), after[id]) && SortKey(CreatedAt, after[id]) == k;
      assert after[id] == t[id];
    }
  }

  /** A row is on the page exactly when it is still live and lies between the two cursors. */
  lemma OnPage(db: Database, t0: Table, t: Table, user: Text, stuck: set<Text>, now: int, c: Option<LinkKey>, id: Text)
    requires user != [] && WellFormed(t0) && Total(LoopOrder(db)) && t == ClearedUpTo(db, t0, user, stuck, now, c)
    requires id in t0
    ensures var (page, next) := List(LoopOrder(db), Rows(db, t, Own(user, [])), c, 100);
            (exists k :: k in page && k.id == id) <==>
              && LiveOf(user, t[id]) && (c.Some? ==> !Passed(db, t0[id], c))
              && (next.Some? ==> Passed(db, t0[id], next))
    ensures var next := List(LoopOrder(db), Rows(db, t, Own(user, [])), c, 100).1;
            c.Some? && next.Some? && Passed(db, t0[id], c) ==> Passed(db, t0[id], next)
  {
    var o, rows := LoopOrder(db), Rows(db, t, Own(user, []));
    var (page, next) := List(o, rows, c, 100);
    PageCut(o, rows, c, 100);
    var key := SortKey(CreatedAt, t0[id]);
    assert key == SortKey(CreatedAt, t[id]);
    assert LiveOf(user, t[id]) <==> Selected(db, Own(user, []), t[id]);
    if k :| k in page && k.id == id {
      assert k in rows;
      var i :| i in t && Selected(db, Own(user, []), t[i]) && SortKey(CreatedAt, t[i]) == k;
      assert i == id;
    }
    if LiveOf(user, t[id]) { assert key in rows; }
    if c.Some? && next.Some? && After(o, key, next.value) {
      AfterIsTransitive(o, key, next.value, c.value);
    }
  }
}
