/**
 The link list: its filters, its three sort columns and its pages; and the
 click and user lists, which page the same way.
 */
module Listing {
  import opened Wrappers
  import opened Keyset
  import opened Paging
  import opened Links
  import C = Cursor
  import Like

  datatype Row = Row(
    id: Text,
    code: Text,
    title: Text,
    targetUrl: Text,
    userId: Option<Text>,
    status: Status,
    deletedAt: Option<int>,
    createdAt: int,
    clickCount: int,
    tags: Text)

  /** The links table, by id. */
  type Table = map<Text, Row>

  /** What the sort column of a row holds. */
  datatype SortVal = Num(n: int) | Str(s: Text)

  /**
   The comparisons the database makes; the characters of a text, how the
   program and how the database lower them; and its condition on tags.
   */
  datatype Database = Database(
    valLess: (SortVal, SortVal) -> bool,
    idLess: (Text, Text) -> bool,
    chars: Text -> Like.Text,
    goLower: int -> int,
    sqlLower: int -> int,
    tagMatches: (Text, Text) -> bool)

  datatype StatusFilter = AnyLive | OnlyDeleted | OnlyStatus(status: Status)

  datatype SortColumn = CreatedAt | Clicks | Title

  /** An empty user, query or tag does not filter; an empty cursor asks for the first page. */
  datatype Filter = Filter(
    userId: Text,
    query: Text,
    tag: Text,
    status: StatusFilter,
    sort: SortColumn,
    ascending: bool,
    cursor: Text,
    limit: int)

  // ----------------------------------------------------------------- queries

  predicate StatusMatches(f: StatusFilter, row: Row) {
    match f
    case OnlyDeleted => row.deletedAt.Some?
    case OnlyStatus(s) => row.deletedAt.None? && row.status == s
    case AnyLive => row.deletedAt.None?
  }

  predicate QueryMatches(db: Database, query: Text, row: Row) {
    var p := Like.Pattern(LoweredQuery(db, query));
    || Like.Matches(p, LoweredColumn(db, row.code))
    || Like.Matches(p, LoweredColumn(db, row.title))
    || Like.Matches(p, LoweredColumn(db, row.targetUrl))
  }

  function LoweredQuery(db: Database, query: Text): Like.Text {
    Like.Map(db.goLower, db.chars(query))
  }

  function LoweredColumn(db: Database, column: Text): Like.Text {
    Like.Map(db.sqlLower, db.chars(column))
  }

  predicate Selected(db: Database, f: Filter, row: Row) {
    && (f.userId != [] ==> row.userId == Some(f.userId))
    && StatusMatches(f.status, row)
    && (f.query != [] ==> QueryMatches(db, f.query, row))
    && (f.tag != [] ==> db.tagMatches(row.tags, f.tag))
  }

  function SortKey(column: SortColumn, row: Row): Key<SortVal, Text> {
    match column
    case CreatedAt => Key(Num(row.createdAt), row.id)
    case Clicks => Key(Num(row.clickCount), row.id)
    case Title => Key(Str(row.title), row.id)
  }

  /** The keys of the rows a filter selects. */
  function Rows(db: Database, t: Table, f: Filter): set<Key<SortVal, Text>> {
    set id | id in t && Selected(db, f, t[id]) :: SortKey(f.sort, t[id])
  }

  function OrderOf(db: Database, f: Filter): Order<SortVal, Text> {
    Order(db.valLess, db.idLess, !f.ascending)
  }

  function PageSize(limit: int): (n: nat)
    ensures 1 <= n <= 100
  {
    if limit <= 0 || limit > 100 then 25 else limit
  }

  /** A numeric sort value travels in decimal, a title as it is. */
  function WriteKey(k: Key<SortVal, Text>): Text {
    match k.val
    case Num(n) => C.EncodeKeyCursor(C.FormatInt(n), k.id)
    case Str(s) => C.EncodeKeyCursor(s, k.id)
  }

  /** The key a cursor stands for under a sort column; none when the server did not issue it. */
  function ReadKey(column: SortColumn, cursor: Text): Option<Key<SortVal, Text>> {
    match C.DecodeKeyCursor(cursor)
    case None => None
    case Some((raw, id)) =>
      if column == Title then Some(Key(Str(raw), id))
      else
        match C.ParseInt(raw)
        case None => None
        case Some(n) => Some(Key(Num(n), id))
  }

  function LinkCodec(column: SortColumn): Codec<SortVal, Text> {
    Codec(k => WriteKey(k), cursor => ReadKey(column, cursor))
  }

  ghost function ListLinks(db: Database, t: Table, f: Filter): Response<SortVal, Text>
    requires Total(OrderOf(db, f))
  {
    Respond(OrderOf(db, f), LinkCodec(f.sort), Rows(db, t, f), f.cursor, PageSize(f.limit))
  }

  // ------------------------------------------------------------------ search

  /** A query selects the rows whose code, title or target contains it literally. */
  lemma QueryIsLiteral(db: Database, query: Text, row: Row)
    ensures QueryMatches(db, query, row) <==>
              exists column, k :: column in {row.code, row.title, row.targetUrl}
                                  && Like.OccursAt(LoweredColumn(db, column), LoweredQuery(db, query), k)
  {
    var q := LoweredQuery(db, query);
    Like.SearchIsSubstring(q, LoweredColumn(db, row.code));
    Like.SearchIsSubstring(q, LoweredColumn(db, row.title));
    Like.SearchIsSubstring(q, LoweredColumn(db, row.targetUrl));
  }

  /**
   Where program and database lower the query's letters alike, a query selects
   the rows whose code, title or target contains it up to letter case.
   */
  lemma QueryIsUpToCase(db: Database, query: Text, row: Row)
    requires forall c :: db.sqlLower(db.goLower(c)) == db.goLower(c)
    requires Like.LowerAlike(db.chars(query), db.goLower, db.sqlLower)
    ensures QueryMatches(db, query, row) <==>
              exists column, k :: column in {row.code, row.title, row.targetUrl}
                                  && Like.OccursAt(Like.Map(db.goLower, db.chars(column)), LoweredQuery(db, query), k)
  {
    QueryIsLiteral(db, query, row);
    forall column, k: nat
      ensures Like.OccursAt(LoweredColumn(db, column), LoweredQuery(db, query), k) <==>
              Like.OccursAt(Like.Map(db.goLower, db.chars(column)), LoweredQuery(db, query), k)
    {
      Like.OccursAlike(db.chars(query), db.goLower, db.sqlLower, db.chars(column), k);
    }
  }

  // ----------------------------------------------------------------- cursors

  /** Ids are their rows' keys and hold no bar, and numbers fit the database's integers. */
  ghost predicate WellFormed(t: Table) {
    forall id :: id in t ==>
      && t[id].id == id && C.BAR !in id
      && C.MIN_INT64 <= t[id].createdAt <= C.MAX_INT64
      && C.MIN_INT64 <= t[id].clickCount <= C.MAX_INT64
  }

  lemma KeyTravels(column: SortColumn, row: Row)
    requires C.BAR !in row.id
    requires C.MIN_INT64 <= row.createdAt <= C.MAX_INT64 && C.MIN_INT64 <= row.clickCount <= C.MAX_INT64
    ensures ReadKey(column, WriteKey(SortKey(column, row))) == Some(SortKey(column, row))
    ensures WriteKey(SortKey(column, row)) != []
  {
    var k := SortKey(column, row);
    match k.val
    case Num(n) =>
      C.KeyCursorRoundTrip(C.FormatInt(n), k.id);
      C.IntRoundTrip(n);
      C.CursorIsNotEmpty(C.FormatInt(n), k.id);
    case Str(s) =>
      C.KeyCursorRoundTrip(s, k.id);
      C.CursorIsNotEmpty(s, k.id);
  }

  /** Every cursor the list hands out comes back as the key it was made of. */
  lemma RowsTravel(db: Database, t: Table, f: Filter)
    requires WellFormed(t)
    ensures AllTravel(LinkCodec(f.sort), Rows(db, t, f))
  {
    forall k | k in Rows(db, t, f) ensures Travels(LinkCodec(f.sort), k) {
      var id :| id in t && Selected(db, f, t[id]) && SortKey(f.sort, t[id]) == k;
      KeyTravels(f.sort, t[id]);
    }
  }

  /** A click is keyed by its time and its number, both written in decimal. */
  function ClickCodec(): Codec<int, int> {
    Codec((k: Key<int, int>) => C.EncodeCursor(k.val, C.FormatInt(k.id)), cursor => ReadClick(cursor))
  }

  function ReadClick(cursor: Text): Option<Key<int, int>> {
    match C.DecodeCursor(cursor)
    case None => None
    case Some((ms, idText)) =>
      match C.ParseInt(idText)
      case None => None
      case Some(id) => Some(Key(ms, id))
  }

  lemma ClicksTravel(rows: set<Key<int, int>>)
    requires forall k :: k in rows ==>
               C.MIN_INT64 <= k.val <= C.MAX_INT64 && C.MIN_INT64 <= k.id <= C.MAX_INT64
    ensures AllTravel(ClickCodec(), rows)
  {
    forall k | k in rows ensures Travels(ClickCodec(), k) {
      NoBarInNumber(k.id);
      C.CursorRoundTrip(k.val, C.FormatInt(k.id));
      C.IntRoundTrip(k.id);
      C.CursorIsNotEmpty(C.FormatInt(k.val), C.FormatInt(k.id));
    }
  }

  lemma {:induction false} NoBarInDigits(n: nat)
    ensures C.BAR !in C.Digits(n)
  {
    if n >= 10 { NoBarInDigits(n / 10); }
  }

  lemma NoBarInNumber(n: int)
    ensures C.BAR !in C.FormatInt(n)
  {
    NoBarInDigits(if n < 0 then -n else n);
  }

  /** A user is keyed by creation time and id. */
  function UserCodec(): Codec<int, Text> {
    Codec((k: Key<int, Text>) => C.EncodeCursor(k.val, k.id), cursor => ReadUser(cursor))
  }

  function ReadUser(cursor: Text): Option<Key<int, Text>> {
    match C.DecodeCursor(cursor)
    case None => None
    case Some((ms, id)) => Some(Key(ms, id))
  }

  lemma UsersTravel(rows: set<Key<int, Text>>)
    requires forall k :: k in rows ==> C.MIN_INT64 <= k.val <= C.MAX_INT64 && C.BAR !in k.id
    ensures AllTravel(UserCodec(), rows)
  {
    forall k | k in rows ensures Travels(UserCodec(), k) {
      C.CursorRoundTrip(k.val, k.id);
      C.CursorIsNotEmpty(C.FormatInt(k.val), k.id);
    }
  }

  // -------------------------------------------------------------- traversals

  /** The filter of request `i` of a client that follows `next`. */
  function Request(f: Filter, responses: seq<Response<SortVal, Text>>, i: nat): Filter
    requires i <= |responses|
  {
    f.(cursor := if i == 0 then [] else NextOf(responses[i - 1]))
  }

  /** The links listed to a client that follows `next` until it is empty, over a changing table. */
  ghost predicate IsListing(db: Database, f: Filter, tables: seq<Table>, responses: seq<Response<SortVal, Text>>)
    requires Total(OrderOf(db, f))
  {
    && 1 <= |tables| == |responses|
    && forall i :: 0 <= i < |responses| ==>
         && responses[i].Page?
         && responses[i] == ListLinks(db, tables[i], Request(f, responses, i))
         && (responses[i].next == [] <==> i == |responses| - 1)
  }

  /** The cursor of a request does not change what it selects. */
  lemma CursorDoesNotFilter(db: Database, t: Table, f: Filter, cursor: Text)
    ensures Rows(db, t, f.(cursor := cursor)) == Rows(db, t, f)
  {
    assert forall id :: id in t ==> Selected(db, f.(cursor := cursor), t[id]) == Selected(db, f, t[id]);
  }

  function TableRows(db: Database, f: Filter, tables: seq<Table>): (rows: seq<set<Key<SortVal, Text>>>)
    ensures |rows| == |tables|
    ensures forall i :: 0 <= i < |tables| ==> rows[i] == Rows(db, tables[i], f)
  {
    seq(|tables|, i requires 0 <= i < |tables| => Rows(db, tables[i], f))
  }

  lemma ListingIsWalk(db: Database, f: Filter, tables: seq<Table>, responses: seq<Response<SortVal, Text>>)
    requires Total(OrderOf(db, f)) && IsListing(db, f, tables, responses)
    ensures IsWalk(OrderOf(db, f), LinkCodec(f.sort), PageSize(f.limit), TableRows(db, f, tables), responses)
  {
    var codec, rows := LinkCodec(f.sort), TableRows(db, f, tables);
    forall i | 0 <= i < |responses|
      ensures responses[i] ==
              Respond(OrderOf(db, f), codec, rows[i], AskedCursor(codec, None, responses, i), PageSize(f.limit))
    {
      var asked := Request(f, responses, i);
      CursorDoesNotFilter(db, tables[i], f, asked.cursor);
      assert responses[i] == ListLinks(db, tables[i], asked);
    }
  }

  /**
   A client that follows the cursors of any list sees every link that matches
   throughout with an unchanged sort value, exactly once.
   */
  lemma EveryLinkListedOnce(
    db: Database, f: Filter, tables: seq<Table>, responses: seq<Response<SortVal, Text>>, k: Key<SortVal, Text>)
    returns (i: nat, m: nat)
    requires Total(OrderOf(db, f)) && IsListing(db, f, tables, responses)
    requires forall t :: 0 <= t < |tables| ==> WellFormed(tables[t]) && k in Rows(db, tables[t], f)
    ensures i < |responses| && m < |responses[i].rows| && responses[i].rows[m] == k
    ensures forall j, n :: 0 <= j < |responses| && 0 <= n < |responses[j].rows| && responses[j].rows[n] == k
                           ==> j == i && n == m
  {
    ListingIsWalk(db, f, tables, responses);
    forall t | 0 <= t < |tables| ensures AllTravel(LinkCodec(f.sort), TableRows(db, f, tables)[t]) {
      RowsTravel(db, tables[t], f);
    }
    i, m := EveryRowSeenOnce(
      OrderOf(db, f), LinkCodec(f.sort), PageSize(f.limit), TableRows(db, f, tables), responses, k);
  }

  /** While the matching links do not change, every client that reaches the last page has seen them in order. */
  lemma CompletedListingIsSorted(
    db: Database, f: Filter, tables: seq<Table>, responses: seq<Response<SortVal, Text>>,
    rows: set<Key<SortVal, Text>>)
    requires Total(OrderOf(db, f)) && IsListing(db, f, tables, responses)
    requires forall t :: 0 <= t < |tables| ==> WellFormed(tables[t]) && Rows(db, tables[t], f) == rows
    ensures Shown(responses) == Sorted(OrderOf(db, f), rows)
  {
    ListingIsWalk(db, f, tables, responses);
    RowsTravel(db, tables[0], f);
    CompletedWalkIsSorted(
      OrderOf(db, f), LinkCodec(f.sort), PageSize(f.limit), TableRows(db, f, tables), responses, rows);
  }

  /** On a table that does not change, the client ends up with the matching links in order, each once. */
  lemma StaticListingIsComplete(db: Database, t: Table, f: Filter) returns (responses: seq<Response<SortVal, Text>>)
    requires Total(OrderOf(db, f)) && WellFormed(t)
    ensures IsListing(db, f, seq(|responses|, _ => t), responses)
    ensures Shown(responses) == Sorted(OrderOf(db, f), Rows(db, t, f))
  {
    RowsTravel(db, t, f);
    var codec := LinkCodec(f.sort);
    responses := StaticWalkIsComplete(OrderOf(db, f), codec, Rows(db, t, f), PageSize(f.limit));
    forall i | 0 <= i < |responses| ensures responses[i] == ListLinks(db, t, Request(f, responses, i)) {
      var asked := Request(f, responses, i);
      CursorDoesNotFilter(db, t, f, asked.cursor);
      assert responses[i] ==
             Respond(OrderOf(db, f), codec, Rows(db, t, f), AskedCursor(codec, None, responses, i), PageSize(f.limit));
    }
  }

  // -------------------------------------------------- what a list shows, by columns

  /** The filter's conditions on a row, column by column. */
  ghost predicate Wanted(db: Database, f: Filter, row: Row) {
    && (f.userId == [] || row.userId == Some(f.userId))
    && (f.status == OnlyDeleted <==> row.deletedAt.Some?)
    && (f.status.OnlyStatus? ==> row.status == f.status.status)
    && (f.query == [] || exists column, k :: column in {row.code, row.title, row.targetUrl}
                                             && Like.OccursAt(LoweredColumn(db, column), LoweredQuery(db, f.query), k))
    && (f.tag == [] || db.tagMatches(row.tags, f.tag))
  }

  /** The value is that of the column the list is sorted by. */
  predicate InColumn(sort: SortColumn, row: Row, val: SortVal) {
    && (sort == CreatedAt ==> val == Num(row.createdAt))
    && (sort == Clicks ==> val == Num(row.clickCount))
    && (sort == Title ==> val == Str(row.title))
  }

  /** First by value, then by id, both upward or both downward. */
  predicate Before(db: Database, ascending: bool, a: Key<SortVal, Text>, b: Key<SortVal, Text>) {
    if ascending then db.valLess(a.val, b.val) || (a.val == b.val && db.idLess(a.id, b.id))
    else db.valLess(b.val, a.val) || (a.val == b.val && db.idLess(b.id, a.id))
  }

  /** The key shown is that of a wanted row, with the row's own value. */
  ghost predicate ShowsRow(db: Database, t: Table, f: Filter, k: Key<SortVal, Text>) {
    k.id in t && Wanted(db, f, t[k.id]) && InColumn(f.sort, t[k.id], k.val)
  }

  /** The rows shown in the order asked for, each once. */
  predicate InOrder(db: Database, ascending: bool, shown: seq<Key<SortVal, Text>>) {
    forall i, j :: 0 <= i < j < |shown| ==> Before(db, ascending, shown[i], shown[j])
  }

  lemma RowsAreWanted(db: Database, t: Table, f: Filter, k: Key<SortVal, Text>)
    requires WellFormed(t)
    ensures k in Rows(db, t, f) <==> ShowsRow(db, t, f, k)
  {
    if k.id in t {
      QueryIsLiteral(db, f.query, t[k.id]);
      assert Selected(db, f, t[k.id]) <==> Wanted(db, f, t[k.id]);
      assert k == SortKey(f.sort, t[k.id]) <==> InColumn(f.sort, t[k.id], k.val);
    }
  }

  lemma OrderIsAsAsked(db: Database, f: Filter, a: Key<SortVal, Text>, b: Key<SortVal, Text>)
    ensures After(OrderOf(db, f), b, a) <==> Before(db, f.ascending, a, b)
  {
  }

  lemma AscendingIsInOrder(db: Database, f: Filter, shown: seq<Key<SortVal, Text>>)
    ensures Ascending(OrderOf(db, f), shown) <==> InOrder(db, f.ascending, shown)
  {
    forall i, j | 0 <= i < j < |shown|
      ensures After(OrderOf(db, f), shown[j], shown[i]) <==> Before(db, f.ascending, shown[i], shown[j])
    {
      OrderIsAsAsked(db, f, shown[i], shown[j]);
    }
  }

  /** The wanted rows that lie beyond where a request starts. */
  ghost predicate WantedFrom(
    db: Database, t: Table, f: Filter, start: Option<Key<SortVal, Text>>, k: Key<SortVal, Text>)
  {
    ShowsRow(db, t, f, k) && (start.Some? ==> Before(db, f.ascending, start.value, k))
  }

  /**
   What a page shows, by columns: wanted rows beyond the start, in the order
   asked for, no more than the limit; what it leaves out comes after what it
   shows, and it names a next cursor exactly when it leaves something out.
   */
  ghost predicate IsPage(
    db: Database, t: Table, f: Filter, start: Option<Key<SortVal, Text>>, r: Response<SortVal, Text>)
  {
    && r.Page? && InOrder(db, f.ascending, r.rows)
    && |r.rows| <= (if 1 <= f.limit <= 100 then f.limit else 25)
    && (forall k :: k in r.rows ==> WantedFrom(db, t, f, start, k))
    && (forall k, shown :: WantedFrom(db, t, f, start, k) && k !in r.rows && shown in r.rows ==>
          Before(db, f.ascending, shown, k))
    && (r.next != [] ==> |r.rows| == if 1 <= f.limit <= 100 then f.limit else 25)
    && (r.next != [] <==> exists k :: WantedFrom(db, t, f, start, k) && k !in r.rows)
  }

  /** A request without a cursor starts at the first row; with one, beyond the key the cursor stands for. */
  lemma PageByColumns(db: Database, t: Table, f: Filter)
    requires Total(OrderOf(db, f)) && WellFormed(t)
    ensures var r := ListLinks(db, t, f);
            if f.cursor != [] && ReadKey(f.sort, f.cursor).None? then r == InvalidCursor
            else IsPage(db, t, f, if f.cursor == [] then None else ReadKey(f.sort, f.cursor), r)
  {
    if f.cursor == [] {
      PageFrom(db, t, f, None);
    } else if ReadKey(f.sort, f.cursor).Some? {
      PageFrom(db, t, f, ReadKey(f.sort, f.cursor));
    }
  }

  lemma PageFrom(db: Database, t: Table, f: Filter, start: Option<Key<SortVal, Text>>)
    requires Total(OrderOf(db, f)) && WellFormed(t)
    ensures var (page, next) := List(OrderOf(db, f), Rows(db, t, f), start, PageSize(f.limit));
            IsPage(db, t, f, start, Page(page, NextText(LinkCodec(f.sort), next)))
  {
    var o, rows, limit := OrderOf(db, f), Rows(db, t, f), PageSize(f.limit);
    var (page, next) := List(o, rows, start, limit);
    EligibleByColumns(db, t, f, start);
    PageCut(o, rows, start, limit);
    NextIffMore(o, rows, start, limit);
    AscendingIsInOrder(db, f, page);
    NextTextIffNext(db, t, f, next);
    assert (next.Some? <==> exists k :: WantedFrom(db, t, f, start, k) && k !in page) by {
      assert forall k :: k in Eligible(o, rows, start) <==> WantedFrom(db, t, f, start, k);
    }
    forall k, shown | WantedFrom(db, t, f, start, k) && k !in page && shown in page
      ensures Before(db, f.ascending, shown, k)
    {
      LeftOutComesLater(o, rows, start, limit, shown, k);
      OrderIsAsAsked(db, f, shown, k);
    }
  }

  lemma NextTextIffNext(db: Database, t: Table, f: Filter, next: Option<Key<SortVal, Text>>)
    requires WellFormed(t) && (next.Some? ==> next.value in Rows(db, t, f))
    ensures NextText(LinkCodec(f.sort), next) != [] <==> next.Some?
  {
    if next.Some? { NextIsNotEmpty(db, t, f, next.value); }
  }

  lemma NextIsNotEmpty(db: Database, t: Table, f: Filter, k: Key<SortVal, Text>)
    requires WellFormed(t) && k in Rows(db, t, f)
    ensures WriteKey(k) != []
  {
    var id :| id in t && Selected(db, f, t[id]) && SortKey(f.sort, t[id]) == k;
    KeyTravels(f.sort, t[id]);
  }

  lemma EligibleByColumns(db: Database, t: Table, f: Filter, start: Option<Key<SortVal, Text>>)
    requires WellFormed(t)
    ensures forall k :: k in Eligible(OrderOf(db, f), Rows(db, t, f), start) <==> WantedFrom(db, t, f, start, k)
  {
    forall k ensures k in Eligible(OrderOf(db, f), Rows(db, t, f), start) <==> WantedFrom(db, t, f, start, k) {
      RowsAreWanted(db, t, f, k);
      if start.Some? { OrderIsAsAsked(db, f, start.value, k); }
    }
  }

  /** A client that reached the last page has seen every wanted row, and no other, once and in the order asked for. */
  lemma CompletedListingByColumns(
    db: Database, f: Filter, t: Table, tables: seq<Table>, responses: seq<Response<SortVal, Text>>)
    requires Total(OrderOf(db, f)) && IsListing(db, f, tables, responses) && WellFormed(t)
    requires forall i :: 0 <= i < |tables| ==> tables[i] == t
    ensures InOrder(db, f.ascending, Shown(responses))
    ensures forall k :: k in Shown(responses) <==> ShowsRow(db, t, f, k)
  {
    var o, rows := OrderOf(db, f), Rows(db, t, f);
    CompletedListingIsSorted(db, f, tables, responses, rows);
    SortedIsOrdered(o, rows);
    AscendingIsInOrder(db, f, Shown(responses));
    forall k ensures k in Shown(responses) <==> ShowsRow(db, t, f, k) {
      RowsAreWanted(db, t, f, k);
    }
  }
}

/** The clicks of a link, newest first. */
module ClickList {
  import opened Wrappers
  import opened Keyset
  import opened Paging
  import C = Cursor
  import Listing

  datatype Row = Row(id: int, linkId: Text, ts: int)

  /** The clicks table, by number. */
  type Table = map<int, Row>

  function PageSize(limit: int): (n: nat)
    ensures 1 <= n <= 200
  {
    if limit <= 0 || limit > 200 then 50 else limit
  }

  function ByTime(): Order<int, int> {
    Order((a: int, b: int) => a < b, (a: int, b: int) => a < b, true)
  }

  lemma ByTimeIsTotal()
    ensures Total(ByTime())
  {
  }

  function Rows(t: Table, linkId: Text): set<Key<int, int>> {
    set id | id in t && t[id].linkId == linkId :: Key(t[id].ts, id)
  }

  /** Times and numbers fit the database's integers. */
  ghost predicate WellFormed(t: Table) {
    forall id :: id in t ==> C.MIN_INT64 <= id <= C.MAX_INT64 && C.MIN_INT64 <= t[id].ts <= C.MAX_INT64
  }

  ghost function ListClicks(t: Table, linkId: Text, cursor: Text, limit: int): Response<int, int> {
    ByTimeIsTotal();
    Respond(ByTime(), Listing.ClickCodec(), Rows(t, linkId), cursor, PageSize(limit))
  }

  function TableRows(linkId: Text, tables: seq<Table>): (rows: seq<set<Key<int, int>>>)
    ensures |rows| == |tables| && forall i :: 0 <= i < |tables| ==> rows[i] == Rows(tables[i], linkId)
  {
    seq(|tables|, i requires 0 <= i < |tables| => Rows(tables[i], linkId))
  }

  function Asked(responses: seq<Response<int, int>>, i: nat): Text
    requires i <= |responses|
  {
    if i == 0 then [] else NextOf(responses[i - 1])
  }

  /** The responses to a client that follows `next` until it is empty, over a changing table. */
  ghost predicate IsListing(linkId: Text, limit: int, tables: seq<Table>, responses: seq<Response<int, int>>) {
    && 1 <= |tables| == |responses|
    && forall i :: 0 <= i < |responses| ==>
         && responses[i].Page?
         && responses[i] == ListClicks(tables[i], linkId, Asked(responses, i), limit)
         && (responses[i].next == [] <==> i == |responses| - 1)
  }

  lemma RowsTravel(t: Table, linkId: Text)
    requires WellFormed(t)
    ensures AllTravel(Listing.ClickCodec(), Rows(t, linkId))
  {
    Listing.ClicksTravel(Rows(t, linkId));
  }

  lemma ListingIsWalk(linkId: Text, limit: int, tables: seq<Table>, responses: seq<Response<int, int>>)
    requires IsListing(linkId, limit, tables, responses)
    ensures Total(ByTime())
    ensures IsWalk(ByTime(), Listing.ClickCodec(), PageSize(limit), TableRows(linkId, tables), responses)
  {
    ByTimeIsTotal();
    var codec, rows := Listing.ClickCodec(), TableRows(linkId, tables);
    forall i | 0 <= i < |responses|
      ensures responses[i] == Respond(ByTime(), codec, rows[i], AskedCursor(codec, None, responses, i), PageSize(limit))
    {
      assert responses[i] == ListClicks(tables[i], linkId, Asked(responses, i), limit);
    }
  }

  /** A click there throughout is listed exactly once, also among clicks of the same millisecond. */
  lemma EveryClickListedOnce(
    linkId: Text, limit: int, tables: seq<Table>, responses: seq<Response<int, int>>, k: Key<int, int>)
    returns (i: nat, m: nat)
    requires IsListing(linkId, limit, tables, responses)
    requires forall t :: 0 <= t < |tables| ==> WellFormed(tables[t]) && k in Rows(tables[t], linkId)
    ensures i < |responses| && m < |responses[i].rows| && responses[i].rows[m] == k
    ensures forall j, n :: 0 <= j < |responses| && 0 <= n < |responses[j].rows| && responses[j].rows[n] == k
                           ==> j == i && n == m
  {
    ListingIsWalk(linkId, limit, tables, responses);
    forall t | 0 <= t < |tables| ensures AllTravel(Listing.ClickCodec(), TableRows(linkId, tables)[t]) {
      RowsTravel(tables[t], linkId);
    }
    i, m := EveryRowSeenOnce(
      ByTime(), Listing.ClickCodec(), PageSize(limit), TableRows(linkId, tables), responses, k);
  }

  /** While the clicks of the link do not change, every client that reaches the last page has seen them in order. */
  lemma CompletedListingIsSorted(
    linkId: Text, limit: int, tables: seq<Table>, responses: seq<Response<int, int>>, rows: set<Key<int, int>>)
    requires IsListing(linkId, limit, tables, responses)
    requires forall t :: 0 <= t < |tables| ==> WellFormed(tables[t]) && Rows(tables[t], linkId) == rows
    ensures Total(ByTime()) && Shown(responses) == Sorted(ByTime(), rows)
  {
    ListingIsWalk(linkId, limit, tables, responses);
    RowsTravel(tables[0], linkId);
    CompletedWalkIsSorted(
      ByTime(), Listing.ClickCodec(), PageSize(limit), TableRows(linkId, tables), responses, rows);
  }

  /** On a table that does not change, the pages make up the clicks of the link, newest first. */
  lemma StaticListingIsComplete(t: Table, linkId: Text, limit: int) returns (responses: seq<Response<int, int>>)
    requires WellFormed(t)
    ensures Total(ByTime())
    ensures IsListing(linkId, limit, seq(|responses|, _ => t), responses)
    ensures Shown(responses) == Sorted(ByTime(), Rows(t, linkId))
  {
    ByTimeIsTotal();
    RowsTravel(t, linkId);
    responses := StaticWalkIsComplete(ByTime(), Listing.ClickCodec(), Rows(t, linkId), PageSize(limit));
    forall i | 0 <= i < |responses|
      ensures responses[i] == ListClicks(t, linkId, Asked(responses, i), limit)
    {
      assert responses[i] == Respond(ByTime(), Listing.ClickCodec(), Rows(t, linkId),
                                     AskedCursor(Listing.ClickCodec(), None, responses, i), PageSize(limit));
    }
  }

  // -------------------------------------------------- what the list shows, by columns

  /** The number of a click of the link, with its time. */
  predicate ShowsClick(t: Table, linkId: Text, k: Key<int, int>) {
    k.id in t && t[k.id].linkId == linkId && k.val == t[k.id].ts
  }

  /** Newest first, and among clicks of one millisecond the larger number first. */
  predicate NewestFirst(shown: seq<Key<int, int>>) {
    forall i, j :: 0 <= i < j < |shown| ==>
      shown[j].val < shown[i].val || (shown[j].val == shown[i].val && shown[j].id < shown[i].id)
  }

  /** A client that reached the last page has seen the clicks of the link, and only these, newest first. */
  lemma CompletedListingByColumns(
    t: Table, linkId: Text, limit: int, tables: seq<Table>, responses: seq<Response<int, int>>)
    requires IsListing(linkId, limit, tables, responses) && WellFormed(t)
    requires forall i :: 0 <= i < |tables| ==> tables[i] == t
    ensures NewestFirst(Shown(responses))
    ensures forall k :: k in Shown(responses) <==> ShowsClick(t, linkId, k)
  {
    CompletedListingIsSorted(linkId, limit, tables, responses, Rows(t, linkId));
    SortedIsOrdered(ByTime(), Rows(t, linkId));
    NewestIsAscending(Shown(responses));
    assert forall k :: k in Rows(t, linkId) <==> ShowsClick(t, linkId, k);
  }

  lemma NewestIsAscending(shown: seq<Key<int, int>>)
    ensures Ascending(ByTime(), shown) <==> NewestFirst(shown)
  {
    forall i, j | 0 <= i < j < |shown|
      ensures After(ByTime(), shown[j], shown[i]) <==>
                shown[j].val < shown[i].val || (shown[j].val == shown[i].val && shown[j].id < shown[i].id)
    {
    }
  }

  /** The first page: as many of the newest clicks as the limit allows, and a cursor exactly if there are more. */
  lemma FirstPageByColumns(t: Table, linkId: Text, limit: int)
    requires WellFormed(t)
    ensures var r := ListClicks(t, linkId, [], limit);
            var most := if 1 <= limit <= 200 then limit else 50;
            && r.Page? && NewestFirst(r.rows) && |r.rows| <= most
            && (forall k :: k in r.rows ==> ShowsClick(t, linkId, k))
            && (r.next == [] <==> forall k :: ShowsClick(t, linkId, k) ==> k in r.rows)
            && (r.next != [] ==> |r.rows| == most)
  {
    ByTimeIsTotal();
    var o, rows, most := ByTime(), Rows(t, linkId), PageSize(limit);
    PageCut(o, rows, None, most);
    NextIffMore(o, rows, None, most);
    RowsTravel(t, linkId);
    var (page, next) := List(o, rows, None, most);
    NewestIsAscending(page);
    assert next.Some? ==> Travels(Listing.ClickCodec(), next.value);
    assert forall k :: k in rows <==> ShowsClick(t, linkId, k);
  }
}

/** The users an administrator sees, newest first. */
module UserList {
  import opened Wrappers
  import opened Keyset
  import opened Paging
  import C = Cursor
  import Like
  import Listing

  datatype Row = Row(id: Text, email: Text, name: Text, createdAt: int)

  /** The users table, by id. */
  type Table = map<Text, Row>

  function ByTime(db: Listing.Database): Order<int, Text> {
    Order((a: int, b: int) => a < b, db.idLess, true)
  }

  /** An empty query, white space removed at its ends, does not filter. */
  predicate Selected(db: Listing.Database, query: Text, row: Row) {
    query != [] ==>
      var p := [Like.PERCENT] + Like.EscapeInOnePass(Listing.LoweredQuery(db, query)) + [Like.PERCENT];
      Like.Matches(p, Listing.LoweredColumn(db, row.email)) || Like.Matches(p, Listing.LoweredColumn(db, row.name))
  }

  function Rows(db: Listing.Database, t: Table, query: Text): set<Key<int, Text>> {
    set id | id in t && Selected(db, query, t[id]) :: Key(t[id].createdAt, id)
  }

  /** Ids hold no bar and times fit the database's integers. */
  ghost predicate WellFormed(t: Table) {
    forall id :: id in t ==> C.BAR !in id && C.MIN_INT64 <= t[id].createdAt <= C.MAX_INT64
  }

  ghost function ListUsers(db: Listing.Database, t: Table, query: Text, cursor: Text, limit: int): Response<int, Text>
    requires Total(ByTime(db))
  {
    Respond(ByTime(db), Listing.UserCodec(), Rows(db, t, query), cursor, Listing.PageSize(limit))
  }

  function TableRows(db: Listing.Database, query: Text, tables: seq<Table>): (rows: seq<set<Key<int, Text>>>)
    ensures |rows| == |tables| && forall i :: 0 <= i < |tables| ==> rows[i] == Rows(db, tables[i], query)
  {
    seq(|tables|, i requires 0 <= i < |tables| => Rows(db, tables[i], query))
  }

  function Asked(responses: seq<Response<int, Text>>, i: nat): Text
    requires i <= |responses|
  {
    if i == 0 then [] else NextOf(responses[i - 1])
  }

  /** The responses to a client that follows `next` until it is empty, over a changing table. */
  ghost predicate IsListing(
    db: Listing.Database, query: Text, limit: int, tables: seq<Table>, responses: seq<Response<int, Text>>)
    requires Total(ByTime(db))
  {
    && 1 <= |tables| == |responses|
    && forall i :: 0 <= i < |responses| ==>
         && responses[i].Page?
         && responses[i] == ListUsers(db, tables[i], query, Asked(responses, i), limit)
         && (responses[i].next == [] <==> i == |responses| - 1)
  }

  /** The single-pass replacer builds the pattern the link search builds: a user is found by what occurs literally. */
  lemma QueryIsLiteral(db: Listing.Database, query: Text, row: Row)
    requires query != []
    ensures Selected(db, query, row) <==>
              exists column, k :: column in {row.email, row.name}
                                  && Like.OccursAt(
                                       Listing.LoweredColumn(db, column), Listing.LoweredQuery(db, query), k)
  {
    var q := Listing.LoweredQuery(db, query);
    Like.SequentialIsSinglePass(q);
    Like.SearchIsSubstring(q, Listing.LoweredColumn(db, row.email));
    Like.SearchIsSubstring(q, Listing.LoweredColumn(db, row.name));
  }

  lemma RowsTravel(db: Listing.Database, t: Table, query: Text)
    requires WellFormed(t)
    ensures AllTravel(Listing.UserCodec(), Rows(db, t, query))
  {
    Listing.UsersTravel(Rows(db, t, query));
  }

  lemma ListingIsWalk(
    db: Listing.Database, query: Text, limit: int, tables: seq<Table>, responses: seq<Response<int, Text>>)
    requires Total(ByTime(db)) && IsListing(db, query, limit, tables, responses)
    ensures IsWalk(ByTime(db), Listing.UserCodec(), Listing.PageSize(limit), TableRows(db, query, tables), responses)
  {
    var codec, rows := Listing.UserCodec(), TableRows(db, query, tables);
    forall i | 0 <= i < |responses|
      ensures responses[i] ==
              Respond(ByTime(db), codec, rows[i], AskedCursor(codec, None, responses, i), Listing.PageSize(limit))
    {
      assert responses[i] == ListUsers(db, tables[i], query, Asked(responses, i), limit);
    }
  }

  /** A user there and matching throughout is listed exactly once. */
  lemma EveryUserListedOnce(
    db: Listing.Database, query: Text, limit: int, tables: seq<Table>, responses: seq<Response<int, Text>>,
    k: Key<int, Text>)
    returns (i: nat, m: nat)
    requires Total(ByTime(db)) && IsListing(db, query, limit, tables, responses)
    requires forall t :: 0 <= t < |tables| ==> WellFormed(tables[t]) && k in Rows(db, tables[t], query)
    ensures i < |responses| && m < |responses[i].rows| && responses[i].rows[m] == k
    ensures forall j, n :: 0 <= j < |responses| && 0 <= n < |responses[j].rows| && responses[j].rows[n] == k
                           ==> j == i && n == m
  {
    var codec, rows := Listing.UserCodec(), TableRows(db, query, tables);
    ListingIsWalk(db, query, limit, tables, responses);
    forall t | 0 <= t < |tables| ensures AllTravel(codec, rows[t]) {
      RowsTravel(db, tables[t], query);
    }
    i, m := EveryRowSeenOnce(ByTime(db), codec, Listing.PageSize(limit), rows, responses, k);
  }

  /** While the matching users do not change, every client that reaches the last page has seen them in order. */
  lemma CompletedListingIsSorted(
    db: Listing.Database, query: Text, limit: int, tables: seq<Table>, responses: seq<Response<int, Text>>,
    rows: set<Key<int, Text>>)
    requires Total(ByTime(db)) && IsListing(db, query, limit, tables, responses)
    requires forall t :: 0 <= t < |tables| ==> WellFormed(tables[t]) && Rows(db, tables[t], query) == rows
    ensures Shown(responses) == Sorted(ByTime(db), rows)
  {
    ListingIsWalk(db, query, limit, tables, responses);
    RowsTravel(db, tables[0], query);
    CompletedWalkIsSorted(
      ByTime(db), Listing.UserCodec(), Listing.PageSize(limit), TableRows(db, query, tables), responses, rows);
  }

  /** On a table that does not change, the pages make up the matching users, newest first. */
  lemma StaticListingIsComplete(db: Listing.Database, t: Table, query: Text, limit: int)
    returns (responses: seq<Response<int, Text>>)
    requires Total(ByTime(db)) && WellFormed(t)
    ensures IsListing(db, query, limit, seq(|responses|, _ => t), responses)
    ensures Shown(responses) == Sorted(ByTime(db), Rows(db, t, query))
  {
    var codec := Listing.UserCodec();
    RowsTravel(db, t, query);
    responses := StaticWalkIsComplete(ByTime(db), codec, Rows(db, t, query), Listing.PageSize(limit));
    forall i | 0 <= i < |responses|
      ensures responses[i] == ListUsers(db, t, query, Asked(responses, i), limit)
    {
      assert responses[i] == Respond(ByTime(db), codec, Rows(db, t, query),
                                     AskedCursor(codec, None, responses, i), Listing.PageSize(limit));
    }
  }

  // -------------------------------------------------- what the list shows, by columns

  /** The id of a user whose email or name holds the query, with the time of creation. */
  ghost predicate ShowsUser(db: Listing.Database, t: Table, query: Text, k: Key<int, Text>) {
    && k.id in t && k.val == t[k.id].createdAt
    && (query == [] || exists column, at :: column in {t[k.id].email, t[k.id].name} && Like.OccursAt(
                         Listing.LoweredColumn(db, column), Listing.LoweredQuery(db, query), at))
  }

  /** Newest first, and among users of one millisecond the larger id first. */
  predicate NewestFirst(db: Listing.Database, shown: seq<Key<int, Text>>) {
    forall i, j :: 0 <= i < j < |shown| ==>
      shown[j].val < shown[i].val || (shown[j].val == shown[i].val && db.idLess(shown[j].id, shown[i].id))
  }

  lemma RowsAreUsers(db: Listing.Database, t: Table, query: Text, k: Key<int, Text>)
    ensures k in Rows(db, t, query) <==> ShowsUser(db, t, query, k)
  {
    if k.id in t && query != [] { QueryIsLiteral(db, query, t[k.id]); }
  }

  lemma NewestIsAscending(db: Listing.Database, shown: seq<Key<int, Text>>)
    ensures Ascending(ByTime(db), shown) <==> NewestFirst(db, shown)
  {
    forall i, j | 0 <= i < j < |shown|
      ensures After(ByTime(db), shown[j], shown[i]) <==>
                shown[j].val < shown[i].val || (shown[j].val == shown[i].val && db.idLess(shown[j].id, shown[i].id))
    {
    }
  }

  /** A client that reached the last page has seen the matching users, and only these, newest first. */
  lemma CompletedListingByColumns(
    db: Listing.Database, t: Table, query: Text, limit: int, tables: seq<Table>, responses: seq<Response<int, Text>>)
    requires Total(ByTime(db)) && IsListing(db, query, limit, tables, responses) && WellFormed(t)
    requires forall i :: 0 <= i < |tables| ==> tables[i] == t
    ensures NewestFirst(db, Shown(responses))
    ensures forall k :: k in Shown(responses) <==> ShowsUser(db, t, query, k)
  {
    CompletedListingIsSorted(db, query, limit, tables, responses, Rows(db, t, query));
    SortedIsOrdered(ByTime(db), Rows(db, t, query));
    NewestIsAscending(db, Shown(responses));
    forall k ensures k in Shown(responses) <==> ShowsUser(db, t, query, k) {
      RowsAreUsers(db, t, query, k);
    }
  }

  /** The first page: as many of the newest users as the limit allows, and a cursor exactly if there are more. */
  lemma FirstPageByColumns(db: Listing.Database, t: Table, query: Text, limit: int)
    requires Total(ByTime(db)) && WellFormed(t)
    ensures var r := ListUsers(db, t, query, [], limit);
            var most := if 1 <= limit <= 100 then limit else 25;
            && r.Page? && NewestFirst(db, r.rows) && |r.rows| <= most
            && (forall k :: k in r.rows ==> ShowsUser(db, t, query, k))
            && (r.next == [] <==> forall k :: ShowsUser(db, t, query, k) ==> k in r.rows)
            && (r.next != [] ==> |r.rows| == most)
  {
    var o, rows, most := ByTime(db), Rows(db, t, query), Listing.PageSize(limit);
    PageCut(o, rows, None, most);
    NextIffMore(o, rows, None, most);
    RowsTravel(db, t, query);
    var (page, next) := List(o, rows, None, most);
    NewestIsAscending(db, page);
    assert next.Some? ==> Travels(Listing.UserCodec(), next.value);
    forall k ensures k in rows <==> ShowsUser(db, t, query, k) {
      RowsAreUsers(db, t, query, k);
    }
  }
}
