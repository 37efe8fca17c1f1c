/**
 Searching with SQL's LIKE: a query is escaped, wrapped in wildcards and matched
 with '\' as the escape character.
 */
module Like {
  /** Characters, as numbers. */
  type Text = seq<int>

  const PERCENT := 37
  const BACKSLASH := 92
  const UNDERSCORE := 95

  /** `s LIKE p ESCAPE '\'`. */
  predicate Matches(p: Text, s: Text)
    decreases |p|, |s|
  {
    if p == [] then s == []
    else if p[0] == PERCENT then Matches(p[1..], s) || (s != [] && Matches(p, s[1..]))
    else if p[0] == UNDERSCORE then s != [] && Matches(p[1..], s[1..])
    else if p[0] == BACKSLASH then |p| > 1 && s != [] && s[0] == p[1] && Matches(p[2..], s[1..])
    else s != [] && s[0] == p[0] && Matches(p[1..], s[1..])
  }

  /** Every occurrence of one byte replaced by a text, left to right. */
  function ReplaceAll(s: Text, c: int, sub: Text): Text {
    if s == [] then []
    else ReplaceByte(s[0], c, sub) + ReplaceAll(s[1..], c, sub)
  }

  function ReplaceByte(b: int, c: int, sub: Text): Text {
    if b == c then sub else [b]
  }

  /** Three replacements in sequence, the escape character first. */
  function EscapeLike(s: Text): Text {
    ReplaceAll(ReplaceAll(ReplaceAll(s, BACKSLASH, [BACKSLASH, BACKSLASH]), PERCENT, [BACKSLASH, PERCENT]),
               UNDERSCORE, [BACKSLASH, UNDERSCORE])
  }

  function EscapeByte(b: int): Text {
    if b == BACKSLASH || b == PERCENT || b == UNDERSCORE then [BACKSLASH, b] else [b]
  }

  /** One pass with a replacer that knows all three characters. */
  function EscapeInOnePass(s: Text): Text {
    if s == [] then [] else EscapeByte(s[0]) + EscapeInOnePass(s[1..])
  }

  /** The pattern of a search. */
  function Pattern(query: Text): Text {
    [PERCENT] + EscapeLike(query) + [PERCENT]
  }

  ghost predicate OccursAt(s: Text, q: Text, k: nat) {
    k + |q| <= |s| && s[k..k + |q|] == q
  }

  lemma {:induction false} ReplaceAllAppends(s: Text, t: Text, c: int, sub: Text)
    ensures ReplaceAll(s + t, c, sub) == ReplaceAll(s, c, sub) + ReplaceAll(t, c, sub)
  {
    if s == [] {
      assert s + t == t;
    } else {
      ReplaceAllAppends(s[1..], t, c, sub);
      var all := s + t;
      assert all[0] == s[0] && all[1..] == s[1..] + t;
      Associates(ReplaceByte(s[0], c, sub), ReplaceAll(s[1..], c, sub), ReplaceAll(t, c, sub));
    }
  }

  lemma Associates(a: Text, b: Text, c: Text)
    ensures a + (b + c) == (a + b) + c
  {
  }

  lemma ReplaceOne(b: int, c: int, sub: Text)
    ensures ReplaceAll([b], c, sub) == if b == c then sub else [b]
  {
    assert [b][1..] == [];
  }

  lemma ReplaceTwo(a: int, b: int, c: int, sub: Text)
    requires a != c
    ensures ReplaceAll([a, b], c, sub) == [a] + (if b == c then sub else [b])
  {
    ReplaceOne(b, c, sub);
    assert [a, b][1..] == [b];
  }

  /** The three replacements treat one byte as the single pass does. */
  lemma EscapeOneByte(b: int)
    ensures EscapeLike([b]) == EscapeByte(b)
  {
    var first := ReplaceAll([b], BACKSLASH, [BACKSLASH, BACKSLASH]);
    ReplaceOne(b, BACKSLASH, [BACKSLASH, BACKSLASH]);
    var second := ReplaceAll(first, PERCENT, [BACKSLASH, PERCENT]);
    if b == BACKSLASH {
      ReplaceTwo(b, b, PERCENT, [BACKSLASH, PERCENT]);
      ReplaceTwo(b, b, UNDERSCORE, [BACKSLASH, UNDERSCORE]);
    } else {
      ReplaceOne(b, PERCENT, [BACKSLASH, PERCENT]);
      if b == PERCENT {
        ReplaceTwo(BACKSLASH, b, UNDERSCORE, [BACKSLASH, UNDERSCORE]);
      } else {
        ReplaceOne(b, UNDERSCORE, [BACKSLASH, UNDERSCORE]);
      }
    }
  }

  lemma EscapeLikeAppends(s: Text, t: Text)
    ensures EscapeLike(s + t) == EscapeLike(s) + EscapeLike(t)
  {
    var s1, t1 := ReplaceAll(s, BACKSLASH, [BACKSLASH, BACKSLASH]), ReplaceAll(t, BACKSLASH, [BACKSLASH, BACKSLASH]);
    var s2, t2 := ReplaceAll(s1, PERCENT, [BACKSLASH, PERCENT]), ReplaceAll(t1, PERCENT, [BACKSLASH, PERCENT]);
    ReplaceAllAppends(s, t, BACKSLASH, [BACKSLASH, BACKSLASH]);
    ReplaceAllAppends(s1, t1, PERCENT, [BACKSLASH, PERCENT]);
    ReplaceAllAppends(s2, t2, UNDERSCORE, [BACKSLASH, UNDERSCORE]);
  }

  /** The sequential replacements equal the single-pass replacer on every text. */
  lemma {:induction false} SequentialIsSinglePass(s: Text)
    ensures EscapeLike(s) == EscapeInOnePass(s)
  {
    if s != [] {
      SequentialIsSinglePass(s[1..]);
      EscapeLikeAppends([s[0]], s[1..]);
      EscapeOneByte(s[0]);
      assert [s[0]] + s[1..] == s;
    }
  }

  lemma EscapedByteIsLiteral(b: int, p: Text, s: Text)
    ensures Matches(EscapeByte(b) + p, s) <==> s != [] && s[0] == b && Matches(p, s[1..])
  {
    var q := EscapeByte(b) + p;
    assert q[|EscapeByte(b)|..] == p;
  }

  /** An escaped query in front of a pattern matches exactly itself. */
  lemma {:induction false} EscapedIsLiteral(q: Text, p: Text, s: Text)
    ensures Matches(EscapeInOnePass(q) + p, s) <==> OccursAt(s, q, 0) && Matches(p, s[|q|..])
  {
    if q == [] {
      assert EscapeInOnePass(q) + p == p && s[0..] == s;
    } else {
      var rest := EscapeInOnePass(q[1..]) + p;
      assert EscapeInOnePass(q) + p == EscapeByte(q[0]) + rest;
      EscapedByteIsLiteral(q[0], rest, s);
      if s != [] {
        EscapedIsLiteral(q[1..], p, s[1..]);
        assert |q| <= |s| ==> s[1..][|q| - 1..] == s[|q|..];
        assert |q| <= |s| ==> s[..|q|] == [s[0]] + s[1..][..|q| - 1];
        assert q == [q[0]] + q[1..];
      }
    }
  }

  /** A leading '%' skips any number of bytes. */
  lemma {:induction false} PercentSkips(p: Text, s: Text)
    ensures Matches([PERCENT] + p, s) <==> exists k :: 0 <= k <= |s| && Matches(p, s[k..])
  {
    var all := [PERCENT] + p;
    assert all[1..] == p && s[0..] == s;
    if s != [] {
      PercentSkips(p, s[1..]);
      forall k | 1 <= k <= |s| ensures s[1..][k - 1..] == s[k..] {
      }
      if k :| 0 <= k <= |s[1..]| && Matches(p, s[1..][k..]) { assert s[1..][k..] == s[k + 1..]; }
    }
  }

  lemma {:induction false} PercentMatchesAll(s: Text)
    ensures Matches([PERCENT], s)
  {
    assert [PERCENT][1..] == [];
    if s != [] { PercentMatchesAll(s[1..]); }
  }

  /** A search finds exactly the texts in which the query occurs, whatever characters it holds. */
  lemma SearchIsSubstring(query: Text, s: Text)
    ensures Matches(Pattern(query), s) <==> exists k :: OccursAt(s, query, k)
  {
    SequentialIsSinglePass(query);
    var tail := EscapeInOnePass(query) + [PERCENT];
    assert Pattern(query) == [PERCENT] + tail;
    PercentSkips(tail, s);
    forall k | 0 <= k <= |s| ensures Matches(tail, s[k..]) <==> OccursAt(s, query, k) {
      EscapedIsLiteral(query, [PERCENT], s[k..]);
      if k + |query| <= |s| {
        PercentMatchesAll(s[k..][|query|..]);
        assert s[k..][0..|query|] == s[k..k + |query|];
      }
    }
  }

  // -------------------------------------------------------------- letter case

  /** A text with each character mapped. */
  function Map(f: int -> int, s: Text): (t: Text)
    ensures |t| == |s| && forall i :: 0 <= i < |s| ==> t[i] == f(s[i])
  {
    seq(|s|, i requires 0 <= i < |s| => f(s[i]))
  }

  function AsciiLower(c: int): int {
    if 65 <= c <= 90 then c + 32 else c
  }

  /** A LIKE that does not distinguish the case of ASCII letters. */
  predicate MatchesFolding(p: Text, s: Text) {
    Matches(Map(AsciiLower, p), Map(AsciiLower, s))
  }

  /** On text without ASCII capitals, which is all it is used on here, such a LIKE matches the same. */
  lemma FoldingChangesNothing(p: Text, s: Text)
    requires forall i :: 0 <= i < |p| ==> AsciiLower(p[i]) == p[i]
    requires forall i :: 0 <= i < |s| ==> AsciiLower(s[i]) == s[i]
    ensures MatchesFolding(p, s) <==> Matches(p, s)
  {
    assert Map(AsciiLower, p) == p && Map(AsciiLower, s) == s;
  }

  /**
   The program lowers the query with `go`, the database lowers the texts with
   `sql`: the search finds the texts the query occurs in up to letter case.
   */
  ghost predicate FindsUpToCase(query: Text, go: int -> int, sql: int -> int) {
    forall s :: Matches(Pattern(Map(go, query)), Map(sql, s)) <==> exists k :: OccursAt(Map(go, s), Map(go, query), k)
  }

  /** For the letters of the query the two lower the same characters. */
  ghost predicate LowerAlike(query: Text, go: int -> int, sql: int -> int) {
    forall i, x: int :: 0 <= i < |query| ==> (go(x) == go(query[i]) <==> sql(x) == go(query[i]))
  }

  lemma OccursAlike(query: Text, go: int -> int, sql: int -> int, s: Text, k: nat)
    requires LowerAlike(query, go, sql)
    ensures OccursAt(Map(sql, s), Map(go, query), k) <==> OccursAt(Map(go, s), Map(go, query), k)
  {
    if k + |query| <= |s| {
      var a, b := Map(sql, s)[k..k + |query|], Map(go, s)[k..k + |query|];
      forall i | 0 <= i < |query| ensures a[i] == go(query[i]) <==> b[i] == go(query[i]) {
        var x := s[k + i];
        assert a[i] == sql(x) && b[i] == go(x);
        assert go(x) == go(query[i]) <==> sql(x) == go(query[i]);
      }
    }
  }

  /** A text of the query's length holds the query only if it is the query. */
  lemma OccursInItsLength(s: Text, q: Text)
    requires |s| == |q|
    ensures (exists k :: OccursAt(s, q, k)) <==> s == q
  {
    assert s[0..|q|] == s;
    if s == q { assert OccursAt(s, q, 0); }
  }

  lemma UnlikeLetterShows(query: Text, go: int -> int, sql: int -> int, i: nat, x: int)
    requires forall c :: sql(go(c)) == go(c)
    requires i < |query| && !(go(x) == go(query[i]) <==> sql(x) == go(query[i]))
    ensures !FindsUpToCase(query, go, sql)
  {
    var q := Map(go, query);
    var s := if go(x) == q[i] then query[i := x] else q[i := x];
    SearchIsSubstring(q, Map(sql, s));
    OccursInItsLength(Map(sql, s), q);
    OccursInItsLength(Map(go, s), q);
    if go(x) == q[i] {
      assert Map(go, s) == q && Map(sql, s)[i] != q[i];
    } else {
      forall j | 0 <= j < |q| ensures Map(sql, s)[j] == q[j] {
        if j != i {
          var c := query[j];
          assert s[j] == go(c);
          assert sql(go(c)) == go(c);
        }
      }
      assert Map(sql, s) == q && Map(go, s)[i] != q[i];
    }
  }

  /**
   When the database leaves lowered letters alone, a search finds what it
   should in every text if and only if the two lower the query's letters alike.
   */
  lemma SearchIsUpToCaseIff(query: Text, go: int -> int, sql: int -> int)
    requires forall c :: sql(go(c)) == go(c)
    ensures FindsUpToCase(query, go, sql) <==> LowerAlike(query, go, sql)
  {
    if LowerAlike(query, go, sql) {
      forall s ensures Matches(Pattern(Map(go, query)), Map(sql, s)) <==>
                         exists k :: OccursAt(Map(go, s), Map(go, query), k) {
        SearchIsSubstring(Map(go, query), Map(sql, s));
        forall k: nat ensures OccursAt(Map(sql, s), Map(go, query), k) <==> OccursAt(Map(go, s), Map(go, query), k) {
          OccursAlike(query, go, sql, s, k);
        }
      }
    } else {
      var i, x :| 0 <= i < |query| && !(go(x) == go(query[i]) <==> sql(x) == go(query[i]));
      UnlikeLetterShows(query, go, sql, i, x);
    }
  }

  /** The word for "over", with a capital letter outside ASCII. */
  const UEBER := [220, 98, 101, 114]

  /** A database that lowers ASCII only does not find a text by the text itself when it holds such a letter. */
  lemma UmlautIsMissed(go: int -> int)
    requires go(220) == 252
    ensures !Matches(Pattern(Map(go, UEBER)), Map(AsciiLower, UEBER))
    ensures exists k :: OccursAt(Map(go, UEBER), Map(go, UEBER), k)
  {
    SearchIsSubstring(Map(go, UEBER), Map(AsciiLower, UEBER));
    OccursInItsLength(Map(AsciiLower, UEBER), Map(go, UEBER));
    OccursInItsLength(Map(go, UEBER), Map(go, UEBER));
    assert Map(AsciiLower, UEBER)[0] == 220 && Map(go, UEBER)[0] == 252;
  }
}
