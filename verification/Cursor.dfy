/**
 Pagination cursors: a sort value and a row id, joined by '|' and written in
 unpadded base64url (section 5 of RFC 4648).
 */
module Cursor {
  import opened Wrappers
  import opened Bytes
  import opened Numerals

  /** Strings are sequences of bytes here. */
  type Text = seq<byte>

  const BAR: byte := 124
  const MINUS: byte := 45
  const PLUS: byte := 43

  // --------------------------------------------------------------- base64url

  type sextet = n: int | 0 <= n < 64

  function Symbol(n: sextet): byte {
    if n < 26 then n + 65
    else if n < 52 then n - 26 + 97
    else if n < 62 then n - 52 + 48
    else if n == 62 then MINUS
    else 95
  }

  /** The URL and file name safe alphabet, in two halves. */
  lemma SymbolIsBase64Url(n: sextet)
    ensures n < 32 ==> Symbol(n) == "ABCDEFGHIJKLMNOPQRSTUVWXYZabcdef"[n] as int
    ensures n >= 32 ==> Symbol(n) == "ghijklmnopqrstuvwxyz0123456789-_"[n - 32] as int
  {
  }

  function SymbolValue(b: byte): Option<sextet> {
    if 65 <= b <= 90 then Some(b - 65)
    else if 97 <= b <= 122 then Some(b - 97 + 26)
    else if 48 <= b <= 57 then Some(b - 48 + 52)
    else if b == MINUS then Some(62)
    else if b == 95 then Some(63)
    else None
  }

  /** Three bytes to four symbols; one or two bytes left over to two or three. */
  function EncodeBase64(b: Text): Text {
    if b == [] then []
    else if |b| == 1 then [Symbol(b[0] / 4), Symbol(b[0] % 4 * 16)]
    else if |b| == 2 then [Symbol(b[0] / 4), Symbol(b[0] % 4 * 16 + b[1] / 16), Symbol(b[1] % 16 * 4)]
    else
      [Symbol(b[0] / 4), Symbol(b[0] % 4 * 16 + b[1] / 16), Symbol(b[1] % 16 * 4 + b[2] / 64), Symbol(b[2] % 64)]
      + EncodeBase64(b[3..])
  }

  /** The decoder skips line breaks wherever they stand. */
  function WithoutBreaks(s: Text): Text {
    if s == [] then []
    else if s[0] == 10 || s[0] == 13 then WithoutBreaks(s[1..])
    else [s[0]] + WithoutBreaks(s[1..])
  }

  function Values(s: Text): Option<seq<sextet>> {
    if s == [] then Some([])
    else
      match (SymbolValue(s[0]), Values(s[1..]))
      case (Some(v), Some(vs)) => Some([v] + vs)
      case _ => None
  }

  function FirstByte(a: sextet, b: sextet): byte { a * 4 + b / 16 }

  function SecondByte(b: sextet, c: sextet): byte { b % 16 * 16 + c / 4 }

  function ThirdByte(c: sextet, d: sextet): byte { c % 4 * 64 + d }

  /** Four values to three bytes; the spare low bits of a short group are ignored. */
  function Join(v: seq<sextet>): Option<Text> {
    if v == [] then Some([])
    else if |v| == 1 then None
    else if |v| == 2 then Some([FirstByte(v[0], v[1])])
    else if |v| == 3 then Some([FirstByte(v[0], v[1]), SecondByte(v[1], v[2])])
    else
      match Join(v[4..])
      case None => None
      case Some(rest) => Some([FirstByte(v[0], v[1]), SecondByte(v[1], v[2]), ThirdByte(v[2], v[3])] + rest)
  }

  function DecodeBase64(s: Text): Option<Text> {
    match Values(WithoutBreaks(s))
    case None => None
    case Some(v) => Join(v)
  }

  /** The values of the symbols that encode `b`. */
  function Sextets(b: Text): seq<sextet> {
    if b == [] then []
    else if |b| == 1 then [b[0] / 4, b[0] % 4 * 16]
    else if |b| == 2 then [b[0] / 4, b[0] % 4 * 16 + b[1] / 16, b[1] % 16 * 4]
    else Group(b[0], b[1], b[2]) + Sextets(b[3..])
  }

  lemma SymbolRoundTrip(n: sextet)
    ensures SymbolValue(Symbol(n)) == Some(n) && Symbol(n) != 10 && Symbol(n) != 13
  {
  }

  function Symbols(v: seq<sextet>): Text {
    if v == [] then [] else [Symbol(v[0])] + Symbols(v[1..])
  }

  lemma {:induction false} SymbolsAppend(v: seq<sextet>, w: seq<sextet>)
    ensures Symbols(v + w) == Symbols(v) + Symbols(w)
  {
    if v == [] {
      assert v + w == w;
    } else {
      SymbolsAppend(v[1..], w);
      var all := v + w;
      assert all[0] == v[0] && all[1..] == v[1..] + w;
      assert Symbols(all) == [Symbol(v[0])] + (Symbols(v[1..]) + Symbols(w));
    }
  }

  lemma {:induction false} EncodeIsSymbols(b: Text)
    ensures EncodeBase64(b) == Symbols(Sextets(b))
  {
    if |b| >= 3 {
      EncodeIsSymbols(b[3..]);
      var head := Group(b[0], b[1], b[2]);
      SymbolsAppend(head, Sextets(b[3..]));
      FourSymbols(head[0], head[1], head[2], head[3]);
    } else if |b| == 2 {
      ThreeSymbols(b[0] / 4, b[0] % 4 * 16 + b[1] / 16, b[1] % 16 * 4);
    } else if |b| == 1 {
      TwoSymbols(b[0] / 4, b[0] % 4 * 16);
    }
  }

  /** A number with one more digit at its end. */
  function Shifted(v: int, base: int, d: int): int {
    v * base + d
  }

  lemma GroupHasTheBits(a: byte, b: byte, c: byte)
    ensures var g := Group(a, b, c);
            Shifted(Shifted(Shifted(g[0], 64, g[1]), 64, g[2]), 64, g[3]) == Shifted(Shifted(a, 256, b), 256, c)
    ensures Shifted(Shifted(a / 4, 64, a % 4 * 16 + b / 16), 64, b % 16 * 4) == Shifted(a, 256, b) * 4
    ensures Shifted(a / 4, 64, a % 4 * 16) == (a as int) * 16
  {
  }

  /** The symbols from the `4 * i`-th on have the bits of the bytes from the `3 * i`-th on, filled up with zeros. */
  ghost predicate HaveTheBits(s: seq<sextet>, b: Text, i: nat)
    requires 3 * i < |b|
  {
    var m, n, left := 4 * i, 3 * i, |b| - 3 * i;
    && (left >= 3 ==>
          && m + 3 < |s|
          && Shifted(Shifted(Shifted(s[m], 64, s[m + 1]), 64, s[m + 2]), 64, s[m + 3]) ==
             Shifted(Shifted(b[n], 256, b[n + 1]), 256, b[n + 2]))
    && (left == 3 ==> |s| == m + 4)
    && (left == 2 ==>
          && |s| == m + 3
          && Shifted(Shifted(s[m], 64, s[m + 1]), 64, s[m + 2]) == Shifted(b[n], 256, b[n + 1]) * 4)
    && (left == 1 ==> |s| == m + 2 && Shifted(s[m], 64, s[m + 1]) == (b[n] as int) * 16)
  }

  lemma FirstGroup(b: Text)
    requires b != []
    ensures HaveTheBits(Sextets(b), b, 0)
  {
    GroupHasTheBits(b[0], if |b| > 1 then b[1] else 0, if |b| > 2 then b[2] else 0);
  }

  lemma LaterGroup(s: seq<sextet>, r: seq<sextet>, b: Text, i: nat)
    requires 3 * i + 3 < |b| && HaveTheBits(r, b[3..], i) && |s| == |r| + 4
    requires forall j :: 0 <= j < |r| ==> s[j + 4] == r[j]
    ensures HaveTheBits(s, b, i + 1)
  {
    assert forall j :: 0 <= j < |b| - 3 ==> b[3..][j] == b[j + 3];
  }

  /** Group by group, four symbols have the bits of three bytes; fewer, at the end, those of what is left. */
  lemma {:induction false} SextetsHaveTheBits(b: Text, i: nat)
    requires 3 * i < |b|
    ensures HaveTheBits(Sextets(b), b, i)
    decreases i
  {
    if i == 0 {
      FirstGroup(b);
    } else {
      SextetsHaveTheBits(b[3..], i - 1);
      LaterGroup(Sextets(b), Sextets(b[3..]), b, i - 1);
    }
  }

  lemma TwoSymbols(a: sextet, b: sextet)
    ensures Symbols([a, b]) == [Symbol(a), Symbol(b)]
  {
    assert [a, b][1..] == [b] && [b][1..] == [];
    assert Symbols([b]) == [Symbol(b)];
  }

  lemma ThreeSymbols(a: sextet, b: sextet, c: sextet)
    ensures Symbols([a, b, c]) == [Symbol(a), Symbol(b), Symbol(c)]
  {
    assert [a, b, c][1..] == [b, c];
    TwoSymbols(b, c);
  }

  lemma FourSymbols(a: sextet, b: sextet, c: sextet, d: sextet)
    ensures Symbols([a, b, c, d]) == [Symbol(a), Symbol(b), Symbol(c), Symbol(d)]
  {
    assert [a, b, c, d][1..] == [b, c, d];
    ThreeSymbols(b, c, d);
  }

  lemma {:induction false} ValuesOfSymbols(v: seq<sextet>)
    ensures WithoutBreaks(Symbols(v)) == Symbols(v) && Values(Symbols(v)) == Some(v)
  {
    if v != [] {
      SymbolRoundTrip(v[0]);
      ValuesOfSymbols(v[1..]);
      assert Symbols(v)[0] == Symbol(v[0]) && Symbols(v)[1..] == Symbols(v[1..]);
      assert v == [v[0]] + v[1..];
    }
  }

  /** The split of three bytes into four values loses nothing. */
  lemma BytesBack(a: byte, b: byte, c: byte)
    ensures FirstByte(a / 4, a % 4 * 16 + b / 16) == a && FirstByte(a / 4, a % 4 * 16) == a
    ensures SecondByte(a % 4 * 16 + b / 16, b % 16 * 4 + c / 64) == b
    ensures SecondByte(a % 4 * 16 + b / 16, b % 16 * 4) == b
    ensures ThirdByte(b % 16 * 4 + c / 64, c % 64) == c
  {
  }

  /** The four values of a full group. */
  function Group(a: byte, b: byte, c: byte): seq<sextet> {
    [a / 4, a % 4 * 16 + b / 16, b % 16 * 4 + c / 64, c % 64]
  }

  lemma JoinGroup(a: byte, b: byte, c: byte, v: seq<sextet>, rest: Text)
    requires Join(v) == Some(rest)
    ensures Join(Group(a, b, c) + v) == Some([a, b, c] + rest)
  {
    BytesBack(a, b, c);
    JoinFour(a / 4, a % 4 * 16 + b / 16, b % 16 * 4 + c / 64, c % 64, v, rest);
  }

  lemma JoinFour(x: sextet, y: sextet, z: sextet, w: sextet, v: seq<sextet>, rest: Text)
    requires Join(v) == Some(rest)
    ensures Join([x, y, z, w] + v) == Some([FirstByte(x, y), SecondByte(y, z), ThirdByte(z, w)] + rest)
  {
    assert ([x, y, z, w] + v)[4..] == v;
  }

  lemma JoinTwo(x: sextet, y: sextet)
    ensures Join([x, y]) == Some([FirstByte(x, y)])
  {
  }

  lemma JoinThree(x: sextet, y: sextet, z: sextet)
    ensures Join([x, y, z]) == Some([FirstByte(x, y), SecondByte(y, z)])
  {
  }

  lemma {:induction false} JoinOfSextets(b: Text)
    ensures Join(Sextets(b)) == Some(b)
  {
    if |b| >= 3 {
      JoinOfSextets(b[3..]);
      JoinGroup(b[0], b[1], b[2], Sextets(b[3..]), b[3..]);
      assert b == [b[0], b[1], b[2]] + b[3..];
    } else if |b| == 2 {
      JoinOfTwo(b);
    } else if |b| == 1 {
      JoinOfOne(b);
    }
  }

  lemma JoinIs(b: Text, x: sextet, y: sextet, z: sextet)
    requires |b| == 2 && Sextets(b) == [x, y, z] && FirstByte(x, y) == b[0] && SecondByte(y, z) == b[1]
    ensures Join(Sextets(b)) == Some(b)
  {
    JoinThree(x, y, z);
    assert b == [b[0], b[1]];
  }

  lemma SextetsOfTwo(b: Text) returns (x: sextet, y: sextet, z: sextet)
    requires |b| == 2
    ensures Sextets(b) == [x, y, z] && FirstByte(x, y) == b[0] && SecondByte(y, z) == b[1]
  {
    var first, second := b[0], b[1];
    x, y, z := first / 4, first % 4 * 16 + second / 16, second % 16 * 4;
    TwoBytesBack(first, second);
  }

  lemma TwoBytesBack(a: byte, b: byte)
    ensures FirstByte(a / 4, a % 4 * 16 + b / 16) == a
    ensures SecondByte(a % 4 * 16 + b / 16, b % 16 * 4) == b
  {
  }

  lemma JoinOfTwo(b: Text)
    requires |b| == 2
    ensures Join(Sextets(b)) == Some(b)
  {
    var x, y, z := SextetsOfTwo(b);
    JoinIs(b, x, y, z);
  }

  lemma JoinOfOne(b: Text)
    requires |b| == 1
    ensures Join(Sextets(b)) == Some(b)
  {
    var x, y := b[0] / 4, b[0] % 4 * 16;
    assert Sextets(b) == [x, y];
    assert b == [FirstByte(x, y)] by {
      BytesBack(b[0], 0, 0);
    }
    JoinTwo(x, y);
  }

  /** Decoding an encoded text gives it back, for every text. */
  lemma Base64RoundTrip(b: Text)
    ensures DecodeBase64(EncodeBase64(b)) == Some(b)
  {
    EncodeIsSymbols(b);
    ValuesOfSymbols(Sextets(b));
    JoinOfSextets(b);
  }

  // ---------------------------------------------------------------- integers

  const MIN_INT64: int := -0x8000_0000_0000_0000
  const MAX_INT64: int := 0x7FFF_FFFF_FFFF_FFFF

  function Digits(n: nat): (s: Text)
    ensures s != []
  {
    if n < 10 then [48 + n] else Digits(n / 10) + [48 + n % 10]
  }

  function FormatInt(n: int): Text {
    if n < 0 then [MINUS] + Digits(-n) else Digits(n)
  }

  /** A non-empty run of decimal digits. */
  function ParseDigits(s: Text): Option<nat> {
    if s == [] || !(48 <= s[|s| - 1] <= 57) then None
    else if |s| == 1 then Some(s[0] - 48)
    else
      match ParseDigits(s[..|s| - 1])
      case None => None
      case Some(n) => Some(n * 10 + s[|s| - 1] - 48)
  }

  /** A decimal integer with an optional sign, refused outside 64 bits. */
  function ParseInt(s: Text): Option<int> {
    if s == [] then None
    else
      var digits := if s[0] == MINUS || s[0] == PLUS then s[1..] else s;
      match ParseDigits(digits)
      case None => None
      case Some(n) =>
        var v: int := if s[0] == MINUS then 0 - (n as int) else n as int;
        if MIN_INT64 <= v <= MAX_INT64 then Some(v) else None
  }

  lemma {:induction false} DigitsRoundTrip(n: nat)
    ensures ParseDigits(Digits(n)) == Some(n)
    ensures 48 <= Digits(n)[0] <= 57
  {
    if n >= 10 {
      DigitsRoundTrip(n / 10);
      assert Digits(n)[..|Digits(n)| - 1] == Digits(n / 10);
    }
  }

  /** The decimal digits of a number, without a leading zero. */
  lemma {:induction false} DigitsAreDecimal(n: nat)
    ensures forall i :: 0 <= i < |Digits(n)| ==> '0' as int <= Digits(n)[i] <= '9' as int
    ensures Val(DigitValues(Digits(n)), 10) == n
    ensures |Digits(n)| > 1 ==> Digits(n)[0] != '0' as int
  {
    var d := Digits(n);
    if n < 10 {
      assert DigitValues(d) == [n] && [n][..0] == [];
    } else {
      DigitsAreDecimal(n / 10);
      var front := Digits(n / 10);
      assert DigitValues(d)[..|front|] == DigitValues(front);
      if n < 100 { assert front == [48 + n / 10]; }
    }
  }

  function DigitValues(s: Text): (v: seq<nat>)
    ensures |v| == |s|
  {
    seq(|s|, i requires 0 <= i < |s| => if s[i] >= 48 then s[i] - 48 else 0)
  }

  /** A minus sign for a negative number, then the digits of its absolute value. */
  lemma FormatIsDecimal(n: int)
    ensures n < 0 <==> FormatInt(n)[0] == '-' as int
    ensures var digits := if n < 0 then FormatInt(n)[1..] else FormatInt(n);
            Val(DigitValues(digits), 10) == if n < 0 then -n else n
  {
    DigitsAreDecimal(if n < 0 then -n else n);
    if n < 0 { assert FormatInt(n)[1..] == Digits(-n); }
  }

  lemma IntRoundTrip(n: int)
    ensures ParseInt(FormatInt(n)) ==
            if -0x8000_0000_0000_0000 <= n < 0x8000_0000_0000_0000 then Some(n) else None
  {
    DigitsRoundTrip(if n < 0 then -n else n);
    if n < 0 { assert FormatInt(n)[1..] == Digits(-n); }
  }

  // ----------------------------------------------------------------- cursors

  function EncodeKeyCursor(val: Text, id: Text): Text {
    EncodeBase64(val + [BAR] + id)
  }

  /** The position of the last bar, or -1. */
  function LastBar(s: Text): (i: int)
    ensures -1 <= i < |s|
    ensures i >= 0 ==> s[i] == BAR
    ensures forall j :: i < j < |s| ==> s[j] != BAR
  {
    if s == [] then -1
    else if s[|s| - 1] == BAR then |s| - 1
    else LastBar(s[..|s| - 1])
  }

  function DecodeKeyCursor(cursor: Text): Option<(Text, Text)> {
    match DecodeBase64(cursor)
    case None => None
    case Some(b) => if LastBar(b) < 0 then None else Some((b[..LastBar(b)], b[LastBar(b) + 1..]))
  }

  function EncodeCursor(ms: int, id: Text): Text {
    EncodeKeyCursor(FormatInt(ms), id)
  }

  function DecodeCursor(cursor: Text): Option<(int, Text)> {
    match DecodeKeyCursor(cursor)
    case None => None
    case Some((v, id)) =>
      match ParseInt(v)
      case None => None
      case Some(ms) => Some((ms, id))
  }

  /**
   A key cursor decodes to what it was made of exactly when the id has no bar;
   the sort value may contain any number of them.
   */
  lemma KeyCursorRoundTrip(val: Text, id: Text)
    ensures DecodeKeyCursor(EncodeKeyCursor(val, id)) == Some((val, id)) <==> BAR !in id
  {
    var b := val + [BAR] + id;
    Base64RoundTrip(b);
    assert b[|val|] == BAR;
    if BAR !in id {
      assert LastBar(b) == |val|;
      assert b[..|val|] == val && b[|val| + 1..] == id;
    } else {
      var j :| 0 <= j < |id| && id[j] == BAR;
      assert b[|val| + 1 + j] == BAR;
      assert |b[..LastBar(b)]| > |val|;
    }
  }

  /** A time cursor gives back every 64-bit value and every id without a bar. */
  lemma CursorRoundTrip(ms: int, id: Text)
    requires MIN_INT64 <= ms <= MAX_INT64 && BAR !in id
    ensures DecodeCursor(EncodeCursor(ms, id)) == Some((ms, id))
  {
    KeyCursorRoundTrip(FormatInt(ms), id);
    IntRoundTrip(ms);
  }

  /** Behind the encoding a cursor is the value, a bar and the id. */
  lemma CursorIsValueBarId(val: Text, id: Text)
    ensures DecodeBase64(EncodeKeyCursor(val, id)) == Some(val + ['|' as int] + id)
  {
    Base64RoundTrip(val + [BAR] + id);
  }

  /** An issued cursor is never the empty one, which asks for the first page. */
  lemma CursorIsNotEmpty(val: Text, id: Text)
    ensures EncodeKeyCursor(val, id) != []
  {
  }
}
