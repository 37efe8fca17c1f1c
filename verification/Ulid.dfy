/**
 Sortable ids: 48 bits of milliseconds and an 80-bit counter, written as 26
 base-32 characters with the last two bits of the text left zero.
 */
module Ulid {
  import opened Bytes
  import opened Numerals

  type Text = seq<byte>

  type digit = d: int | 0 <= d < 32

  /** The characters 0-9, A-H, J, K, M, N, P-T and V-Z. */
  function Symbol(d: digit): byte {
    if d < 10 then 48 + d
    else if d < 18 then 65 + d - 10
    else if d < 20 then 74 + d - 18
    else if d < 22 then 77 + d - 20
    else if d < 27 then 80 + d - 22
    else 86 + d - 27
  }

  /** The alphabet of Crockford's base 32. */
  lemma SymbolIsCrockford(d: digit)
    ensures Symbol(d) == "0123456789ABCDEFGHJKMNPQRSTVWXYZ"[d] as int
  {
  }

  function Symbols(d: seq<digit>): (t: Text)
    ensures |t| == |d|
    ensures forall i :: 0 <= i < |d| ==> t[i] == Symbol(d[i])
  {
    seq(|d|, i requires 0 <= i < |d| => Symbol(d[i]))
  }

  // ------------------------------------------------------------------ order

  /** Comparison of texts, byte by byte. */
  predicate Less(s: seq<nat>, t: seq<nat>) {
    if t == [] then false
    else if s == [] then true
    else s[0] < t[0] || (s[0] == t[0] && Less(s[1..], t[1..]))
  }

  lemma {:induction false} LessSnoc(s: seq<nat>, t: seq<nat>, x: nat, y: nat)
    requires |s| == |t|
    ensures Less(s + [x], t + [y]) <==> Less(s, t) || (s == t && x < y)
  {
    if s == [] {
      assert s + [x] == [x] && t + [y] == [y] && [x][1..] == [] && [y][1..] == [];
    } else {
      LessSnoc(s[1..], t[1..], x, y);
      assert (s + [x])[1..] == s[1..] + [x] && (t + [y])[1..] == t[1..] + [y];
      assert s == [s[0]] + s[1..] && t == [t[0]] + t[1..];
    }
  }

  /** Among sequences of one length, text order is numeric order, and the value determines the digits. */
  lemma {:induction false} OrderIsNumeric(s: seq<nat>, t: seq<nat>, base: nat)
    requires |s| == |t| && Below(s, base) && Below(t, base)
    ensures Less(s, t) <==> Val(s, base) < Val(t, base)
    ensures s == t <==> Val(s, base) == Val(t, base)
  {
    if s != [] {
      var n := |s| - 1;
      OrderIsNumeric(s[..n], t[..n], base);
      LessSnoc(s[..n], t[..n], s[n], t[n]);
      assert s == s[..n] + [s[n]] && t == t[..n] + [t[n]];
      LeadingDigitsDecide(Val(s[..n], base), Val(t[..n], base), base, s[n], t[n]);
      LeadingDigitsDecide(Val(t[..n], base), Val(s[..n], base), base, t[n], s[n]);
    }
  }

  // ------------------------------------------------------------- the encoder

  /** The `n` base-32 digits of a number. */
  function Digits(v: nat, n: nat): (d: seq<digit>)
    ensures |d| == n
  {
    if n == 0 then [] else Digits(v / 32, n - 1) + [v % 32]
  }

  /** The text of sixteen bytes: the digits of four times their value. */
  function Encoded(b: seq<byte>): Text {
    Symbols(Digits(4 * Val(b, 256), 26))
  }

  lemma {:induction false} DigitsOfValue(d: seq<digit>)
    ensures Digits(Val(d, 32), |d|) == d
  {
    if d != [] {
      var n := |d| - 1;
      DigitsOfValue(d[..n]);
      var v := Val(d[..n], 32);
      assert Val(d, 32) == v * 32 + d[n];
      assert (v * 32 + d[n]) / 32 == v && (v * 32 + d[n]) % 32 == d[n];
      assert Digits(Val(d, 32), |d|) == Digits(v, n) + [d[n]];
    }
  }

  lemma {:induction false} ValueOfDigits(v: nat, n: nat)
    requires v < Power(32, n)
    ensures Val(Digits(v, n), 32) == v
  {
    if n > 0 {
      assert v / 32 < Power(32, n - 1);
      ValueOfDigits(v / 32, n - 1);
      assert Digits(v, n)[..n - 1] == Digits(v / 32, n - 1);
    }
  }

  /** The quotient is determined by its product and a remainder in range. */
  lemma DivIs(a: int, m: int, q: int, r: int)
    requires a == m * q + r && 0 <= r < m
    ensures a / m == q && a % m == r
  {
    var p, d := a / m, a / m - q;
    assert a == m * p + a % m;
    assert m * p - m * q == m * d;
    Outweighs(m, d);
  }

  lemma Outweighs(m: int, d: int)
    requires m > 0
    ensures d >= 1 ==> m * d >= m
    ensures d <= -1 ==> m * d <= -m
  {
  }

  lemma Associates(a: nat, b: nat, c: nat)
    ensures (a * b) * c == a * (b * c)
  {
  }

  /** Bits that have left the accumulator do not reach a shift by `m`, whose quotient is a multiple of 32. */
  lemma WrappingIsHarmless(v: nat, word: nat, m: nat, j: nat)
    requires word == m * (32 * j) && word > 0
    ensures (v % word / m) % 32 == (v / m) % 32
  {
    var q, r := v / word, v % word;
    var high := 32 * (j * q);
    assert word * q == m * high by {
      Associates(m, 32 * j, q);
      Associates(32, j, q);
    }
    assert m * (high + r / m) == m * high + m * (r / m);
    assert v == word * q + r;
    DivIs(v, m, high + r / m, r % m);
  }

  const WORD: nat := 0x1_0000_0000_0000_0000

  /** Dividing twice is dividing by the product. */
  lemma DivDiv(v: nat, m: nat, k: nat)
    requires m > 0 && k > 0
    ensures m * k > 0 && v / m / k == v / (m * k)
  {
    var x := v / m;
    var y, t, r := x / k, x % k, v % m;
    Regroup(m, k, y, t, r);
    RemainderFits(m, k, t, r);
    assert v == m * (k * y + t) + r;
    DivIs(v, m * k, y, m * t + r);
  }

  lemma RemainderFits(m: nat, k: nat, t: nat, r: nat)
    requires t < k && r < m
    ensures m * t + r < m * k
  {
    Outweighs(m, k - t);
    assert m * k == m * t + m * (k - t);
  }

  lemma Regroup(m: nat, k: nat, y: nat, t: nat, r: nat)
    ensures m * (k * y + t) + r == (m * k) * y + (m * t + r)
  {
    Associates(m, k, y);
  }

  /** Feeding a byte under the digits already taken leaves them as they are. */
  lemma FeedByte(v: nat, m: nat, b: byte)
    requires m > 0
    ensures (v * 256 + b) / (m * 256) == v / m
  {
    var x, r := v / m, v % m;
    assert v == m * x + r;
    assert v * 256 + b == (m * 256) * x + (r * 256 + b) by {
      assert (m * x + r) * 256 == m * x * 256 + r * 256;
      assert m * x * 256 == (m * 256) * x;
    }
    DivIs(v * 256 + b, m * 256, x, r * 256 + b);
  }

  lemma {:induction false} PowerAdds(base: nat, a: nat, b: nat)
    ensures Power(base, a + b) == Power(base, a) * Power(base, b)
  {
    if b > 0 {
      PowerAdds(base, a, b - 1);
      Associates(Power(base, a), Power(base, b - 1), base);
    }
  }

  lemma SmallPowers()
    ensures Power(2, 2) == 4 && Power(2, 3) == 8 && Power(2, 5) == 32 && Power(2, 8) == 256
    ensures Power(2, 64) == WORD
  {
    assert Power(2, 0) == 1 && Power(2, 1) == 2 && Power(2, 2) == 4 && Power(2, 3) == 8;
    PowerAdds(2, 3, 2);
    PowerAdds(2, 5, 3);
    PowerAdds(2, 8, 8);
    PowerAdds(2, 16, 16);
    PowerAdds(2, 32, 32);
  }

  /** The digit a shift by `n` bits exposes is that of the full number, though the accumulator has wrapped. */
  lemma ShiftedDigit(v: nat, n: nat)
    requires n <= 59
    ensures (v % WORD / Power(2, n)) % 32 == (v / Power(2, n)) % 32
  {
    SmallPowers();
    PowerAdds(2, n, 64 - n);
    PowerAdds(2, 5, 59 - n);
    WrappingIsHarmless(v, WORD, Power(2, n), Power(2, 59 - n));
  }

  /** The digits taken are the bits read so far, but for those still held, which the accumulator has modulo a word. */
  ghost predicate Accumulates(b: seq<byte>, bits: nat, bitCount: nat, bi: nat, d: seq<digit>) {
    && bi <= |b| && 5 * |d| + bitCount == 8 * bi
    && bits == Val(b[..bi], 256) % WORD
    && Val(d, 32) == Val(b[..bi], 256) / Power(2, bitCount)
  }

  lemma Feed(b: seq<byte>, bits: nat, bitCount: nat, bi: nat, d: seq<digit>)
    requires Accumulates(b, bits, bitCount, bi, d) && bi < |b|
    ensures Accumulates(b, bits * 256 % WORD + b[bi], bitCount + 8, bi + 1, d)
  {
    var v := Val(b[..bi], 256);
    assert b[..bi + 1][..bi] == b[..bi];
    SmallPowers();
    PowerAdds(2, bitCount, 8);
    FeedByte(v, Power(2, bitCount), b[bi]);
    FeedWord(v, b[bi]);
  }

  lemma FeedWord(v: nat, b: byte)
    ensures v % WORD * 256 % WORD + b == (v * 256 + b) % WORD
  {
  }

  lemma Take(b: seq<byte>, bits: nat, bitCount: nat, bi: nat, d: seq<digit>) returns (next: digit)
    requires Accumulates(b, bits, bitCount, bi, d) && 5 <= bitCount <= 12
    ensures next == (bits / Power(2, bitCount - 5)) % 32
    ensures Accumulates(b, bits, bitCount - 5, bi, d + [next])
  {
    var v, m := Val(b[..bi], 256), Power(2, bitCount - 5);
    next := (bits / m) % 32;
    ShiftedDigit(v, bitCount - 5);
    SmallPowers();
    PowerAdds(2, bitCount - 5, 5);
    DivDiv(v, m, 32);
    assert (d + [next])[..|d|] == d;
  }

  /** The last character holds the three bits left, followed by two zero bits. */
  lemma TakeLast(b: seq<byte>, bits: nat, d: seq<digit>) returns (next: digit)
    requires |b| == 16 && Accumulates(b, bits, 3, 16, d)
    ensures next == bits * Power(2, 2) % WORD % 32
    ensures |d + [next]| == 26 && Val(d + [next], 32) == 4 * Val(b, 256)
  {
    SmallPowers();
    assert b[..16] == b;
    next := bits * 4 % WORD % 32;
    LastDigit(Val(b, 256));
    assert (d + [next])[..|d|] == d;
  }

  lemma LastDigit(v: nat)
    ensures v / 8 * 32 + v % WORD * 4 % WORD % 32 == 4 * v
  {
  }

  /** The inner loop of the encoder: bytes are shifted in until a character's worth of bits is held. */
  method FillUp(b: seq<byte>, bits0: nat, count0: nat, bi0: nat, ghost d: seq<digit>)
    returns (bits: nat, bitCount: nat, bi: nat)
    requires |b| == 16 && Accumulates(b, bits0, count0, bi0, d) && count0 <= 7
    ensures Accumulates(b, bits, bitCount, bi, d) && bitCount <= 12
    ensures bitCount >= 5 || bi == 16
  {
    bits, bitCount, bi := bits0, count0, bi0;
    while bitCount < 5 && bi < 16
      invariant Accumulates(b, bits, bitCount, bi, d) && bitCount <= 12
      decreases 16 - bi
    {
      Feed(b, bits, bitCount, bi, d);
      bits := bits * 256 % WORD + b[bi];
      bitCount := bitCount + 8;
      bi := bi + 1;
    }
  }

  lemma SymbolsExtend(d: seq<digit>, next: digit)
    ensures Symbols(d + [next]) == Symbols(d) + [Symbol(next)]
  {
  }

  /** The encoder: characters are shifted out of a 64-bit accumulator. */
  method Encode(b: seq<byte>) returns (s: Text)
    requires |b| == 16
    ensures s == Encoded(b)
  {
    var bits: nat, bitCount: nat, bi: nat := 0, 0, 0;
    s := [];
    ghost var d: seq<digit> := [];
    while |s| < 26
      invariant |s| <= 26 && s == Symbols(d)
      invariant |s| < 26 ==> Accumulates(b, bits, bitCount, bi, d) && bitCount <= 7
      invariant |s| == 26 ==> Val(d, 32) == 4 * Val(b, 256)
      decreases 26 - |s|
    {
      bits, bitCount, bi := FillUp(b, bits, bitCount, bi, d);
      if bitCount < 5 {
        assert bi == 16 && bitCount == 3 && |d| == 25;
        ghost var next := TakeLast(b, bits, d);
        SymbolsExtend(d, next);
        s, d := s + [Symbol(bits * Power(2, 5 - bitCount) % WORD % 32)], d + [next];
        bitCount := 0;
        continue;
      }
      ghost var next := Take(b, bits, bitCount, bi, d);
      SymbolsExtend(d, next);
      bitCount := bitCount - 5;
      s, d := s + [Symbol((bits / Power(2, bitCount)) % 32)], d + [next];
      assert |d| <= 25 by { assert 5 * |d| + bitCount == 8 * bi; }
    }
    DigitsOfValue(d);
  }

  // --------------------------------------------------------- order of the text

  lemma SymbolsAscend(a: digit, b: digit)
    ensures Symbol(a) < Symbol(b) <==> a < b
    ensures Symbol(a) == Symbol(b) <==> a == b
  {
  }

  lemma {:induction false} SymbolsKeepOrder(d: seq<digit>, e: seq<digit>)
    requires |d| == |e|
    ensures Less(Symbols(d), Symbols(e)) <==> Less(d, e)
  {
    if d != [] {
      SymbolsAscend(d[0], e[0]);
      SymbolsKeepOrder(d[1..], e[1..]);
      assert Symbols(d)[1..] == Symbols(d[1..]) && Symbols(e)[1..] == Symbols(e[1..]);
    }
  }

  lemma SymbolsDecide(d: seq<digit>, e: seq<digit>)
    requires |d| == |e|
    ensures Symbols(d) == Symbols(e) <==> d == e
  {
    if d != e {
      var i :| 0 <= i < |d| && d[i] != e[i];
      SymbolsAscend(d[i], e[i]);
      assert Symbols(d)[i] != Symbols(e)[i];
    }
  }

  lemma FourTimesFits(b: seq<byte>)
    requires |b| == 16
    ensures 4 * Val(b, 256) < Power(32, 26)
  {
    ValIsBounded(b, 256);
    PowersAgree();
  }

  lemma PowersAgree()
    ensures 4 * Power(256, 16) == Power(32, 26)
  {
    assert Power(2, 2) == 4 && Power(2, 5) == 32 && Power(2, 8) == 256 by {
      SmallPowers();
    }
    PowerIn(256, 8, 16, 128);
    PowerIn(32, 5, 26, 130);
    PowerAdds(2, 2, 128);
  }

  lemma PowerIn(base: nat, k: nat, n: nat, bits: nat)
    requires base == Power(2, k) && bits == k * n
    ensures Power(base, n) == Power(2, bits)
  {
    PowerOfPower(k, n);
  }

  lemma {:induction false} PowerOfPower(k: nat, n: nat)
    ensures Power(Power(2, k), n) == Power(2, k * n)
  {
    if n > 0 {
      PowerOfPower(k, n - 1);
      PowerAdds(2, k * (n - 1), k);
      assert k * (n - 1) + k == k * n;
    }
  }

  /** The text decides the bytes, and orders ids exactly as their bytes do. */
  lemma TextOrderIsByteOrder(a: seq<byte>, b: seq<byte>)
    requires |a| == |b| == 16
    ensures Less(Encoded(a), Encoded(b)) <==> Less(a, b)
    ensures Encoded(a) == Encoded(b) <==> a == b
  {
    var d, e := Digits(4 * Val(a, 256), 26), Digits(4 * Val(b, 256), 26);
    SymbolsKeepOrder(d, e);
    SymbolsDecide(d, e);
    FourTimesFits(a);
    FourTimesFits(b);
    ValueOfDigits(4 * Val(a, 256), 26);
    ValueOfDigits(4 * Val(b, 256), 26);
    OrderIsNumeric(d, e, 32);
    OrderIsNumeric(a, b, 256);
  }

  /** 26 characters of four times the value, the last of which always has its two low bits clear. */
  lemma TextShape(b: seq<byte>)
    requires |b| == 16
    ensures exists d: seq<digit> :: IsText(d, Encoded(b), 4 * Val(b, 256)) && |d| == 26 && d[25] % 4 == 0
  {
    var v := 4 * Val(b, 256);
    FourTimesFits(b);
    ShapeOf(v, 26);
    SymbolsAreText(Digits(v, 26));
    assert IsText(Digits(v, 26), Encoded(b), v);
  }

  /** The text shows the digits of `v` to the base 32 in Crockford's alphabet. */
  ghost predicate IsText(d: seq<digit>, text: Text, v: nat) {
    && Val(d, 32) == v && |text| == |d|
    && forall i :: 0 <= i < |d| ==> text[i] == "0123456789ABCDEFGHJKMNPQRSTVWXYZ"[d[i]] as int
  }

  lemma SymbolsAreText(d: seq<digit>)
    ensures IsText(d, Symbols(d), Val(d, 32))
  {
    forall i | 0 <= i < |d| ensures Symbols(d)[i] == "0123456789ABCDEFGHJKMNPQRSTVWXYZ"[d[i]] as int {
      SymbolIsCrockford(d[i]);
    }
  }

  lemma ShapeOf(v: nat, n: nat)
    requires n > 0 && v < Power(32, n) && v % 4 == 0
    ensures Val(Digits(v, n), 32) == v && Digits(v, n)[n - 1] % 4 == 0
  {
    ValueOfDigits(v, n);
    LastOfDigits(v, n);
    LowBits(v);
  }

  lemma LowBits(v: nat)
    ensures v % 32 % 4 == v % 4
  {
  }

  lemma LastOfDigits(v: nat, n: nat)
    requires n > 0
    ensures Digits(v, n)[n - 1] == v % 32
  {
  }

  // ------------------------------------------------------------ the generator

  /** The last time and counter used. */
  datatype Last = Last(ms: int, rand: seq<byte>)

  /** The six bytes of the time, most significant first. */
  function TimeBytes(ms: int): (b: seq<byte>)
    ensures |b| == 6
  {
    [ms / 0x100_0000_0000 % 256, ms / 0x1_0000_0000 % 256, ms / 0x100_0000 % 256,
     ms / 0x1_0000 % 256, ms / 0x100 % 256, ms % 256]
  }

  /** One added to a big-endian counter that wraps. */
  function Increment(s: seq<byte>): (r: seq<byte>)
    ensures |r| == |s|
  {
    if s == [] then []
    else
      var n := |s| - 1;
      if s[n] == 255 then Increment(s[..n]) + [0] else s[..n] + [s[n] + 1]
  }

  /** Within the millisecond of the last id the counter goes up; otherwise it starts afresh. */
  function NextLast(last: Last, ms: int, fresh_: seq<byte>): Last {
    Last(ms, if ms == last.ms then Increment(last.rand) else fresh_)
  }

  function IdBytes(last: Last): seq<byte> {
    TimeBytes(last.ms) + last.rand
  }

  class Generator {
    var lastMS: int
    const lastRand: array<byte>

    ghost predicate Valid() {
      lastRand.Length == 10
    }

    ghost function State(): Last
      reads this, lastRand
    {
      Last(lastMS, lastRand[..])
    }

    constructor ()
      ensures Valid() && State() == Last(0, seq(10, _ => 0)) && fresh(lastRand)
    {
      lastMS := 0;
      lastRand := new byte[10](_ => 0);
    }

    /** Carries a one up from the last byte. */
    method Carry()
      requires Valid()
      modifies lastRand
      ensures lastRand[..] == Increment(old(lastRand[..]))
    {
      ghost var before, tail: seq<byte> := lastRand[..], [];
      var i := 9;
      assert before[..10] == before;
      while i >= 0
        invariant -1 <= i <= 9 && |tail| == 9 - i
        invariant lastRand[..] == before[..i + 1] + tail
        invariant Increment(before) == Increment(before[..i + 1]) + tail
        decreases i
      {
        assert lastRand[i] == lastRand[..][i] == before[i];
        IncrementStep(before, i, tail);
        var up: int := lastRand[i];
        lastRand[i] := (up + 1) % 256;
        assert lastRand[..] == before[..i] + ([lastRand[i]] + tail);
        if lastRand[i] != 0 {
          return;
        }
        tail := [0] + tail;
        i := i - 1;
      }
    }

    static lemma IncrementStep(s: seq<byte>, i: nat, tail: seq<byte>)
      requires i < |s|
      ensures Increment(s[..i + 1]) + tail ==
              if s[i] == 255 then Increment(s[..i]) + ([0] + tail) else s[..i] + ([s[i] + 1] + tail)
    {
      assert s[..i + 1][..i] == s[..i];
    }

    /** A new id at time `ms`; `random` is what the random source would give. */
    method New(ms: int, random: seq<byte>) returns (id: Text)
      requires Valid() && |random| == 10
      modifies this, lastRand
      ensures Valid() && State() == NextLast(old(State()), ms, random)
      ensures id == Encoded(IdBytes(State()))
      ensures lastMS == ms && (ms != old(lastMS) ==> lastRand[..] == random)
      ensures ms == old(lastMS) ==>
                var n := Val(old(lastRand[..]), 256);
                Val(lastRand[..], 256) == if n + 1 < Power(256, 10) then n + 1 else 0
      ensures 0 <= ms < 0x1_0000_0000_0000 ==> IsId(id, ms, lastRand[..])
    {
      IncrementIsSuccessor(lastRand[..]);
      if ms == lastMS {
        Carry();
      } else {
        lastMS := ms;
        forall j | 0 <= j < 10 { lastRand[j] := random[j]; }
        assert lastRand[..] == random;
      }
      id := Encode(TimeBytes(ms) + lastRand[..]);
      if 0 <= ms < 0x1_0000_0000_0000 { EncodedIsId(State()); }
    }
  }

  // ------------------------------------------------------------ monotonicity

  /** The carry adds exactly one, and wraps to zero only from the largest value. */
  lemma {:induction false} IncrementIsSuccessor(s: seq<byte>)
    ensures Val(Increment(s), 256) == if Val(s, 256) + 1 < Power(256, |s|) then Val(s, 256) + 1 else 0
  {
    if s != [] {
      var n := |s| - 1;
      ValIsBounded(s[..n], 256);
      if s[n] == 255 {
        IncrementIsSuccessor(s[..n]);
        assert Increment(s)[..n] == Increment(s[..n]);
      } else {
        assert Increment(s)[..n] == s[..n];
      }
    }
  }

  /** One more byte at the end of a number. */
  function Shifted(v: nat, b: nat): nat {
    v * 256 + b
  }

  lemma SixBytes(b: seq<byte>)
    requires |b| == 6
    ensures Val(b, 256) ==
            Shifted(Shifted(Shifted(Shifted(Shifted(Shifted(0, b[0]), b[1]), b[2]), b[3]), b[4]), b[5])
  {
    assert b[..5][..4] == b[..4] && b[..4][..3] == b[..3] && b[..3][..2] == b[..2] && b[..2][..1] == b[..1];
    assert b[..1][..0] == [];
    assert Val(b[..1], 256) == Shifted(0, b[0]);
    assert Val(b[..2], 256) == Shifted(Val(b[..1], 256), b[1]);
    assert Val(b[..3], 256) == Shifted(Val(b[..2], 256), b[2]);
    assert Val(b[..4], 256) == Shifted(Val(b[..3], 256), b[3]);
    assert Val(b[..5], 256) == Shifted(Val(b[..4], 256), b[4]);
  }

  lemma TimeBytesAreTheTime(ms: int)
    requires 0 <= ms < 0x1_0000_0000_0000
    ensures Val(TimeBytes(ms), 256) == ms
  {
    var b := TimeBytes(ms);
    SixBytes(b);
    DivDiv(ms, 0x100, 0x100);
    DivDiv(ms, 0x1_0000, 0x100);
    DivDiv(ms, 0x100_0000, 0x100);
    DivDiv(ms, 0x1_0000_0000, 0x100);
    var q1, q2, q3, q4, q5 := ms / 0x100, ms / 0x1_0000, ms / 0x100_0000, ms / 0x1_0000_0000, ms / 0x100_0000_0000;
    assert q5 == Shifted(0, b[0]);
    assert q4 == Shifted(q5, b[1]);
    assert q3 == Shifted(q4, b[2]);
    assert q2 == Shifted(q3, b[3]);
    assert q1 == Shifted(q2, b[4]);
    assert ms == Shifted(q1, b[5]);
  }

  /** The number an id's bytes stand for. */
  function IdValue(last: Last): nat {
    Val(IdBytes(last), 256)
  }

  ghost predicate InRange(last: Last) {
    0 <= last.ms < 0x1_0000_0000_0000 && |last.rand| == 10
  }

  /** 26 digits, together four times the time followed by ten bytes of counter. */
  ghost predicate IsId(id: Text, ms: nat, rand: seq<byte>) {
    exists d: seq<digit> :: |d| == 26 && IsText(d, id, 4 * (ms * Power(256, 10) + Val(rand, 256)))
  }

  lemma EncodedIsId(last: Last)
    requires InRange(last)
    ensures IsId(Encoded(IdBytes(last)), last.ms, last.rand)
  {
    ValAppends(TimeBytes(last.ms), last.rand, 256);
    TimeBytesAreTheTime(last.ms);
    TextShape(IdBytes(last));
  }

  /** Ids are ordered by time, and within one time by counter. */
  lemma IdOrder(a: Last, b: Last)
    requires InRange(a) && InRange(b)
    ensures IdValue(a) < IdValue(b) <==>
              a.ms < b.ms || (a.ms == b.ms && Val(a.rand, 256) < Val(b.rand, 256))
    ensures Less(Encoded(IdBytes(a)), Encoded(IdBytes(b))) <==> IdValue(a) < IdValue(b)
  {
    ValAppends(TimeBytes(a.ms), a.rand, 256);
    ValAppends(TimeBytes(b.ms), b.rand, 256);
    TimeBytesAreTheTime(a.ms);
    TimeBytesAreTheTime(b.ms);
    ValIsBounded(a.rand, 256);
    ValIsBounded(b.rand, 256);
    LeadingDigitsDecide(a.ms, b.ms, Power(256, 10), Val(a.rand, 256), Val(b.rand, 256));
    TextOrderIsByteOrder(IdBytes(a), IdBytes(b));
    OrderIsNumeric(IdBytes(a), IdBytes(b), 256);
  }

  /** All ones: the next increment within the same millisecond wraps. */
  ghost predicate Exhausted(last: Last) {
    Val(last.rand, 256) == Power(256, |last.rand|) - 1
  }

  /**
   While the clock does not go back, a new id sorts after the last one exactly
   unless it falls into the same millisecond and the counter is exhausted.
   */
  lemma NextIdIsLarger(last: Last, ms: int, random: seq<byte>)
    requires InRange(last) && last.ms <= ms < 0x1_0000_0000_0000 && |random| == 10
    ensures var next := NextLast(last, ms, random);
            && InRange(next)
            && (Less(Encoded(IdBytes(last)), Encoded(IdBytes(next))) <==> !(ms == last.ms && Exhausted(last)))
  {
    IdOrder(last, NextLast(last, ms, random));
    IncrementRises(last.rand);
  }

  /** The increment is larger exactly when it does not wrap. */
  lemma IncrementRises(s: seq<byte>)
    ensures Val(s, 256) < Val(Increment(s), 256) <==> Val(s, 256) != Power(256, |s|) - 1
  {
    IncrementIsSuccessor(s);
    ValIsBounded(s, 256);
  }

  /** The states of a generator asked at the given times, with what the random source gave. */
  ghost predicate IsRun(states: seq<Last>, times: seq<int>, randoms: seq<seq<byte>>) {
    && |states| == |times| + 1 && |randoms| == |times| && InRange(states[0])
    && forall i :: 0 <= i < |times| ==>
         && |randoms[i]| == 10
         && states[i].ms <= times[i] < 0x1_0000_0000_0000
         && !(times[i] == states[i].ms && Exhausted(states[i]))
         && states[i + 1] == NextLast(states[i], times[i], randoms[i])
  }

  lemma StepAscends(states: seq<Last>, times: seq<int>, randoms: seq<seq<byte>>, i: nat)
    requires IsRun(states, times, randoms) && i < |times| && InRange(states[i])
    ensures InRange(states[i + 1]) && IdValue(states[i]) < IdValue(states[i + 1])
  {
    assert states[i + 1] == NextLast(states[i], times[i], randoms[i]);
    NextIdIsLarger(states[i], times[i], randoms[i]);
    IdOrder(states[i], states[i + 1]);
  }

  lemma {:induction false} RunStaysInRange(states: seq<Last>, times: seq<int>, randoms: seq<seq<byte>>, i: nat)
    requires IsRun(states, times, randoms) && i < |states|
    ensures InRange(states[i])
  {
    if i > 0 {
      RunStaysInRange(states, times, randoms, i - 1);
      StepAscends(states, times, randoms, i - 1);
    }
  }

  lemma {:induction false} ValuesAscend(states: seq<Last>, times: seq<int>, randoms: seq<seq<byte>>, i: nat, j: nat)
    requires IsRun(states, times, randoms) && i < j < |states|
    ensures InRange(states[i]) && InRange(states[j]) && IdValue(states[i]) < IdValue(states[j])
    decreases j
  {
    RunStaysInRange(states, times, randoms, i);
    RunStaysInRange(states, times, randoms, j - 1);
    StepAscends(states, times, randoms, j - 1);
    if i < j - 1 { ValuesAscend(states, times, randoms, i, j - 1); }
  }

  /** In a run with a clock that does not go back and no exhausted counter, later ids sort after earlier ones. */
  lemma IdsAscend(states: seq<Last>, times: seq<int>, randoms: seq<seq<byte>>, i: nat, j: nat)
    requires IsRun(states, times, randoms) && i < j < |states|
    ensures Less(Encoded(IdBytes(states[i])), Encoded(IdBytes(states[j])))
  {
    ValuesAscend(states, times, randoms, i, j);
    IdOrder(states[i], states[j]);
  }
}
