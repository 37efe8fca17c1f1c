/** Numbers written as sequences of digits, most significant first. */
module Numerals {
  /** The number a sequence of digits stands for, most significant first. */
  function Val(s: seq<nat>, base: nat): nat {
    if s == [] then 0 else Val(s[..|s| - 1], base) * base + s[|s| - 1]
  }

  function Power(base: nat, n: nat): (p: nat)
    ensures base >= 1 ==> p >= 1
  {
    if n == 0 then 1 else Power(base, n - 1) * base
  }

  ghost predicate Below(s: seq<nat>, base: nat) {
    forall i :: 0 <= i < |s| ==> s[i] < base
  }

  lemma LeadingDigitsDecide(v: nat, w: nat, base: nat, x: nat, y: nat)
    requires x < base && y < base
    ensures v * base + x < w * base + y <==> v < w || (v == w && x < y)
  {
    if v < w {
      assert (v + 1) * base <= w * base;
    } else if w < v {
      assert (w + 1) * base <= v * base;
    }
  }

  lemma {:induction false} ValAppends(s: seq<nat>, t: seq<nat>, base: nat)
    ensures Val(s + t, base) == Val(s, base) * Power(base, |t|) + Val(t, base)
  {
    if t == [] {
      assert s + t == s;
    } else {
      var n := |t| - 1;
      ValAppends(s, t[..n], base);
      assert (s + t)[..|s + t| - 1] == s + t[..n];
      var a, p, b := Val(s, base), Power(base, n), Val(t[..n], base);
      assert (a * p + b) * base == a * (p * base) + b * base by { Distributes(a, p, b, base); }
    }
  }

  lemma Distributes(a: nat, p: nat, b: nat, base: nat)
    ensures (a * p + b) * base == a * (p * base) + b * base
  {
  }

  lemma {:induction false} ValIsBounded(s: seq<nat>, base: nat)
    requires Below(s, base)
    ensures Val(s, base) < Power(base, |s|)
  {
    if s != [] {
      var n := |s| - 1;
      ValIsBounded(s[..n], base);
      LeadingDigitsDecide(Val(s[..n], base), Power(base, n), base, s[n], 0);
    }
  }
}
