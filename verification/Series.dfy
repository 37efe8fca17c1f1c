/**
 The clicks-over-time chart: the database counts clicks per UTC hour or day,
 and the gaps between those buckets are filled with zeros.
 */
module Series {
  const MILLISECOND: int := 1_000_000
  const HOUR: int := 3_600_000 * MILLISECOND
  const DAY: int := 24 * HOUR

  /** A stored click, with its time in milliseconds. */
  datatype Click = Click(ts: int, isBot: bool)

  /** One bucket, labelled by the number of hours or days since the epoch. */
  datatype Point = Point(bucket: int, clicks: int, bots: int, uniques: int)

  function Millis(t: int): int {
    t / MILLISECOND
  }

  /** The bucket width in nanoseconds. */
  function StepOf(hourly: bool): int {
    if hourly then HOUR else DAY
  }

  /** Division that rounds toward zero. */
  function TruncatingDiv(a: int, b: int): int
    requires b > 0
  {
    if a >= 0 then a / b else -(-a / b)
  }

  /** The bucket the query puts a time into: whole seconds first, rounded toward zero, then hours or days. */
  function BucketOf(ts: int, step: int): int
    requires step in {HOUR, DAY}
  {
    TruncatingDiv(ts, 1000) / SecondsOf(step)
  }

  function SecondsOf(step: int): int
    requires step in {HOUR, DAY}
  {
    if step == HOUR then 3600 else 86400
  }

  predicate InRange(c: Click, from: int, until: int) {
    Millis(from) <= c.ts < Millis(until)
  }

  // ---------------------------------------------------------------- counting

  /** Clicks in the range, bots or not, whose bucket lies in `lo..hi`. */
  function Count(cs: seq<Click>, from: int, until: int, step: int, isBot: bool, lo: int, hi: int): nat
    requires step in {HOUR, DAY}
  {
    if cs == [] then 0
    else
      var c := cs[|cs| - 1];
      Count(cs[..|cs| - 1], from, until, step, isBot, lo, hi)
      + (if InRange(c, from, until) && c.isBot == isBot && lo <= BucketOf(c.ts, step) < hi then 1 else 0)
  }

  /** The plain count of the range, as the totals show it. */
  function TotalClicks(cs: seq<Click>, from: int, until: int, includeBots: bool): nat {
    if cs == [] then 0
    else
      var c := cs[|cs| - 1];
      TotalClicks(cs[..|cs| - 1], from, until, includeBots)
      + (if InRange(c, from, until) && (includeBots || !c.isBot) then 1 else 0)
  }

  lemma {:induction false} CountSplits(
    cs: seq<Click>, from: int, until: int, step: int, isBot: bool, lo: int, mid: int, hi: int)
    requires step in {HOUR, DAY} && lo <= mid <= hi
    ensures Count(cs, from, until, step, isBot, lo, hi) ==
            Count(cs, from, until, step, isBot, lo, mid) + Count(cs, from, until, step, isBot, mid, hi)
  {
    if cs != [] { CountSplits(cs[..|cs| - 1], from, until, step, isBot, lo, mid, hi); }
  }

  lemma {:induction false} SomethingCounted(cs: seq<Click>, from: int, until: int, step: int, isBot: bool, b: int)
    requires step in {HOUR, DAY} && Count(cs, from, until, step, isBot, b, b + 1) > 0
    ensures exists i :: 0 <= i < |cs| && InRange(cs[i], from, until) && BucketOf(cs[i].ts, step) == b
  {
    var n := |cs| - 1;
    var c := cs[n];
    if !(InRange(c, from, until) && c.isBot == isBot && BucketOf(c.ts, step) == b) {
      SomethingCounted(cs[..n], from, until, step, isBot, b);
      var i :| 0 <= i < n && InRange(cs[..n][i], from, until) && BucketOf(cs[..n][i].ts, step) == b;
      assert cs[i] == cs[..n][i];
    }
  }

  // -------------------------------------------------------------- the query

  /** GROUP BY bucket ORDER BY bucket: one point for each bucket with a click in the range. */
  ghost predicate IsQueryResult(points: seq<Point>, cs: seq<Click>, from: int, until: int, step: int)
    requires step in {HOUR, DAY}
  {
    && (forall i, j :: 0 <= i < j < |points| ==> points[i].bucket < points[j].bucket)
    && (forall i :: 0 <= i < |points| ==>
          var b := points[i].bucket;
          && points[i].clicks == Count(cs, from, until, step, false, b, b + 1)
          && points[i].bots == Count(cs, from, until, step, true, b, b + 1)
          && points[i].clicks + points[i].bots > 0)
    && (forall i :: 0 <= i < |cs| && InRange(cs[i], from, until) ==>
          exists j :: 0 <= j < |points| && points[j].bucket == BucketOf(cs[i].ts, step))
  }

  // -------------------------------------------------------------- the filling

  /** A range the request parser accepts. */
  predicate Validated(from: int, until: int) {
    from <= until && until - from <= 2 * 365 * DAY
  }

  predicate Hourly(from: int, until: int) {
    until - from <= 3 * DAY
  }

  function StartOf(from: int, step: int): int
    requires step in {HOUR, DAY}
  {
    from / step * step
  }

  ghost predicate HasBucket(points: seq<Point>, b: int) {
    exists i :: 0 <= i < |points| && points[i].bucket == b
  }

  /** Consecutive buckets from the floor of `from` to the end of the range, each showing its point or zeros. */
  ghost predicate IsFilled(out: seq<Point>, points: seq<Point>, from: int, until: int, step: int)
    requires step in {HOUR, DAY}
  {
    && StartOf(from, step) + (|out| - 1) * step < until <= StartOf(from, step) + |out| * step
    && forall k :: 0 <= k < |out| ==> out[k].bucket == from / step + k && Shows(out[k], points)
  }

  /** The point of the bucket when there is one, and an empty bucket otherwise. */
  ghost predicate Shows(p: Point, points: seq<Point>) {
    if HasBucket(points, p.bucket) then p in points else p == Point(p.bucket, 0, 0, 0)
  }

  /** How many buckets the range is thought to need. */
  function Needed(from: int, until: int, step: int): int
    requires step in {HOUR, DAY}
  {
    TruncatingDiv(until - StartOf(from, step), step) + 1
  }

  /** The bound on the number of buckets, as one on the distance from the first bucket to the end. */
  lemma NeededInTime(from: int, until: int, hourly: bool)
    ensures var width := if hourly then 3_600_000_000_000 else 86_400_000_000_000;
            1 <= Needed(from, until, StepOf(hourly)) <= 2000 <==> -width < until - from / width * width < 2000 * width
  {
  }

  /** Fills the gaps, unless the range would need an absurd number of buckets. */
  method ToSeriesDTO(points: seq<Point>, from: int, until: int, hourly: bool) returns (out: seq<Point>, filled: bool)
    ensures filled <==> 1 <= Needed(from, until, StepOf(hourly)) <= 2000
    ensures var width := if hourly then 3_600_000_000_000 else 86_400_000_000_000;
            filled <==> -width < until - from / width * width < 2000 * width
    ensures !filled ==> out == points
    ensures filled ==> IsFilled(out, points, from, until, StepOf(hourly))
  {
    NeededInTime(from, until, hourly);
    out, filled := Fill(points, from, until, hourly);
  }

  method Fill(points: seq<Point>, from: int, until: int, hourly: bool) returns (out: seq<Point>, filled: bool)
    ensures filled <==> 1 <= Needed(from, until, StepOf(hourly)) <= 2000
    ensures !filled ==> out == points
    ensures filled ==> IsFilled(out, points, from, until, StepOf(hourly))
  {
    var step := StepOf(hourly);
    var start := from / step * step;
    var byBucket := ByBucket(points);
    var n := TruncatingDiv(until - start, step) + 1;
    if n > 2000 || n < 1 {
      return points, false;
    }
    out, filled := [], true;
    var t := start;
    while t < until
      invariant t == start + |out| * step && start + (|out| - 1) * step < until
      invariant forall k :: 0 <= k < |out| ==> out[k].bucket == from / step + k && Shows(out[k], points)
      decreases until - t
    {
      var b := t / step;
      QuotientIs(t, step, from / step + |out|);
      out := out + [if b in byBucket then byBucket[b] else Point(b, 0, 0, 0)];
      t := t + step;
    }
  }

  /** The points by their bucket. */
  method ByBucket(points: seq<Point>) returns (m: map<int, Point>)
    ensures forall b :: b in m <==> HasBucket(points, b)
    ensures forall b :: b in m ==> m[b].bucket == b && m[b] in points
  {
    m := map[];
    for i := 0 to |points|
      invariant forall b :: b in m <==> HasBucket(points[..i], b)
      invariant forall b :: b in m ==> m[b].bucket == b && m[b] in points[..i]
    {
      assert points[..i + 1] == points[..i] + [points[i]];
      forall b ensures HasBucket(points[..i + 1], b) <==> HasBucket(points[..i], b) || points[i].bucket == b {
        OneMoreBucket(points, i, b);
      }
      m := m[points[i].bucket := points[i]];
    }
    assert points[..|points|] == points;
  }

  lemma OneMoreBucket(points: seq<Point>, i: nat, b: int)
    requires i < |points|
    ensures HasBucket(points[..i + 1], b) <==> HasBucket(points[..i], b) || points[i].bucket == b
  {
    var before, after := points[..i], points[..i + 1];
    assert after[i] == points[i] && forall j :: 0 <= j < i ==> after[j] == before[j];
  }

  // --------------------------------------------------------------- theorems

  /** For a validated range the series is always filled, never handed through. */
  lemma ValidatedRangesAreFilled(from: int, until: int)
    requires 0 <= until - from <= 730 * 24 * 3_600_000_000_000
    ensures Validated(from, until)
    ensures Hourly(from, until) <==> until - from <= 72 * 3_600_000_000_000
    ensures 1 <= Needed(from, until, StepOf(Hourly(from, until))) <= 2000
  {
  }

  /** From the epoch on, the query's bucket is the plain floor. */
  lemma BucketIsFloor(ts: nat, step: int)
    requires step in {HOUR, DAY}
    ensures BucketOf(ts, step) == ts * MILLISECOND / step
  {
    if step == HOUR {
      assert ts / 1000 / 3600 == ts * MILLISECOND / HOUR;
    } else {
      assert ts / 1000 / 86400 == ts * MILLISECOND / DAY;
    }
  }

  /** Cutting a time down to whole milliseconds keeps its bucket. */
  lemma FloorOfMillis(t: int, step: int)
    requires step in {HOUR, DAY}
    ensures Millis(t) * MILLISECOND / step == t / step
  {
    if step == HOUR {
      CutToMillis(t, 3_600_000);
    } else {
      CutToMillis(t, 86_400_000);
    }
  }

  /** The same, for a bucket of `k` milliseconds. */
  lemma CutToMillis(t: int, k: int)
    requires k in {3_600_000, 86_400_000}
    ensures t / MILLISECOND * MILLISECOND / (k * MILLISECOND) == t / (k * MILLISECOND)
  {
    var m, width := t / MILLISECOND, k * MILLISECOND;
    var q := t / width;
    assert width * q <= t < width * q + width;
    assert m * MILLISECOND <= t < m * MILLISECOND + MILLISECOND;
    assert k * q <= m < k * q + k by {
      if k == 3_600_000 {
        assert MILLISECOND * (3_600_000 * q) < MILLISECOND * (m + 1);
      } else {
        assert MILLISECOND * (86_400_000 * q) < MILLISECOND * (m + 1);
      }
    }
    QuotientIs(m * MILLISECOND, width, q);
  }

  lemma QuotientIs(a: int, width: int, q: int)
    requires width in {HOUR, DAY} && width * q <= a < width * q + width
    ensures a / width == q
  {
    if width == HOUR {
      assert a / HOUR == q;
    } else {
      assert a / DAY == q;
    }
  }

  lemma BelowEnd(t: int, end: int, step: int)
    requires step in {HOUR, DAY} && t < end * step
    ensures t / step < end
  {
    if step == HOUR { assert t / HOUR < end; } else { assert t / DAY < end; }
  }

  lemma FloorIsMonotone(a: int, b: int, step: int)
    requires step in {HOUR, DAY} && a <= b
    ensures a / step <= b / step
  {
    if step == HOUR { assert a / HOUR <= b / HOUR; } else { assert a / DAY <= b / DAY; }
  }

  function Value(p: Point, isBot: bool): int {
    if isBot then p.bots else p.clicks
  }

  /** The sum of the clicks shown, or of the bots. */
  function Sum(out: seq<Point>, isBot: bool): int {
    if out == [] then 0 else Sum(out[..|out| - 1], isBot) + Value(out[|out| - 1], isBot)
  }

  /** A filled bucket shows what was counted in it, also when that is nothing. */
  lemma BucketShowsItsCount(
    out: seq<Point>, points: seq<Point>, cs: seq<Click>, from: int, until: int, step: int, k: nat)
    requires step in {HOUR, DAY} && IsFilled(out, points, from, until, step)
    requires IsQueryResult(points, cs, from, until, step) && k < |out|
    ensures var b := from / step + k;
            && out[k].clicks == Count(cs, from, until, step, false, b, b + 1)
            && out[k].bots == Count(cs, from, until, step, true, b, b + 1)
  {
    var b := from / step + k;
    if HasBucket(points, b) {
      var i :| 0 <= i < |points| && points[i] == out[k];
    } else {
      if Count(cs, from, until, step, false, b, b + 1) > 0 { SomethingCounted(cs, from, until, step, false, b); }
      if Count(cs, from, until, step, true, b, b + 1) > 0 { SomethingCounted(cs, from, until, step, true, b); }
    }
  }

  /** Each bucket shows what was counted in it. */
  ghost predicate ShowsCounts(out: seq<Point>, cs: seq<Click>, from: int, until: int, step: int, isBot: bool)
    requires step in {HOUR, DAY}
  {
    forall k :: 0 <= k < |out| ==>
      Value(out[k], isBot) == Count(cs, from, until, step, isBot, from / step + k, from / step + k + 1)
  }

  lemma {:induction false} SumsAreCounts(
    out: seq<Point>, cs: seq<Click>, from: int, until: int, step: int, isBot: bool)
    requires step in {HOUR, DAY} && ShowsCounts(out, cs, from, until, step, isBot)
    ensures Sum(out, isBot) == Count(cs, from, until, step, isBot, from / step, from / step + |out|)
  {
    var b := from / step;
    if out == [] {
      NothingBetween(cs, from, until, step, isBot, b);
    } else {
      var n := |out| - 1;
      SumsAreCounts(out[..n], cs, from, until, step, isBot);
      CountSplits(cs, from, until, step, isBot, b, b + n, b + n + 1);
    }
  }

  lemma SumIsCount(
    out: seq<Point>, points: seq<Point>, cs: seq<Click>, from: int, until: int, step: int, isBot: bool)
    requires step in {HOUR, DAY} && IsFilled(out, points, from, until, step)
    requires IsQueryResult(points, cs, from, until, step)
    ensures Sum(out, isBot) == Count(cs, from, until, step, isBot, from / step, from / step + |out|)
  {
    forall k | 0 <= k < |out|
      ensures Value(out[k], isBot) == Count(cs, from, until, step, isBot, from / step + k, from / step + k + 1)
    {
      BucketShowsItsCount(out, points, cs, from, until, step, k);
    }
    SumsAreCounts(out, cs, from, until, step, isBot);
  }

  lemma {:induction false} NothingBetween(cs: seq<Click>, from: int, until: int, step: int, isBot: bool, b: int)
    requires step in {HOUR, DAY}
    ensures Count(cs, from, until, step, isBot, b, b) == 0
  {
    if cs != [] { NothingBetween(cs[..|cs| - 1], from, until, step, isBot, b); }
  }

  /** Rounding to a second toward zero never puts a click before its own hour or day. */
  lemma NeverTooEarly(ts: int, step: int)
    requires step in {HOUR, DAY}
    ensures ts * MILLISECOND / step <= BucketOf(ts, step)
  {
    var seconds, b := TruncatingDiv(ts, 1000), BucketOf(ts, step);
    assert ts < 1000 * seconds + 1000;
    assert seconds < (b + 1) * SecondsOf(step);
    assert ts * MILLISECOND < (b + 1) * step;
    BelowEnd(ts * MILLISECOND, b + 1, step);
  }

  /** A click a count is over: all of them, or those of people alone. */
  predicate Counted(c: Click, from: int, until: int, includeBots: bool) {
    InRange(c, from, until) && (includeBots || !c.isBot)
  }

  /** What is counted in buckets `lo..hi`, with bots or without. */
  function Held(cs: seq<Click>, from: int, until: int, step: int, includeBots: bool, lo: int, hi: int): nat
    requires step in {HOUR, DAY}
  {
    Count(cs, from, until, step, false, lo, hi)
    + (if includeBots then Count(cs, from, until, step, true, lo, hi) else 0)
  }

  /** What buckets `lo..hi` hold falls short of the plain count exactly when a counted click lies outside. */
  lemma {:induction false} ShortIffOutside(
    cs: seq<Click>, from: int, until: int, step: int, includeBots: bool, lo: int, hi: int)
    requires step in {HOUR, DAY}
    ensures var held := Held(cs, from, until, step, includeBots, lo, hi);
            && held <= TotalClicks(cs, from, until, includeBots)
            && (held == TotalClicks(cs, from, until, includeBots)
                <==> forall i :: 0 <= i < |cs| && Counted(cs[i], from, until, includeBots) ==>
                       lo <= BucketOf(cs[i].ts, step) < hi)
  {
    if cs != [] {
      var front := cs[..|cs| - 1];
      ShortIffOutside(front, from, until, step, includeBots, lo, hi);
      assert cs == front + [cs[|cs| - 1]];
    }
  }

  /** The bucket after the last one that a range reaches into. */
  function EndBucket(until: int, step: int): int
    requires step in {HOUR, DAY}
  {
    -(-until / step)
  }

  /** A click in the last second before an hour or day that begins at or before 1970: its bucket is the next one. */
  predicate Slips(c: Click, until: int, step: int)
    requires step in {HOUR, DAY}
  {
    c.ts < 0 && c.ts > EndBucket(until, step) * SecondsOf(step) * 1000 - 1000
  }

  lemma ChartEndsAtEndBucket(out: seq<Point>, points: seq<Point>, from: int, until: int, step: int)
    requires step in {HOUR, DAY} && IsFilled(out, points, from, until, step)
    ensures from / step + |out| == EndBucket(until, step)
  {
    var end := from / step + |out|;
    assert -end * step <= -until < -end * step + step;
    QuotientIs(-until, step, -end);
  }

  lemma PastTheEndIffSlips(c: Click, from: int, until: int, step: int)
    requires step in {HOUR, DAY} && InRange(c, from, until)
    ensures BucketOf(c.ts, step) >= EndBucket(until, step) <==> Slips(c, until, step)
  {
    var end := EndBucket(until, step);
    if c.ts >= 0 {
      BucketIsFloor(c.ts, step);
      assert c.ts * MILLISECOND < until <= end * step by { UntilIsBeforeEnd(until, step); }
      BelowEnd(c.ts * MILLISECOND, end, step);
    } else {
      SecondsBefore(c.ts, end * SecondsOf(step));
      FloorReaches(TruncatingDiv(c.ts, 1000), SecondsOf(step), end);
    }
  }

  lemma UntilIsBeforeEnd(until: int, step: int)
    requires step in {HOUR, DAY}
    ensures until <= EndBucket(until, step) * step
  {
    if step == HOUR { assert -until / HOUR * HOUR <= -until; } else { assert -until / DAY * DAY <= -until; }
  }

  /** Rounded toward zero, a time before 1970 reaches a whole second up to a second early. */
  lemma SecondsBefore(ts: int, seconds: int)
    requires ts < 0
    ensures TruncatingDiv(ts, 1000) >= seconds <==> ts > seconds * 1000 - 1000
  {
  }

  lemma FloorReaches(a: int, width: int, b: int)
    requires width in {3600, 86400}
    ensures a / width >= b <==> a >= b * width
  {
    if width == 3600 { assert a / 3600 >= b <==> a >= b * 3600; } else { assert a / 86400 >= b <==> a >= b * 86400; }
  }

  /** No click that is counted slips past the end of the chart. */
  ghost predicate NoneSlips(cs: seq<Click>, from: int, until: int, step: int, includeBots: bool)
    requires step in {HOUR, DAY}
  {
    forall i :: 0 <= i < |cs| && Counted(cs[i], from, until, includeBots) ==> !Slips(cs[i], until, step)
  }

  lemma InsideIffNoneSlips(cs: seq<Click>, from: int, until: int, step: int, includeBots: bool)
    requires step in {HOUR, DAY}
    ensures (forall i :: 0 <= i < |cs| && Counted(cs[i], from, until, includeBots) ==>
               from / step <= BucketOf(cs[i].ts, step) < EndBucket(until, step))
            <==> NoneSlips(cs, from, until, step, includeBots)
  {
    forall i | 0 <= i < |cs| && Counted(cs[i], from, until, includeBots)
      ensures from / step <= BucketOf(cs[i].ts, step)
      ensures BucketOf(cs[i].ts, step) >= EndBucket(until, step) <==> Slips(cs[i], until, step)
    {
      NotBeforeTheStart(cs[i], from, until, step);
      PastTheEndIffSlips(cs[i], from, until, step);
    }
  }

  /** The buckets up to the end of the range hold its total exactly when no counted click slips. */
  lemma HeldIffNoneSlips(cs: seq<Click>, from: int, until: int, step: int, includeBots: bool)
    requires step in {HOUR, DAY}
    ensures Held(cs, from, until, step, includeBots, from / step, EndBucket(until, step))
            == TotalClicks(cs, from, until, includeBots)
            <==> NoneSlips(cs, from, until, step, includeBots)
  {
    ShortIffOutside(cs, from, until, step, includeBots, from / step, EndBucket(until, step));
    InsideIffNoneSlips(cs, from, until, step, includeBots);
  }

  /** The sum of a chart, over people alone or together with bots. */
  function ChartTotal(out: seq<Point>, includeBots: bool): int {
    Sum(out, false) + (if includeBots then Sum(out, true) else 0)
  }

  /**
   The chart conserves the total, of people alone as of people and bots
   together, exactly when no click counted in it slips past the chart's end.
   */
  lemma ConservesIffNoneSlips(
    out: seq<Point>, points: seq<Point>, cs: seq<Click>, from: int, until: int, step: int, includeBots: bool)
    requires step in {HOUR, DAY} && IsFilled(out, points, from, until, step)
    requires IsQueryResult(points, cs, from, until, step)
    ensures ChartTotal(out, includeBots) == TotalClicks(cs, from, until, includeBots)
            <==> NoneSlips(cs, from, until, step, includeBots)
  {
    SumToTheEnd(out, points, cs, from, until, step, false);
    SumToTheEnd(out, points, cs, from, until, step, true);
    HeldIffNoneSlips(cs, from, until, step, includeBots);
  }

  lemma SumToTheEnd(
    out: seq<Point>, points: seq<Point>, cs: seq<Click>, from: int, until: int, step: int, isBot: bool)
    requires step in {HOUR, DAY} && IsFilled(out, points, from, until, step)
    requires IsQueryResult(points, cs, from, until, step)
    ensures Sum(out, isBot) == Count(cs, from, until, step, isBot, from / step, EndBucket(until, step))
  {
    SumIsCount(out, points, cs, from, until, step, isBot);
    ChartEndsAtEndBucket(out, points, from, until, step);
  }

  lemma NotBeforeTheStart(c: Click, from: int, until: int, step: int)
    requires step in {HOUR, DAY} && InRange(c, from, until)
    ensures from / step <= BucketOf(c.ts, step)
  {
    NeverTooEarly(c.ts, step);
    FloorOfMillis(from, step);
    FloorIsMonotone(Millis(from) * MILLISECOND, c.ts * MILLISECOND, step);
  }

  ghost predicate SinceEpoch(cs: seq<Click>) {
    forall i :: 0 <= i < |cs| ==> cs[i].ts >= 0
  }

  /** For clicks since 1970 the chart's sums are the plain counts over the range: filling invents and loses nothing. */
  lemma FillingConserves(out: seq<Point>, points: seq<Point>, cs: seq<Click>, from: int, until: int, step: int)
    requires step in {HOUR, DAY} && IsFilled(out, points, from, until, step)
    requires IsQueryResult(points, cs, from, until, step) && SinceEpoch(cs)
    ensures Sum(out, false) == TotalClicks(cs, from, until, false)
    ensures Sum(out, false) + Sum(out, true) == TotalClicks(cs, from, until, true)
  {
    ConservesIffNoneSlips(out, points, cs, from, until, step, false);
    ConservesIffNoneSlips(out, points, cs, from, until, step, true);
  }

  /** A point of the query is in the chart, then at one place, exactly when its bucket is not past the chart's end. */
  lemma PointShownOnceIffInside(
    out: seq<Point>, points: seq<Point>, cs: seq<Click>, from: int, until: int, step: int, i: nat)
    requires step in {HOUR, DAY} && IsFilled(out, points, from, until, step)
    requires IsQueryResult(points, cs, from, until, step) && i < |points|
    ensures points[i] in out <==> points[i].bucket < EndBucket(until, step)
    ensures forall j, k :: 0 <= j < |out| && 0 <= k < |out| && out[j] == points[i] == out[k] ==> j == k
  {
    ChartEndsAtEndBucket(out, points, from, until, step);
    if points[i].bucket < EndBucket(until, step) {
      SomethingBehindPoint(points, cs, from, until, step, i);
      var c :| 0 <= c < |cs| && InRange(cs[c], from, until) && BucketOf(cs[c].ts, step) == points[i].bucket;
      NotBeforeTheStart(cs[c], from, until, step);
      var k := points[i].bucket - from / step;
      assert out[k].bucket == points[i].bucket && HasBucket(points, out[k].bucket);
      assert out[k] == points[i];
    }
  }

  /** Every point of the query appears in the chart exactly when no click of the range slips past its end. */
  lemma AllPointsShownIffNoneSlips(
    out: seq<Point>, points: seq<Point>, cs: seq<Click>, from: int, until: int, step: int)
    requires step in {HOUR, DAY} && IsFilled(out, points, from, until, step)
    requires IsQueryResult(points, cs, from, until, step)
    ensures (forall i :: 0 <= i < |points| ==> points[i] in out) <==> NoneSlips(cs, from, until, step, true)
  {
    if forall i :: 0 <= i < |points| ==> points[i] in out {
      forall c | 0 <= c < |cs| && Counted(cs[c], from, until, true) ensures !Slips(cs[c], until, step) {
        var j :| 0 <= j < |points| && points[j].bucket == BucketOf(cs[c].ts, step);
        PointShownOnceIffInside(out, points, cs, from, until, step, j);
        PastTheEndIffSlips(cs[c], from, until, step);
      }
    }
    if NoneSlips(cs, from, until, step, true) {
      forall i | 0 <= i < |points| ensures points[i] in out {
        SomethingBehindPoint(points, cs, from, until, step, i);
        var c :| 0 <= c < |cs| && InRange(cs[c], from, until) && BucketOf(cs[c].ts, step) == points[i].bucket;
        assert Counted(cs[c], from, until, true);
        PastTheEndIffSlips(cs[c], from, until, step);
        PointShownOnceIffInside(out, points, cs, from, until, step, i);
      }
    }
  }

  /** So each point is then shown, at one place. */
  lemma EveryPointShownOnce(
    out: seq<Point>, points: seq<Point>, cs: seq<Click>, from: int, until: int, step: int, i: nat) returns (k: nat)
    requires step in {HOUR, DAY} && IsFilled(out, points, from, until, step)
    requires IsQueryResult(points, cs, from, until, step) && NoneSlips(cs, from, until, step, true) && i < |points|
    ensures k < |out| && out[k] == points[i]
    ensures forall j :: 0 <= j < |out| && out[j] == points[i] ==> j == k
  {
    AllPointsShownIffNoneSlips(out, points, cs, from, until, step);
    k :| 0 <= k < |out| && out[k] == points[i];
    PointShownOnceIffInside(out, points, cs, from, until, step, i);
  }

  lemma SomethingBehindPoint(points: seq<Point>, cs: seq<Click>, from: int, until: int, step: int, i: nat)
    requires step in {HOUR, DAY} && IsQueryResult(points, cs, from, until, step) && i < |points|
    ensures exists c :: 0 <= c < |cs| && InRange(cs[c], from, until) && BucketOf(cs[c].ts, step) == points[i].bucket
  {
    var b := points[i].bucket;
    if points[i].clicks > 0 {
      SomethingCounted(cs, from, until, step, false, b);
    } else {
      SomethingCounted(cs, from, until, step, true, b);
    }
  }

  /**
   Before the epoch the rounding of the query goes the other way, and a click
   half a second before it is counted in the total but shown in no bucket.
   */
  lemma ClicksBeforeTheEpochSlip() returns (out: seq<Point>, points: seq<Point>, cs: seq<Click>)
    ensures var from, until := -2 * 1000 * MILLISECOND, -200 * MILLISECOND;
            && Validated(from, until) && Hourly(from, until)
            && IsQueryResult(points, cs, from, until, HOUR) && IsFilled(out, points, from, until, HOUR)
            && Sum(out, false) == 0 && TotalClicks(cs, from, until, false) == 1
  {
    var from, until := -2 * 1000 * MILLISECOND, -200 * MILLISECOND;
    cs := [Click(-500, false)];
    points := [Point(0, 1, 0, 1)];
    out := [Point(-1, 0, 0, 0)];
    assert cs[..0] == [] && out[..0] == [];
    assert Count(cs, from, until, HOUR, false, 0, 1) == 1;
    assert Count(cs, from, until, HOUR, true, 0, 1) == 0;
    assert BucketOf(cs[0].ts, HOUR) == points[0].bucket;
    assert Sum(out[..0], false) == 0;
  }
}
