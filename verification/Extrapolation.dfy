/** The arithmetic of one window of `prom_delta`, `prom_increase` and `prom_rate`, over the reals. */
module Extrapolation {
  import opened Wrappers

  const USECS_PER_SEC: int := 1_000_000

  datatype Sample = Sample(time: int, val: real)

  /** In time order; samples may share a time. */
  predicate Ascending(w: seq<Sample>) {
    forall i, j | 0 <= i < j < |w| :: w[i].time <= w[j].time
  }

  /** A floating-point result, up to rounding: a division by zero gives one of the other two. */
  datatype Float = Real(r: real) | NaN | Infinity(negative: bool)

  function Times(x: real, f: Float): Float {
    match f
    case Real(r) => Real(x * r)
    case NaN => NaN
    case Infinity(negative) => if x == 0.0 then NaN else Infinity((x < 0.0) != negative)
  }

  /** Division by `y`, where a zero is positive. */
  function Over(f: Float, y: real): Float {
    match f
    case Real(r) => if y != 0.0 then Real(r / y) else if r == 0.0 then NaN else Infinity(r < 0.0)
    case NaN => NaN
    case Infinity(negative) => Infinity((y < 0.0) != negative)
  }

  function Seconds(usecs: int): real {
    usecs as real / USECS_PER_SEC as real
  }

  /** What the counter loses at its resets. */
  function Resets(w: seq<Sample>): real {
    var n := |w|;
    if n < 2 then 0.0
    else Resets(w[..n - 1]) + (if w[n - 1].val < w[n - 2].val then w[n - 2].val else 0.0)
  }

  function Increase(w: seq<Sample>, isCounter: bool): real
    requires w != []
  {
    w[|w| - 1].val - w[0].val + (if isCounter then Resets(w) else 0.0)
  }

  function Sampled(w: seq<Sample>): real
    requires w != []
  {
    Seconds(w[|w| - 1].time - w[0].time)
  }

  function Average(w: seq<Sample>): real
    requires |w| >= 2
  {
    Sampled(w) / (|w| - 1) as real
  }

  /** A counter is not extrapolated to before the point where it would have been zero. */
  function DurationToStart(w: seq<Sample>, lo: int, isCounter: bool): real
    requires w != []
  {
    var toStart := Seconds(w[0].time - lo);
    var increase := Increase(w, isCounter);
    if isCounter && increase > 0.0 && w[0].val >= 0.0 then
      var toZero := Sampled(w) * (w[0].val / increase);
      if toZero < toStart then toZero else toStart
    else toStart
  }

  /** By how much one end of the sampled interval is extended towards the window's edge. */
  function Extension(toEdge: real, average: real): real {
    if toEdge < average * 1.1 then toEdge else average / 2.0
  }

  function StartExtension(w: seq<Sample>, lo: int, isCounter: bool): real
    requires |w| >= 2
  {
    Extension(DurationToStart(w, lo, isCounter), Average(w))
  }

  function EndExtension(w: seq<Sample>, hi: int): real
    requires |w| >= 2
  {
    Extension(Seconds(hi - w[|w| - 1].time), Average(w))
  }

  function ExtrapolatedInterval(w: seq<Sample>, lo: int, hi: int, isCounter: bool): real
    requires |w| >= 2
  {
    Sampled(w) + StartExtension(w, lo, isCounter) + EndExtension(w, hi)
  }

  datatype Kind = Kind(isCounter: bool, isRate: bool, range: int)

  /** The whole seconds of a range, rounded towards zero. */
  function RangeSeconds(range: int): int {
    if range >= 0 then range / USECS_PER_SEC else -(-range / USECS_PER_SEC)
  }

  function Scaled(increase: real, interval: real, sampled: real, kind: Kind): Float {
    var scaled := Times(increase, Over(Real(interval), sampled));
    if kind.isRate then Over(scaled, RangeSeconds(kind.range) as real) else scaled
  }

  /** The value of the window [lo, hi] that contains the samples `w`. */
  function Delta(w: seq<Sample>, lo: int, hi: int, kind: Kind): Option<Float> {
    if |w| < 2 then None
    else Some(Scaled(Increase(w, kind.isCounter), ExtrapolatedInterval(w, lo, hi, kind.isCounter), Sampled(w), kind))
  }

  lemma NoneExactlyWhen(w: seq<Sample>, lo: int, hi: int, kind: Kind)
    ensures Delta(w, lo, hi, kind) == None <==> w == [] || |w| == 1
  {
  }

  // ---------- counters ----------

  /** The growth of a counter from sample to sample; after a reset it has grown from zero. */
  function Growth(w: seq<Sample>): real {
    var n := |w|;
    if n < 2 then 0.0
    else Growth(w[..n - 1]) + (if w[n - 1].val < w[n - 2].val then w[n - 1].val else w[n - 1].val - w[n - 2].val)
  }

  lemma {:induction false} IncreaseIsGrowth(w: seq<Sample>)
    requires w != []
    ensures Increase(w, true) == Growth(w)
  {
    var n := |w|;
    if n >= 2 {
      IncreaseIsGrowth(w[..n - 1]);
    }
  }

  lemma {:induction false} IncreaseNonNegative(w: seq<Sample>)
    requires w != [] && forall s | s in w :: s.val >= 0.0
    ensures Increase(w, true) >= 0.0
  {
    var n := |w|;
    IncreaseIsGrowth(w);
    if n >= 2 {
      assert w[n - 1] in w;
      IncreaseNonNegative(w[..n - 1]);
      IncreaseIsGrowth(w[..n - 1]);
    }
  }

  /** Splitting a window at a sample that both parts share splits its increase. */
  lemma {:induction false} IncreaseSplits(w: seq<Sample>, i: nat)
    requires i < |w|
    ensures Increase(w, true) == Increase(w[..i + 1], true) + Increase(w[i..], true)
  {
    var n := |w|;
    if i == n - 1 {
      assert w[..i + 1] == w;
    } else {
      IncreaseSplits(w[..n - 1], i);
      assert w[..n - 1][..i + 1] == w[..i + 1];
      assert w[i..][..n - 1 - i] == w[..n - 1][i..];
    }
  }

  // ---------- bounds ----------

  lemma ScaleUp(x: real, y: real, z: real)
    requires x <= y && z >= 0.0
    ensures x * z <= y * z
  {
  }

  lemma QuotientTimes(x: real, y: real)
    requires y > 0.0
    ensures x / y * y == x
    ensures x >= 0.0 ==> x / y >= 0.0
  {
  }

  lemma SampledNonNegative(w: seq<Sample>)
    requires |w| >= 2 && Ascending(w)
    ensures Sampled(w) >= 0.0 && (Sampled(w) == 0.0 <==> w[0].time == w[|w| - 1].time)
  {
    assert w[0].time <= w[|w| - 1].time;
  }

  lemma AverageBounds(w: seq<Sample>)
    requires |w| >= 2 && Ascending(w)
    ensures 0.0 <= Average(w) <= Sampled(w)
  {
    SampledNonNegative(w);
    var n, s := (|w| - 1) as real, Sampled(w);
    QuotientTimes(s, n);
    ScaleUp(1.0, n, Average(w));
  }

  lemma ToZeroNonNegative(w: seq<Sample>)
    requires |w| >= 2 && Ascending(w) && Increase(w, true) > 0.0 && w[0].val >= 0.0
    ensures Sampled(w) * (w[0].val / Increase(w, true)) >= 0.0
  {
    SampledNonNegative(w);
    QuotientTimes(w[0].val, Increase(w, true));
    ScaleUp(0.0, Sampled(w), w[0].val / Increase(w, true));
  }

  lemma DurationBounds(w: seq<Sample>, lo: int, isCounter: bool)
    requires |w| >= 2 && Ascending(w) && lo <= w[0].time
    ensures 0.0 <= DurationToStart(w, lo, isCounter) <= Seconds(w[0].time - lo)
  {
    if isCounter && Increase(w, true) > 0.0 && w[0].val >= 0.0 {
      ToZeroNonNegative(w);
    }
  }

  /** The extrapolated interval is at least the sampled one and at most the whole window. */
  lemma ExtrapolationBounds(w: seq<Sample>, lo: int, hi: int, isCounter: bool)
    requires |w| >= 2 && Ascending(w) && lo <= w[0].time && w[|w| - 1].time <= hi
    ensures Sampled(w) <= ExtrapolatedInterval(w, lo, hi, isCounter) <= Seconds(hi - lo)
  {
    AverageBounds(w);
    DurationBounds(w, lo, isCounter);
    assert Seconds(w[0].time - lo) + Sampled(w) + Seconds(hi - w[|w| - 1].time) == Seconds(hi - lo);
  }

  /** Extrapolating a growing counter back to the start never takes it below zero. */
  lemma CounterStaysNonNegative(w: seq<Sample>, lo: int)
    requires |w| >= 2 && Ascending(w) && lo <= w[0].time < w[|w| - 1].time
    requires Increase(w, true) > 0.0 && w[0].val >= 0.0
    ensures Sampled(w) > 0.0 && w[0].val - Increase(w, true) / Sampled(w) * StartExtension(w, lo, true) >= 0.0
  {
    SampledNonNegative(w);
    AverageBounds(w);
    DurationBounds(w, lo, true);
    ToZeroNonNegative(w);
    var v, inc, s, ext := w[0].val, Increase(w, true), Sampled(w), StartExtension(w, lo, true);
    var toZero := s * (v / inc);
    assert ext <= toZero;
    QuotientTimes(inc, s);
    QuotientTimes(v, inc);
    ScaleUp(ext, toZero, inc / s);
    calc {
      toZero * (inc / s);
      (inc / s * s) * (v / inc);
      v / inc * inc;
      v;
    }
  }

  // ---------- the exact values ----------

  /** An end that is within 1.1 average distances of the window's edge is extended to it, any other by half
      an average distance. */
  predicate ExtendedBy(toEdge: real, average: real, extension: real) {
    if 10.0 * toEdge < 11.0 * average then extension == toEdge else 2.0 * extension == average
  }

  /** A growing counter is not taken to be further away than the point where it would have been zero. */
  predicate DistanceIs(distance: real, toStart: real, sampled: real, first: real, growth: real) {
    if growth > 0.0 && first >= 0.0 && sampled * first < toStart * growth
    then distance * growth == sampled * first else distance == toStart
  }

  lemma ZeroPoint(distance: real, toStart: real, sampled: real, first: real, growth: real)
    requires growth > 0.0 && first >= 0.0
    requires distance == if sampled * (first / growth) < toStart then sampled * (first / growth) else toStart
    ensures DistanceIs(distance, toStart, sampled, first, growth)
  {
    var q := first / growth;
    QuotientTimes(first, growth);
    assert sampled * q * growth == sampled * first;
    if sampled * q < toStart {
      Ordered(sampled * q, toStart, growth);
    } else {
      ScaleUp(toStart, sampled * q, growth);
    }
  }

  lemma Ordered(x: real, y: real, z: real)
    requires x < y && z > 0.0
    ensures x * z < y * z
  {
  }

  lemma StartDistance(w: seq<Sample>, lo: int, isCounter: bool) returns (distance: real, growth: real)
    requires |w| >= 2 && Ascending(w)
    ensures distance == DurationToStart(w, lo, isCounter) && growth == Growth(w)
    ensures if isCounter then DistanceIs(distance, Seconds(w[0].time - lo), Sampled(w), w[0].val, growth)
            else distance == Seconds(w[0].time - lo)
  {
    distance, growth := DurationToStart(w, lo, isCounter), Growth(w);
    IncreaseIsGrowth(w);
    if isCounter && growth > 0.0 && w[0].val >= 0.0 {
      ZeroPoint(distance, Seconds(w[0].time - lo), Sampled(w), w[0].val, growth);
    }
  }

  lemma AverageTimes(w: seq<Sample>) returns (average: real, n: real)
    requires |w| >= 2
    ensures average == Average(w) && n == (|w| - 1) as real && average * n == Sampled(w)
  {
    average, n := Average(w), (|w| - 1) as real;
    QuotientTimes(Sampled(w), n);
  }

  /** The start of the interval: how far it is from the window's edge, and how far it is extended. */
  lemma StartExactly(w: seq<Sample>, lo: int, isCounter: bool)
      returns (average: real, distance: real, toStart: real, sampled: real, growth: real)
    requires |w| >= 2 && Ascending(w)
    ensures average == Average(w) && growth == Growth(w)
    ensures toStart == (w[0].time - lo) as real / 1_000_000.0
    ensures sampled == (w[|w| - 1].time - w[0].time) as real / 1_000_000.0
    ensures if isCounter then DistanceIs(distance, toStart, sampled, w[0].val, growth) else distance == toStart
    ensures ExtendedBy(distance, average, StartExtension(w, lo, isCounter))
  {
    average, toStart, sampled := Average(w), Seconds(w[0].time - lo), Sampled(w);
    distance, growth := StartDistance(w, lo, isCounter);
    Extends(distance, average);
  }

  /** The extrapolated interval is the sampled one, extended at both ends; the end like the start, by its
      distance from the window's edge and the average distance between samples. */
  lemma ExtendedExactly(w: seq<Sample>, lo: int, hi: int, isCounter: bool)
      returns (average: real, gaps: real, sampled: real, toEnd: real, end: real)
    requires |w| >= 2 && Ascending(w)
    ensures sampled == (w[|w| - 1].time - w[0].time) as real / 1_000_000.0
    ensures gaps == (|w| - 1) as real && average == Average(w) && average * gaps == sampled
    ensures toEnd == (hi - w[|w| - 1].time) as real / 1_000_000.0 && ExtendedBy(toEnd, average, end)
    ensures ExtrapolatedInterval(w, lo, hi, isCounter) == sampled + StartExtension(w, lo, isCounter) + end
  {
    sampled, toEnd, end := Sampled(w), Seconds(hi - w[|w| - 1].time), EndExtension(w, hi);
    average, gaps := AverageTimes(w);
    Extends(toEnd, average);
  }

  lemma Extends(toEdge: real, average: real)
    ensures ExtendedBy(toEdge, average, Extension(toEdge, average))
  {
  }

  lemma ScaledNumber(increase: real, interval: real, sampled: real, kind: Kind) returns (v: real)
    requires sampled > 0.0 && !kind.isRate
    ensures Scaled(increase, interval, sampled, kind) == Real(v) && v * sampled == increase * interval
  {
    var q := interval / sampled;
    QuotientTimes(interval, sampled);
    v := increase * q;
    assert v * sampled == increase * (q * sampled);
  }

  /** A delta is the last value less the first, or the growth of a counter, in proportion to the
      extrapolated interval. */
  lemma DeltaExactly(w: seq<Sample>, lo: int, hi: int, kind: Kind)
      returns (delta: real, change: real, sampled: real, interval: real)
    requires |w| >= 2 && Ascending(w) && w[0].time < w[|w| - 1].time && !kind.isRate
    ensures Delta(w, lo, hi, kind) == Some(Real(delta)) && delta * sampled == change * interval
    ensures change == if kind.isCounter then Growth(w) else w[|w| - 1].val - w[0].val
    ensures sampled == Sampled(w) > 0.0 && interval == ExtrapolatedInterval(w, lo, hi, kind.isCounter)
  {
    SampledNonNegative(w);
    change, sampled := Increase(w, kind.isCounter), Sampled(w);
    interval := ExtrapolatedInterval(w, lo, hi, kind.isCounter);
    IncreaseIsGrowth(w);
    delta := ScaledNumber(change, interval, sampled, kind);
  }

  lemma EdgesInterval(w: seq<Sample>, isCounter: bool)
    requires |w| >= 2 && Ascending(w)
    ensures ExtrapolatedInterval(w, w[0].time, w[|w| - 1].time, isCounter) == Sampled(w)
  {
    ExtrapolationBounds(w, w[0].time, w[|w| - 1].time, isCounter);
  }

  /** With samples at both edges of the window nothing is extrapolated: the delta is the change itself. */
  lemma NoExtrapolation(w: seq<Sample>, kind: Kind) returns (delta: real)
    requires |w| >= 2 && Ascending(w) && w[0].time < w[|w| - 1].time && !kind.isRate
    ensures Delta(w, w[0].time, w[|w| - 1].time, kind) == Some(Real(delta))
    ensures delta == if kind.isCounter then Growth(w) else w[|w| - 1].val - w[0].val
  {
    var change, sampled, interval;
    EdgesInterval(w, kind.isCounter);
    delta, change, sampled, interval := DeltaExactly(w, w[0].time, w[|w| - 1].time, kind);
    SameFactor(delta, change, sampled, interval);
  }

  lemma SameFactor(x: real, y: real, z: real, z': real)
    requires x * z == y * z' && z == z' != 0.0
    ensures x == y
  {
    assert (x - y) * z == 0.0;
  }

  /** A rate is the increase divided by the whole seconds of the range. */
  lemma RateExactly(w: seq<Sample>, lo: int, hi: int, kind: Kind) returns (rate: real, delta: real, seconds: real)
    requires |w| >= 2 && Ascending(w) && w[0].time < w[|w| - 1].time && kind.isRate && kind.range >= 1_000_000
    ensures Delta(w, lo, hi, kind) == Some(Real(rate)) && Delta(w, lo, hi, kind.(isRate := false)) == Some(Real(delta))
    ensures seconds == (kind.range / 1_000_000) as real && rate * seconds == delta
  {
    SampledNonNegative(w);
    seconds := (kind.range / 1_000_000) as real;
    delta := Delta(w, lo, hi, kind.(isRate := false)).value.r;
    rate := delta / seconds;
    QuotientTimes(delta, seconds);
  }

  /** A rate over less than a second divides by zero: it is infinite, or not a number without an increase. */
  lemma RateWithoutSeconds(w: seq<Sample>, lo: int, hi: int, kind: Kind) returns (delta: real)
    requires |w| >= 2 && Ascending(w) && w[0].time < w[|w| - 1].time && kind.isRate
    requires -1_000_000 < kind.range < 1_000_000
    ensures Delta(w, lo, hi, kind.(isRate := false)) == Some(Real(delta))
    ensures Delta(w, lo, hi, kind) == Some(if delta == 0.0 then NaN else Infinity(delta < 0.0))
  {
    SampledNonNegative(w);
    delta := Delta(w, lo, hi, kind.(isRate := false)).value.r;
  }

  lemma Divide(x: real, y: real, z: real)
    requires x <= y && z > 0.0
    ensures x / z <= y / z
  {
    QuotientTimes(y - x, z);
    assert y / z - x / z == (y - x) / z;
  }

  function Quotient(x: real, y: real): real
    requires y != 0.0
  {
    x / y
  }

  function Spread(inc: real, ext: real, s: real, r: real): real
    requires s != 0.0 && r != 0.0
  {
    inc * (ext / s) / r
  }

  lemma RateArithmetic(inc: real, ext: real, s: real, r: real)
    requires inc >= 0.0 && 0.0 < s <= ext <= r
    ensures 0.0 <= Quotient(inc, r) <= Spread(inc, ext, s, r) <= Quotient(inc, s)
  {
    QuotientTimes(inc, r);
    QuotientTimes(inc, s);
    var slope := inc / s;
    assert inc * (ext / s) == slope * ext;
    assert slope * s == inc;
    ScaleUp(s, ext, slope);
    ScaleUp(ext, r, slope);
    Divide(inc, slope * ext, r);
    Divide(slope * ext, slope * r, r);
    assert slope * r / r == slope;
  }

  lemma WholeSeconds(usecs: int)
    requires usecs >= 0 && usecs % USECS_PER_SEC == 0
    ensures Seconds(usecs) == RangeSeconds(usecs) as real
  {
    var q := usecs / USECS_PER_SEC;
    assert usecs == q * USECS_PER_SEC;
    assert usecs as real == q as real * USECS_PER_SEC as real;
  }

  lemma ScaledIsSpread(inc: real, ext: real, s: real, kind: Kind)
    requires kind.isRate && kind.range > 0 && kind.range % USECS_PER_SEC == 0 && s > 0.0
    ensures Seconds(kind.range) > 0.0
    ensures Scaled(inc, ext, s, kind) == Real(Spread(inc, ext, s, Seconds(kind.range)))
  {
    WholeSeconds(kind.range);
  }

  /** For a counter and a positive range of whole seconds, the rate lies between the increase spread over
      the whole range and the increase spread over the sampled interval. */
  lemma RateBounds(w: seq<Sample>, lo: int, kind: Kind)
    requires |w| >= 2 && Ascending(w) && lo <= w[0].time < w[|w| - 1].time <= lo + kind.range
    requires kind.isCounter && kind.isRate && kind.range % USECS_PER_SEC == 0
    requires forall s | s in w :: s.val >= 0.0
    ensures Sampled(w) > 0.0 && Seconds(kind.range) > 0.0
    ensures var inc, delta := Increase(w, true), Delta(w, lo, lo + kind.range, kind).value;
            delta.Real? && 0.0 <= Quotient(inc, Seconds(kind.range)) <= delta.r <= Quotient(inc, Sampled(w))
  {
    SampledNonNegative(w);
    IncreaseNonNegative(w);
    ExtrapolationBounds(w, lo, lo + kind.range, true);
    ScaledIsSpread(Increase(w, true), ExtrapolatedInterval(w, lo, lo + kind.range, true), Sampled(w), kind);
    RateArithmetic(
      Increase(w, true), ExtrapolatedInterval(w, lo, lo + kind.range, true), Sampled(w), Seconds(kind.range));
  }

  /** The divisions meet no zero exactly when the samples do not all share one time and a rate's range
      has a whole second; all at one time, the value is not a number. */
  lemma NumberExactlyWhen(w: seq<Sample>, lo: int, hi: int, kind: Kind)
    requires |w| >= 2 && Ascending(w) && lo <= w[0].time && w[|w| - 1].time <= hi
    ensures var delta := Delta(w, lo, hi, kind).value;
            && (delta.Real? <==> w[0].time < w[|w| - 1].time && (kind.isRate ==> RangeSeconds(kind.range) != 0))
            && (w[0].time == w[|w| - 1].time ==> delta == NaN)
  {
    SampledNonNegative(w);
    if w[0].time == w[|w| - 1].time {
      AverageBounds(w);
      DurationBounds(w, lo, kind.isCounter);
      assert ExtrapolatedInterval(w, lo, hi, kind.isCounter) == 0.0;
    }
  }
}
