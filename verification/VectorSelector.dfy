/** The `vector_selector` aggregate: a bucketed, order-free, combinable state, against what it has to
    compute: for every step of a query, the latest sample in the lookback window. */
module VectorSelector {
  import opened Wrappers

  const USECS_PER_MS: int := 1_000

  datatype Value = Stale | Finite(val: real)

  datatype Sample = Sample(time: int, value: Value)

  datatype Error = InputTooLate | InputTooEarly | DivisionByZero | Incompatible

  /** The arguments; `bucketWidth` and `lookback` are in milliseconds, times in microseconds. */
  datatype Config = Config(startTime: int, endTime: int, bucketWidth: int, lookback: int) {
    predicate Valid() { startTime <= endTime && bucketWidth >= 0 }

    function Width(): int { bucketWidth * USECS_PER_MS }

    function Lookback(): int { lookback * USECS_PER_MS }

    function NumBuckets(): (n: nat)
      requires Valid()
      ensures n >= 1
    {
      if bucketWidth == 0 then 1 else (endTime - startTime) / Width() + 1
    }

    function LastBucketMax(): int
      requires Valid()
    {
      if bucketWidth == 0 then endTime else endTime - (endTime - startTime) % Width()
    }

    /** The time of step `i`, which is also the greatest time of bucket `i`. */
    function Step(i: nat): int {
      if i == 0 then startTime else Step(i - 1) + Width()
    }

    /** The least time of bucket `i`. */
    function BucketMin(i: nat): int {
      if i == 0 then startTime - Lookback() else Step(i - 1) + 1
    }

    /** Whether `insert` accepts a sample at time `t`, and if not, with which error it stops. */
    function Check(t: int): Option<Error>
      requires Valid()
    {
      if t > endTime then Some(InputTooLate)
      else if t > LastBucketMax() then None
      else if t < startTime - Lookback() then Some(InputTooEarly)
      else if t > startTime && bucketWidth == 0 then Some(DivisionByZero)
      else None
    }
  }

  lemma {:induction false} StepIsProduct(cfg: Config, i: nat)
    ensures cfg.Step(i) == cfg.startTime + i * cfg.Width()
  {
    if i > 0 {
      StepIsProduct(cfg, i - 1);
    }
  }

  /** Step `i` is `i` widths of so many milliseconds after the start. */
  lemma StepInMilliseconds(cfg: Config, i: nat)
    ensures cfg.Step(i) == cfg.startTime + 1000 * (i * cfg.bucketWidth)
  {
    StepIsProduct(cfg, i);
    Thousandfold(i, cfg.bucketWidth);
  }

  lemma Thousandfold(i: int, width: int)
    ensures i * (width * 1000) == 1000 * (i * width)
  {
  }

  lemma {:induction false} StepMonotone(cfg: Config, i: nat, j: nat)
    requires cfg.Valid() && i <= j
    ensures cfg.Step(i) <= cfg.Step(j)
    decreases j
  {
    if i < j {
      StepMonotone(cfg, i, j - 1);
    }
  }

  // ---------- specification ----------

  /** The later of two samples, the first one on a tie. */
  function Later(a: Option<Sample>, b: Option<Sample>): Option<Sample> {
    if a.None? then b
    else if b.Some? && b.value.time > a.value.time then b
    else a
  }

  function Clip(s: Sample, lo: int, hi: int): Option<Sample> {
    if lo <= s.time <= hi then Some(s) else None
  }

  /** The latest of the samples with times in [lo, hi], the first inserted one on a tie. */
  function Latest(samples: seq<Sample>, lo: int, hi: int): Option<Sample> {
    if samples == [] then None
    else Later(Latest(samples[..|samples| - 1], lo, hi), Clip(samples[|samples| - 1], lo, hi))
  }

  lemma {:induction false} LatestIsLatest(samples: seq<Sample>, lo: int, hi: int)
    ensures match Latest(samples, lo, hi)
            case None => forall s | s in samples :: !(lo <= s.time <= hi)
            case Some(l) =>
              l in samples && lo <= l.time <= hi && forall s | s in samples && lo <= s.time <= hi :: s.time <= l.time
  {
    if samples != [] {
      LatestIsLatest(samples[..|samples| - 1], lo, hi);
      assert samples == samples[..|samples| - 1] + [samples[|samples| - 1]];
    }
  }

  lemma {:induction false} LatestAppend(a: seq<Sample>, b: seq<Sample>, lo: int, hi: int)
    ensures Latest(a + b, lo, hi) == Later(Latest(a, lo, hi), Latest(b, lo, hi))
  {
    if b == [] {
      assert a + b == a;
    } else {
      assert (a + b)[..|a + b| - 1] == a + b[..|b| - 1];
      LatestAppend(a, b[..|b| - 1], lo, hi);
    }
  }

  /** A wider range is searched by searching its later part first. */
  lemma {:induction false} LatestSplit(samples: seq<Sample>, lo: int, mid: int, hi: int)
    requires lo <= mid + 1 && mid <= hi
    ensures var late := Latest(samples, mid + 1, hi);
            Latest(samples, lo, hi) == if late.Some? then late else Latest(samples, lo, mid)
  {
    if samples != [] {
      LatestIsLatest(samples[..|samples| - 1], lo, mid);
      LatestIsLatest(samples[..|samples| - 1], mid + 1, hi);
      LatestSplit(samples[..|samples| - 1], lo, mid, hi);
    }
  }

  /** What Prometheus selects at a step: the latest sample in the lookback window unless it is stale. */
  function Selected(cfg: Config, samples: seq<Sample>, i: nat): Option<real> {
    match Latest(samples, cfg.Step(i) - cfg.Lookback(), cfg.Step(i))
    case Some(Sample(_, Finite(v))) => Some(v)
    case _ => None
  }

  /** Sample `j` is the latest in [lo, hi], and the first of those at its time. */
  ghost predicate IsLatest(samples: seq<Sample>, j: nat, lo: int, hi: int) {
    && j < |samples| && lo <= samples[j].time <= hi
    && forall k | 0 <= k < |samples| && lo <= samples[k].time <= hi ::
         samples[k].time <= samples[j].time && (k < j ==> samples[k].time < samples[j].time)
  }

  lemma {:induction false} LatestPosition(samples: seq<Sample>, lo: int, hi: int) returns (j: nat)
    ensures Latest(samples, lo, hi).None? ==> forall k | 0 <= k < |samples| :: !(lo <= samples[k].time <= hi)
    ensures Latest(samples, lo, hi).Some? ==>
              IsLatest(samples, j, lo, hi) && Latest(samples, lo, hi).value == samples[j]
  {
    var n := |samples|;
    j := 0;
    if n > 0 {
      var init := samples[..n - 1];
      j := LatestPosition(init, lo, hi);
      if lo <= samples[n - 1].time <= hi && (Latest(init, lo, hi).None? || samples[n - 1].time > samples[j].time) {
        j := n - 1;
      }
    }
  }

  /** A step reports a value exactly when the latest sample between `lookback` milliseconds before the step
      and the step has it and is not stale. */
  lemma SelectedExactly(cfg: Config, samples: seq<Sample>, i: nat, v: real)
    ensures Selected(cfg, samples, i) == Some(v) <==>
              exists j: nat ::
                IsLatest(samples, j, cfg.Step(i) - 1000 * cfg.lookback, cfg.Step(i)) && samples[j].value == Finite(v)
  {
    var j := LatestPosition(samples, cfg.Step(i) - cfg.Lookback(), cfg.Step(i));
  }

  /** The state that a sequence of accepted samples leads to. */
  function State(cfg: Config, samples: seq<Sample>): (r: seq<Option<Sample>>)
    requires cfg.Valid()
    ensures |r| == cfg.NumBuckets()
  {
    seq(cfg.NumBuckets(), i requires 0 <= i < cfg.NumBuckets() => Latest(samples, cfg.BucketMin(i), cfg.Step(i)))
  }

  // ---------- buckets ----------

  /** `get_bucket` for an accepted time. */
  function Bucket(cfg: Config, t: int): nat
    requires cfg.Valid() && cfg.Check(t) == None && t <= cfg.LastBucketMax()
  {
    if t <= cfg.startTime then 0
    else
      var offset := t - cfg.startTime;
      offset / cfg.Width() + 1 - (if offset % cfg.Width() == 0 then 1 else 0)
  }

  lemma CeilingDivision(offset: int, w: int, b: int)
    requires w > 0 && offset > 0 && b == offset / w + 1 - (if offset % w == 0 then 1 else 0)
    ensures b >= 1 && (b - 1) * w < offset <= b * w
  {
    var q, r := offset / w, offset % w;
    assert offset == q * w + r;
    if q == 0 {
      assert r == offset;
    }
    assert (q + 1) * w == q * w + w && (q - 1) * w == q * w - w;
    assert q >= 0;
  }

  lemma LastStep(cfg: Config)
    requires cfg.Valid() && cfg.bucketWidth > 0
    ensures cfg.Step(cfg.NumBuckets() - 1) == cfg.LastBucketMax()
  {
    StepIsProduct(cfg, cfg.NumBuckets() - 1);
    var d, w := cfg.endTime - cfg.startTime, cfg.Width();
    assert d == d / w * w + d % w;
  }

  lemma Multiples(a: int, b: int, w: int)
    requires w > 0 && b <= a
    ensures b * w <= a * w
  {
  }

  lemma Below(a: int, b: int, w: int)
    requires w > 0 && a * w < b * w
    ensures a < b
  {
  }

  /** An accepted time lies in its bucket's interval, and the bucket exists. */
  lemma BucketCorrect(cfg: Config, t: int)
    requires cfg.Valid() && cfg.Check(t) == None && t <= cfg.LastBucketMax()
    ensures var b := Bucket(cfg, t); b < cfg.NumBuckets() && cfg.BucketMin(b) <= t <= cfg.Step(b)
  {
    if t > cfg.startTime {
      var b, w := Bucket(cfg, t), cfg.Width();
      CeilingDivision(t - cfg.startTime, w, b);
      StepIsProduct(cfg, b - 1);
      StepIsProduct(cfg, b);
      LastStep(cfg);
      StepIsProduct(cfg, cfg.NumBuckets() - 1);
      Below(b - 1, cfg.NumBuckets() - 1, w);
    }
  }

  /** The buckets' intervals are disjoint. */
  lemma BucketsDisjoint(cfg: Config, t: int, i: nat, j: nat)
    requires cfg.Valid() && i < j && cfg.BucketMin(i) <= t <= cfg.Step(i)
    ensures !(cfg.BucketMin(j) <= t <= cfg.Step(j))
  {
    StepMonotone(cfg, i, j - 1);
  }

  /** There is a bucket for every step up to the end of the query, and just one without a width. */
  lemma NumBucketsExact(cfg: Config, k: nat)
    requires cfg.Valid()
    ensures k < cfg.NumBuckets() <==> if cfg.bucketWidth == 0 then k == 0 else cfg.Step(k) <= cfg.endTime
  {
    if cfg.bucketWidth > 0 {
      var d, w, n := cfg.endTime - cfg.startTime, cfg.Width(), cfg.NumBuckets();
      StepIsProduct(cfg, k);
      assert d == d / w * w + d % w;
      if k < n {
        Multiples(n - 1, k, w);
      } else {
        Multiples(k, n, w);
      }
    }
  }

  /** Which samples are accepted, ignored and refused: those after the end are refused, those after the last
      step ignored, and those before the lookback window of the first step refused. */
  lemma CheckExactly(cfg: Config, t: int)
    requires cfg.Valid()
    ensures var lastStep := if cfg.bucketWidth == 0 then cfg.endTime else cfg.Step(cfg.NumBuckets() - 1);
            cfg.Check(t) == if t > cfg.endTime then Some(InputTooLate)
                            else if lastStep < t then None
                            else if t < cfg.startTime - 1000 * cfg.lookback then Some(InputTooEarly)
                            else if cfg.bucketWidth == 0 && t > cfg.startTime then Some(DivisionByZero)
                            else None
  {
    if cfg.bucketWidth > 0 {
      LastStep(cfg);
    }
  }

  /** No sample is before the first lookback window, except that those after the last step do not matter. */
  ghost predicate Accepted(cfg: Config, samples: seq<Sample>)
    requires cfg.Valid()
  {
    forall s | s in samples :: cfg.BucketMin(0) <= s.time || s.time > cfg.LastBucketMax()
  }

  // ---------- the imperative form ----------

  class VectorSelector {
    const cfg: Config
    const elements: array<Option<Sample>>
    ghost var samples: seq<Sample>

    constructor (cfg: Config)
      requires cfg.Valid()
      ensures Valid() && this.cfg == cfg && samples == [] && fresh(elements)
    {
      this.cfg := cfg;
      elements := new Option<Sample>[cfg.NumBuckets()](_ => None);
      samples := [];
    }

    ghost predicate Valid()
      reads this, elements
    {
      && cfg.Valid() && elements[..] == State(cfg, samples)
      && Accepted(cfg, samples)
    }

    method Insert(time: int, val: Value) returns (error: Option<Error>)
      requires Valid()
      modifies this, elements
      ensures Valid() && error == cfg.Check(time)
      ensures samples == if error == None then old(samples) + [Sample(time, val)] else old(samples)
    {
      if time > cfg.endTime {
        return Some(InputTooLate);
      }
      if time > cfg.LastBucketMax() {
        Ignored(cfg, samples, Sample(time, val));
        samples := samples + [Sample(time, val)];
        return None;
      }
      error := cfg.Check(time);
      if error.Some? {
        return;
      }
      var b := Bucket(cfg, time);
      BucketCorrect(cfg, time);
      ghost var before := elements[..];
      Inserted(cfg, samples, Sample(time, val), b);
      match elements[b] {
        case Some(existing) =>
          if existing.time < time {
            elements[b] := Some(Sample(time, val));
          }
        case None =>
          elements[b] := Some(Sample(time, val));
      }
      assert before[b] == Latest(samples, cfg.BucketMin(b), cfg.Step(b));
      assert elements[..] == before[b := Later(before[b], Some(Sample(time, val)))];
      samples := samples + [Sample(time, val)];
    }

    method Combine(other: VectorSelector) returns (error: Option<Error>)
      requires Valid() && other.Valid() && other != this && other.elements != elements
      modifies this, elements
      ensures Valid() && error == if cfg == other.cfg then None else Some(Incompatible)
      ensures samples == if error == None then old(samples) + other.samples else old(samples)
    {
      if cfg != other.cfg {
        return Some(Incompatible);
      }
      ghost var mine := elements[..];
      for i := 0 to elements.Length
        invariant samples == old(samples) && other.elements[..] == State(cfg, other.samples)
        invariant forall k | 0 <= k < i :: elements[k] == Later(mine[k], other.elements[k])
        invariant forall k | i <= k < elements.Length :: elements[k] == mine[k]
      {
        match (elements[i], other.elements[i]) {
          case (None, None) =>
          case (Some(_), None) =>
          case (None, Some(o)) => elements[i] := Some(o);
          case (Some(m), Some(o)) =>
            if o.time > m.time {
              elements[i] := Some(o);
            }
        }
      }
      CombineIsAppend(cfg, samples, other.samples);
      assert elements[..] == CombineStates(mine, other.elements[..]);
      samples := samples + other.samples;
      error := None;
    }

    method Clone() returns (copy: VectorSelector)
      requires Valid()
      ensures copy.Valid() && copy.cfg == cfg && copy.samples == samples && fresh(copy) && fresh(copy.elements)
    {
      copy := new VectorSelector(cfg);
      forall i | 0 <= i < elements.Length {
        copy.elements[i] := elements[i];
      }
      copy.samples := samples;
      assert copy.elements[..] == elements[..];
    }

    /** The body of the loop in `results`: the value of one step, and the last sample carried on. */
    method StepValue(content: Option<Sample>, last: Option<Sample>, ts: int)
        returns (pushed: Option<real>, last': Option<Sample>)
      ensures last' == if content.Some? then content else last
      ensures pushed == Visible(last', ts - cfg.Lookback())
    {
      pushed, last' := None, last;
      match content {
        case None =>
          if last.Some? {
            var Sample(t, v) := last.value;
            if t >= ts - cfg.Lookback() && v.Finite? {
              pushed := Some(v.val);
            }
          }
        case Some(s) =>
          if s.time >= ts - cfg.Lookback() && s.value.Finite? {
            pushed := Some(s.value.val);
          }
          last' := content;
      }
    }

    method Results() returns (vals: seq<Option<real>>)
      requires Valid()
      ensures vals == Selection(cfg, samples, cfg.NumBuckets())
    {
      vals := [];
      var last: Option<Sample> := None;
      var ts := cfg.startTime;
      for i := 0 to elements.Length
        invariant ts == cfg.Step(i) && vals == Selection(cfg, samples, i)
        invariant last == if i == 0 then None else Latest(samples, cfg.BucketMin(0), cfg.Step(i - 1))
      {
        assert elements[i] == State(cfg, samples)[i];
        NextValue(cfg, samples, i, last);
        var pushed;
        pushed, last := StepValue(elements[i], last, ts);
        vals := vals + [pushed];
        ts := ts + cfg.Width();
      }
    }
  }

  /** What is reported for the first `n` steps. */
  function Selection(cfg: Config, samples: seq<Sample>, n: nat): seq<Option<real>> {
    seq(n, i requires 0 <= i < n => Selected(cfg, samples, i))
  }

  lemma StepsWithin(cfg: Config, i: nat)
    requires cfg.Valid() && i < cfg.NumBuckets()
    ensures cfg.Step(i) <= cfg.LastBucketMax()
  {
    if cfg.bucketWidth > 0 {
      LastStep(cfg);
      StepMonotone(cfg, i, cfg.NumBuckets() - 1);
    }
  }

  function Visible(last: Option<Sample>, from: int): Option<real> {
    if last.Some? && last.value.time >= from && last.value.value.Finite? then Some(last.value.value.val) else None
  }

  /** Carrying the last non-empty bucket forward finds the latest sample up to each step. */
  lemma LastValue(cfg: Config, samples: seq<Sample>, i: nat, last: Option<Sample>, content: Option<Sample>)
    requires cfg.Valid() && forall s | s in samples :: cfg.BucketMin(0) <= s.time || s.time > cfg.Step(i)
    requires last == if i == 0 then None else Latest(samples, cfg.BucketMin(0), cfg.Step(i - 1))
    requires content == Latest(samples, cfg.BucketMin(i), cfg.Step(i))
    ensures var upTo := if content.Some? then content else last;
            && upTo == Latest(samples, cfg.BucketMin(0), cfg.Step(i))
            && Selected(cfg, samples, i) == Visible(upTo, cfg.Step(i) - cfg.Lookback())
  {
    if i > 0 {
      StepMonotone(cfg, i - 1, i);
      Split(samples, cfg.BucketMin(0), cfg.Step(i - 1), cfg.Step(i));
    }
    StepMonotone(cfg, 0, i);
    Narrow(samples, cfg.BucketMin(0), cfg.Step(i) - cfg.Lookback(), cfg.Step(i));
  }

  lemma NextValue(cfg: Config, samples: seq<Sample>, i: nat, last: Option<Sample>)
    requires cfg.Valid() && i < cfg.NumBuckets() && Accepted(cfg, samples)
    requires last == if i == 0 then None else Latest(samples, cfg.BucketMin(0), cfg.Step(i - 1))
    ensures var content := State(cfg, samples)[i];
            var upTo := if content.Some? then content else last;
            && upTo == Latest(samples, cfg.BucketMin(0), cfg.Step(i))
            && Selection(cfg, samples, i + 1)
            == Selection(cfg, samples, i) + [Visible(upTo, cfg.Step(i) - cfg.Lookback())]
  {
    StepsWithin(cfg, i);
    LastValue(cfg, samples, i, last, State(cfg, samples)[i]);
  }

  lemma Split(samples: seq<Sample>, lo: int, mid: int, hi: int)
    requires mid <= hi && forall s | s in samples :: lo <= s.time || s.time > hi
    ensures var late := Latest(samples, mid + 1, hi);
            Latest(samples, lo, hi) == if late.Some? then late else Latest(samples, lo, mid)
  {
    if lo <= mid + 1 {
      LatestSplit(samples, lo, mid, hi);
    } else {
      LatestIsLatest(samples, mid + 1, hi);
      LatestIsLatest(samples, lo, mid);
      Narrow(samples, mid + 1, lo, hi);
    }
  }

  lemma {:induction false} Narrow(samples: seq<Sample>, lo: int, lo': int, hi: int)
    requires lo <= lo'
    ensures var l := Latest(samples, lo, hi);
            Latest(samples, lo', hi) == if l.Some? && l.value.time >= lo' then l else None
  {
    if samples != [] {
      Narrow(samples[..|samples| - 1], lo, lo', hi);
    }
  }

  lemma Ignored(cfg: Config, samples: seq<Sample>, s: Sample)
    requires cfg.Valid() && cfg.LastBucketMax() < s.time <= cfg.endTime
    ensures State(cfg, samples + [s]) == State(cfg, samples)
  {
    LastStep(cfg);
    assert (samples + [s])[..|samples|] == samples;
    forall i | 0 <= i < cfg.NumBuckets() ensures State(cfg, samples + [s])[i] == State(cfg, samples)[i] {
      StepMonotone(cfg, i, cfg.NumBuckets() - 1);
    }
  }

  lemma Inserted(cfg: Config, samples: seq<Sample>, s: Sample, b: nat)
    requires cfg.Valid() && b < cfg.NumBuckets() && cfg.BucketMin(b) <= s.time <= cfg.Step(b)
    ensures var before := State(cfg, samples);
            State(cfg, samples + [s]) == before[b := Later(before[b], Some(s))]
  {
    assert (samples + [s])[..|samples|] == samples;
    forall i | 0 <= i < cfg.NumBuckets() && i != b ensures State(cfg, samples + [s])[i] == State(cfg, samples)[i] {
      if i < b && cfg.BucketMin(i) <= s.time <= cfg.Step(i) {
        BucketsDisjoint(cfg, s.time, i, b);
      } else if b < i {
        BucketsDisjoint(cfg, s.time, b, i);
      }
    }
  }

  // ---------- combining ----------

  function CombineStates(a: seq<Option<Sample>>, b: seq<Option<Sample>>): seq<Option<Sample>>
    requires |a| == |b|
  {
    seq(|a|, i requires 0 <= i < |a| => Later(a[i], b[i]))
  }

  /** Combining two states is the state of the one stream followed by the other. */
  lemma CombineIsAppend(cfg: Config, a: seq<Sample>, b: seq<Sample>)
    requires cfg.Valid()
    ensures CombineStates(State(cfg, a), State(cfg, b)) == State(cfg, a + b)
  {
    forall i | 0 <= i < cfg.NumBuckets()
      ensures CombineStates(State(cfg, a), State(cfg, b))[i] == State(cfg, a + b)[i] {
      LatestAppend(a, b, cfg.BucketMin(i), cfg.Step(i));
    }
  }

  /** `vector_selector_combine`: either state may be absent, and neither is changed. */
  method CombineInner(state1: VectorSelector?, state2: VectorSelector?) returns (r: Result<VectorSelector?, Error>)
    requires (state1 != null ==> state1.Valid()) && (state2 != null ==> state2.Valid())
    ensures r.Failure? <==> state1 != null && state2 != null && state1.cfg != state2.cfg
    ensures r.Success? ==> (r.value == null <==> state1 == null && state2 == null)
    ensures r.Success? && r.value != null ==>
              && r.value.Valid() && fresh(r.value)
              && r.value.samples
              == (if state1 == null then [] else state1.samples) + (if state2 == null then [] else state2.samples)
  {
    if state1 == null && state2 == null {
      return Success(null);
    } else if state1 == null {
      var s := state2.Clone();
      return Success(s);
    } else if state2 == null {
      var s := state1.Clone();
      return Success(s);
    }
    var s1 := state1.Clone();
    var error := s1.Combine(state2);
    if error.Some? {
      return Failure(error.value);
    }
    return Success(s1);
  }

  /** How a parallel plan may aggregate: workers see streams, their states are combined in any shape. */
  datatype Plan = Worker(samples: seq<Sample>) | Gather(left: Plan, right: Plan) {
    function Samples(): seq<Sample> {
      match this
      case Worker(samples) => samples
      case Gather(l, r) => l.Samples() + r.Samples()
    }

    /** The state the plan produces; a worker without rows has none. */
    function Run(cfg: Config): (r: Option<seq<Option<Sample>>>)
      requires cfg.Valid()
      ensures r.Some? ==> |r.value| == cfg.NumBuckets()
    {
      match this
      case Worker(samples) => if samples == [] then None else Some(State(cfg, samples))
      case Gather(left, right) =>
        match (left.Run(cfg), right.Run(cfg))
        case (Some(a), Some(b)) => Some(CombineStates(a, b))
        case (None, r) => r
        case (l, None) => l
    }
  }

  /** Every plan produces the state of its samples in stream order. */
  lemma {:induction false} PlanIsSequential(cfg: Config, plan: Plan)
    requires cfg.Valid()
    ensures plan.Run(cfg) == if plan.Samples() == [] then None else Some(State(cfg, plan.Samples()))
  {
    match plan
    case Worker(_) =>
    case Gather(l, r) =>
      PlanIsSequential(cfg, l);
      PlanIsSequential(cfg, r);
      CombineIsAppend(cfg, l.Samples(), r.Samples());
      assert [] + r.Samples() == r.Samples() && l.Samples() + [] == l.Samples();
  }

  ghost predicate NoConflicts(samples: seq<Sample>) {
    forall s, t | s in samples && t in samples && s.time == t.time :: s == t
  }

  lemma LatestIgnoresOrder(a: seq<Sample>, b: seq<Sample>, lo: int, hi: int)
    requires (forall s :: s in a <==> s in b) && NoConflicts(a)
    ensures Latest(a, lo, hi) == Latest(b, lo, hi)
  {
    LatestIsLatest(a, lo, hi);
    LatestIsLatest(b, lo, hi);
  }

  lemma SameElements(a: seq<Sample>, b: seq<Sample>)
    requires multiset(a) == multiset(b)
    ensures |a| == |b| && forall s :: s in a <==> s in b
  {
    assert forall s :: s in a <==> s in multiset(a);
    assert forall s :: s in b <==> s in multiset(b);
    assert |a| == |multiset(a)| == |multiset(b)| == |b|;
  }

  lemma StatesAgree(cfg: Config, a: seq<Sample>, b: seq<Sample>)
    requires cfg.Valid() && NoConflicts(a) && multiset(a) == multiset(b)
    ensures State(cfg, a) == State(cfg, b) && Selection(cfg, a, cfg.NumBuckets()) == Selection(cfg, b, cfg.NumBuckets())
  {
    SameElements(a, b);
    forall lo, hi ensures Latest(a, lo, hi) == Latest(b, lo, hi) {
      LatestIgnoresOrder(a, b, lo, hi);
    }
  }

  /** Without conflicting values at one time, neither the split of the rows over workers, nor their
      order, nor the shape of the combination affects any reported value. */
  lemma PlansAgree(cfg: Config, p: Plan, q: Plan)
    requires cfg.Valid() && NoConflicts(p.Samples()) && multiset(p.Samples()) == multiset(q.Samples())
    ensures p.Run(cfg) == q.Run(cfg)
    ensures Selection(cfg, p.Samples(), cfg.NumBuckets()) == Selection(cfg, q.Samples(), cfg.NumBuckets())
  {
    PlanIsSequential(cfg, p);
    PlanIsSequential(cfg, q);
    SameElements(p.Samples(), q.Samples());
    StatesAgree(cfg, p.Samples(), q.Samples());
  }
}
