/** The sliding window behind `prom_delta`, `prom_increase` and `prom_rate`: a deque that is advanced
    step by step, against its specification, the naive filter of the whole history. */
module GapfillDelta {
  import opened Wrappers
  import opened Extrapolation

  datatype Value = Stale | Finite(val: real)

  datatype Row = Row(time: int, value: Value)

  /** The aggregate's arguments, with `step` and `range` in microseconds. */
  datatype Query = Query(lowest: int, greatest: int, step: int, range: int, isCounter: bool, isRate: bool) {
    // With a negative step, a window that ends by `greatest` would be followed by others without end.
    ghost predicate Valid() { step > 0 || Hi(0) > greatest }

    function Kind(): Extrapolation.Kind { Extrapolation.Kind.Kind(isCounter, isRate, range) }

    /** Where window `k` starts: `k` steps after `lowest`. */
    function Lo(k: nat): int {
      if k == 0 then lowest else Lo(k - 1) + step
    }

    function Hi(k: nat): int { Lo(k) + range }
  }

  lemma {:induction false} WindowBounds(q: Query, k: nat)
    ensures q.Lo(k) == q.lowest + k * q.step && q.Hi(k) == q.lowest + k * q.step + q.range
  {
    if k > 0 {
      WindowBounds(q, k - 1);
    }
  }

  // ---------- specification ----------

  /** The samples of a history whose times lie in [lo, hi]. */
  function InWindow(history: seq<Sample>, lo: int, hi: int): seq<Sample> {
    var n := |history|;
    if n == 0 then []
    else InWindow(history[..n - 1], lo, hi) + (if lo <= history[n - 1].time <= hi then [history[n - 1]] else [])
  }

  lemma {:induction false} InWindowMembers(history: seq<Sample>, lo: int, hi: int)
    ensures forall s :: s in InWindow(history, lo, hi) <==> s in history && lo <= s.time <= hi
  {
    var n := |history|;
    if n > 0 {
      InWindowMembers(history[..n - 1], lo, hi);
      assert history == history[..n - 1] + [history[n - 1]];
    }
  }

  /** The filter works sample by sample, in their order. */
  lemma InWindowSnoc(history: seq<Sample>, s: Sample, lo: int, hi: int)
    ensures InWindow([], lo, hi) == []
    ensures InWindow(history + [s], lo, hi) == InWindow(history, lo, hi) + (if lo <= s.time <= hi then [s] else [])
  {
    assert (history + [s])[..|history|] == history;
  }

  lemma {:induction false} InWindowAscending(history: seq<Sample>, lo: int, hi: int)
    requires Ascending(history)
    ensures Ascending(InWindow(history, lo, hi))
  {
    var n := |history|;
    if n > 0 {
      var before := InWindow(history[..n - 1], lo, hi);
      InWindowAscending(history[..n - 1], lo, hi);
      InWindowMembers(history[..n - 1], lo, hi);
      forall i | 0 <= i < |before| ensures before[i].time <= history[n - 1].time {
        assert before[i] in before;
      }
    }
  }

  predicate Late(history: seq<Sample>, time: int) {
    history != [] && time < history[|history| - 1].time
  }

  /** The history after a row: a late sample never enters it. */
  function Accept(history: seq<Sample>, row: Row): seq<Sample> {
    if row.value.Finite? && Late(history, row.time) then history else history + SampleOf(row)
  }

  /** What popping the samples before `lo` leaves. */
  function DropBefore(w: seq<Sample>, lo: int): seq<Sample> {
    if w != [] && w[0].time < lo then DropBefore(w[1..], lo) else w
  }

  lemma {:induction false} DropSnoc(w: seq<Sample>, x: Sample, lo: int)
    requires Ascending(w + [x])
    ensures DropBefore(w + [x], lo) == if x.time < lo then [] else DropBefore(w, lo) + [x]
  {
    if w != [] {
      assert (w + [x])[0].time <= (w + [x])[|w|].time;
      assert (w + [x])[1..] == w[1..] + [x];
      if w[0].time < lo {
        forall i, j | 0 <= i < j < |w[1..] + [x]| ensures (w[1..] + [x])[i].time <= (w[1..] + [x])[j].time {
          assert (w + [x])[i + 1].time <= (w + [x])[j + 1].time;
        }
        DropSnoc(w[1..], x, lo);
      }
    } else {
      assert w + [x] == [x] && [x][1..] == [];
    }
  }

  /** Sliding the window forward only drops samples at its front. */
  lemma {:induction false} SlideWindow(history: seq<Sample>, lo: int, hi: int, lo': int, hi': int)
    requires Ascending(history) && lo <= lo' && hi <= hi' && forall s | s in history :: s.time <= hi
    ensures DropBefore(InWindow(history, lo, hi), lo') == InWindow(history, lo', hi')
  {
    var n := |history|;
    if n > 0 {
      var last := history[n - 1];
      assert last in history;
      SlideWindow(history[..n - 1], lo, hi, lo', hi');
      InWindowAscending(history, lo, hi);
      if lo <= last.time {
        DropSnoc(InWindow(history[..n - 1], lo, hi), last, lo');
      } else {
        assert InWindow(history, lo, hi) == InWindow(history[..n - 1], lo, hi);
      }
      if last.time < lo' {
        AllBefore(history[..n - 1], lo', hi');
      }
    }
  }

  lemma {:induction false} AllBefore(history: seq<Sample>, lo: int, hi: int)
    requires forall s | s in history :: s.time < lo
    ensures InWindow(history, lo, hi) == []
  {
    if history != [] {
      AllBefore(history[..|history| - 1], lo, hi);
    }
  }

  /** The value of window `k` of a query, read off the whole history. */
  function NaiveDelta(q: Query, history: seq<Sample>, k: nat): Option<Float>
  {
    Delta(InWindow(history, q.Lo(k), q.Hi(k)), q.Lo(k), q.Hi(k), q.Kind())
  }

  /** The windows a query reports are those that end no later than `greatest`. */
  function NumWindows(q: Query): nat
    requires q.Valid()
  {
    if q.Hi(0) > q.greatest then 0 else (q.greatest - q.Hi(0)) / q.step + 1
  }

  lemma NumWindowsExact(q: Query, k: nat)
    requires q.step > 0
    ensures k < NumWindows(q) <==> q.Hi(k) <= q.greatest
  {
    WindowBounds(q, k);
    var d := q.greatest - q.Hi(0);
    if d < 0 {
      Multiples(0, k, q.step);
    } else {
      var m := d / q.step;
      Quotient(d, q.step);
      if k <= m {
        Multiples(k, m, q.step);
      } else {
        Multiples(m + 1, k, q.step);
      }
    }
  }

  /** The loops that flush end only because windows move on: with a negative step, once a window ends by
      `greatest`, all later ones do. */
  lemma {:induction false} NegativeStepNeverEnds(q: Query, k: nat)
    requires q.step < 0 && q.Hi(0) <= q.greatest
    ensures q.Hi(k) <= q.greatest
  {
    if k > 0 {
      NegativeStepNeverEnds(q, k - 1);
    }
  }

  lemma Quotient(d: int, step: int)
    requires step > 0
    ensures d / step * step <= d < (d / step + 1) * step
  {
    assert d == step * (d / step) + d % step;
  }

  lemma Multiples(a: int, b: int, step: int)
    requires a <= b && step >= 0
    ensures a * step <= b * step
  {
  }

  /** What the aggregate over a history should be: one naive value per window. */
  function Naive(q: Query, history: seq<Sample>): seq<Option<Float>>
    requires q.Valid()
  {
    seq(NumWindows(q), k requires 0 <= k < NumWindows(q) => NaiveDelta(q, history, k))
  }

  /** The samples that count: stale markers are skipped. */
  function Samples(rows: seq<Row>): seq<Sample> {
    if rows == [] then []
    else Samples(rows[..|rows| - 1]) + SampleOf(rows[|rows| - 1])
  }

  function SampleOf(row: Row): seq<Sample> {
    match row.value
    case Stale => []
    case Finite(v) => [Sample(row.time, v)]
  }

  /** The samples of rows are theirs in order, stale markers left out. */
  lemma SamplesSnoc(rows: seq<Row>, row: Row)
    ensures Samples([]) == []
    ensures Samples(rows + [row]) == match row.value
                                     case Stale => Samples(rows)
                                     case Finite(v) => Samples(rows) + [Sample(row.time, v)]
  {
    assert (rows + [row])[..|rows|] == rows;
  }

  /** The windows flushed so far hold their values and have ended by `greatest`. */
  ghost predicate Flushed(q: Query, history: seq<Sample>, deltas: seq<Option<Float>>)
  {
    forall k: nat | k < |deltas| :: deltas[k] == NaiveDelta(q, history, k) && q.Hi(k) <= q.greatest
  }

  /** The deque holds the samples of the current window, and the values of those before it. */
  ghost predicate Represents(q: Query, history: seq<Sample>, window: seq<Sample>, deltas: seq<Option<Float>>) {
    && Ascending(history) && (forall s | s in history :: s.time <= q.Hi(|deltas|))
    && window == InWindow(history, q.Lo(|deltas|), q.Hi(|deltas|))
    && Flushed(q, history, deltas)
  }

  /** Every window flushed so far ended before the last sample. */
  ghost predicate EndedBefore(q: Query, flushed: nat, history: seq<Sample>) {
    flushed > 0 ==> history != [] && q.Hi(flushed - 1) < history[|history| - 1].time
  }

  /** The history grows by a sample of the current window, or by one in the gap before it. */
  lemma Appended(q: Query, history: seq<Sample>, s: Sample, window: seq<Sample>, deltas: seq<Option<Float>>)
    requires q.Valid() && Represents(q, history, window, deltas) && s.time <= q.Hi(|deltas|) && !Late(history, s.time)
    requires |deltas| > 0 ==> q.Hi(|deltas| - 1) < s.time
    ensures Represents(q, history + [s], if q.Lo(|deltas|) <= s.time then window + [s] else window, deltas)
    ensures EndedBefore(q, |deltas|, history + [s])
  {
    AscendingSnoc(history, s);
    InWindowSnoc(history, s, q.Lo(|deltas|), q.Hi(|deltas|));
    FlushedGrows(q, history, s, deltas);
  }

  /** What the deque and the history are after a sample that is not out of order. */
  function PushedWindow(window: seq<Sample>, s: Sample, lo: int): seq<Sample> {
    if s.time >= lo then window + [s] else window
  }

  function PushedHistory(history: seq<Sample>, s: Sample): seq<Sample> {
    if Late(history, s.time) then history else history + [s]
  }

  lemma Pushed(q: Query, history: seq<Sample>, s: Sample, window: seq<Sample>, deltas: seq<Option<Float>>)
    requires q.Valid() && Represents(q, history, window, deltas) && s.time <= q.Hi(|deltas|)
    requires Late(history, s.time) ==> history[|history| - 1].time < q.Lo(|deltas|) && EndedBefore(q, |deltas|, history)
    requires !Late(history, s.time) && |deltas| > 0 ==> q.Hi(|deltas| - 1) < s.time
    ensures Represents(q, PushedHistory(history, s), PushedWindow(window, s, q.Lo(|deltas|)), deltas)
    ensures EndedBefore(q, |deltas|, PushedHistory(history, s))
  {
    if !Late(history, s.time) {
      Appended(q, history, s, window, deltas);
    }
  }

  // ---------- the deque ----------

  class GapfillDeltaTransition {
    var window: seq<Sample>
    var deltas: seq<Option<Float>>
    var currentWindowMax: int
    var currentWindowMin: int
    const stepSize: int
    const range: int
    const greatestTime: int
    const isCounter: bool
    const isRate: bool
    ghost const query: Query
    ghost var history: seq<Sample>

    constructor (q: Query)
      requires q.Valid()
      ensures query == q && history == [] && deltas == [] && Valid() && Open()
    {
      window, deltas := [], [];
      currentWindowMax := q.lowest + q.range;
      currentWindowMin := q.lowest;
      stepSize, range, greatestTime, isCounter, isRate := q.step, q.range, q.greatest, q.isCounter, q.isRate;
      query, history := q, [];
    }

    ghost predicate Fields()
      reads this
    {
      && query == Query(query.lowest, greatestTime, stepSize, range, isCounter, isRate) && query.Valid()
      && currentWindowMin == query.Lo(|deltas|) && currentWindowMax == query.Hi(|deltas|)
    }

    ghost predicate Valid()
      reads this
    {
      Fields() && Represents(query, history, window, deltas)
    }

    ghost predicate Open()
      reads this
    {
      EndedBefore(query, |deltas|, history)
    }

    method CounterCorrection() returns (correction: real)
      ensures correction == Resets(window)
    {
      correction := 0.0;
      var lastValue := 0.0;
      for i := 0 to |window|
        invariant lastValue == if i == 0 then 0.0 else window[i - 1].val
        invariant correction == Resets(window[..i])
      {
        assert window[..i + 1][..i] == window[..i];
        var sample := window[i].val;
        if sample < lastValue {
          correction := correction + lastValue;
        }
        lastValue := sample;
      }
      assert window[..|window|] == window;
    }

    method ExtrapolateTo(increase: real) returns (extrapolateTo: real)
      requires Fields() && |window| >= 2 && increase == Increase(window, isCounter)
      ensures extrapolateTo == ExtrapolatedInterval(window, currentWindowMin, currentWindowMax, isCounter)
    {
      var latest, earliest := window[|window| - 1], window[0];
      var durationToStart := (earliest.time - currentWindowMin) as real / USECS_PER_SEC as real;
      var durationToEnd := (currentWindowMax - latest.time) as real / USECS_PER_SEC as real;
      var sampledInterval := (latest.time - earliest.time) as real / USECS_PER_SEC as real;
      var average := sampledInterval / (|window| - 1) as real;
      assert average == Average(window);
      if isCounter && increase > 0.0 && earliest.val >= 0.0 {
        var durationToZero := sampledInterval * (earliest.val / increase);
        if durationToZero < durationToStart {
          durationToStart := durationToZero;
        }
      }
      assert durationToStart == DurationToStart(window, currentWindowMin, isCounter);
      extrapolateTo := Extend(sampledInterval, durationToStart, average);
      extrapolateTo := Extend(extrapolateTo, durationToEnd, average);
    }

    static method Extend(interval: real, toEdge: real, average: real) returns (r: real)
      ensures r == interval + Extension(toEdge, average)
    {
      var threshold := average * 1.1;
      if toEdge < threshold {
        r := interval + toEdge;
      } else {
        r := interval + average / 2.0;
      }
    }

    method ScaleResult(increase: real, extrapolateTo: real, sampledInterval: real) returns (resultVal: Float)
      requires Fields()
      ensures resultVal == Scaled(increase, extrapolateTo, sampledInterval, query.Kind())
    {
      resultVal := Times(increase, Over(Real(extrapolateTo), sampledInterval));
      if isRate {
        resultVal := Over(resultVal, RangeSeconds(range) as real);
      }
    }

    method AddDeltaForCurrentWindow()
      requires Fields()
      modifies this`deltas
      ensures deltas == old(deltas) + [Delta(window, currentWindowMin, currentWindowMax, query.Kind())]
    {
      if |window| < 2 {
        deltas := deltas + [None];
        return;
      }
      var correction := 0.0;
      if isCounter {
        correction := CounterCorrection();
      }
      var latest, earliest := window[|window| - 1], window[0];
      var increase := latest.val - earliest.val + correction;
      var extrapolateTo := ExtrapolateTo(increase);
      var resultVal := ScaleResult(increase, extrapolateTo, Sampled(window));
      deltas := deltas + [Some(resultVal)];
    }

    /** Drops the samples that have fallen out of the window at its front. */
    method PopFront()
      modifies this`window
      ensures window == DropBefore(old(window), currentWindowMin)
    {
      while window != [] && window[0].time < currentWindowMin
        invariant DropBefore(window, currentWindowMin) == DropBefore(old(window), currentWindowMin)
        decreases |window|
      {
        window := window[1..];
      }
    }

    method FlushCurrentWindow()
      requires Valid() && currentWindowMax <= greatestTime
      modifies this
      ensures Valid() && history == old(history) && |deltas| == |old(deltas)| + 1
      ensures query.step > 0
    {
      assert |deltas| > 0 ==> query.Hi(0) <= query.greatest;
      AddDeltaForCurrentWindow();
      assert deltas[|old(deltas)|] == NaiveDelta(query, history, |old(deltas)|);
      currentWindowMin := currentWindowMin + stepSize;
      currentWindowMax := currentWindowMax + stepSize;
      PopFront();
      SlideWindow(history, old(currentWindowMin), old(currentWindowMax), currentWindowMin, currentWindowMax);
    }

    /** Flushes until the sample's time is in the current window. */
    method FlushUntil(time: int)
      requires Valid() && Open() && time <= greatestTime
      modifies this
      ensures Valid() && history == old(history) && time <= currentWindowMax
      ensures if time <= old(currentWindowMax) then Open() && currentWindowMin == old(currentWindowMin)
              else |deltas| > 0 && query.Hi(|deltas| - 1) < time
    {
      while !(time <= currentWindowMax)
        invariant Valid() && history == old(history)
        invariant if time <= old(currentWindowMax) then deltas == old(deltas)
                  else deltas == old(deltas) || (|deltas| > 0 && query.Hi(|deltas| - 1) < time)
        decreases time - currentWindowMax
      {
        FlushCurrentWindow();
      }
    }

    /** The check on the back of the deque sees a late sample only while its predecessor is in the window. */
    function OutOfOrder(time: int): (r: bool)
      requires Valid()
      reads this
      ensures r == (Late(history, time) && currentWindowMin <= history[|history| - 1].time)
    {
      LastOfWindow(history, currentWindowMin, currentWindowMax);
      window != [] && window[|window| - 1].time > time
    }

    method AddDataPoint(row: Row) returns (ok: bool)
      requires Valid() && Open() && row.time <= greatestTime
      modifies this
      ensures Valid() && Open()
      ensures var late := row.value.Finite? && Late(old(history), row.time);
              ok == !(late && old(currentWindowMin) <= old(history)[|old(history)| - 1].time)
      ensures history == Accept(old(history), row)
    {
      if row.value.Stale? {
        return true;
      }
      assert history != [] ==> history[|history| - 1] in history;
      FlushUntil(row.time);
      if OutOfOrder(row.time) {
        return false;
      }
      ok := true;
      PushBack(Sample(row.time, row.value.val));
    }

    /** Puts the sample into the window unless it lies in the gap before it. */
    method PushBack(s: Sample)
      requires Valid() && s.time <= currentWindowMax && !OutOfOrder(s.time)
      requires Late(history, s.time) ==> Open()
      requires !Late(history, s.time) && |deltas| > 0 ==> query.Hi(|deltas| - 1) < s.time
      modifies this`window, this`history
      ensures Valid() && Open()
      ensures history == if Late(old(history), s.time) then old(history) else old(history) + [s]
    {
      Pushed(query, history, s, window, deltas);
      history := PushedHistory(history, s);
      if s.time >= currentWindowMin {
        window := window + [s];
      }
    }

    method AsVec() returns (result: seq<Option<Float>>)
      requires Valid()
      modifies this
      ensures Valid() && history == old(history) && result == Naive(query, history)
    {
      while currentWindowMax <= greatestTime
        invariant Valid() && history == old(history)
        decreases greatestTime - currentWindowMax
      {
        FlushCurrentWindow();
      }
      result := deltas;
      if query.step > 0 {
        NumWindowsExact(query, |deltas|);
        if |deltas| > 0 {
          NumWindowsExact(query, |deltas| - 1);
        }
      }
    }
  }

  // ---------- the aggregate ----------

  datatype Error = OutOfBounds | NotAscending | DivisionByZero | CapacityOverflow

  predicate InBounds(q: Query, rows: seq<Row>) {
    Within(rows, q.lowest, q.greatest)
  }

  predicate Within(rows: seq<Row>, lowest: int, greatest: int) {
    forall row | row in rows :: lowest <= row.time <= greatest
  }

  lemma {:induction false} SamplesPrefix(rows: seq<Row>, i: nat)
    requires i <= |rows|
    ensures Samples(rows[..i]) <= Samples(rows)
    decreases |rows|
  {
    if i < |rows| {
      SamplesPrefix(rows[..|rows| - 1], i);
      assert rows[..|rows| - 1][..i] == rows[..i];
    } else {
      assert rows[..i] == rows;
    }
  }

  lemma SamplesNext(rows: seq<Row>, i: nat)
    requires i < |rows|
    ensures Samples(rows[..i + 1]) == Samples(rows[..i]) + SampleOf(rows[i])
  {
    assert rows[..i + 1][..i] == rows[..i];
  }

  lemma PrefixAscending(a: seq<Sample>, b: seq<Sample>)
    requires a <= b && Ascending(b)
    ensures Ascending(a)
  {
  }

  /** The accepted history agrees with the first `i` rows as long as these are in order. */
  ghost predicate Tracks(history: seq<Sample>, rows: seq<Row>, i: nat)
    requires i <= |rows|
  {
    && (forall s | s in history :: s in Samples(rows[..i]))
    && (Ascending(Samples(rows[..i])) ==> history == Samples(rows[..i]))
  }

  /** Accepting a row that is not late, or skipping one that is, keeps track of the rows. */
  lemma TracksNext(rows: seq<Row>, i: nat, history: seq<Sample>)
    requires i < |rows| && Tracks(history, rows, i)
    ensures Tracks(Accept(history, rows[i]), rows, i + 1)
    ensures rows[i].value.Finite? && Late(history, rows[i].time) ==> !Ascending(Samples(rows))
  {
    SamplesNext(rows, i);
    SamplesPrefix(rows, i + 1);
    var before, after := Samples(rows[..i]), Samples(rows[..i + 1]);
    if Ascending(after) {
      PrefixAscending(before, after);
      assert rows[i].value.Finite? && before != [] ==> after[|before| - 1].time <= after[|before|].time;
    } else if Ascending(Samples(rows)) {
      PrefixAscending(after, Samples(rows));
    }
  }

  /** The state after `i` rows, all of them in bounds. */
  ghost predicate Consumed(state: GapfillDeltaTransition, lowest: int, greatest: int, rows: seq<Row>, i: nat)
    requires i <= |rows|
    reads state
  {
    && state.Valid() && state.Open() && greatest == state.greatestTime
    && Tracks(state.history, rows, i) && Within(rows[..i], lowest, greatest)
  }

  lemma WithinNext(rows: seq<Row>, i: nat, lowest: int, greatest: int)
    requires i < |rows|
    ensures Within(rows[..i + 1], lowest, greatest)
       <==> Within(rows[..i], lowest, greatest) && lowest <= rows[i].time <= greatest
    ensures Within(rows, lowest, greatest) ==> lowest <= rows[i].time <= greatest
  {
    assert rows[..i + 1] == rows[..i] + [rows[i]];
  }

  /** `prom_delta_transition` once there is a state. */
  method Transition(state: GapfillDeltaTransition, lowest: int, greatest: int,
                    ghost rows: seq<Row>, ghost i: nat, row: Row)
      returns (r: Option<Error>)
    requires i < |rows| && rows[i] == row && Consumed(state, lowest, greatest, rows, i)
    modifies state
    ensures r == None ==> Consumed(state, lowest, greatest, rows, i + 1)
    ensures r.Some? ==> Rejected(r.value, lowest, greatest, rows)
  {
    WithinNext(rows, i, lowest, greatest);
    if row.time < lowest || row.time > greatest {
      return Some(OutOfBounds);
    }
    TracksNext(rows, i, state.history);
    var ok := state.AddDataPoint(row);
    r := if ok then None else Some(NotAscending);
  }

  /** What an error raised by a row says about the rows. */
  predicate Rejected(error: Error, lowest: int, greatest: int, rows: seq<Row>) {
    match error
    case OutOfBounds => !Within(rows, lowest, greatest)
    case NotAscending => !Ascending(Samples(rows))
    case DivisionByZero => false
    case CapacityOverflow => false
  }

  method Consume(state: GapfillDeltaTransition, lowest: int, greatest: int, rows: seq<Row>) returns (r: Option<Error>)
    requires state.Valid() && state.Open() && state.history == [] && greatest == state.greatestTime
    modifies state
    ensures r == None ==> Consumed(state, lowest, greatest, rows, |rows|)
    ensures r.Some? ==> Rejected(r.value, lowest, greatest, rows)
  {
    for i := 0 to |rows|
      invariant Consumed(state, lowest, greatest, rows, i)
    {
      r := Transition(state, lowest, greatest, rows, i, rows[i]);
      if r.Some? {
        return r;
      }
    }
    r := None;
  }

  /** From the first row on: a new state, a transition for every row, then `prom_extrapolate_final`. */
  method Collect(q: Query, rows: seq<Row>) returns (r: Result<seq<Option<Float>>, Error>)
    requires q.Valid()
    ensures r.Success? ==> InBounds(q, rows) && (Ascending(Samples(rows)) ==> r.value == Naive(q, Samples(rows)))
    ensures r.Failure? ==> Rejected(r.error, q.lowest, q.greatest, rows)
  {
    var state := new GapfillDeltaTransition(q);
    var error := Consume(state, q.lowest, q.greatest, rows);
    if error.Some? {
      return Failure(error.value);
    }
    assert rows[..|rows|] == rows;
    var deltas := state.AsVec();
    r := Success(deltas);
  }

  /** Division that rounds towards zero. */
  function Truncated(x: int, y: int): int
    requires y != 0
  {
    var q := (if x >= 0 then x else -x) / (if y >= 0 then y else -y);
    if (x >= 0) == (y >= 0) then q else -q
  }

  /** The capacity that the state asks for at the start. */
  function ExpectedDeltas(q: Query): int
    requires q.step != 0
  {
    var quotient := Truncated(q.greatest - q.lowest, q.step);
    if quotient * q.step != q.greatest - q.lowest then quotient + 1 else quotient
  }

  /** What making the state raises. */
  function StartError(q: Query): Option<Error> {
    if q.step == 0 then Some(DivisionByZero)
    else if ExpectedDeltas(q) < 0 then Some(CapacityOverflow)
    else None
  }

  /** Making the state fails for a zero step, and for a negative one exactly when the times span one or two
      and more of its sizes; never for a positive one. */
  lemma StartErrorExactly(q: Query)
    requires q.lowest <= q.greatest
    ensures StartError(q) == if q.step > 0 then None
                             else if q.step == 0 then Some(DivisionByZero)
                             else if q.greatest - q.lowest == -q.step || q.greatest - q.lowest >= -2 * q.step
                             then Some(CapacityOverflow) else None
  {
    if q.step < 0 {
      var span, size := q.greatest - q.lowest, -q.step;
      var n := span / size;
      Quotient(span, size);
      assert Truncated(span, q.step) == -n;
      if n >= 2 {
        Multiples(2, n, size);
      } else if n == 1 {
        assert span < 2 * size;
      }
    }
  }

  /** The aggregate over rows in the order they arrive. There is no state, and so no result, before the
      first row. Without the precondition the loops do not end, as `NegativeStepNeverEnds` says. */
  method Aggregate(q: Query, rows: seq<Row>) returns (r: Result<Option<seq<Option<Float>>>, Error>)
    requires q.step < 0 && StartError(q) == None && q.lowest <= q.greatest ==> q.Hi(0) > q.greatest
    ensures rows == [] ==> r == Success(None)
    ensures rows != [] && InBounds(q, rows) && StartError(q).Some? ==> r == Failure(StartError(q).value)
    ensures rows != [] && InBounds(q, rows) && StartError(q).None? && Ascending(Samples(rows)) ==>
              r == Success(Some(Naive(q, Samples(rows))))
    ensures !InBounds(q, rows) ==> r.Failure?
    ensures r == Failure(OutOfBounds) ==> !InBounds(q, rows)
    ensures r == Failure(NotAscending) ==> !Ascending(Samples(rows))
  {
    if rows == [] {
      return Success(None);
    }
    if rows[0].time < q.lowest || rows[0].time > q.greatest {
      return Failure(OutOfBounds);
    }
    var error := StartError(q);
    if error.Some? {
      return Failure(error.value);
    }
    var collected := Collect(q, rows);
    if collected.Failure? {
      return Failure(collected.error);
    }
    r := Success(Some(collected.value));
  }

  /** A division by zero that nothing prevents: two samples at one time, alone in their window. */
  lemma OneTimeIsNotANumber()
    ensures var q := Query(0, 10, 10, 10, false, false);
            Naive(q, [Sample(5, 1.0), Sample(5, 2.0)]) == [Some(NaN)]
  {
    var q, w := Query(0, 10, 10, 10, false, false), [Sample(5, 1.0), Sample(5, 2.0)];
    InWindowSnoc([], w[0], 0, 10);
    InWindowSnoc([w[0]], w[1], 0, 10);
    assert [] + [w[0]] == [w[0]] && [w[0]] + [w[1]] == w;
    NaiveDeltaOf(q, w, 0, w);
    NumberExactlyWhen(w, 0, 10, q.Kind());
  }

  lemma {:induction false} HiMonotone(q: Query, j: nat, k: nat)
    requires q.step >= 0 && j <= k
    ensures q.Hi(j) <= q.Hi(k)
    decreases k
  {
    if j < k {
      HiMonotone(q, j, k - 1);
    }
  }

  lemma AscendingSnoc(history: seq<Sample>, s: Sample)
    requires Ascending(history) && !Late(history, s.time)
    ensures Ascending(history + [s]) && forall x | x in history + [s] :: x.time <= s.time
  {
  }

  lemma NaiveDeltaOf(q: Query, history: seq<Sample>, k: nat, w: seq<Sample>)
    requires w == InWindow(history, q.Lo(k), q.Hi(k))
    ensures NaiveDelta(q, history, k) == Delta(w, q.Lo(k), q.Hi(k), q.Kind())
  {
  }

  /** A window that ended before a sample does not see it. */
  lemma FlushedKeeps(q: Query, history: seq<Sample>, s: Sample, k: nat)
    requires q.Hi(k) < s.time
    ensures NaiveDelta(q, history + [s], k) == NaiveDelta(q, history, k)
  {
    InWindowSnoc(history, s, q.Lo(k), q.Hi(k));
    var w := InWindow(history, q.Lo(k), q.Hi(k));
    NaiveDeltaOf(q, history, k, w);
    NaiveDeltaOf(q, history + [s], k, w);
  }

  lemma FlushedGrows(q: Query, history: seq<Sample>, s: Sample, deltas: seq<Option<Float>>)
    requires q.Valid() && Flushed(q, history, deltas) && (|deltas| > 0 ==> q.Hi(|deltas| - 1) < s.time)
    ensures Flushed(q, history + [s], deltas)
  {
    assert |deltas| > 0 ==> q.Hi(0) <= q.greatest;
    forall k: nat | k < |deltas| ensures deltas[k] == NaiveDelta(q, history + [s], k) {
      HiMonotone(q, k, |deltas| - 1);
      FlushedKeeps(q, history, s, k);
    }
  }

  lemma LastOfWindow(history: seq<Sample>, lo: int, hi: int)
    requires Ascending(history) && forall s | s in history :: s.time <= hi
    ensures var w := InWindow(history, lo, hi);
            if history == [] || history[|history| - 1].time < lo then w == []
            else w != [] && w[|w| - 1] == history[|history| - 1]
  {
  }
}
