/** The aggregates `prom_delta`, `prom_increase` and `prom_rate`. Their steps and ranges are in
    milliseconds, all times are in microseconds. */
module PromAggregates {
  import opened Wrappers
  import opened Extrapolation
  import opened GapfillDelta

  type Outcome = Result<Option<seq<Option<Float>>>, Error>

  datatype Arguments = Arguments(lowest: int, greatest: int, step: int, range: int) {
    function Query(isCounter: bool, isRate: bool): Query {
      GapfillDelta.Query.Query(lowest, greatest, step * USECS_PER_MS, range * USECS_PER_MS, isCounter, isRate)
    }

    /** The windows begin `step` milliseconds after one another. */
    function Begin(k: nat): int { lowest + 1000 * (k * step) }

    /** The capacity of the state comes out negative. */
    predicate Overflows() {
      step < 0 && (greatest - lowest == -1000 * step || greatest - lowest >= -2000 * step)
    }

    // With a negative step that is not an error, a window that ends by `greatest` is followed by others without end.
    predicate Ends() {
      step < 0 && !Overflows() && lowest <= greatest ==> lowest + 1000 * range > greatest
    }
  }

  const USECS_PER_MS: int := 1_000

  /** One value for every window that ends by `greatest`, each of the samples in its window. */
  ghost predicate ValueOfEachWindow(a: Arguments, samples: seq<Sample>, isCounter: bool, isRate: bool,
                                    deltas: seq<Option<Float>>) {
    && (forall k: nat :: k < |deltas| <==> a.Begin(k) + 1000 * a.range <= a.greatest)
    && forall k: nat | k < |deltas| ::
         var lo, hi := a.Begin(k), a.Begin(k) + 1000 * a.range;
         deltas[k] == Delta(InWindow(samples, lo, hi), lo, hi, Kind.Kind(isCounter, isRate, 1000 * a.range))
  }

  /** What an aggregate does on all inputs, except that it may or may not notice rows out of order. */
  ghost predicate Promised(a: Arguments, rows: seq<Row>, isCounter: bool, isRate: bool, r: Outcome) {
    var samples, inBounds := Samples(rows), forall row | row in rows :: a.lowest <= row.time <= a.greatest;
    && (rows == [] ==> r == Success(None))
    && (!inBounds ==> r.Failure?)
    && (inBounds ==> r != Failure(OutOfBounds))
    && (Ascending(samples) ==> r != Failure(NotAscending))
    && (rows != [] && inBounds && a.step == 0 ==> r == Failure(DivisionByZero))
    && (rows != [] && inBounds && a.Overflows() ==> r == Failure(CapacityOverflow))
    && (rows != [] && inBounds && Ascending(samples) && a.step < 0 && !a.Overflows() ==> r == Success(Some([])))
    && (rows != [] && inBounds && Ascending(samples) && a.step > 0 ==>
          r.Success? && r.value.Some? && ValueOfEachWindow(a, samples, isCounter, isRate, r.value.value))
  }

  lemma Thousandfold(k: int, step: int)
    ensures k * (step * 1000) == 1000 * (k * step)
  {
  }

  lemma WindowsInMilliseconds(a: Arguments, isCounter: bool, isRate: bool, k: nat)
    ensures var q := a.Query(isCounter, isRate); q.Lo(k) == a.Begin(k) && q.Hi(k) == a.Begin(k) + 1000 * a.range
  {
    WindowBounds(a.Query(isCounter, isRate), k);
    Thousandfold(k, a.step);
  }

  lemma NaiveHasEachWindow(a: Arguments, samples: seq<Sample>, isCounter: bool, isRate: bool)
    requires a.step > 0
    ensures ValueOfEachWindow(a, samples, isCounter, isRate, Naive(a.Query(isCounter, isRate), samples))
  {
    var q := a.Query(isCounter, isRate);
    forall k: nat ensures k < |Naive(q, samples)| <==> a.Begin(k) + 1000 * a.range <= a.greatest {
      WindowsInMilliseconds(a, isCounter, isRate, k);
      NumWindowsExact(q, k);
    }
    forall k: nat | k < |Naive(q, samples)|
      ensures var lo, hi := a.Begin(k), a.Begin(k) + 1000 * a.range;
              Naive(q, samples)[k]
              == Delta(InWindow(samples, lo, hi), lo, hi, Kind.Kind(isCounter, isRate, 1000 * a.range)) {
      WindowsInMilliseconds(a, isCounter, isRate, k);
    }
  }

  /** What the three have in common: they differ in the two flags alone. */
  method Extrapolate(a: Arguments, rows: seq<Row>, isCounter: bool, isRate: bool) returns (r: Outcome)
    requires a.Ends()
    ensures Promised(a, rows, isCounter, isRate, r)
  {
    var q := a.Query(isCounter, isRate);
    if a.lowest <= a.greatest {
      StartErrorExactly(q);
    }
    WindowsInMilliseconds(a, isCounter, isRate, 0);
    r := GapfillDelta.Aggregate(q, rows);
    assert rows != [] ==> rows[0] in rows;
    if a.step > 0 {
      NaiveHasEachWindow(a, Samples(rows), isCounter, isRate);
    }
  }

  method PromDelta(a: Arguments, rows: seq<Row>) returns (r: Outcome)
    requires a.Ends()
    ensures Promised(a, rows, false, false, r)
  {
    r := Extrapolate(a, rows, false, false);
  }

  method PromIncrease(a: Arguments, rows: seq<Row>) returns (r: Outcome)
    requires a.Ends()
    ensures Promised(a, rows, true, false, r)
  {
    r := Extrapolate(a, rows, true, false);
  }

  method PromRate(a: Arguments, rows: seq<Row>) returns (r: Outcome)
    requires a.Ends()
    ensures Promised(a, rows, true, true, r)
  {
    r := Extrapolate(a, rows, true, true);
  }
}
