/** Maintenance workers: any number of sessions run `execute_data_retention_policy` or
    `execute_compression_policy` at once, and exclude each other metric by metric with session-level
    advisory locks. Both procedures make two passes: the first only tries each lock and defers the
    metrics it does not get, the second waits for them. */
module MaintenanceLocks {
  import opened Wrappers

  type Metric = int

  /** Where a worker is: `todo` is what its current loop has still to visit. */
  datatype Worker = Worker(
    todo: seq<Metric>,
    remaining: seq<Metric>,
    secondPass: bool,
    working: Option<Metric>,
    processed: seq<Metric>)
  {
    predicate Done() { secondPass && todo == [] && working == None }

    /** An upper bound on the steps the worker still takes. */
    function Work(): nat {
      (if secondPass then 2 * |todo| else 3 * |todo| + 2 * |remaining| + 1) + (if working.Some? then 1 else 0)
    }

    /** Everything the worker has listed, by where it is now. */
    function Listed(): multiset<Metric> {
      multiset(processed) + (if working.Some? then multiset{working.value} else multiset{})
      + multiset(todo) + multiset(remaining)
    }
  }

  /** The advisory locks by metric, with the worker that holds each, and all workers. */
  datatype System = System(locks: map<Metric, nat>, workers: seq<Worker>)

  function Begin(listed: seq<Metric>): Worker {
    Worker(listed, [], false, None, [])
  }

  function Init(lists: seq<seq<Metric>>): System {
    System(map[], seq(|lists|, w requires 0 <= w < |lists| => Begin(lists[w])))
  }

  /** The next step of a worker: finish a metric, try or wait for the next lock, or go on to the
      second pass. `free` says whether the lock of `todo[0]` is; `None` is to wait or to be done. */
  function Move(k: Worker, free: bool): Option<Worker> {
    if k.working.Some? then
      Some(k.(working := None, processed := k.processed + [k.working.value]))
    else if k.todo == [] then
      if k.secondPass then None else Some(k.(secondPass := true, todo := k.remaining, remaining := []))
    else if free then
      Some(k.(todo := k.todo[1..], working := Some(k.todo[0])))
    else if !k.secondPass then
      Some(k.(todo := k.todo[1..], remaining := k.remaining + [k.todo[0]]))
    else None
  }

  /** A worker's lock comes and goes with the metric it is working on. */
  function Relock(locks: map<Metric, nat>, w: nat, before: Option<Metric>, after: Option<Metric>): map<Metric, nat> {
    if before.Some? then locks - {before.value}
    else if after.Some? then locks[after.value := w]
    else locks
  }

  function Step(s: System, w: nat): Option<System>
    requires w < |s.workers|
  {
    var k := s.workers[w];
    match Move(k, k.todo != [] && k.todo[0] !in s.locks)
    case None => None
    case Some(k') => Some(System(Relock(s.locks, w, k.working, k'.working), s.workers[w := k']))
  }

  predicate Waiting(s: System, w: nat)
    requires w < |s.workers|
  {
    !s.workers[w].Done() && Step(s, w).None?
  }

  /** The system after a schedule; scheduling a worker that cannot move does nothing. */
  function Run(s: System, schedule: seq<nat>): (r: System)
    requires forall i | 0 <= i < |schedule| :: schedule[i] < |s.workers|
    ensures |r.workers| == |s.workers|
    decreases |schedule|
  {
    if schedule == [] then s
    else
      var before := Run(s, schedule[..|schedule| - 1]);
      var after := Step(before, schedule[|schedule| - 1]);
      if after.Some? then after.value else before
  }

  // ---------- the invariant ----------

  /** A lock is held exactly by the worker that is processing its metric. */
  ghost predicate Inv(s: System) {
    && (forall m | m in s.locks :: s.locks[m] < |s.workers| && s.workers[s.locks[m]].working == Some(m))
    && (forall w | 0 <= w < |s.workers| && s.workers[w].working.Some? ::
          s.workers[w].working.value in s.locks && s.locks[s.workers[w].working.value] == w)
    && (forall w | 0 <= w < |s.workers| && s.workers[w].secondPass :: s.workers[w].remaining == [])
  }

  lemma MoveKeepsListed(k: Worker, free: bool)
    requires Move(k, free).Some?
    ensures Move(k, free).value.Listed() == k.Listed()
  {
    if k.working.Some? {
      assert multiset(k.processed + [k.working.value]) == multiset(k.processed) + multiset{k.working.value};
    } else if k.todo != [] {
      var m, rest := k.todo[0], k.todo[1..];
      assert k.todo == [m] + rest;
      assert multiset(k.todo) == multiset{m} + multiset(rest);
      assert multiset(k.remaining + [m]) == multiset(k.remaining) + multiset{m};
    }
  }

  lemma MoveWorks(k: Worker, free: bool)
    requires Move(k, free).Some?
    ensures Move(k, free).value.Work() < k.Work()
  {
  }

  lemma StepKeeps(s: System, w: nat)
    requires Inv(s) && w < |s.workers| && Step(s, w).Some?
    ensures var s' := Step(s, w).value;
            && |s'.workers| == |s.workers|
            && (forall v | 0 <= v < |s.workers| && v != w :: s'.workers[v] == s.workers[v])
            && s'.workers[w].Listed() == s.workers[w].Listed() && s'.workers[w].Work() < s.workers[w].Work()
    ensures Inv(Step(s, w).value)
  {
    var k := s.workers[w];
    var free := k.todo != [] && k.todo[0] !in s.locks;
    MoveKeepsListed(k, free);
    MoveWorks(k, free);
    var k', s' := Move(k, free).value, Step(s, w).value;
    LocksFollow(s, w, k');
  }

  lemma LocksFollow(s: System, w: nat, k': Worker)
    requires Inv(s) && w < |s.workers|
    requires var k := s.workers[w];
             && (k.working.Some? ==> k'.working == None)
             && (k.working == None && k'.working.Some? ==> k'.working.value !in s.locks)
             && (k'.secondPass ==> k'.remaining == [])
    ensures Inv(System(Relock(s.locks, w, s.workers[w].working, k'.working), s.workers[w := k']))
  {
    var before, after := s.workers[w].working, k'.working;
    var locks, workers := Relock(s.locks, w, before, after), s.workers[w := k'];
    forall m | m in locks ensures locks[m] < |workers| && workers[locks[m]].working == Some(m) {
      assert m in s.locks || after == Some(m);
    }
    forall v | 0 <= v < |workers| && workers[v].working.Some?
      ensures workers[v].working.value in locks && locks[workers[v].working.value] == v
    {
      if v != w {
        assert workers[v] == s.workers[v];
      }
    }
  }

  ghost predicate ListsKept(s: System, lists: seq<seq<Metric>>) {
    |s.workers| == |lists| && forall w | 0 <= w < |lists| :: s.workers[w].Listed() == multiset(lists[w])
  }

  lemma {:induction false} RunInv(lists: seq<seq<Metric>>, schedule: seq<nat>)
    requires forall i | 0 <= i < |schedule| :: schedule[i] < |lists|
    ensures Inv(Run(Init(lists), schedule)) && ListsKept(Run(Init(lists), schedule), lists)
    decreases |schedule|
  {
    if schedule == [] {
      assert forall w | 0 <= w < |lists| :: Begin(lists[w]).Listed() == multiset(lists[w]);
    } else {
      var prefix, w := schedule[..|schedule| - 1], schedule[|schedule| - 1];
      RunInv(lists, prefix);
      if Step(Run(Init(lists), prefix), w).Some? {
        StepKeeps(Run(Init(lists), prefix), w);
      }
    }
  }

  // ---------- mutual exclusion, waiting, and exactly-once ----------

  /** In every state of every run: no two workers process the same metric, a worker that waits holds
      no lock, and a worker that is done has processed exactly the metrics it listed. */
  lemma WorkersExclude(lists: seq<seq<Metric>>, schedule: seq<nat>)
    requires forall i | 0 <= i < |schedule| :: schedule[i] < |lists|
    ensures var s := Run(Init(lists), schedule);
            && (forall v, w | 0 <= v < |lists| && 0 <= w < |lists| && s.workers[v].working.Some?
                  && s.workers[v].working == s.workers[w].working :: v == w)
            && (forall w | 0 <= w < |lists| && Waiting(s, w) :: forall m | m in s.locks :: s.locks[m] != w)
            && (forall w | 0 <= w < |lists| && s.workers[w].Done() ::
                  multiset(s.workers[w].processed) == multiset(lists[w]))
            && ((forall w | 0 <= w < |lists| :: s.workers[w].Done()) ==> s.locks == map[])
  {
    RunInv(lists, schedule);
    var s := Run(Init(lists), schedule);
    if forall w | 0 <= w < |lists| :: s.workers[w].Done() {
      assert forall m :: m !in s.locks;
    }
  }

  // ---------- no deadlock ----------

  /** Unless everybody is done, somebody can move: who holds a lock never waits. */
  lemma SomebodyMoves(s: System) returns (w: nat)
    requires Inv(s) && exists w | 0 <= w < |s.workers| :: !s.workers[w].Done()
    ensures w < |s.workers| && Step(s, w).Some?
  {
    w :| 0 <= w < |s.workers| && !s.workers[w].Done();
    if Waiting(s, w) {
      var m := s.workers[w].todo[0];
      assert m in s.locks;
      w := s.locks[m];
      assert s.workers[w].working == Some(m);
    }
  }

  // ---------- termination ----------

  function TotalWork(workers: seq<Worker>): nat {
    if workers == [] then 0 else TotalWork(workers[..|workers| - 1]) + workers[|workers| - 1].Work()
  }

  lemma {:induction false} TotalWorkUpdate(workers: seq<Worker>, w: nat, k: Worker)
    requires w < |workers|
    ensures TotalWork(workers[w := k]) == TotalWork(workers) - workers[w].Work() + k.Work()
  {
    var n := |workers|;
    if w == n - 1 {
      assert workers[w := k][..n - 1] == workers[..n - 1];
    } else {
      assert workers[w := k][..n - 1] == workers[..n - 1][w := k];
      TotalWorkUpdate(workers[..n - 1], w, k);
    }
  }

  lemma StepWorks(s: System, w: nat)
    requires Inv(s) && w < |s.workers| && Step(s, w).Some?
    ensures TotalWork(Step(s, w).value.workers) < TotalWork(s.workers)
  {
    StepKeeps(s, w);
    var k := Step(s, w).value.workers[w];
    assert Step(s, w).value.workers == s.workers[w := k];
    TotalWorkUpdate(s.workers, w, k);
  }

  /** The moves in a schedule that are not idle. */
  function Moves(s: System, schedule: seq<nat>): nat
    requires forall i | 0 <= i < |schedule| :: schedule[i] < |s.workers|
    decreases |schedule|
  {
    if schedule == [] then 0
    else
      var prefix := schedule[..|schedule| - 1];
      Moves(s, prefix) + (if Step(Run(s, prefix), schedule[|schedule| - 1]).Some? then 1 else 0)
  }

  /** No schedule makes more moves than the work at its start: every run comes to rest. */
  lemma {:induction false} MovesBounded(lists: seq<seq<Metric>>, schedule: seq<nat>)
    requires forall i | 0 <= i < |schedule| :: schedule[i] < |lists|
    ensures Moves(Init(lists), schedule) + TotalWork(Run(Init(lists), schedule).workers)
         <= TotalWork(Init(lists).workers)
    decreases |schedule|
  {
    if schedule != [] {
      var prefix, w := schedule[..|schedule| - 1], schedule[|schedule| - 1];
      MovesBounded(lists, prefix);
      RunInv(lists, prefix);
      if Step(Run(Init(lists), prefix), w).Some? {
        StepWorks(Run(Init(lists), prefix), w);
      }
    }
  }

  lemma {:induction false} RunAppend(s: System, a: seq<nat>, b: seq<nat>)
    requires forall i | 0 <= i < |a| :: a[i] < |s.workers|
    requires forall i | 0 <= i < |b| :: b[i] < |s.workers|
    ensures Run(s, a + b) == Run(Run(s, a), b)
    decreases |b|
  {
    if b == [] {
      assert a + b == a;
    } else {
      assert (a + b)[..|a + b| - 1] == a + b[..|b| - 1];
      RunAppend(s, a, b[..|b| - 1]);
    }
  }

  ghost predicate AllDone(s: System) {
    forall w | 0 <= w < |s.workers| :: s.workers[w].Done()
  }

  lemma {:induction false} Finish(s: System) returns (rest: seq<nat>)
    requires Inv(s)
    ensures forall i | 0 <= i < |rest| :: rest[i] < |s.workers|
    ensures AllDone(Run(s, rest))
    decreases TotalWork(s.workers)
  {
    if AllDone(s) {
      return [];
    }
    var w := SomebodyMoves(s);
    StepKeeps(s, w);
    StepWorks(s, w);
    assert [w][..0] == [] && Run(s, [w]) == Step(s, w).value;
    var more := Finish(Step(s, w).value);
    RunAppend(s, [w], more);
    rest := [w] + more;
  }

  /** From every reachable state the workers can all finish. */
  lemma CanFinish(lists: seq<seq<Metric>>, schedule: seq<nat>) returns (rest: seq<nat>)
    requires forall i | 0 <= i < |schedule| :: schedule[i] < |lists|
    ensures forall i | 0 <= i < |rest| :: rest[i] < |lists|
    ensures AllDone(Run(Init(lists), schedule + rest))
  {
    RunInv(lists, schedule);
    rest := Finish(Run(Init(lists), schedule));
    RunAppend(Init(lists), schedule, rest);
  }

  // ---------- the procedure of one session ----------

  /** The metrics that were, or were not, free when they were tried. */
  function Chosen(tries: seq<(Metric, bool)>, free: bool): seq<Metric> {
    if tries == [] then []
    else
      var last := tries[|tries| - 1];
      Chosen(tries[..|tries| - 1], free) + (if last.1 == free then [last.0] else [])
  }

  predicate TriedAre(tries: seq<(Metric, bool)>, listed: seq<Metric>) {
    |tries| == |listed| && forall i | 0 <= i < |listed| :: tries[i].0 == listed[i]
  }

  lemma ChosenNext(tries: seq<(Metric, bool)>, m: Metric, ok: bool)
    ensures Chosen(tries + [(m, ok)], ok) == Chosen(tries, ok) + [m]
    ensures Chosen(tries + [(m, ok)], !ok) == Chosen(tries, !ok)
  {
    assert (tries + [(m, ok)])[..|tries|] == tries;
  }

  lemma TriedNext(tries: seq<(Metric, bool)>, listed: seq<Metric>, i: nat, ok: bool)
    requires i < |listed| && TriedAre(tries, listed[..i])
    ensures TriedAre(tries + [(listed[i], ok)], listed[..i + 1])
  {
  }

  /** The advisory locks as one session sees them, with a record of what the session has done: the
      metrics it has tried and whether they were free, and those it has worked on, with the locks then. */
  class LockTable {
    const me: nat
    var holder: map<Metric, nat>
    ghost var tries: seq<(Metric, bool)>
    ghost var worked: seq<Metric>
    ghost var workedUnder: seq<map<Metric, nat>>

    /** All work was done under the metric's lock. */
    ghost predicate Valid()
      reads this
    {
      |workedUnder| == |worked| && forall i | 0 <= i < |worked| :: (worked[i], me) in workedUnder[i].Items
    }

    ghost predicate Holds(m: Metric)
      reads this
    {
      m in holder && holder[m] == me
    }

    ghost predicate HoldsNothing()
      reads this
    {
      forall m :: !Holds(m)
    }

    /** Between two statements the other sessions may take and release locks of their own. */
    method OtherSessions()
      modifies this`holder
      ensures forall m :: Holds(m) == old(Holds(m))
    {
    }

    /** `pg_advisory_lock` waits until the session that holds the lock has released it. */
    method AwaitRelease(m: Metric)
      requires !Holds(m)
      modifies this`holder
      ensures holder == old(holder) - {m}
    {
      holder := holder - {m};
    }

    /** A lock is only ever granted when nobody holds it. */
    method Grant(m: Metric)
      requires m !in holder
      modifies this`holder
      ensures holder == old(holder)[m := me]
    {
      holder := holder[m := me];
    }

    /** `lock_metric_for_maintenance` */
    method LockMetric(m: Metric, wait: bool) returns (res: bool)
      requires HoldsNothing()
      modifies this`holder, this`tries
      ensures res == (wait || m !in old(holder))
      ensures holder - {m} == old(holder) - {m} && (!res ==> holder == old(holder))
      ensures forall n :: Holds(n) <==> res && n == m
      ensures tries == if wait then old(tries) else old(tries) + [(m, m !in old(holder))]
    {
      forall n | n in holder ensures holder[n] != me {
        assert !Holds(n);
      }
      if wait {
        AwaitRelease(m);
      } else {
        tries := tries + [(m, m !in holder)];
      }
      res := m !in holder;
      if res {
        Grant(m);
      }
    }

    /** `drop_metric_chunks`, or the compression of a metric's chunks: other sessions go on meanwhile, and
        the lock is held from the beginning to the end. */
    method Work(m: Metric)
      requires Valid() && Holds(m)
      modifies this`holder, this`worked, this`workedUnder
      ensures Valid() && worked == old(worked) + [m]
      ensures forall n :: Holds(n) == old(Holds(n))
    {
      OtherSessions();
      assert Holds(m);
      worked, workedUnder := worked + [m], workedUnder + [holder];
    }

    method UnlockMetric(m: Metric)
      requires Holds(m)
      modifies this`holder
      ensures holder == old(holder) - {m}
      ensures forall n :: Holds(n) <==> old(Holds(n)) && n != m
    {
      holder := holder - {m};
    }
  }

  /** One round of the first loop: try the lock, and work on the metric if it was free. */
  method TryMetric(locks: LockTable, m: Metric) returns (ok: bool)
    requires locks.Valid() && locks.HoldsNothing()
    modifies locks
    ensures locks.Valid() && locks.HoldsNothing()
    ensures locks.tries == old(locks.tries) + [(m, ok)]
    ensures locks.worked == if ok then old(locks.worked) + [m] else old(locks.worked)
  {
    locks.OtherSessions();
    ok := locks.LockMetric(m, false);
    if ok {
      locks.Work(m);
      locks.UnlockMetric(m);
    }
  }

  /** One round of the second loop: wait for the lock, and work on the metric. */
  method AwaitMetric(locks: LockTable, m: Metric)
    requires locks.Valid() && locks.HoldsNothing()
    modifies locks
    ensures locks.Valid() && locks.HoldsNothing()
    ensures locks.tries == old(locks.tries) && locks.worked == old(locks.worked) + [m]
  {
    locks.OtherSessions();
    var ok := locks.LockMetric(m, true);
    locks.Work(m);
    locks.UnlockMetric(m);
  }

  method FirstPass(locks: LockTable, listed: seq<Metric>)
      returns (remaining: seq<Metric>, ghost tries: seq<(Metric, bool)>)
    requires locks.Valid() && locks.HoldsNothing()
    modifies locks
    ensures locks.Valid() && locks.HoldsNothing()
    ensures locks.tries == old(locks.tries) + tries && TriedAre(tries, listed)
    ensures locks.worked == old(locks.worked) + Chosen(tries, true) && remaining == Chosen(tries, false)
  {
    remaining, tries := [], [];
    for i := 0 to |listed|
      invariant locks.Valid() && locks.HoldsNothing()
      invariant locks.tries == old(locks.tries) + tries && TriedAre(tries, listed[..i])
      invariant locks.worked == old(locks.worked) + Chosen(tries, true) && remaining == Chosen(tries, false)
    {
      var ok := TryMetric(locks, listed[i]);
      ChosenNext(tries, listed[i], ok);
      TriedNext(tries, listed, i, ok);
      tries := tries + [(listed[i], ok)];
      if !ok {
        remaining := remaining + [listed[i]];
      }
    }
    assert listed[..|listed|] == listed;
  }

  method SecondPass(locks: LockTable, remaining: seq<Metric>)
    requires locks.Valid() && locks.HoldsNothing()
    modifies locks
    ensures locks.Valid() && locks.HoldsNothing()
    ensures locks.tries == old(locks.tries) && locks.worked == old(locks.worked) + remaining
  {
    for i := 0 to |remaining|
      invariant locks.Valid() && locks.HoldsNothing()
      invariant locks.tries == old(locks.tries) && locks.worked == old(locks.worked) + remaining[..i]
    {
      AwaitMetric(locks, remaining[i]);
      assert remaining[..i + 1] == remaining[..i] + [remaining[i]];
    }
    assert remaining[..|remaining|] == remaining;
  }

  /** The two loops of `execute_data_retention_policy`. Every listed metric is tried once, in order; those
      that were free when they were tried are worked on first, in order, then the others. */
  method ExecutePolicy(locks: LockTable, listed: seq<Metric>) returns (ghost tries: seq<(Metric, bool)>)
    requires locks.Valid() && locks.HoldsNothing()
    modifies locks
    ensures locks.Valid() && locks.HoldsNothing()
    ensures locks.tries == old(locks.tries) + tries && TriedAre(tries, listed)
    ensures locks.worked == old(locks.worked) + Chosen(tries, true) + Chosen(tries, false)
  {
    var remaining;
    remaining, tries := FirstPass(locks, listed);
    SecondPass(locks, remaining);
  }

  // ---------- a session is a worker of the system ----------

  /** A worker after a number of moves, each with what it found at the next lock. */
  function Moved(k: Worker, found: seq<bool>): Option<Worker> {
    if found == [] then Some(k)
    else match Moved(k, found[..|found| - 1])
      case None => None
      case Some(k') => Move(k', found[|found| - 1])
  }

  lemma MovedNext(k: Worker, found: seq<bool>, free: bool)
    requires Moved(k, found).Some?
    ensures Moved(k, found + [free]) == Move(Moved(k, found).value, free)
  {
    assert (found + [free])[..|found|] == found;
  }

  /** What the moves of the first pass find: each lock as it was tried, and one more move for the work. */
  function FoundFirst(tries: seq<(Metric, bool)>): seq<bool> {
    if tries == [] then []
    else FoundFirst(tries[..|tries| - 1]) + (if tries[|tries| - 1].1 then [true] + [true] else [false])
  }

  lemma {:induction false} FirstMoves(tries: seq<(Metric, bool)>, listed: seq<Metric>, n: nat)
    requires TriedAre(tries, listed) && n <= |tries|
    ensures Moved(Begin(listed), FoundFirst(tries[..n]))
         == Some(Worker(listed[n..], Chosen(tries[..n], false), false, None, Chosen(tries[..n], true)))
  {
    if n > 0 {
      FirstMoves(tries, listed, n - 1);
      var before, ok := tries[..n - 1], tries[n - 1].1;
      assert tries[..n] == before + [tries[n - 1]] && tries[..n][..n - 1] == before;
      ChosenNext(before, listed[n - 1], ok);
      MovedNext(Begin(listed), FoundFirst(before), ok);
      assert listed[n - 1..][1..] == listed[n..];
      if ok {
        MovedNext(Begin(listed), FoundFirst(before) + [true], true);
        assert FoundFirst(tries[..n]) == FoundFirst(before) + [true] + [true];
      }
    }
  }

  lemma {:induction false} SecondMoves(k: Worker, found: seq<bool>, rest: seq<Metric>, processed: seq<Metric>)
      returns (more: seq<bool>)
    requires Moved(k, found) == Some(Worker(rest, [], true, None, processed))
    ensures Moved(k, more) == Some(Worker([], [], true, None, processed + rest))
    decreases |rest|
  {
    if rest == [] {
      more := found;
      assert processed + rest == processed;
    } else {
      MovedNext(k, found, true);
      MovedNext(k, found + [true], true);
      more := SecondMoves(k, found + [true] + [true], rest[1..], processed + [rest[0]]);
      assert processed + [rest[0]] + rest[1..] == processed + rest;
    }
  }

  lemma {:induction false} MovedKeepsListed(k: Worker, found: seq<bool>)
    requires Moved(k, found).Some?
    ensures Moved(k, found).value.Listed() == k.Listed()
  {
    if found != [] {
      MovedKeepsListed(k, found[..|found| - 1]);
      MoveKeepsListed(Moved(k, found[..|found| - 1]).value, found[|found| - 1]);
    }
  }

  /** Whatever a session finds when it tries its metrics, what it then does are moves of a worker of the
      system, from its beginning to its end; so each listed metric is worked on as often as it is listed. */
  lemma SessionIsWorker(listed: seq<Metric>, tries: seq<(Metric, bool)>) returns (found: seq<bool>)
    requires TriedAre(tries, listed)
    ensures var processed := Chosen(tries, true) + Chosen(tries, false);
            && Moved(Begin(listed), found) == Some(Worker([], [], true, None, processed))
            && multiset(processed) == multiset(listed)
  {
    var first, rest := Chosen(tries, true), Chosen(tries, false);
    assert tries[..|tries|] == tries && listed[|tries|..] == [];
    FirstMoves(tries, listed, |tries|);
    MovedNext(Begin(listed), FoundFirst(tries), true);
    found := SecondMoves(Begin(listed), FoundFirst(tries) + [true], rest, first);
    MovedKeepsListed(Begin(listed), found);
    assert Begin(listed).Listed() == multiset(listed);
    assert Worker([], [], true, None, first + rest).Listed() == multiset(first + rest);
  }
}
