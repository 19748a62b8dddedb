/** What holds over whole runs of the garbage collection: data rows keep their series, series keep their
    labels, and the epoch moves slowly. Where the code does not promise it, exactly when it holds. */
module RetentionSafety {
  import opened Wrappers
  import opened LabelArrays
  import opened SeriesCatalog
  import opened Retention

  // ---------- no dangling data ----------

  ghost predicate SeriesThere(db: Db, id: SeriesId, st: Table) {
    id in db.series && db.series[id].table == st
  }

  /** All data rows of the tables that share series table `st` refer to a row of it. */
  ghost predicate NoDangling(db: Db, st: Table) {
    forall r | r in db.data && r.table in db.metrics && db.metrics[r.table] == st :: SeriesThere(db, r.series, st)
  }

  /** A table other than the one the run rechecks has data of a series about to be deleted. */
  ghost predicate SharedUse(db: Db, t: Table, st: Table, present: int) {
    exists r | r in db.data ::
      r.table != t && r.table in db.metrics && db.metrics[r.table] == st && Doomed(db, t, st, present, r.series)
  }

  /** A view has a row whose series is gone. */
  ghost predicate StaleView(db: Db, view: Table, st: Table) {
    exists r | r in db.data :: r.table == view && !SeriesThere(db, r.series, st)
  }

  ghost predicate Deletes(s: State, e: Event, st: Table) {
    e.RunNext? && Enabled(s, e) && s.jobs[e.job].pc == DeleteExpiredSeries && s.jobs[e.job].seriesTable == st
  }

  /** A deletion takes a series that another registered table has data for, a view is registered with
      rows whose series are gone, or a registered view is refreshed with such a row. */
  ghost predicate UnsafeStep(s: State, e: Event, st: Table) {
    Enabled(s, e) && match e
      case RunNext(job, _, _, _) => Deletes(s, e, st) && SharedUse(s.db, s.jobs[job].table, st, s.jobs[job].present)
      case RegisterView(view, table) => table == st && StaleView(s.db, view, st)
      case Materialize(view, _, id, _) => view in s.db.metrics && s.db.metrics[view] == st && !SeriesThere(s.db, id, st)
      case _ => false
  }

  /** Rows of the series table survive under their id; deletion is the only step that takes any. */
  lemma SeriesStay(d: int, s: State, e: Event, st: Table)
    requires Inv(s) && !Deletes(s, e, st)
    ensures forall id | id in s.db.series && s.db.series[id].table == st ::
              id in Next(d, s, e).db.series && Next(d, s, e).db.series[id].table == st
  {
    if e.Obtain? && Enabled(s, e) {
      GetOrCreateCorrect(s.db, e.table, e.ls);
    }
  }

  lemma DeleteStep(d: int, s: State, e: Event, st: Table)
    requires Inv(s) && NoDangling(s.db, st) && Deletes(s, e, st)
    ensures NoDangling(Next(d, s, e).db, st) <==> !UnsafeStep(s, e, st)
  {
    var db, job, db' := s.db, s.jobs[e.job], Next(d, s, e).db;
    assert JobOk(db, job);
    assert forall r | r in db.data && r.table in db.metrics && db.metrics[r.table] == st ::
      SeriesThere(db', r.series, st) <==> !Doomed(db, job.table, st, job.present, r.series);
  }

  /** A new metric starts without data; other metrics, their series and their data stay. */
  lemma ObtainStep(d: int, s: State, e: Event, st: Table)
    requires Inv(s) && NoDangling(s.db, st) && e.Obtain? && Enabled(s, e)
    ensures NoDangling(Next(d, s, e).db, st)
  {
    ObtainAdvances(s.db, e.table, e.ls);
    SeriesStay(d, s, e, st);
    assert Next(d, s, e).db.data == s.db.data;
  }

  lemma InsertStep(d: int, s: State, e: Event, st: Table)
    requires Inv(s) && NoDangling(s.db, st) && e.Insert? && Enabled(s, e)
    ensures NoDangling(Next(d, s, e).db, st)
  {
    assert HeldOk(s.db, e.held);
  }

  lemma ViewStep(d: int, s: State, e: Event, st: Table)
    requires NoDangling(s.db, st) && (e.RegisterView? || e.Materialize?) && Enabled(s, e)
    ensures NoDangling(Next(d, s, e).db, st) <==> !UnsafeStep(s, e, st)
  {
    var db' := Next(d, s, e).db;
    if e.Materialize? {
      assert Row(e.view, e.time, e.series) in db'.data;
    }
  }

  /** A step leaves data without series exactly when it is unsafe. */
  lemma StepDangles(d: int, s: State, e: Event, st: Table)
    requires Inv(s) && NoDangling(s.db, st)
    ensures NoDangling(Next(d, s, e).db, st) <==> !UnsafeStep(s, e, st)
  {
    if Deletes(s, e, st) {
      DeleteStep(d, s, e, st);
    } else if Enabled(s, e) {
      match e
      case Obtain(_, _, _) => ObtainStep(d, s, e, st);
      case Insert(_, _) => InsertStep(d, s, e, st);
      case RegisterView(_, _) => ViewStep(d, s, e, st);
      case Materialize(_, _, _, _) => ViewStep(d, s, e, st);
      case _ => SeriesStay(d, s, e, st);
    }
  }

  lemma DanglesAt(d: int, events: seq<Event>, k: nat, st: Table)
    requires k < |events| && NoDangling(After(d, events, k).db, st)
    ensures NoDangling(After(d, events, k + 1).db, st) <==> !UnsafeStep(After(d, events, k), events[k], st)
  {
    Reachable(d, events, k);
    StepDangles(d, After(d, events, k), events[k], st);
  }

  /** `NoDangling` in the first `n` steps' states, the first and the last included. */
  ghost predicate NeverDangles(d: int, events: seq<Event>, n: nat, st: Table)
    requires n <= |events|
  {
    NoDangling(After(d, events, n).db, st) && (n > 0 ==> NeverDangles(d, events, n - 1, st))
  }

  ghost predicate NeverUnsafe(d: int, events: seq<Event>, n: nat, st: Table)
    requires n <= |events|
  {
    n > 0 ==> !UnsafeStep(After(d, events, n - 1), events[n - 1], st) && NeverUnsafe(d, events, n - 1, st)
  }

  /** In every run, the data of all tables on a series table keep their series throughout exactly when
      no step is unsafe. */
  lemma {:induction false} DanglesExactlyWhen(d: int, events: seq<Event>, n: nat, st: Table)
    requires n <= |events|
    ensures NeverDangles(d, events, n, st) <==> NeverUnsafe(d, events, n, st)
  {
    if n > 0 {
      DanglesExactlyWhen(d, events, n - 1, st);
      if NeverDangles(d, events, n - 1, st) {
        DanglesAt(d, events, n - 1, st);
      }
    }
  }

  ghost predicate Unshared(db: Db, st: Table) {
    forall u | u in db.metrics && db.metrics[u] == st :: u == st
  }

  lemma UnsharedStep(d: int, s: State, e: Event, st: Table)
    requires Inv(s) && Unshared(s.db, st) && (e.RegisterView? ==> e.table != st)
    ensures Unshared(Next(d, s, e).db, st)
  {
  }

  lemma {:induction false} StaysUnshared(d: int, events: seq<Event>, n: nat, st: Table)
    requires n <= |events| && forall k: nat | k < n && events[k].RegisterView? :: events[k].table != st
    ensures Unshared(After(d, events, n).db, st)
  {
    if n > 0 {
      StaysUnshared(d, events, n - 1, st);
      Reachable(d, events, n - 1);
      UnsharedStep(d, After(d, events, n - 1), events[n - 1], st);
    }
  }

  /** A metric that no view is registered on never has data without a series. */
  lemma {:induction false} UnsharedNeverDangles(d: int, events: seq<Event>, n: nat, st: Table)
    requires n <= |events| && forall k: nat | k < n && events[k].RegisterView? :: events[k].table != st
    ensures NoDangling(After(d, events, n).db, st)
  {
    if n > 0 {
      UnsharedNeverDangles(d, events, n - 1, st);
      Reachable(d, events, n - 1);
      StaysUnshared(d, events, n - 1, st);
      var s, e := After(d, events, n - 1), events[n - 1];
      StepDangles(d, s, e, st);
      if Deletes(s, e, st) {
        assert JobOk(s.db, s.jobs[e.job]);
      }
    }
  }

  // ---------- what a run frees ----------

  /** When a run's marking is followed at once by its dropping, and that drops all older rows, no table on
      the series table has data left for a series that was marked: later deletions only meet new data. */
  lemma UndisturbedRunFreesSeries(d: int, events: seq<Event>, k: nat, id: SeriesId)
    requires k + 2 <= |events| && events[k].RunNext? && events[k + 1].RunNext? && events[k + 1].job == events[k].job
    requires Enabled(After(d, events, k), events[k]) && Enabled(After(d, events, k + 1), events[k + 1])
    requires After(d, events, k).db.data <= events[k + 1].rows
    requires var s := After(d, events, k);
             && s.jobs[events[k].job].pc == MarkUnused && id in s.db.series && s.db.series[id].deleteEpoch == None
             && After(d, events, k + 1).db.series[id].deleteEpoch.Some?
    ensures var db, st := After(d, events, k + 2).db, After(d, events, k).jobs[events[k].job].seriesTable;
            forall u | u in db.metrics && db.metrics[u] == st :: !db.HasData(u, id)
  {
    Reachable(d, events, k);
    var s := After(d, events, k);
    assert JobOk(s.db, s.jobs[events[k].job]);
    FreesSeries(d, s, events[k], events[k + 1], id);
  }

  lemma FreesSeries(d: int, s: State, e: Event, e': Event, id: SeriesId)
    requires e.RunNext? && e'.RunNext? && e'.job == e.job && Enabled(s, e) && Enabled(Next(d, s, e), e')
    requires JobOk(s.db, s.jobs[e.job]) && s.jobs[e.job].pc == MarkUnused && s.db.data <= e'.rows
    requires id in s.db.series && s.db.series[id].deleteEpoch == None && Next(d, s, e).db.series[id].deleteEpoch.Some?
    ensures var db := Next(d, Next(d, s, e), e').db;
            forall u | u in db.metrics && db.metrics[u] == s.jobs[e.job].seriesTable :: !db.HasData(u, id)
  {
    var job := s.jobs[e.job];
    MarkedLosesItsData(s.db, job.table, job.seriesTable, job.olderThan.value, e'.rows, id);
  }

  // ---------- what a deletion brings back ----------

  /** A marked row that a deletion finds in use is unmarked by it, and is then still there, with the same
      labels, in every later state of the run less than five epochs on. */
  lemma ResurrectedRowsWait(d: int, events: seq<Event>, k: nat, n: nat, id: SeriesId)
    requires k < n <= |events|
    requires var s := After(d, events, k);
             && id in s.db.series && Deletes(s, events[k], s.db.series[id].table)
             && s.db.series[id].deleteEpoch.Some? && s.db.HasData(s.jobs[events[k].job].table, id)
             && s.db.series[id].deleteEpoch.value <= s.jobs[events[k].job].present - 4
    ensures var row, after, db := After(d, events, k).db.series[id], After(d, events, k + 1).db, After(d, events, n).db;
            && id in after.series && after.series[id] == Series(row.table, row.labels, None)
            && (db.epoch < after.epoch + 5 ==> id in db.series && SameKey(db.series[id], row))
  {
    Resurrects(d, After(d, events, k), events[k], id);
    MarkedRowsWait(d, events, k + 1, n, id);
  }

  lemma Resurrects(d: int, s: State, e: Event, id: SeriesId)
    requires id in s.db.series && Deletes(s, e, s.db.series[id].table) && s.db.series[id].deleteEpoch.Some?
    requires s.db.HasData(s.jobs[e.job].table, id) && s.db.series[id].deleteEpoch.value <= s.jobs[e.job].present - 4
    ensures var row, db' := s.db.series[id], Next(d, s, e).db;
            id in db'.series && db'.series[id] == Series(row.table, row.labels, None)
  {
    var job := s.jobs[e.job];
    DeletedExactly(s.db, job.table, job.seriesTable, job.ranAt, job.present, job.lastUpdated, e.now, d, id);
  }

  // ---------- what an id means ----------

  lemma IdStep(d: int, s: State, e: Event)
    requires Inv(s)
    ensures s.db.nextSeries <= Next(d, s, e).db.nextSeries
    ensures forall id | id in Next(d, s, e).db.series && id < s.db.nextSeries ::
              id in s.db.series && SameKey(Next(d, s, e).db.series[id], s.db.series[id])
  {
    if e.Obtain? && Enabled(s, e) {
      GetOrCreateCorrect(s.db, e.table, e.ls);
      ObtainAdvances(s.db, e.table, e.ls);
    }
  }

  /** An id keeps its metric and its labels for ever: whatever state it comes up in later, it was there
      before, and stood for the same, so an id that has been deleted never comes back. */
  lemma {:induction false} IdsKeepMeaning(d: int, events: seq<Event>, i: nat, n: nat, id: SeriesId)
    requires i <= n <= |events|
    ensures var db, db' := After(d, events, i).db, After(d, events, n).db;
            && db.nextSeries <= db'.nextSeries
            && (id in db'.series && id < db.nextSeries ==> id in db.series && SameKey(db'.series[id], db.series[id]))
            && (id in db.series ==> id < db.nextSeries)
    decreases n
  {
    Reachable(d, events, i);
    if i < n {
      IdsKeepMeaning(d, events, i, n - 1, id);
      Reachable(d, events, n - 1);
      IdStep(d, After(d, events, n - 1), events[n - 1]);
    }
  }

  // ---------- labels ----------

  /** A deletion drops a label that a series of an unattached table uses. */
  ghost predicate ForeignStep(s: State, e: Event) {
    e.RunNext? && Enabled(s, e) && s.jobs[e.job].pc == DeleteExpiredSeries
    && ForeignUse(s.db, s.jobs[e.job].table, s.jobs[e.job].seriesTable, s.jobs[e.job].present)
  }

  lemma SameSeriesCanonical(db: Db, db': Db)
    requires db'.labels == db.labels && db'.positions == db.positions
    requires forall id | id in db'.series :: id in db.series && SameKey(db'.series[id], db.series[id])
    requires AllCanonical(db)
    ensures AllCanonical(db')
  {
  }

  lemma LabelStep(d: int, s: State, e: Event)
    requires Inv(s) && AllCanonical(s.db)
    ensures AllCanonical(Next(d, s, e).db) <==> !ForeignStep(s, e)
  {
    if Enabled(s, e) && e.RunNext? && s.jobs[e.job].pc == DeleteExpiredSeries {
      var job := s.jobs[e.job];
      DeleteKeepsLabels(s.db, job.table, job.seriesTable, job.ranAt, job.present, job.lastUpdated, e.now, d);
    } else if Enabled(s, e) && e.Obtain? {
      GetOrCreateCorrect(s.db, e.table, e.ls);
    } else {
      SameSeriesCanonical(s.db, Next(d, s, e).db);
    }
  }

  /** A table that has been attached stays attached, so its labels are looked at from then on. */
  lemma {:induction false} AttachedForGood(d: int, events: seq<Event>, i: nat, n: nat, st: Table)
    requires i < n <= |events| && events[i] == Attach(st)
    ensures st in After(d, events, n).db.attached
    decreases n
  {
    if i < n - 1 {
      AttachedForGood(d, events, i, n - 1, st);
      assert After(d, events, n) == Next(d, After(d, events, n - 1), events[n - 1]);
    }
  }

  ghost predicate LabelsKept(d: int, events: seq<Event>, n: nat)
    requires n <= |events|
  {
    AllCanonical(After(d, events, n).db) && (n > 0 ==> LabelsKept(d, events, n - 1))
  }

  ghost predicate NeverForeign(d: int, events: seq<Event>, n: nat)
    requires n <= |events|
  {
    n > 0 ==> !ForeignStep(After(d, events, n - 1), events[n - 1]) && NeverForeign(d, events, n - 1)
  }

  /** In every run, all series keep all their labels throughout exactly when no deletion drops a label
      that a series table which is not attached yet still uses. */
  lemma {:induction false} LabelsKeptExactlyWhen(d: int, events: seq<Event>, n: nat)
    requires n <= |events|
    ensures LabelsKept(d, events, n) <==> NeverForeign(d, events, n)
  {
    if n > 0 {
      LabelsKeptExactlyWhen(d, events, n - 1);
      if LabelsKept(d, events, n - 1) {
        Reachable(d, events, n - 1);
        LabelStep(d, After(d, events, n - 1), events[n - 1]);
      }
    }
  }

  /** Until then, in every state of a run the series of a metric and their label sets correspond one to
      one, and asking for a label set that has a series returns it. */
  lemma IdentityInRuns(d: int, events: seq<Event>, n: nat, i: SeriesId, j: SeriesId, ls: seq<Label>)
    requires n <= |events| && NeverForeign(d, events, n)
    requires i in After(d, events, n).db.series && j in After(d, events, n).db.series
    ensures var db := After(d, events, n).db;
            db.series[i].table == db.series[j].table ==>
              && (SeriesLabels(db, i) == SeriesLabels(db, j) <==> i == j)
              && (Request(ls) && SeriesLabels(db, i) == (set l | l in ls) ==>
                    GetOrCreate(db, db.series[i].table, ls).1 == i)
  {
    LabelsKeptExactlyWhen(d, events, n);
    Reachable(d, events, n);
    var db := After(d, events, n).db;
    if db.series[i].table == db.series[j].table {
      IdentityAt(db, i, j, ls);
    }
  }

  lemma IdentityAt(db: Db, i: SeriesId, j: SeriesId, ls: seq<Label>)
    requires Valid(db) && AllCanonical(db) && i in db.series && j in db.series
    requires db.series[i].table == db.series[j].table
    ensures SeriesLabels(db, i) == SeriesLabels(db, j) <==> i == j
    ensures Request(ls) && SeriesLabels(db, i) == (set l | l in ls) ==> GetOrCreate(db, db.series[i].table, ls).1 == i
  {
    SeriesIdentity(db, i, j);
    if Request(ls) && SeriesLabels(db, i) == set l | l in ls {
      SameLabelsSameId(db, db.series[i].table, ls, i);
    }
  }

  // ---------- the epoch ----------

  ghost predicate Bumps(d: int, s: State, e: Event) {
    Next(d, s, e).db.epoch != s.db.epoch
  }

  /** The epoch never decreases; it rises by one, when a run's own reading is current and the last
      update is more than the epoch duration before the run. */
  lemma EpochStep(d: int, s: State, e: Event)
    requires Inv(s)
    ensures var db' := Next(d, s, e).db;
            if Bumps(d, s, e)
            then db'.epoch == s.db.epoch + 1 && e.RunNext? && db'.lastUpdate == e.now && e.now > s.db.lastUpdate + d
            else db'.lastUpdate == s.db.lastUpdate
  {
    StepKeeps(d, s, e);
    if e.RunNext? && Enabled(s, e) {
      assert JobOk(s.db, s.jobs[e.job]);
    } else if e.Obtain? && Enabled(s, e) {
      ObtainAdvances(s.db, e.table, e.ls);
    }
  }

  lemma {:induction false} UpdateTimeRises(d: int, events: seq<Event>, i: nat, n: nat)
    requires d >= 0 && i <= n <= |events|
    ensures After(d, events, i).db.lastUpdate <= After(d, events, n).db.lastUpdate
    ensures After(d, events, i).db.epoch <= After(d, events, n).db.epoch
    decreases n
  {
    if i < n {
      UpdateTimeRises(d, events, i, n - 1);
      Reachable(d, events, n - 1);
      EpochStep(d, After(d, events, n - 1), events[n - 1]);
    }
  }

  /** However stale the readings, two updates of the epoch are more than the epoch duration apart. */
  lemma EpochSpacing(d: int, events: seq<Event>, i: nat, j: nat)
    requires d >= 0 && i < j < |events|
    requires Bumps(d, After(d, events, i), events[i]) && Bumps(d, After(d, events, j), events[j])
    ensures events[i].RunNext? && events[j].RunNext? && events[j].now > events[i].now + d
    ensures After(d, events, i).db.epoch < After(d, events, j).db.epoch
  {
    Reachable(d, events, i);
    EpochStep(d, After(d, events, i), events[i]);
    UpdateTimeRises(d, events, i + 1, j);
    Reachable(d, events, j);
    EpochStep(d, After(d, events, j), events[j]);
  }
}
