/** Series garbage collection: retention runs, each of four committed transactions, interleaved with
    ingest, with other runs and with the other writers of the catalog. */
module Retention {
  import opened Wrappers
  import opened LabelPositions
  import opened LabelArrays
  import opened SeriesCatalog

  // An insert is aborted once the epoch has moved this far past the one its series ids were read at.
  const VALID_EPOCHS: int := 5

  /** The next transaction of a run of `drop_metric_chunks`. */
  datatype Pc = ReadEpoch | MarkUnused | DropChunks | DeleteExpiredSeries | Finished

  /** A run and its local variables: the epoch and its update time may have gone stale. */
  datatype Job = Job(table: Table, seriesTable: Table, ranAt: Time, pc: Pc,
                     olderThan: Option<Time>, present: int, lastUpdated: Time)

  /** A series id in the hands of a writer, with the row it stood for and the epoch it was read at. */
  datatype Held = Held(series: SeriesId, table: Table, labels: seq<int>, epoch: int)

  datatype State = State(db: Db, jobs: map<nat, Job>, held: set<Held>)

  datatype Event =
    | Obtain(table: Table, ls: seq<Label>, epoch: int)
    | Insert(held: Held, time: Time)
    | RegisterView(view: Table, table: Table)
    | Materialize(view: Table, source: Table, series: SeriesId, time: Time)
    | Attach(table: Table)
    | MarkRows(table: Table, ids: set<SeriesId>)
    | DeleteRows(rows: set<Row>)
    | Start(job: nat, table: Table, ranAt: Time)
    | RunNext(job: nat, olderThan: Option<Time>, rows: set<Row>, now: Time)

  function Begin(): Db {
    Db(map[], {}, map[], LabelTable(map[], 1), map[], 1, {}, 0, 0)
  }

  // ---------- one transaction of a run ----------

  /** `d` is the epoch duration; `olderThan` is the cut-off found by the first transaction, `rows` are
      in the chunks that the third one drops, `now` is the time of the transaction. */
  function RunTransaction(d: int, db: Db, job: Job, olderThan: Option<Time>, rows: set<Row>, now: Time): (Db, Job) {
    match job.pc
    case ReadEpoch =>
      (db, job.(olderThan := olderThan, present := db.epoch, lastUpdated := db.lastUpdate,
                pc := if olderThan.None? then DeleteExpiredSeries else MarkUnused))
    case MarkUnused =>
      (if job.olderThan.Some? then Mark(db, job.table, job.seriesTable, job.olderThan.value) else db,
       job.(pc := DropChunks))
    case DropChunks =>
      var db' := if job.olderThan.Some? then DropData(db, job.table, job.olderThan.value, rows) else db;
      (db', job.(present := db'.epoch, lastUpdated := db'.lastUpdate, pc := DeleteExpiredSeries))
    case DeleteExpiredSeries =>
      (DeleteExpired(db, job.table, job.seriesTable, job.ranAt, job.present, job.lastUpdated, now, d),
       job.(pc := Finished))
    case Finished => (db, job)
  }

  // ---------- runs of the system ----------

  ghost predicate Enabled(s: State, e: Event) {
    match e
    case Obtain(st, ls, epoch) =>
      && Request(ls) && Label(NAME, st) in ls && epoch <= s.db.epoch
      && if st in s.db.metrics then s.db.metrics[st] == st else forall r | r in s.db.data :: r.table != st
    case Insert(h, _) => h in s.held && s.db.epoch < h.epoch + VALID_EPOCHS
    case RegisterView(view, st) =>
      view !in s.db.metrics && st in s.db.metrics && s.db.metrics[st] == st
    // A view, registered or not, is refreshed from what it is based on, registered or not.
    case Materialize(view, source, id, _) =>
      && s.db.HasData(source, id)
      && (view in s.db.metrics ==> s.db.metrics[view] != view)
      && (view in s.db.metrics && source in s.db.metrics ==> s.db.metrics[source] == s.db.metrics[view])
    case Attach(_) => true
    case MarkRows(_, _) => true
    case DeleteRows(_) => true
    case Start(job, t, _) => job !in s.jobs && t in s.db.metrics
    case RunNext(job, _, _, now) => job in s.jobs && s.jobs[job].ranAt <= now
  }

  ghost function Apply(d: int, s: State, e: Event): State
    requires Enabled(s, e)
  {
    match e
    case Obtain(st, ls, epoch) =>
      var (db, id) := GetOrCreate(s.db, st, ls);
      if id in db.series then s.(db := db, held := s.held + {Held(id, st, db.series[id].labels, epoch)}) else s
    case Insert(h, time) => s.(db := s.db.(data := s.db.data + {Row(h.table, time, h.series)}))
    case RegisterView(view, st) => s.(db := s.db.(metrics := s.db.metrics[view := st]))
    case Materialize(view, _, id, time) => s.(db := s.db.(data := s.db.data + {Row(view, time, id)}))
    case Attach(st) => s.(db := s.db.(attached := s.db.attached + {st}))
    case MarkRows(st, ids) => s.(db := s.db.(series := MarkIf(s.db, st, ids)))
    case DeleteRows(rows) => s.(db := s.db.(data := s.db.data - rows))
    case Start(job, t, ranAt) =>
      s.(jobs := s.jobs[job := Job(t, s.db.metrics[t], ranAt, ReadEpoch, None, 0, 0)])
    case RunNext(job, olderThan, rows, now) =>
      var (db, j) := RunTransaction(d, s.db, s.jobs[job], olderThan, rows, now);
      s.(db := db, jobs := s.jobs[job := j])
  }

  /** An event that is not enabled changes nothing. */
  ghost function Next(d: int, s: State, e: Event): State {
    if Enabled(s, e) then Apply(d, s, e) else s
  }

  /** The state after the first `n` events of a run. */
  ghost function After(d: int, events: seq<Event>, n: nat): State
    requires n <= |events|
  {
    if n == 0 then State(Begin(), map[], {}) else Next(d, After(d, events, n - 1), events[n - 1])
  }

  // ---------- the grace period ----------

  /** The row that the id stood for is still there, and was not marked at or before its epoch. */
  ghost predicate Protected(db: Db, h: Held) {
    && h.series in db.series && db.series[h.series].table == h.table && db.series[h.series].labels == h.labels
    && (db.series[h.series].deleteEpoch.Some? ==> db.series[h.series].deleteEpoch.value > h.epoch)
  }

  ghost predicate HeldOk(db: Db, h: Held) {
    && h.epoch <= db.epoch && h.table in db.metrics && db.metrics[h.table] == h.table
    && (db.epoch < h.epoch + VALID_EPOCHS ==> Protected(db, h))
  }

  /** A reading of the epoch is not ahead of it, and a current one has the current update time. */
  ghost predicate JobOk(db: Db, job: Job) {
    && job.table in db.metrics && db.metrics[job.table] == job.seriesTable
    && (job.pc != ReadEpoch ==>
          job.present <= db.epoch && (job.present == db.epoch ==> job.lastUpdated == db.lastUpdate))
  }

  /** Every table's series table is a metric's own. */
  ghost predicate BaseTables(metrics: map<Table, Table>) {
    forall u | u in metrics :: metrics[u] in metrics && metrics[metrics[u]] == metrics[u]
  }

  ghost predicate HeldAllOk(db: Db, held: set<Held>) {
    forall h | h in held :: HeldOk(db, h)
  }

  ghost predicate JobsOk(db: Db, jobs: map<nat, Job>) {
    forall j | j in jobs :: JobOk(db, jobs[j])
  }

  ghost predicate Inv(s: State) {
    Valid(s.db) && BaseTables(s.db.metrics) && HeldAllOk(s.db, s.held) && JobsOk(s.db, s.jobs)
  }

  /** What any committed transaction may do as far as writers and runs are concerned. */
  ghost predicate Advances(db: Db, db': Db) {
    && (forall u | u in db.metrics :: u in db'.metrics && db'.metrics[u] == db.metrics[u])
    && ((db'.epoch == db.epoch && db'.lastUpdate == db.lastUpdate) || db'.epoch == db.epoch + 1)
    && (forall h: Held | h.epoch <= db.epoch < h.epoch + VALID_EPOCHS && Protected(db, h) :: Protected(db', h))
  }

  lemma AdvancesKeeps(db: Db, db': Db, s: State)
    requires s.db == db && HeldAllOk(db, s.held) && JobsOk(db, s.jobs) && Advances(db, db')
    ensures HeldAllOk(db', s.held) && JobsOk(db', s.jobs)
  {
  }

  lemma ObtainAdvances(db: Db, st: Table, ls: seq<Label>)
    requires Valid(db) && Request(ls) && (st in db.metrics ==> db.metrics[st] == st)
    ensures Advances(db, GetOrCreate(db, st, ls).0) && Valid(GetOrCreate(db, st, ls).0)
    ensures var (db', id) := GetOrCreate(db, st, ls);
            id in db'.series && db'.metrics == db.metrics[st := st] && db'.epoch == db.epoch
            && db'.series[id].table == st && db'.series[id].deleteEpoch == None
  {
    GetOrCreateCorrect(db, st, ls);
    GetOrCreateTouches(db, st, ls);
  }

  lemma MarkAdvances(db: Db, st: Table, ids: set<SeriesId>)
    requires Valid(db)
    ensures var db' := db.(series := MarkIf(db, st, ids)); Advances(db, db') && Valid(db')
  {
    KeptKeys(db, MarkIf(db, st, ids));
  }

  /** A stale reading of the epoch is never ahead of it, so deleting by it only deletes too little. */
  lemma DeleteAdvances(db: Db, t: Table, st: Table, ranAt: Time, present: int, lastUpdated: Time, now: Time, d: int)
    requires Valid(db) && present <= db.epoch
    ensures var db' := DeleteExpired(db, t, st, ranAt, present, lastUpdated, now, d); Advances(db, db') && Valid(db')
  {
    DeleteKeepsValid(db, t, st, ranAt, present, lastUpdated, now, d);
  }

  lemma RunKeeps(d: int, s: State, e: Event)
    requires Inv(s) && e.RunNext? && Enabled(s, e)
    ensures Inv(Next(d, s, e)) && Advances(s.db, Next(d, s, e).db) && Next(d, s, e).held == s.held
  {
    var job := s.jobs[e.job];
    var (db, job') := RunTransaction(d, s.db, job, e.olderThan, e.rows, e.now);
    if job.pc == MarkUnused && job.olderThan.Some? {
      MarkAdvances(s.db, job.seriesTable,
        set id | id in s.db.series && Unused(s.db, job.table, job.seriesTable, job.olderThan.value, id));
    } else if job.pc == DeleteExpiredSeries {
      DeleteAdvances(s.db, job.table, job.seriesTable, job.ranAt, job.present, job.lastUpdated, e.now, d);
    }
    AdvancesKeeps(s.db, db, s);
    assert JobOk(db, job');
  }

  function HeldFor(db: Db, id: SeriesId, epoch: int): Held
    requires id in db.series
  {
    Held(id, db.series[id].table, db.series[id].labels, epoch)
  }

  lemma ObtainHolds(d: int, s: State, e: Event)
    requires Valid(s.db) && e.Obtain? && Enabled(s, e)
    ensures var (db, id) := GetOrCreate(s.db, e.table, e.ls);
            && id in db.series && db.series[id].table == e.table
            && Next(d, s, e) == State(db, s.jobs, s.held + {HeldFor(db, id, e.epoch)})
            && HeldOk(db, HeldFor(db, id, e.epoch))
  {
    ObtainAdvances(s.db, e.table, e.ls);
  }

  lemma ObtainKeeps(d: int, s: State, e: Event)
    requires Inv(s) && e.Obtain? && Enabled(s, e)
    ensures Inv(Next(d, s, e)) && Advances(s.db, Next(d, s, e).db) && s.held <= Next(d, s, e).held
  {
    var s' := Next(d, s, e);
    ObtainHolds(d, s, e);
    ObtainAdvances(s.db, e.table, e.ls);
    AdvancesKeeps(s.db, s'.db, s);
  }

  lemma SameCatalog(db: Db, db': Db)
    requires Valid(db)
    requires db'.labels == db.labels && db'.positions == db.positions
    requires db'.series == db.series && db'.nextSeries == db.nextSeries
    ensures Valid(db')
  {
  }

  /** The data and the registrations are no concern of the series rows. */
  lemma OtherKeeps(d: int, s: State, e: Event)
    requires Inv(s) && Enabled(s, e) && !e.Obtain? && !e.MarkRows? && !e.RunNext?
    ensures Inv(Next(d, s, e)) && Advances(s.db, Next(d, s, e).db) && s.held <= Next(d, s, e).held
  {
    var s' := Next(d, s, e);
    assert s'.held == s.held;
    AdvancesKeeps(s.db, s'.db, s);
    SameCatalog(s.db, s'.db);
  }

  lemma StepKeeps(d: int, s: State, e: Event)
    requires Inv(s)
    ensures Inv(Next(d, s, e)) && Advances(s.db, Next(d, s, e).db) && s.held <= Next(d, s, e).held
  {
    if Enabled(s, e) {
      match e
      case Obtain(_, _, _) => ObtainKeeps(d, s, e);
      case MarkRows(st, ids) =>
        MarkAdvances(s.db, st, ids);
        AdvancesKeeps(s.db, Next(d, s, e).db, s);
      case RunNext(_, _, _, _) => RunKeeps(d, s, e);
      case _ => OtherKeeps(d, s, e);
    }
  }

  lemma {:induction false} Reachable(d: int, events: seq<Event>, n: nat)
    requires n <= |events|
    ensures Inv(After(d, events, n))
  {
    if n > 0 {
      Reachable(d, events, n - 1);
      StepKeeps(d, After(d, events, n - 1), events[n - 1]);
    }
  }

  lemma {:induction false} ProtectedStays(d: int, events: seq<Event>, i: nat, n: nat, h: Held)
    requires i <= n <= |events| && h.epoch <= After(d, events, i).db.epoch && Protected(After(d, events, i).db, h)
    ensures var db := After(d, events, n).db;
            h.epoch <= db.epoch && (db.epoch < h.epoch + VALID_EPOCHS ==> Protected(db, h))
    decreases n
  {
    if i < n {
      ProtectedStays(d, events, i, n - 1, h);
      Reachable(d, events, n - 1);
      StepKeeps(d, After(d, events, n - 1), events[n - 1]);
    }
  }

  /** A row that is unmarked, or marked at the current epoch, is still there in every later state in which
      the epoch is less than five higher, whoever marks it, again or not, and whichever runs delete. */
  lemma MarkedRowsWait(d: int, events: seq<Event>, i: nat, n: nat, id: SeriesId)
    requires i <= n <= |events| && id in After(d, events, i).db.series
    requires var db := After(d, events, i).db;
             db.series[id].deleteEpoch.Some? ==> db.series[id].deleteEpoch.value > db.epoch
    ensures var db, db' := After(d, events, i).db, After(d, events, n).db;
            db'.epoch < db.epoch + 5 ==> id in db'.series && SameKey(db'.series[id], db.series[id])
  {
    var db := After(d, events, i).db;
    ProtectedStays(d, events, i, n, HeldFor(db, id, db.epoch));
  }

  /** A reading of the epoch is taken by the first transaction of a run and again by the one that drops
      chunks; the marking and the deletion use what was read last. */
  lemma ReadsEpoch(d: int, db: Db, job: Job, olderThan: Option<Time>, rows: set<Row>, now: Time)
    ensures var (db', job') := RunTransaction(d, db, job, olderThan, rows, now);
            && (job.pc == ReadEpoch || job.pc == DropChunks ==>
                  job'.present == db'.epoch == db.epoch && job'.lastUpdated == db'.lastUpdate == db.lastUpdate)
            && (job.pc == MarkUnused ==> job'.present == job.present && job'.lastUpdated == job.lastUpdated)
  {
  }

  /** A run that nothing interferes with: what its transactions do, in their order; without chunks to
      drop, the deletion only. */
  lemma AloneRun(d: int, db: Db, start: Job, olderThan: Option<Time>, rows: set<Row>, now: Time)
    requires start.pc == ReadEpoch
    ensures var (db1, job1) := RunTransaction(d, db, start, olderThan, rows, now);
            var (db2, job2) := RunTransaction(d, db1, job1, olderThan, rows, now);
            var (db3, job3) := RunTransaction(d, db2, job2, olderThan, rows, now);
            var (db4, job4) := RunTransaction(d, db3, job3, olderThan, rows, now);
            var t, st := start.table, start.seriesTable;
            match olderThan
            case None =>
              job2.pc == Finished && db2 == DeleteExpired(db, t, st, start.ranAt, db.epoch, db.lastUpdate, now, d)
            case Some(cutOff) =>
              var dropped := DropData(Mark(db, t, st, cutOff), t, cutOff, rows);
              job4.pc == Finished && db4 == DeleteExpired(dropped, t, st, start.ranAt, db.epoch, db.lastUpdate, now, d)
  {
  }

  lemma ObtainProtects(d: int, s: State, e: Event)
    requires Inv(s) && e.Obtain? && Enabled(s, e)
    ensures var (made, id) := GetOrCreate(s.db, e.table, e.ls);
            && Next(d, s, e).db == made && e.epoch <= made.epoch
            && id in made.series && made.series[id].table == e.table
            && Protected(made, HeldFor(made, id, e.epoch))
  {
    ObtainHolds(d, s, e);
    ObtainAdvances(s.db, e.table, e.ls);
  }

  /** An id returned for a label set at epoch `e` has its row in every later state in which the epoch is
      still below `e + 5`, whatever is marked, dropped and deleted in between. */
  lemma GracePeriod(d: int, events: seq<Event>, i: nat, n: nat)
    requires i < n <= |events| && events[i].Obtain? && Enabled(After(d, events, i), events[i])
    ensures var (made, id) := GetOrCreate(After(d, events, i).db, events[i].table, events[i].ls);
            var db := After(d, events, n).db;
            && id in made.series
            && (db.epoch < events[i].epoch + 5 ==>
                  && id in db.series && db.series[id].table == events[i].table
                  && db.series[id].labels == made.series[id].labels)
  {
    Reachable(d, events, i);
    ObtainProtects(d, After(d, events, i), events[i]);
    var (made, id) := GetOrCreate(After(d, events, i).db, events[i].table, events[i].ls);
    ProtectedStays(d, events, i + 1, n, HeldFor(made, id, events[i].epoch));
  }
}
