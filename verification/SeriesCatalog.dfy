/** The series catalog: series rows, the data rows that refer to them, labels, and the epoch; and the
    transactions on them. `Db` is the committed state, and every transaction is a function on it. */
module SeriesCatalog {
  import opened Wrappers
  import opened LabelPositions
  import opened LabelArrays

  type Table = string
  type SeriesId = int
  type Time = int

  const HOUR: int := 3_600_000_000

  // Ids stay for this many epochs after the one in which they were marked.
  const KEPT_EPOCHS: int := 4

  datatype Series = Series(table: Table, labels: seq<int>, deleteEpoch: Option<int>)

  datatype Row = Row(table: Table, time: Time, series: SeriesId)

  /** `metrics` maps every data table to the series table it shares; a metric's own series table has
      the name of its data table, a view uses that of the metric it is based on. */
  datatype Db = Db(
    metrics: map<Table, Table>,
    attached: set<Table>,
    positions: map<Table, seq<Position>>,
    labels: LabelTable,
    series: map<SeriesId, Series>,
    nextSeries: SeriesId,
    data: set<Row>,
    epoch: int,
    lastUpdate: Time)
  {
    function Positions(st: Table): seq<Position> {
      if st in positions then positions[st] else []
    }

    predicate HasData(t: Table, id: SeriesId) {
      exists r | r in data :: r.table == t && r.series == id
    }

    predicate HasDataIn(t: Table, id: SeriesId, from: Time, to: Time) {
      exists r | r in data :: r.table == t && r.series == id && from <= r.time < to
    }

    predicate HasDataFrom(t: Table, id: SeriesId, from: Time) {
      exists r | r in data :: r.table == t && r.series == id && from <= r.time
    }

    predicate HasDataBefore(t: Table, id: SeriesId, to: Time) {
      exists r | r in data :: r.table == t && r.series == id && r.time < to
    }
  }

  // ---------- get_or_create_series_id ----------

  ghost function Existing(db: Db, st: Table, labels: seq<int>): (r: Option<SeriesId>)
    ensures r.Some? ==> r.value in db.series && db.series[r.value].table == st && db.series[r.value].labels == labels
    ensures r.None? ==> forall id | id in db.series :: !(db.series[id].table == st && db.series[id].labels == labels)
  {
    if id :| id in db.series && db.series[id].table == st && db.series[id].labels == labels then Some(id) else None
  }

  /** The metric's table, key positions and labels, made on first use. */
  ghost function Prepare(db: Db, st: Table, ls: seq<Label>): Db {
    db.(metrics := if st in db.metrics then db.metrics else db.metrics[st := st],
        positions := db.positions[st := WithKeys(db.Positions(st), Keys(ls), false)],
        labels := (if st in db.metrics then db.labels else db.labels.Intern(Label(NAME, st))).InternAll(ls))
  }

  /** Returns the row of a label array, clearing its delete epoch, or creates the row. */
  ghost function ResurrectOrCreate(db: Db, st: Table, labels: seq<int>): (Db, SeriesId) {
    match Existing(db, st, labels)
    case Some(id) => (db.(series := db.series[id := db.series[id].(deleteEpoch := None)]), id)
    case None =>
      (db.(series := db.series[db.nextSeries := Series(st, labels, None)], nextSeries := db.nextSeries + 1),
       db.nextSeries)
  }

  ghost function GetOrCreate(db: Db, st: Table, ls: seq<Label>): (Db, SeriesId) {
    var db' := Prepare(db, st, ls);
    ResurrectOrCreate(db', st, LabelArray(db'.Positions(st), db'.labels, ls))
  }

  // ---------- marking ----------

  /** The series of table `t` that dropping the data before `dropPoint` would leave without data. */
  predicate Unused(db: Db, t: Table, st: Table, dropPoint: Time, id: SeriesId) {
    && db.HasDataBefore(t, id, dropPoint)
    && !db.HasDataFrom(t, id, dropPoint)
    && forall u | u in db.metrics && u != t && db.metrics[u] == st :: !db.HasData(u, id)
  }

  function MarkIf(db: Db, st: Table, ids: set<SeriesId>): map<SeriesId, Series> {
    map id | id in db.series ::
      if db.series[id].table == st && db.series[id].deleteEpoch == None && id in ids
      then db.series[id].(deleteEpoch := Some(db.epoch + 1)) else db.series[id]
  }

  function Mark(db: Db, t: Table, st: Table, dropPoint: Time): Db {
    db.(series := MarkIf(db, st, set id | id in db.series && Unused(db, t, st, dropPoint, id)))
  }

  /** Asking for a marked series again undoes the marking: the catalog is what it was. */
  lemma ObtainUndoesMark(db: Db, id: SeriesId)
    requires Valid(db) && id in db.series && db.series[id].deleteEpoch == None
    ensures var st := db.series[id].table;
            ResurrectOrCreate(db.(series := MarkIf(db, st, {id})), st, db.series[id].labels) == (db, id)
  {
    var s := db.series[id];
    var marked := db.(series := MarkIf(db, s.table, {id}));
    var found := Existing(marked, s.table, s.labels);
    assert SameKey(marked.series[id], Series(s.table, s.labels, None));
    assert SameKey(db.series[id], db.series[found.value]);
    assert ResurrectOrCreate(marked, s.table, s.labels).0.series == db.series;
  }

  // ---------- dropping data ----------

  /** Dropping chunks takes rows of the table, all of them older than the cut-off. */
  function DropData(db: Db, t: Table, olderThan: Time, rows: set<Row>): Db {
    db.(data := set r | r in db.data && !(r in rows && r.table == t && r.time < olderThan))
  }

  /** Marking, row by row: an unmarked row of the series table gets the next epoch exactly when table `t` has
      data for it before the drop point and none from it on, and no other table on the series table has any;
      all other rows stay as they are. */
  lemma MarkedExactly(db: Db, t: Table, st: Table, dropPoint: Time, id: SeriesId)
    requires id in db.series
    ensures Mark(db, t, st, dropPoint).series.Keys == db.series.Keys
    ensures var row, row' := db.series[id], Mark(db, t, st, dropPoint).series[id];
            var before := exists r | r in db.data :: r.table == t && r.series == id && r.time < dropPoint;
            var after := exists r | r in db.data :: r.table == t && r.series == id && dropPoint <= r.time;
            var elsewhere := exists r | r in db.data ::
              r.series == id && r.table != t && r.table in db.metrics && db.metrics[r.table] == st;
            row' == if row.table == st && row.deleteEpoch == None && before && !after && !elsewhere
                    then Series(row.table, row.labels, Some(db.epoch + 1)) else row
  {
    if r :| r in db.data && r.series == id && r.table != t && r.table in db.metrics && db.metrics[r.table] == st {
      assert db.HasData(r.table, id);
    }
    forall u | u in db.metrics && u != t && db.metrics[u] == st && db.HasData(u, id)
      ensures exists r | r in db.data ::
                r.series == id && r.table != t && r.table in db.metrics && db.metrics[r.table] == st {
      var r :| r in db.data && r.table == u && r.series == id;
    }
  }

  /** Dropping never takes a row of another table or from the cut-off on, and takes all older ones listed. */
  lemma DroppedExactly(db: Db, t: Table, olderThan: Time, rows: set<Row>)
    ensures var db' := DropData(db, t, olderThan, rows);
            && db'.data <= db.data && db' == db.(data := db'.data)
            && (forall r | r in db.data && (r.table != t || r.time >= olderThan) :: r in db'.data)
            && (rows >= db.data ==> forall r | r in db'.data && r.table == t :: r.time >= olderThan)
  {
  }

  /** Marking and then dropping everything older leaves a series that was marked just now without data in
      any table that shares its series table. */
  lemma MarkedLosesItsData(db: Db, t: Table, st: Table, dropPoint: Time, rows: set<Row>, id: SeriesId)
    requires t in db.metrics && db.metrics[t] == st
    requires forall r | r in db.data && r.table == t && r.time < dropPoint :: r in rows
    requires id in db.series && db.series[id].deleteEpoch == None
    requires Mark(db, t, st, dropPoint).series[id].deleteEpoch.Some?
    ensures var dropped := DropData(Mark(db, t, st, dropPoint), t, dropPoint, rows);
            forall u | u in db.metrics && db.metrics[u] == st :: !dropped.HasData(u, id)
  {
  }

  // ---------- delete_expired_series ----------

  predicate Expired(db: Db, st: Table, present: int, id: SeriesId) {
    && id in db.series && db.series[id].table == st
    && db.series[id].deleteEpoch.Some? && db.series[id].deleteEpoch.value <= present - KEPT_EPOCHS
  }

  /** Expired rows are deleted unless table `t` has data for them, which resurrects them. */
  predicate Doomed(db: Db, t: Table, st: Table, present: int, id: SeriesId) {
    Expired(db, st, present, id) && !db.HasData(t, id)
  }

  function Survivors(db: Db, t: Table, st: Table, present: int): map<SeriesId, Series> {
    map id | id in db.series && !Doomed(db, t, st, present, id) ::
      if Expired(db, st, present, id) then db.series[id].(deleteEpoch := None) else db.series[id]
  }

  predicate Uses(s: Series, l: int) {
    l in s.labels
  }

  /** A label of a deleted row goes unless its own series table or an attached one still uses it. */
  predicate DropsLabel(db: Db, t: Table, st: Table, present: int, l: int) {
    && l in db.labels.rows && db.labels.rows[l].key != NAME
    && (exists id | id in db.series :: Doomed(db, t, st, present, id) && Uses(db.series[id], l))
    && (forall id | id in db.series && !Doomed(db, t, st, present, id) ::
          (db.series[id].table == st || db.series[id].table in db.attached) ==> !Uses(db.series[id], l))
  }

  predicate BumpsEpoch(db: Db, ranAt: Time, present: int, lastUpdated: Time, epochDuration: int) {
    ranAt > lastUpdated + epochDuration && db.epoch < present + 1
  }

  function DeleteExpired(db: Db, t: Table, st: Table, ranAt: Time, present: int, lastUpdated: Time,
                         now: Time, epochDuration: int): Db
  {
    var bump := BumpsEpoch(db, ranAt, present, lastUpdated, epochDuration);
    db.(series := Survivors(db, t, st, present),
        labels := LabelTable(
          map l | l in db.labels.rows && !DropsLabel(db, t, st, present, l) :: db.labels.rows[l], db.labels.next),
        epoch := if bump then present + 1 else db.epoch,
        lastUpdate := if bump then now else db.lastUpdate)
  }

  /** What deletion does to each row, to each label and to the epoch. */
  lemma DeletedExactly(db: Db, t: Table, st: Table, ranAt: Time, present: int, lastUpdated: Time, now: Time, d: int,
                       id: SeriesId)
    requires id in db.series
    ensures var db' := DeleteExpired(db, t, st, ranAt, present, lastUpdated, now, d);
            var row := db.series[id];
            var expired := row.table == st && row.deleteEpoch.Some? && row.deleteEpoch.value <= present - 4;
            var used := exists r | r in db.data :: r.table == t && r.series == id;
            && db'.series.Keys <= db.series.Keys && db'.data == db.data
            && (id !in db'.series <==> expired && !used)
            && (expired && used ==> db'.series[id] == Series(row.table, row.labels, None))
            && (!expired ==> db'.series[id] == row)
  {
  }

  /** No row of the series table is left that the run takes for expired. */
  lemma NothingExpiredLeft(db: Db, t: Table, st: Table, ranAt: Time, present: int, lastUpdated: Time, now: Time, d: int)
    ensures var db' := DeleteExpired(db, t, st, ranAt, present, lastUpdated, now, d);
            forall id | id in db'.series && db'.series[id].table == st && db'.series[id].deleteEpoch.Some? ::
              db'.series[id].deleteEpoch.value > present - 4
  {
    var db' := DeleteExpired(db, t, st, ranAt, present, lastUpdated, now, d);
    forall id | id in db'.series && db'.series[id].table == st && db'.series[id].deleteEpoch.Some?
      ensures db'.series[id].deleteEpoch.value > present - 4 {
      DeletedExactly(db, t, st, ranAt, present, lastUpdated, now, d, id);
    }
  }

  /** A label goes exactly when a deleted row used it, it is not a metric name, and no row that remains in
      the series table or in an attached one uses it. */
  lemma LabelsDroppedExactly(db: Db, t: Table, st: Table, ranAt: Time, present: int, lastUpdated: Time, now: Time,
                             d: int, l: int)
    requires l in db.labels.rows
    ensures var db' := DeleteExpired(db, t, st, ranAt, present, lastUpdated, now, d);
            var wasUsed := exists id | id in db.series && id !in db'.series :: l in db.series[id].labels;
            var isUsed := exists id | id in db'.series ::
              l in db'.series[id].labels && (db'.series[id].table == st || db'.series[id].table in db.attached);
            && (l !in db'.labels.rows <==> wasUsed && !isUsed && db.labels.rows[l].key != "__name__")
            && (l in db'.labels.rows ==> db'.labels.rows[l] == db.labels.rows[l])
            && db'.labels.rows.Keys <= db.labels.rows.Keys
  {
    var db' := DeleteExpired(db, t, st, ranAt, present, lastUpdated, now, d);
    forall id | id in db.series ensures id in db'.series <==> !Doomed(db, t, st, present, id) {
      DeletedExactly(db, t, st, ranAt, present, lastUpdated, now, d, id);
    }
    assert forall id | id in db'.series ::
        SameKey(db'.series[id], db.series[id]) && Uses(db'.series[id], l) == Uses(db.series[id], l);
    if id :| id in db.series && id !in db'.series && l in db.series[id].labels {
      assert Doomed(db, t, st, present, id) && Uses(db.series[id], l);
    }
  }

  /** The epoch moves to one past the run's reading exactly when the last update that the run knows of is
      more than the epoch duration before its start and nobody has moved it that far yet. */
  lemma EpochAfterDelete(db: Db, t: Table, st: Table, ranAt: Time, present: int, lastUpdated: Time, now: Time, d: int)
    ensures var db' := DeleteExpired(db, t, st, ranAt, present, lastUpdated, now, d);
            var moves := ranAt - lastUpdated > d && db.epoch <= present;
            (db'.epoch, db'.lastUpdate) == if moves then (present + 1, now) else (db.epoch, db.lastUpdate)
  {
  }

  // ---------- invariants ----------

  /** The unique constraint of a series table. */
  predicate SameKey(a: Series, b: Series) {
    a.table == b.table && a.labels == b.labels
  }

  ghost predicate Valid(db: Db) {
    && db.labels.Valid()
    && (forall st | st in db.positions :: Good(db.positions[st], false))
    && (forall id | id in db.series :: id < db.nextSeries)
    && (forall i, j {:trigger SameKey(db.series[i], db.series[j])} |
          i in db.series && j in db.series && SameKey(db.series[i], db.series[j]) :: i == j)
  }

  /** Every series row stands for labels that exist. */
  ghost predicate AllCanonical(db: Db) {
    forall id | id in db.series :: Canonical(db.Positions(db.series[id].table), db.labels, db.series[id].labels)
  }

  ghost function SeriesLabels(db: Db, id: SeriesId): set<Label>
    requires id in db.series
  {
    LabelsOf(db.labels, db.series[id].labels)
  }

  /** Series ids and label sets correspond one to one. */
  lemma SeriesIdentity(db: Db, i: SeriesId, j: SeriesId)
    requires Valid(db) && AllCanonical(db) && i in db.series && j in db.series
    requires db.series[i].table == db.series[j].table
    ensures SeriesLabels(db, i) == SeriesLabels(db, j) <==> i == j
  {
    if SeriesLabels(db, i) == SeriesLabels(db, j) {
      CanonicalUnique(db.Positions(db.series[i].table), db.labels, db.series[i].labels, db.series[j].labels);
      assert SameKey(db.series[i], db.series[j]);
    }
  }

  // ---------- get_or_create keeps them ----------

  lemma PrepareGrows(db: Db, st: Table, ls: seq<Label>)
    requires Valid(db) && Request(ls)
    ensures var db' := Prepare(db, st, ls);
            && Valid(db') && Extends(db.labels, db'.labels) && db'.series == db.series
            && (forall u, k | Find(db.Positions(u), k).Some? :: Find(db'.Positions(u), k) == Find(db.Positions(u), k))
            && (forall l | l in ls :: Find(db'.Positions(st), l.key).Some? && db'.labels.IdOf(l).Some?)
  {
    var db' := Prepare(db, st, ls);
    WithKeysKeeps(db.Positions(st), Keys(ls), false);
    var t := if st in db.metrics then db.labels else db.labels.Intern(Label(NAME, st));
    NameInterned(db.labels, st);
    InternAllKeeps(t, ls);
    forall l | l in ls ensures Find(db'.Positions(st), l.key).Some? {
      var i :| 0 <= i < |ls| && ls[i] == l;
      assert Keys(ls)[i] == l.key;
    }
  }

  lemma GrownCanonical(db: Db, db': Db)
    requires AllCanonical(db) && db'.labels.Valid() && Extends(db.labels, db'.labels) && db'.series == db.series
    requires forall u, k | Find(db.Positions(u), k).Some? :: Find(db'.Positions(u), k) == Find(db.Positions(u), k)
    ensures AllCanonical(db')
  {
    forall id | id in db'.series
      ensures Canonical(db'.Positions(db'.series[id].table), db'.labels, db'.series[id].labels) {
      var u := db.series[id].table;
      CanonicalStable(db.Positions(u), db'.Positions(u), db.labels, db'.labels, db.series[id].labels);
    }
  }

  lemma PrepareKeeps(db: Db, st: Table, ls: seq<Label>)
    requires Valid(db) && Request(ls)
    ensures var db' := Prepare(db, st, ls);
            && Valid(db') && Extends(db.labels, db'.labels) && db'.series == db.series
            && (forall u, k | Find(db.Positions(u), k).Some? :: Find(db'.Positions(u), k) == Find(db.Positions(u), k))
            && (forall l | l in ls :: Find(db'.Positions(st), l.key).Some? && db'.labels.IdOf(l).Some?)
    ensures AllCanonical(db) ==> AllCanonical(Prepare(db, st, ls))
  {
    PrepareGrows(db, st, ls);
    if AllCanonical(db) {
      GrownCanonical(db, Prepare(db, st, ls));
    }
  }

  /** Asking for a series registers the metric and touches neither data, nor the epoch, nor partitions, nor
      the positions of other metrics. The labels it creates are the requested ones and the name of a new metric. */
  lemma GetOrCreateTouches(db: Db, st: Table, ls: seq<Label>)
    requires Valid(db)
    ensures var db' := GetOrCreate(db, st, ls).0;
            && db'.data == db.data && db'.epoch == db.epoch && db'.lastUpdate == db.lastUpdate
            && db'.attached == db.attached && (forall u | u != st :: db'.Positions(u) == db.Positions(u))
            && db'.metrics == if st in db.metrics then db.metrics else db.metrics[st := st]
    ensures var labels, labels' := db.labels.rows, GetOrCreate(db, st, ls).0.labels.rows;
            && (forall l | l in labels' && l !in labels ::
                  labels'[l] in ls || (st !in db.metrics && labels'[l] == Label("__name__", st)))
            && (st !in db.metrics ==> exists l | l in labels' :: labels'[l] == Label("__name__", st))
  {
    var named := if st in db.metrics then db.labels else db.labels.Intern(Label(NAME, st));
    if st !in db.metrics {
      NameInterned(db.labels, st);
    }
    InternAllKeeps(named, ls);
    var labels' := GetOrCreate(db, st, ls).0.labels.rows;
    assert labels' == named.InternAll(ls).rows;
    if l :| l in named.rows && named.rows[l] == Label("__name__", st) {
      assert l in labels' && labels'[l] == Label("__name__", st);
    }
  }

  lemma NameInterned(t: LabelTable, st: Table)
    requires t.Valid()
    ensures var t' := t.Intern(Label(NAME, st));
            && t'.Valid() && Extends(t, t') && (exists l | l in t'.rows :: t'.rows[l] == Label("__name__", st))
            && forall l | l in t'.rows && l !in t.rows :: t'.rows[l] == Label("__name__", st)
  {
    if t.IdOf(Label(NAME, st)).None? {
      assert t.next in t.Intern(Label(NAME, st)).rows;
    }
  }

  lemma ResurrectOrCreateKeeps(db: Db, st: Table, labels: seq<int>)
    requires Valid(db)
    ensures var (db', id) := ResurrectOrCreate(db, st, labels);
            && Valid(db') && id in db'.series && db'.series[id] == Series(st, labels, None)
            && (forall j | j in db.series && j != id :: j in db'.series && db'.series[j] == db.series[j])
            && (forall j | j in db'.series && j != id :: j in db.series)
    ensures AllCanonical(db) && Canonical(db.Positions(st), db.labels, labels) ==>
              AllCanonical(ResurrectOrCreate(db, st, labels).0)
  {
    var db' := ResurrectOrCreate(db, st, labels).0;
    forall i, j | i in db'.series && j in db'.series && SameKey(db'.series[i], db'.series[j]) ensures i == j {
      assert i in db.series && j in db.series ==> SameKey(db.series[i], db.series[j]);
    }
  }

  /** The returned id has a row that is not marked and stands for exactly the requested labels. */
  lemma GetOrCreateCorrect(db: Db, st: Table, ls: seq<Label>)
    requires Valid(db) && Request(ls)
    ensures var (db', id) := GetOrCreate(db, st, ls);
            && Valid(db') && Extends(db.labels, db'.labels) && (AllCanonical(db) ==> AllCanonical(db'))
            && id in db'.series && db'.series[id].table == st && db'.series[id].deleteEpoch == None
            && SeriesLabels(db', id) == (set l | l in ls)
            && (forall j | j in db.series && j != id :: j in db'.series && db'.series[j] == db.series[j])
            && (forall j | j in db'.series && j != id :: j in db.series)
            && (if id in db.series then db'.series[id] == db.series[id].(deleteEpoch := None)
                else id == db.nextSeries && db'.nextSeries == db.nextSeries + 1)
  {
    var db1 := Prepare(db, st, ls);
    var a := LabelArray(db1.Positions(st), db1.labels, ls);
    PrepareKeeps(db, st, ls);
    LabelArrayCorrect(db1.Positions(st), db1.labels, ls);
    ResurrectOrCreateKeeps(db1, st, a);
  }

  /** A label set that has a row already gets that row's id, however positions have grown since. */
  lemma SameLabelsSameId(db: Db, st: Table, ls: seq<Label>, id: SeriesId)
    requires Valid(db) && AllCanonical(db) && Request(ls)
    requires id in db.series && db.series[id].table == st && SeriesLabels(db, id) == set l | l in ls
    ensures GetOrCreate(db, st, ls).1 == id
  {
    var db1 := Prepare(db, st, ls);
    var a := LabelArray(db1.Positions(st), db1.labels, ls);
    PrepareKeeps(db, st, ls);
    LabelArrayCorrect(db1.Positions(st), db1.labels, ls);
    CanonicalStable(db.Positions(st), db1.Positions(st), db.labels, db1.labels, db.series[id].labels);
    CanonicalUnique(db1.Positions(st), db1.labels, db.series[id].labels, a);
    assert SameKey(db.series[id], db1.series[Existing(db1, st, a).value]);
  }

  // ---------- deletion ----------

  /** Removing rows and changing delete epochs keeps the series tables' unique constraint. */
  lemma KeptKeys(db: Db, series: map<SeriesId, Series>)
    requires Valid(db)
    requires forall id | id in series :: id in db.series && SameKey(series[id], db.series[id])
    ensures Valid(db.(series := series))
  {
    forall i, j | i in series && j in series && SameKey(series[i], series[j]) ensures i == j {
      assert SameKey(db.series[i], db.series[j]);
    }
  }

  /** A row of a foreign series table that is not attached yet uses a label that is dropped. */
  ghost predicate ForeignUse(db: Db, t: Table, st: Table, present: int) {
    exists id, l | id in db.series && l in db.labels.rows ::
      DropsLabel(db, t, st, present, l) && Uses(db.series[id], l)
      && db.series[id].table != st && db.series[id].table !in db.attached
  }

  lemma DeleteKeepsValid(db: Db, t: Table, st: Table, ranAt: Time, present: int, lastUpdated: Time, now: Time, d: int)
    requires Valid(db)
    ensures Valid(DeleteExpired(db, t, st, ranAt, present, lastUpdated, now, d))
  {
    KeptKeys(db, DeleteExpired(db, t, st, ranAt, present, lastUpdated, now, d).series);
  }

  lemma KeptSeriesCanonical(db: Db, t: Table, st: Table, ranAt: Time, present: int, lastUpdated: Time,
                            now: Time, d: int, id: SeriesId)
    requires Valid(db) && AllCanonical(db)
    requires id in Survivors(db, t, st, present)
    requires forall l | l in db.series[id].labels :: !DropsLabel(db, t, st, present, l)
    ensures var db' := DeleteExpired(db, t, st, ranAt, present, lastUpdated, now, d);
            Canonical(db'.Positions(db'.series[id].table), db'.labels, db'.series[id].labels)
  {
    var db' := DeleteExpired(db, t, st, ranAt, present, lastUpdated, now, d);
    DeleteKeepsValid(db, t, st, ranAt, present, lastUpdated, now, d);
    var u := db.series[id].table;
    CanonicalStable(db.Positions(u), db'.Positions(u), db.labels, db'.labels, db.series[id].labels);
  }

  /** Deleting expired series leaves every surviving row with all its labels exactly when no row of an
      unattached foreign table uses a label that is dropped; with all tables attached, always. */
  lemma DeleteKeepsLabels(db: Db, t: Table, st: Table, ranAt: Time, present: int, lastUpdated: Time, now: Time, d: int)
    requires Valid(db) && AllCanonical(db)
    ensures AllCanonical(DeleteExpired(db, t, st, ranAt, present, lastUpdated, now, d))
       <==> !ForeignUse(db, t, st, present)
    ensures (forall id | id in db.series :: db.series[id].table in db.attached) ==> !ForeignUse(db, t, st, present)
  {
    var db' := DeleteExpired(db, t, st, ranAt, present, lastUpdated, now, d);
    if ForeignUse(db, t, st, present) {
      var id, l :| id in db.series && l in db.labels.rows && DropsLabel(db, t, st, present, l)
               && Uses(db.series[id], l) && db.series[id].table != st && db.series[id].table !in db.attached;
      assert id in db'.series && db'.series[id].labels == db.series[id].labels;
      var i :| 0 <= i < |db.series[id].labels| && db.series[id].labels[i] == l;
      assert l != 0 && l !in db'.labels.rows;
    } else {
      forall id | id in db'.series
        ensures Canonical(db'.Positions(db'.series[id].table), db'.labels, db'.series[id].labels) {
        forall l | l in db.series[id].labels ensures !DropsLabel(db, t, st, present, l) {
          assert Uses(db.series[id], l);
        }
        KeptSeriesCanonical(db, t, st, ranAt, present, lastUpdated, now, d, id);
      }
    }
  }
}
