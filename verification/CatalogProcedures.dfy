/** The catalog's procedures as they update their tables, statement by statement, and the four
    transactions of `drop_metric_chunks`. Each is proved to be the transaction of `SeriesCatalog` or
    `Retention` that it stands for. */
module CatalogProcedures {
  import opened Wrappers
  import opened LabelPositions
  import opened LabelArrays
  import opened SeriesCatalog
  import opened Retention

  /** No registered table has data of the series that keeps it in use, up to `newerThan` for its own. */
  predicate Confirmed(db: Db, t: Table, st: Table, newerThan: Time, id: SeriesId) {
    forall u | u in db.metrics && db.metrics[u] == st :: NoUse(db, t, u, newerThan, id)
  }

  predicate NoUse(db: Db, t: Table, u: Table, newerThan: Time, id: SeriesId) {
    if u == t then !db.HasDataFrom(u, id, newerThan) else !db.HasData(u, id)
  }

  predicate Potential(db: Db, t: Table, dropPoint: Time, id: SeriesId) {
    db.HasDataBefore(t, id, dropPoint) && !db.HasDataIn(t, id, dropPoint, dropPoint + HOUR)
  }

  /** Looking one hour ahead first and at everything else later finds exactly the unused series. */
  lemma TwoStagesAreExact(db: Db, t: Table, st: Table, dropPoint: Time, id: SeriesId)
    requires t in db.metrics && db.metrics[t] == st
    ensures Potential(db, t, dropPoint, id) && Confirmed(db, t, st, dropPoint + HOUR, id)
       <==> Unused(db, t, st, dropPoint, id)
  {
    assert db.HasDataFrom(t, id, dropPoint) <==>
        db.HasDataIn(t, id, dropPoint, dropPoint + HOUR) || db.HasDataFrom(t, id, dropPoint + HOUR) by {
      if db.HasDataFrom(t, id, dropPoint) {
        var r :| r in db.data && r.table == t && r.series == id && dropPoint <= r.time;
      }
    }
    if Confirmed(db, t, st, dropPoint + HOUR, id) {
      assert NoUse(db, t, t, dropPoint + HOUR, id);
      forall u | u in db.metrics && u != t && db.metrics[u] == st ensures !db.HasData(u, id) {
        assert NoUse(db, t, u, dropPoint + HOUR, id);
      }
    }
  }

  class Catalog {
    var metrics: map<Table, Table>
    var attached: set<Table>
    var positions: map<Table, seq<Position>>
    var labels: LabelTable
    var series: map<SeriesId, Series>
    var nextSeries: SeriesId
    var data: set<Row>
    var epoch: int
    var lastUpdate: Time
    const epochDuration: int

    constructor (epochDuration: int)
      ensures this.epochDuration == epochDuration && Contents() == Begin()
    {
      this.epochDuration := epochDuration;
      metrics, attached, positions, labels, series, nextSeries := map[], {}, map[], LabelTable(map[], 1), map[], 1;
      data, epoch, lastUpdate := {}, 0, 0;
    }

    function Contents(): Db
      reads this
    {
      Db(metrics, attached, positions, labels, series, nextSeries, data, epoch, lastUpdate)
    }

    // ---------- series rows ----------

    method ResurrectSeriesIds(st: Table, id: SeriesId)
      modifies this`series
      ensures series == if id in old(series) && old(series)[id].table == st
                        then old(series)[id := old(series)[id].(deleteEpoch := None)] else old(series)
    {
      if id in series && series[id].table == st {
        series := series[id := series[id].(deleteEpoch := None)];
      }
    }

    /** Inserts a row for the array, or finds the one in conflict and leaves it as it is. */
    method CreateSeries(st: Table, labelArray: seq<int>) returns (id: SeriesId)
      requires nextSeries !in series
      modifies this`series, this`nextSeries
      ensures nextSeries == old(nextSeries) + 1
      ensures id in series && SameKey(series[id], Series(st, labelArray, None))
      ensures if id in old(series) then series == old(series)
              else id == old(nextSeries) && series == old(series)[id := Series(st, labelArray, None)]
                   && forall j | j in old(series) :: !SameKey(old(series)[j], Series(st, labelArray, None))
    {
      var newSeriesId := nextSeries;
      nextSeries := nextSeries + 1;
      if j :| j in series && SameKey(series[j], Series(st, labelArray, None)) {
        id := j;
      } else {
        id := newSeriesId;
        series := series[id := Series(st, labelArray, None)];
      }
    }

    /** `get_or_create_series_id` once the label array is known. */
    method GetOrCreateSeriesId(st: Table, labelArray: seq<int>) returns (id: SeriesId)
      requires SeriesCatalog.Valid(Contents())
      modifies this`series, this`nextSeries
      ensures (Contents(), id) == ResurrectOrCreate(old(Contents()), st, labelArray)
    {
      if existing :| existing in series && SameKey(series[existing], Series(st, labelArray, None)) {
        id := existing;
        assert SameKey(series[id], series[Existing(Contents(), st, labelArray).value]);
        if series[id].deleteEpoch.Some? {
          ResurrectSeriesIds(st, id);
        }
        assert Contents().series == ResurrectOrCreate(old(Contents()), st, labelArray).0.series;
      } else {
        id := CreateSeries(st, labelArray);
      }
    }

    method DeleteSeriesCatalogRow(st: Table, ids: set<SeriesId>)
      modifies this`series
      ensures series == MarkIf(old(Contents()), st, ids)
    {
      series := map id | id in series ::
        if series[id].table == st && series[id].deleteEpoch == None && id in ids
        then series[id].(deleteEpoch := Some(epoch + 1)) else series[id];
    }

    // ---------- marking ----------

    /** Filters the candidates by every table registered on the series table in turn. */
    method GetConfirmedUnusedSeries(t: Table, st: Table, potential: set<SeriesId>, newerThan: Time)
        returns (confirmed: set<SeriesId>)
      ensures confirmed == set id | id in potential && Confirmed(Contents(), t, st, newerThan, id)
    {
      confirmed := potential;
      var todo := set u | u in metrics && metrics[u] == st;
      ghost var all := todo;
      while todo != {}
        invariant todo <= all
        invariant confirmed == set id | id in potential &&
          forall u | u in all - todo :: NoUse(Contents(), t, u, newerThan, id)
        decreases |todo|
      {
        var u :| u in todo;
        todo := todo - {u};
        assert all - todo == (all - (todo + {u})) + {u};
        confirmed := set id | id in confirmed && NoUse(Contents(), t, u, newerThan, id);
      }
      assert forall u :: u in all <==> u in metrics && metrics[u] == st;
    }

    method MarkSeriesToBeDroppedAsUnused(t: Table, st: Table, dropPoint: Time)
      requires t in metrics && metrics[t] == st
      modifies this`series
      ensures Contents() == Mark(old(Contents()), t, st, dropPoint)
    {
      var checkTime := dropPoint + HOUR;
      var before := set r | r in data && r.table == t && r.time < dropPoint :: r.series;
      var soonAfter := set r | r in data && r.table == t && dropPoint <= r.time < checkTime :: r.series;
      var confirmed := GetConfirmedUnusedSeries(t, st, before - soonAfter, checkTime);
      forall id ensures id in confirmed <==> Unused(Contents(), t, st, dropPoint, id) {
        assert id in before <==> Contents().HasDataBefore(t, id, dropPoint);
        assert id in soonAfter <==> Contents().HasDataIn(t, id, dropPoint, checkTime);
        TwoStagesAreExact(Contents(), t, st, dropPoint, id);
      }
      DeleteSeriesCatalogRow(st, confirmed);
    }

    // ---------- dropping data ----------

    method DropMetricChunkData(t: Table, olderThan: Time, rows: set<Row>)
      modifies this`data
      ensures Contents() == DropData(old(Contents()), t, olderThan, rows)
    {
      data := set r | r in data && !(r in rows && r.table == t && r.time < olderThan);
    }

    // ---------- delete_expired_series ----------

    /** Deletes the dead rows, resurrects the others, and returns the label ids of the deleted ones. */
    method DeleteDeadSeries(t: Table, st: Table, present: int) returns (labelArray: set<int>)
      modifies this`series
      ensures series == Survivors(old(Contents()), t, st, present)
      ensures forall l :: l in labelArray <==>
                exists id | id in old(series) :: Doomed(old(Contents()), t, st, present, id) && Uses(old(series)[id], l)
    {
      var deletionEpoch := present - KEPT_EPOCHS;
      var potential := set id | id in series && series[id].table == st && series[id].deleteEpoch.Some?
                             && series[id].deleteEpoch.value <= deletionEpoch;
      var deadSeries := set id | id in potential && !Contents().HasData(t, id);
      assert forall id :: id in deadSeries <==> Doomed(Contents(), t, st, present, id);
      labelArray := set id, l | id in deadSeries && l in series[id].labels :: l;
      series := map id | id in series && id !in deadSeries ::
        if id in potential then series[id].(deleteEpoch := None) else series[id];
    }

    /** Drops those labels that neither the series table nor any attached one uses any more. */
    method DropLabels(st: Table, labelArray: set<int>)
      modifies this`labels
      ensures var before := old(labels);
              labels == LabelTable(
                map l | l in before.rows && !Droppable(before, series, attached, st, labelArray, l) :: before.rows[l],
                before.next)
    {
      var unusedHere := set l | l in labelArray &&
        !exists id | id in series :: series[id].table == st && Uses(series[id], l);
      var confirmed := set l | l in unusedHere &&
        !exists id | id in series :: series[id].table in attached && Uses(series[id], l);
      labels := LabelTable(
        map l | l in labels.rows && !(l in confirmed && labels.rows[l].key != NAME) :: labels.rows[l], labels.next);
    }

    method DeleteExpiredSeries(t: Table, st: Table, ranAt: Time, present: int, lastUpdated: Time, now: Time)
      modifies this
      ensures Contents() == DeleteExpired(old(Contents()), t, st, ranAt, present, lastUpdated, now, epochDuration)
    {
      ghost var db := Contents();
      var nextEpoch := present + 1;
      var labelArray := DeleteDeadSeries(t, st, present);
      DropLabels(st, labelArray);
      LabelsLeft(db, t, st, present, labelArray, series);
      if ranAt > lastUpdated + epochDuration {
        if epoch < nextEpoch {
          epoch, lastUpdate := nextEpoch, now;
        }
      }
    }
  }

  predicate Droppable(labels: LabelTable, series: map<SeriesId, Series>, attached: set<Table>,
                      st: Table, labelArray: set<int>, l: int)
    requires l in labels.rows
  {
    && l in labelArray && labels.rows[l].key != NAME
    && forall id | id in series :: (series[id].table == st || series[id].table in attached) ==> !Uses(series[id], l)
  }

  /** The labels of the deleted rows that no remaining row uses are the ones to drop. */
  lemma LabelsLeft(db: Db, t: Table, st: Table, present: int, labelArray: set<int>, series: map<SeriesId, Series>)
    requires series == Survivors(db, t, st, present)
    requires forall l :: l in labelArray <==>
               exists id | id in db.series :: Doomed(db, t, st, present, id) && Uses(db.series[id], l)
    ensures (map l | l in db.labels.rows && !Droppable(db.labels, series, db.attached, st, labelArray, l) ::
              db.labels.rows[l])
         == (map l | l in db.labels.rows && !DropsLabel(db, t, st, present, l) :: db.labels.rows[l])
  {
    assert forall id | id in series :: SameKey(series[id], db.series[id]);
    forall l | l in db.labels.rows
      ensures Droppable(db.labels, series, db.attached, st, labelArray, l) <==> DropsLabel(db, t, st, present, l) {
      if Droppable(db.labels, series, db.attached, st, labelArray, l) {
        forall id | id in db.series && !Doomed(db, t, st, present, id)
                    && (db.series[id].table == st || db.series[id].table in db.attached)
          ensures !Uses(db.series[id], l) {
          assert id in series && SameKey(series[id], db.series[id]) && !Uses(series[id], l);
        }
      }
    }
  }

  // ---------- drop_metric_chunks ----------

  class DropMetricChunks {
    const catalog: Catalog
    const table: Table
    const seriesTable: Table
    const ranAt: Time
    var pc: Pc
    var olderThan: Option<Time>
    var presentEpoch: int
    var lastUpdated: Time

    constructor (catalog: Catalog, table: Table, ranAt: Time)
      requires table in catalog.metrics
      ensures this.catalog == catalog && Local() == Job(table, catalog.metrics[table], ranAt, ReadEpoch, None, 0, 0)
    {
      this.catalog, this.table, this.seriesTable, this.ranAt := catalog, table, catalog.metrics[table], ranAt;
      pc, olderThan, presentEpoch, lastUpdated := ReadEpoch, None, 0, 0;
    }

    function Local(): Job
      reads this
    {
      Job(table, seriesTable, ranAt, pc, olderThan, presentEpoch, lastUpdated)
    }

    method ReadIdsEpoch()
      modifies this`presentEpoch, this`lastUpdated
      ensures presentEpoch == catalog.epoch && lastUpdated == catalog.lastUpdate
    {
      presentEpoch, lastUpdated := catalog.epoch, catalog.lastUpdate;
    }

    /** The next transaction of the run, up to its commit. */
    method Transaction(cutOff: Option<Time>, rows: set<Row>, now: Time)
      requires table in catalog.metrics && catalog.metrics[table] == seriesTable
      modifies this, catalog
      ensures (catalog.Contents(), Local()) ==
        RunTransaction(catalog.epochDuration, old(catalog.Contents()), old(Local()), cutOff, rows, now)
    {
      match pc
      case ReadEpoch =>
        olderThan := cutOff;
        ReadIdsEpoch();
        pc := if olderThan.None? then Pc.DeleteExpiredSeries else MarkUnused;
      case MarkUnused =>
        if olderThan.Some? {
          catalog.MarkSeriesToBeDroppedAsUnused(table, seriesTable, olderThan.value);
        }
        pc := DropChunks;
      case DropChunks =>
        if olderThan.Some? {
          catalog.DropMetricChunkData(table, olderThan.value, rows);
        }
        ReadIdsEpoch();
        pc := Pc.DeleteExpiredSeries;
      case DeleteExpiredSeries =>
        catalog.DeleteExpiredSeries(table, seriesTable, ranAt, presentEpoch, lastUpdated, now);
        pc := Finished;
      case Finished =>
    }
  }
}
