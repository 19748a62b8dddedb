# Promscale extension: verified core

This project models the stateful and algorithmic core of the Promscale PostgreSQL extension in Dafny and
proves what it is relied on for. `dafny verify dfyconfig.toml` checks all of it.

| files | what they model |
|---|---|
| `LabelPositions.dfy`, `LabelArrays.dfy`, `SeriesCatalog.dfy` | label positions, label ids, label arrays, series rows, and the catalog transactions as functions on the committed state |
| `CatalogProcedures.dfy` | the PL/pgSQL procedures as they update their tables, each proved to be its transaction |
| `Retention.dfy`, `RetentionSafety.dfy`, `RetentionGaps.dfy` | series garbage collection: any number of four-transaction retention runs interleaved with ingest, views and deletions |
| `MaintenanceLocks.dfy` | the two-pass maintenance loops over advisory locks |
| `HaLease.dfy`, `HaLeaseHistory.dfy` | leader leases and their audit log, at the granularity of single statements |
| `IterableJsonb.dfy`, `JsonbDigest.dfy` | the token iterator and the byte encoding of a JSONB document |
| `Extrapolation.dfy`, `GapfillDelta.dfy`, `PromAggregates.dfy` | delta, increase and rate over a sliding window |
| `VectorSelector.dfy` | the bucketed, parallel vector selector |
| `TagMap.dfy`, `TagMapRewrite.dfy` | tag maps and the planner rewrite of conditions on them |
| `SpanTree.dfy` | the recursive span queries |

Concurrent systems are state machines: a run is a sequence of events, an event that is not enabled changes
nothing, and the theorems quantify over all sequences and all states of a run. Code that updates tables or
fields in place is a class whose methods are proved equal to a specification function, and the theorems are
about that function.

## What the code does not promise

Some properties hold only under a condition. The code is modelled as it is; for each there is a run or an
input that breaks it and a theorem with the condition under which it holds.

- Data without a series. `delete_expired_series` rechecks only the table of the metric it maintains
  (migration/idempotent/001-base.sql:2169-2175), although views share the series table. Deleting the data
  and series of a metric that has a materialized view leaves the view's rows without their series five
  epochs later (`RetentionGaps.SharedTableDangles`). Views that are not registered are not searched at all,
  so their rows, and those of views based on them, may have lost their series when they are registered or
  refreshed (`RetentionGaps.LateRegistrationDangles`, `RetentionGaps.LateRefreshDangles`). There is no other
  way (`RetentionSafety.DanglesExactlyWhen`).
- Labels of unattached tables. The global check of a label reads the partitioned parent, to which a new
  series table is attached only later (migration/idempotent/001-base.sql:313-316), so a label that only an
  unattached table uses can be deleted (`RetentionGaps.UnattachedTableLosesLabels`,
  `RetentionSafety.LabelsKeptExactlyWhen`).
- Takeover from oneself. `try_change_leader` for the current leader moves the start of the lease without a
  log row (migration/idempotent/004-ha.sql:10-12), which breaks the log (`HaLease.AuditLogChain`). Fencing
  and the uniqueness of log rows do not depend on it.
- Earlier times. A lease does not fence times before its own start: a new leader's `update_lease` returns
  normally for a batch that the former leader's lease covered (`HaLease.EarlierTimesAreNotFenced`).
  `HaLease.Fencing` speaks of leases that have started by `max_time`; for all others the log tells
  (`HaLeaseHistory.FencedExactlyWhen`).
- Negation. The rewritten tag conditions are TRUE for the same rows but are false where the original is
  NULL, so a negated condition can select more rows (`TagMapRewrite.NotIsNotPreserved`,
  `TagMapRewrite.NotNeedsSameValue`).
- Cyclic parents. `trace_tree` ends on every trace with unique span ids; `downstream_spans` and
  `upstream_spans` without a distance limit do so only if the parent links have no cycle
  (`SpanTree.OwnParentNeverEnds`, `SpanTree.EndsExactlyWhenAcyclic`).
- Paths. The comments on `upstream_spans` and `downstream_spans` describe the path as leading from the given
  span towards the root; both report it from the top down (`SpanTree.UpstreamExactly`,
  `SpanTree.DownstreamExactly`).
- Division by zero. A window whose samples all share one time, or a rate over less than a second, has no
  number as its value (`GapfillDelta.OneTimeIsNotANumber`, `Extrapolation.NumberExactlyWhen`).

## Hypotheses

- HA: constant settings with `lease_timeout > lease_refresh >= 0`, and `min_time <= max_time`. Writes are
  visible at once, a larger set of interleavings than committed reads allow.
- Retention: a transaction is one step; `ran_at` is not later than the time of the last transaction; the
  cut-off and the rows of the dropped chunks, which come from TimescaleDB's catalog, are arbitrary
  parameters; writers insert with an id only while the epoch is less than five above the one the id was
  read at.
- Digest: text contains no zero byte, stored keys have one fixed order, equal numerics are exactly those
  with equal normalized text, and a document has at most 0x0101010101010101 tokens.
- Gap fill: sample values are reals or the stale marker. A zero step and a negative capacity are modelled
  as the errors they raise; a negative step that passes them is excluded where the loops would not end.
- Vector selector: `start <= end` and a width that is not negative; the division by a zero width is
  modelled as an error.
- Tags: stored maps are well formed (each pair names an existing tag with that key), tag keys and values
  are unique by digest, and the operands have their declared types.
- Spans: where a theorem on termination or on `trace_tree` says so, span ids are unique within a trace; the
  primary key (migration/incremental/015-tracing-redesign.sql:432) includes the start time.

## Model

| member | source | states |
|---|---|---|
| `Retention.GracePeriod` | migration/idempotent/001-base.sql:2154-2180 | an id returned by get-or-create at epoch e still has its row, with the same label array, in every later state of every run in which the epoch is below e + 5, whatever ingest, marking and stale retention runs do in between |
| `Retention.MarkedRowsWait` | migration/idempotent/001-base.sql:2116-2180 | in every run, a row that is unmarked or was marked at the current epoch is still there, with the same labels, in every later state in which the epoch is less than five higher |
| `Retention.Reachable` | migration/idempotent/011-maintenance.sql:112-188 | invariant of every interleaving: stale epoch readings are never ahead of the epoch, a reading equal to it carries the current update time, ids handed out are protected for five epochs, and the catalog stays valid |
| `Retention.StepKeeps` | migration/idempotent/011-maintenance.sql:112-188 | every transaction of every party keeps that invariant, raises the epoch by at most one and takes no id from its holder |
| `Retention.DeleteAdvances` | migration/idempotent/001-base.sql:2154-2180 | deletion with a reading that is not ahead of the epoch spares every protected row |
| `Retention.MarkAdvances` | migration/idempotent/001-base.sql:2116-2119 | marking writes an epoch above that of every id handed out, so it never shortens a grace period |
| `Retention.ObtainAdvances` | migration/idempotent/001-base.sql:1303-1341 | get-or-create leaves every other protected row protected and returns an unmarked row of the metric |
| `Retention.AloneRun` | migration/idempotent/011-maintenance.sql:112-188 | a run that nothing interferes with ends as marking, dropping and deleting in this order, the deletion with the epoch and the update time as they are then; without chunks to drop it only deletes |
| `Retention.ReadsEpoch` | migration/idempotent/011-maintenance.sql:112-188 | the first and the third transaction read the epoch together with its update time; the second one does not |
| `RetentionSafety.DanglesExactlyWhen` | migration/idempotent/001-base.sql:2159-2189 | for every run and series table: all data rows of all tables registered on it keep their series throughout if and only if no deletion takes a series that a registered table other than the one it rechecks has data for, no view is registered with rows whose series are gone, and no registered view is refreshed with such a row |
| `RetentionSafety.StepDangles` | migration/idempotent/001-base.sql:2159-2189 | the same for a single step, both directions |
| `RetentionGaps.SharedTableDangles` | migration/idempotent/001-base.sql:2169-2175 | a run (metric with a registered view, its data deleted and its series marked, six retention runs) that leaves a view row without its series |
| `RetentionGaps.LateRegistrationDangles` | migration/idempotent/001-base.sql:2614-2617 | a run in which a retention run marks a series that only an unregistered view still has data for, later runs delete it, and registering the view then leaves the row without its series |
| `RetentionGaps.LateRefreshDangles` | migration/idempotent/001-base.sql:2014-2047 | the same with the unregistered view as the source of a registered one |
| `RetentionSafety.IdsKeepMeaning` | migration/idempotent/001-base.sql:1250-1261 | for any two states of a run: an id that comes up in the later one and is not new was there in the earlier one with the same metric and label array, so a deleted id never comes back |
| `RetentionSafety.UndisturbedRunFreesSeries` | migration/idempotent/011-maintenance.sql:155-178 | in every run, when a retention run drops all older rows right after marking, no registered table has data left for a series it marked |
| `RetentionSafety.ResurrectedRowsWait` | migration/idempotent/001-base.sql:2181-2186 | in every run, a marked row that a deletion finds expired but in use is unmarked by it, and is still there, with the same labels, in every later state less than five epochs on |
| `RetentionSafety.UnsharedNeverDangles` | migration/idempotent/001-base.sql:2165-2184 | a metric without registered views never has a data row without its series, in any run |
| `RetentionSafety.LabelsKeptExactlyWhen` | migration/idempotent/001-base.sql:2199-2224 | for every run: all series rows keep all their labels, each at its position, throughout if and only if no deletion drops a label used by a row of a series table that is not attached yet |
| `RetentionSafety.LabelStep` | migration/idempotent/001-base.sql:2199-2224 | the same for a single step, both directions |
| `RetentionSafety.AttachedForGood` | migration/idempotent/001-base.sql:313-316 | in every run, a series table that has been attached stays so |
| `RetentionGaps.UnattachedTableLosesLabels` | migration/idempotent/001-base.sql:313-316 | a run in which a series in an unattached table loses a label |
| `RetentionSafety.IdentityInRuns` | migration/idempotent/001-base.sql:1251-1272 | until then, in every reachable state the series of a metric and their label sets correspond one to one, and asking for a label set that has a series returns it |
| `RetentionSafety.EpochStep` | migration/idempotent/001-base.sql:2229-2236 | the epoch never decreases and rises by exactly one, only more than the epoch duration after the last update, however stale the reading |
| `RetentionSafety.EpochSpacing` | migration/idempotent/001-base.sql:2229-2236 | any two updates of the epoch in a run are more than the epoch duration apart |
| `SeriesCatalog.GetOrCreateCorrect` | migration/idempotent/001-base.sql:1303-1341 | the returned id has an unmarked row of the metric that stands for exactly the requested labels; a row found keeps its labels, a new one gets the next id; all other rows and all labels stay |
| `SeriesCatalog.GetOrCreateTouches` | migration/idempotent/001-base.sql:1303-1341 | beyond that it registers the metric, creates no labels but the requested ones and the name of a new metric, and leaves data, epoch, partitions and the positions of other metrics alone |
| `SeriesCatalog.SameLabelsSameId` | migration/idempotent/001-base.sql:1319-1335 | a label set that has a row gets that row's id, also after label positions and labels have grown |
| `SeriesCatalog.SeriesIdentity` | migration/idempotent/001-base.sql:1251-1272 | two rows of a metric stand for the same labels only if they are the same row |
| `SeriesCatalog.ResurrectOrCreateKeeps` | migration/idempotent/001-base.sql:1239-1292 | clearing a delete epoch or inserting a row keeps ids and label arrays unique |
| `SeriesCatalog.ObtainUndoesMark` | migration/idempotent/001-base.sql:1278-1339 | asking for a marked series again finds the row and restores the catalog to exactly what it was before the marking |
| `SeriesCatalog.MarkedExactly` | migration/idempotent/001-base.sql:2081-2119 | row by row, from the data: an unmarked row of the series table gets the next epoch if and only if its table has data for it before the drop point and none from it on, and no other table on the series table has any; all other rows stay as they are |
| `SeriesCatalog.DroppedExactly` | migration/idempotent/011-maintenance.sql:66-71 | dropping spares the rows of other tables and those from the cut-off on, and takes all older ones in the dropped chunks |
| `SeriesCatalog.DeletedExactly` | migration/idempotent/001-base.sql:2159-2189 | row by row: a row of the series table marked at least four epochs before the reading is deleted if and only if its table has no data for it, and is unmarked otherwise; all other rows stay as they are |
| `SeriesCatalog.NothingExpiredLeft` | migration/idempotent/001-base.sql:2159-2189 | no row of the series table that the reading makes expired is left marked |
| `SeriesCatalog.LabelsDroppedExactly` | migration/idempotent/001-base.sql:2199-2224 | label by label: it goes if and only if a deleted row used it, no remaining row of the series table or of an attached one does, and it is not a metric name |
| `SeriesCatalog.EpochAfterDelete` | migration/idempotent/001-base.sql:2229-2236 | the epoch becomes the reading plus one, with the current time, if and only if the run started more than the epoch duration after the update it read and nobody has moved the epoch since |
| `SeriesCatalog.DeleteKeepsLabels` | migration/idempotent/001-base.sql:2187-2224 | after a deletion all surviving rows have all their labels if and only if no row of an unattached foreign table uses a dropped label; with all tables attached, always |
| `CatalogProcedures.TwoStagesAreExact` | migration/idempotent/001-base.sql:2081-2119 | candidates from before the drop point minus those of the next hour, filtered by every other table and by the own one from an hour on, are exactly the series with data before the drop point, none from it on and none elsewhere |
| `CatalogProcedures.Catalog.GetConfirmedUnusedSeries` | migration/idempotent/001-base.sql:2014-2047 | the loop over the metrics of a series table keeps exactly the candidates that none of them uses |
| `CatalogProcedures.Catalog.MarkSeriesToBeDroppedAsUnused` | migration/idempotent/001-base.sql:2068-2122 | marks exactly the unmarked unused series of the series table, with the next epoch, and changes nothing else |
| `CatalogProcedures.Catalog.CreateSeries` | migration/idempotent/001-base.sql:1239-1274 | inserts the row, or finds the row in conflict and leaves it as it is; uses up one sequence value either way |
| `CatalogProcedures.Catalog.GetOrCreateSeriesId` | migration/idempotent/001-base.sql:1319-1339 | finds and resurrects, or creates, the row of a label array |
| `CatalogProcedures.Catalog.DeleteDeadSeries` | migration/idempotent/001-base.sql:2159-2189 | deletes the expired rows without data, resurrects the expired ones with data, and returns exactly the label ids of the deleted ones |
| `CatalogProcedures.Catalog.DropLabels` | migration/idempotent/001-base.sql:2199-2224 | the local and the global check drop exactly the label ids, names excepted, that neither the series table nor an attached one uses |
| `CatalogProcedures.Catalog.DeleteExpiredSeries` | migration/idempotent/001-base.sql:2139-2237 | the whole procedure: rows, labels and the guarded epoch update |
| `CatalogProcedures.DropMetricChunks.Transaction` | migration/idempotent/011-maintenance.sql:112-188 | each of the four transactions with its local variables is the atomic step that the theorems about runs speak of |
| `LabelPositions.PositionTable.LookUpOrInsert` | migration/idempotent/001-base.sql:725-764 | one round of the loop, also for a key that an earlier round inserted |
| `LabelPositions.PositionTable.Known` | migration/idempotent/001-base.sql:679-696 | the optimistic look finds as many positions as there are keys exactly when all keys are known, and then in their order |
| `LabelPositions.PositionTable.GetNewPosForKey` | migration/idempotent/001-base.sql:679-774 | the double check, with other sessions adding rows between the optimistic look and the lock: returns the position of every key in the order of the keys, moves no position, and adds exactly the keys of both |
| `LabelPositions.PositionTable.UnderLock` | migration/idempotent/001-base.sql:698-765 | the loop under the lock |
| `LabelPositions.WithKeysKeeps` | migration/idempotent/001-base.sql:694-774 | keys stay unique, `__name__` stays at 1, the rest stays without gaps, no position changes, exactly the requested keys are added |
| `LabelPositions.PositionsInjective` | migration/idempotent/001-base.sql:742-757 | no two keys share a position |
| `LabelPositions.PositionRange` | migration/idempotent/001-base.sql:713-747 | in a metric's table `__name__` is at 1 and every other key from 2 on, in an exemplar table every key from 1 on; all before the next free position |
| `LabelPositions.PositionsCompact` | migration/idempotent/001-base.sql:652-653 | every position from the first one (2 for a metric, 1 for exemplars) to the next free one has a key |
| `LabelPositions.NextPosIsFree` | migration/idempotent/001-base.sql:707-720 | `max(pos) + 1` is one more than the number of rows, two more in a metric's table without a row for `__name__` |
| `LabelPositions.OneKeyAtATime` | migration/idempotent/001-base.sql:944-964 | asking for one more key afterwards gives the table that asking for all at once gives |
| `LabelArrays.LabelArrayCorrect` | migration/idempotent/001-base.sql:1066-1094 | the zero-padded array is canonical and stands for exactly the requested labels |
| `LabelArrays.ArrayHasLabel` | migration/idempotent/001-base.sql:1066-1094 | the id of every requested label is at the index of its key's position, counted from 1 |
| `LabelArrays.CanonicalUnique` | migration/idempotent/001-base.sql:1055-1057 | canonical arrays for the same labels are the same array |
| `LabelArrays.CanonicalStable` | migration/idempotent/001-base.sql:1066-1094 | growing position and label tables change neither what an array stands for nor that it is canonical |
| `LabelArrays.InternAllKeeps` | migration/idempotent/001-base.sql:1033-1051 | creating label ids keeps the existing ones, gives every label one, and creates no others |
| `MaintenanceLocks.WorkersExclude` | migration/idempotent/011-maintenance.sql:408-440 | for any number of workers and any schedule: no two process the same metric, a waiting worker holds no lock, a finished worker has processed each listed metric exactly once, and when all have finished no lock is left |
| `MaintenanceLocks.SomebodyMoves` | migration/idempotent/011-maintenance.sql:428-435 | no deadlock: unless all are done, somebody can move |
| `MaintenanceLocks.MovesBounded` | migration/idempotent/011-maintenance.sql:408-440 | no schedule makes more moves than there is work |
| `MaintenanceLocks.CanFinish` | migration/idempotent/001-base.sql:3468-3552 | from every reachable state all workers can finish |
| `MaintenanceLocks.StepKeeps` | migration/idempotent/001-base.sql:241-271 | every move keeps the agreement between locks and workers and does work |
| `MaintenanceLocks.LockTable.LockMetric` | migration/idempotent/001-base.sql:241-257 | trying succeeds exactly when the metric is free and otherwise changes nothing; waiting ends with the lock, granted only after its holder released it; all other locks keep their holders; every try is recorded with what it found |
| `MaintenanceLocks.LockTable.UnlockMetric` | migration/idempotent/001-base.sql:263-271 | gives up exactly this lock |
| `MaintenanceLocks.LockTable.Work` | migration/idempotent/011-maintenance.sql:415-416 | work on a metric needs its lock, and the lock is still held when it is done |
| `MaintenanceLocks.TryMetric` | migration/idempotent/011-maintenance.sql:408-421 | a round of the first loop: the metric is worked on if and only if it was free when it was tried, and no lock is left |
| `MaintenanceLocks.AwaitMetric` | migration/idempotent/011-maintenance.sql:428-436 | a round of the second loop: the metric is worked on, and no lock is left |
| `MaintenanceLocks.ExecutePolicy` | migration/idempotent/011-maintenance.sql:393-440 | every listed metric is tried once, in order; the work, all of it under the metric's lock, is on the metrics that were free when tried, in listed order, and then on the others, in listed order; no lock is left, whatever other sessions do |
| `MaintenanceLocks.SessionIsWorker` | migration/idempotent/011-maintenance.sql:408-440 | whatever the tries find, what such a session does is a complete sequence of moves of a worker of the system that `WorkersExclude` speaks of, and works on each metric as often as it is listed |
| `HaLease.Fencing` | migration/idempotent/004-ha.sql:54-123 | in every interleaving of statements: an `update_lease` that returned normally held the lease past `max_time` at some state of its call, and if that lease had started by `max_time`, no lease of another leader contains `max_time` at any state of the run, earlier or later |
| `HaLease.ReturnsHeld` | migration/idempotent/004-ha.sql:73-99 | every call that passes its checks has been the leader with `lease_until` above `max_time` |
| `HaLease.HeldIsExclusive` | migration/idempotent/004-ha.sql:118-123 | whoever holds the lease over a time excludes all other leaders from that time, before and after |
| `HaLease.EarlierTimesAreNotFenced` | migration/idempotent/004-ha.sql:77-99 | a run in which a new leader returns normally for a `max_time` before its own lease that the former leader's lease contained, so the guard of `Fencing` is needed |
| `HaLease.RowEvolves` | migration/idempotent/004-ha.sql:82-123 | along any run a cluster's lease only extends or is followed by one that starts where it ended or later |
| `HaLease.TargetMovesForward` | migration/idempotent/004-ha.sql:63-123 | every write a statement makes raises `lease_until` strictly and keeps the lease non-empty |
| `HaLease.ExecuteKeeps` | migration/idempotent/004-ha.sql:54-129 | every statement keeps the invariants of all clusters |
| `HaLease.WriteKeeps` | migration/idempotent/004-ha.sql:8-29 | a write that moves forward never violates the key of the log and keeps row and log in step |
| `HaLease.StateInv` | migration/idempotent/004-ha.sql:54-129 | the invariants hold in every reachable state |
| `HaLease.AuditLogChain` | migration/idempotent/004-ha.sql:10-26 | the log is a chain of contiguous half-open intervals, only the newest open and equal to the current lease, throughout a run if and only if no leader takes over from itself in it |
| `HaLeaseHistory.RowsWereHeld` | migration/idempotent/004-ha.sql:14-26 | without a takeover from oneself, every log row is a lease that was held at some state of the run, until the row's end once it is closed |
| `HaLeaseHistory.LeasesAreRecorded` | migration/idempotent/004-ha.sql:14-26 | and every lease held at any state has its row, open or ending no earlier than the lease then did |
| `HaLeaseHistory.FencedExactlyWhen` | migration/idempotent/004-ha.sql:77-99 | without a takeover from oneself before it, the time of a call that holds the lease is in no lease of another leader, at any state of the run, if and only if it is in no closed log row of another leader |
| `HaLease.ChainStep` | migration/idempotent/004-ha.sql:10-12 | the same for one statement, both directions |
| `HaLease.WriteChain` | migration/idempotent/004-ha.sql:14-28 | the same for one write, both directions |
| `HaLease.SelfTakeoverBreaksTheLog` | migration/idempotent/004-ha.sql:118-123 | a five-event run in which a leader's takeover from itself breaks the log |
| `HaLease.WritesRaiseUntil` | migration/incremental/009-tables-ha.sql:11-18 | every change of a row raises `lease_until` strictly, and no statement of any run violates the primary key of the log, takeovers from oneself included |
| `HaLease.AloneUpdateLease` | migration/idempotent/004-ha.sql:34-100 | what an undisturbed call does: refuse another leader, create, extend only beyond the refresh margin, or return the lease as it is |
| `HaLease.AloneTryChangeLeader` | migration/idempotent/004-ha.sql:104-131 | what an undisturbed call does: nothing while the lease is still above `max_time`, else a lease from its end to `max_time` plus the timeout, with the log's open row closed and one added; without a row it fails |
| `HaLease.WritesExactly` | migration/idempotent/004-ha.sql:63-123 | in every run, a change of a row is its call's: the new lease ends at `max_time` plus the timeout; an insert starts at `min_time`, an extension keeps the start and gains more than the refresh margin, a takeover is of a lease that ended by `max_time` and starts at that end |
| `HaLease.RefusedOnlyWhenLost` | migration/idempotent/004-ha.sql:73-97 | in every run, `update_lease` is refused only while another leads or the lease does not cover `max_time` |
| `HaLease.OvertakenGoesOn` | migration/idempotent/004-ha.sql:63-96 | a call whose insert lost goes on as if it had read the winner's row; one whose update lost returns that row if it is still the leader's and covers `max_time` |
| `HaLease.AuditExactly` | migration/idempotent/004-ha.sql:2-29 | row by row: a write by the same leader leaves the log alone; any other closes the open row of the previous lease at its end and adds an open row, failing if and only if the log has one of that leader and start |
| `HaLease.HaCatalog.HaLeasesAuditFn` | migration/idempotent/004-ha.sql:2-29 | the trigger's updates to the log, the unique violation included |
| `HaLease.HaCatalog.WriteLease` | migration/idempotent/004-ha.sql:8-29 | one row write with its trigger; an error undoes both |
| `HaLease.HaCatalog.RunStatement` | migration/idempotent/004-ha.sql:54-129 | one statement of one session on the tables is the step that the theorems about runs speak of |
| `JsonbDigest.PreimageIsSemantic` | src/jsonb_digest.rs:11-13 | two documents feed the hash the same bytes if and only if they are semantically equal |
| `JsonbDigest.DigestIsSemantic` | src/jsonb_digest.rs:34-72 | equal documents have equal digests; if unequal documents have equal digests, their two encodings differ and are themselves a collision of the hash |
| `JsonbDigest.TokensAreWritten` | src/jsonb_digest.rs:43-69 | the bytes fed to the hash, spelled out over the document: index, then 1 for null, 2 and 3 for true and false, 4 and the text, 5 and the normalized number; 13 and 14 around the elements of an array, 11 and 12 around the members of an object, 10 and the key before each value; the index counts up by one |
| `JsonbDigest.IndexIsLittleEndian` | src/jsonb_digest.rs:44 | an index below 2^64 is written as its eight bytes, the least significant one first |
| `JsonbDigest.EncodeInjective` | src/jsonb_digest.rs:42-69 | equal byte streams come from equal token streams |
| `JsonbDigest.PayloadsAlign` | src/jsonb_digest.rs:50-61 | an unprefixed payload ends where the zero byte of the next index says it does |
| `JsonbDigest.IndexHasZero` | src/jsonb_digest.rs:44 | every admissible index has a zero among its eight little-endian bytes |
| `JsonbDigest.Compute` | src/jsonb_digest.rs:34-72 | the loop over the iterator returns the hash of exactly these bytes |
| `JsonbDigest.Consume` | src/jsonb_digest.rs:43-69 | the loop feeds the hash exactly the encoding of the remaining tokens |
| `JsonbDigest.Feed` | src/jsonb_digest.rs:44-68 | one token adds its index, tag and payload |
| `IterableJsonb.DocumentEmits` | src/iterable_jsonb.rs:127-175 | iterating over the stored form emits exactly the tokens of the document, brackets of a raw scalar stripped |
| `IterableJsonb.ContainerEmits` | src/iterable_jsonb.rs:140-169 | iterating over a container loses and adds nothing |
| `IterableJsonb.TokensPrefixFree` | src/iterable_jsonb.rs:105-119 | a document can be read off the front of any token stream, a scalar and a one-element array never being confused |
| `IterableJsonb.SameTokens` | src/iterable_jsonb.rs:105-119 | semantically equal documents have the same tokens |
| `IterableJsonb.TokenIterator.Next` | src/iterable_jsonb.rs:131-174 | returns the first remaining token and advances by it; ends exactly when none remains |
| `GapfillDelta.Aggregate` | src/aggregates/prom_delta.rs:44-79 | over in-bounds rows in time order, samples at the same time included, the aggregate returns for every window the delta of exactly the samples in it; out-of-bounds rows, a zero step and an impossible capacity fail, and the order error is only ever raised for rows out of order |
| `PromAggregates.PromDelta` | src/aggregates/prom_delta.rs:44-79 | in milliseconds and from the arguments to the result: for in-bounds rows in time order, entry k exists if and only if the window that starts k steps after `lowest` ends by `greatest`, and is the delta of the samples in it as a gauge; the error cases as above |
| `PromAggregates.PromIncrease` | src/aggregates/prom_increase.rs:48-76 | the same for a counter |
| `PromAggregates.PromRate` | src/aggregates/prom_rate.rs:48-79 | the same for the rate of a counter |
| `PromAggregates.NaiveHasEachWindow` | src/aggregates/gapfill_delta.rs:50-72 | steps and ranges in milliseconds become windows in microseconds |
| `GapfillDelta.NegativeStepNeverEnds` | src/aggregates/gapfill_delta.rs:97-101 | with a negative step, once one window ends by the greatest time all later ones do, so that the loops that flush never end |
| `GapfillDelta.OneTimeIsNotANumber` | src/aggregates/gapfill_delta.rs:181 | two samples at one time, alone in their window, give not-a-number |
| `GapfillDelta.GapfillDeltaTransition.AddDataPoint` | src/aggregates/gapfill_delta.rs:75-91 | skips stale markers, flushes, rejects a late sample exactly while its predecessor is still in the window, and adds any other sample, equal times included, to the history |
| `GapfillDelta.GapfillDeltaTransition.AsVec` | src/aggregates/gapfill_delta.rs:190-195 | the deque's result equals the filter over the whole history, for overlapping and for gapped windows; the loop ends |
| `GapfillDelta.GapfillDeltaTransition.FlushUntil` | src/aggregates/gapfill_delta.rs:81-83 | the flush loop ends with the sample's time in reach and has flushed only windows that ended before it |
| `GapfillDelta.GapfillDeltaTransition.FlushCurrentWindow` | src/aggregates/gapfill_delta.rs:97-111 | one entry per flush, the deque again exactly the samples of the next window |
| `GapfillDelta.GapfillDeltaTransition.AddDeltaForCurrentWindow` | src/aggregates/gapfill_delta.rs:115-188 | pushes the extrapolated delta of the window, or none below two samples |
| `GapfillDelta.GapfillDeltaTransition.CounterCorrection` | src/aggregates/gapfill_delta.rs:122-131 | the loop adds up the values before each reset |
| `GapfillDelta.GapfillDeltaTransition.ExtrapolateTo` | src/aggregates/gapfill_delta.rs:137-179 | the extrapolated interval of the window |
| `GapfillDelta.NumWindowsExact` | src/aggregates/gapfill_delta.rs:191 | window k has an entry if and only if it ends by the greatest time |
| `GapfillDelta.WindowBounds` | src/aggregates/gapfill_delta.rs:65-66 | window k is [lowest + k step, lowest + k step + range] |
| `GapfillDelta.InWindowMembers` | src/aggregates/gapfill_delta.rs:93-95 | the filter keeps exactly the samples in the closed window |
| `GapfillDelta.InWindowSnoc` | src/aggregates/gapfill_delta.rs:87-95 | the samples of a window are in the order they came in, each as often as it came |
| `GapfillDelta.SamplesSnoc` | src/aggregates/gapfill_delta.rs:75-79 | every row counts with its time and value, in order, except stale markers |
| `GapfillDelta.StartErrorExactly` | src/aggregates/gapfill_delta.rs:58-64 | a zero step divides by zero; a negative one asks for a negative capacity if and only if the times span exactly one of its sizes or at least two; a positive step never fails |
| `GapfillDelta.SlideWindow` | src/aggregates/gapfill_delta.rs:103-110 | dropping from the front is the same as filtering by the next window |
| `GapfillDelta.FlushedKeeps` | src/aggregates/gapfill_delta.rs:81-83 | a flushed window's delta is not changed by later samples |
| `GapfillDelta.Consume` | src/aggregates/prom_delta.rs:57-76 | all rows are taken in order, or the first offending one is reported |
| `Extrapolation.ExtrapolationBounds` | src/aggregates/gapfill_delta.rs:137-179 | the extrapolated interval is at least the sampled one and at most the window |
| `Extrapolation.CounterStaysNonNegative` | src/aggregates/gapfill_delta.rs:147-159 | a counter extrapolated back to the start is never negative |
| `Extrapolation.DeltaExactly` | src/aggregates/gapfill_delta.rs:135-181 | delta times sampled seconds is the change times the extrapolated seconds, the change being last minus first value, or the growth of a counter |
| `Extrapolation.NoExtrapolation` | src/aggregates/gapfill_delta.rs:135-181 | with samples at both edges of the window the delta is exactly that change |
| `Extrapolation.StartExactly` | src/aggregates/gapfill_delta.rs:138-165 | the start is extended to the edge of the window if that is less than 1.1 average distances away, by half of one otherwise; for a growing counter the edge is no further than where it would have been zero |
| `Extrapolation.ExtendedExactly` | src/aggregates/gapfill_delta.rs:141-179 | the end likewise, the average being the sampled seconds over one less than the number of samples; the interval is the sum of the three |
| `Extrapolation.RateExactly` | src/aggregates/gapfill_delta.rs:183-185 | a rate times the whole seconds of the range is the increase |
| `Extrapolation.RateWithoutSeconds` | src/aggregates/gapfill_delta.rs:183-185 | over less than a second it is infinite with the sign of the increase, or not a number without one |
| `Extrapolation.NoneExactlyWhen` | src/aggregates/gapfill_delta.rs:116-119 | there is no value if and only if there are fewer than two samples |
| `Extrapolation.IncreaseIsGrowth` | src/aggregates/gapfill_delta.rs:122-135 | last minus first plus correction is the sum over neighbours of the difference, or of the new value after a reset |
| `Extrapolation.IncreaseNonNegative` | src/aggregates/gapfill_delta.rs:122-135 | it is not negative for non-negative samples |
| `Extrapolation.IncreaseSplits` | src/aggregates/gapfill_delta.rs:122-135 | it is additive when a window is split at a shared sample |
| `Extrapolation.RateBounds` | src/aggregates/gapfill_delta.rs:181-185 | for a positive range of whole seconds the rate is a number and lies between the increase over the range and the increase over the sampled interval |
| `Extrapolation.NumberExactlyWhen` | src/aggregates/gapfill_delta.rs:181-185 | the value of a window is a number if and only if its samples do not all share one time and a rate's range has a whole second; all at one time, it is not a number |
| `VectorSelector.VectorSelector.Results` | src/aggregates/vector_selector.rs:418-462 | after any accepted inserts and combinations, result i is the latest sample of the lookback window at step i, none if there is none or it is the stale marker |
| `VectorSelector.VectorSelector.Insert` | src/aggregates/vector_selector.rs:375-416 | accepts or fails exactly as the bounds say and extends the represented stream by the sample |
| `VectorSelector.VectorSelector.Combine` | src/aggregates/vector_selector.rs:347-373 | the state of one stream followed by the other; fails exactly on different parameters |
| `VectorSelector.VectorSelector.StepValue` | src/aggregates/vector_selector.rs:432-457 | one round of the loop |
| `VectorSelector.CombineInner` | src/aggregates/vector_selector.rs:246-271 | combination with either state absent |
| `VectorSelector.CombineIsAppend` | src/aggregates/vector_selector.rs:358-372 | combining states is an exact homomorphism, ties included |
| `VectorSelector.PlanIsSequential` | src/aggregates/vector_selector.rs:246-271 | every tree of partial aggregates yields the state of its samples in stream order |
| `VectorSelector.PlansAgree` | src/aggregates/vector_selector.rs:246-271 | without conflicting values at one time, no split, order or tree shape changes any result |
| `VectorSelector.LastValue` | src/aggregates/vector_selector.rs:421-459 | carrying the last non-empty bucket forward finds the latest sample up to each step |
| `VectorSelector.LatestIsLatest` | src/aggregates/vector_selector.rs:302-307 | the reference search returns a sample of the range with the greatest time, none only for an empty range |
| `VectorSelector.SelectedExactly` | src/aggregates/vector_selector.rs:418-462 | a step has value v if and only if the latest sample, the first inserted of those at its time, in the lookback milliseconds up to the step has it |
| `VectorSelector.BucketCorrect` | src/aggregates/vector_selector.rs:397-416 | an accepted time lies in its bucket's interval and the bucket exists |
| `VectorSelector.BucketsDisjoint` | src/aggregates/vector_selector.rs:302-306 | buckets do not overlap |
| `VectorSelector.StepIsProduct` | src/aggregates/vector_selector.rs:429-458 | the running timestamp of step i is start + i width |
| `VectorSelector.StepInMilliseconds` | src/aggregates/vector_selector.rs:326-335 | the width is in milliseconds and the time in microseconds |
| `VectorSelector.NumBucketsExact` | src/aggregates/vector_selector.rs:326-335 | there is a bucket for every step up to the end of the query; without a width there is one |
| `VectorSelector.CheckExactly` | src/aggregates/vector_selector.rs:375-399 | samples after the end are refused, those after the last step ignored, those before the first lookback window refused; without a width one after the start divides by zero |
| `TagMapRewrite.SimplifySelectsSame` | src/support.rs:142-291 | planning, in every expression context, selects the same rows as long as each rewritten call below anything but AND, OR and coercions keeps its value on the row, a condition on the map, the key, the value and the tag table |
| `TagMapRewrite.SimplifyKeepsValue` | src/support.rs:142-291 | where all rewritten calls keep their value, the whole expression does |
| `TagMapRewrite.PlansAll` | src/support.rs:142-280 | planning leaves no supported tag condition behind, at any depth outside subqueries |
| `TagMapRewrite.PlannedIsFixed` | src/support.rs:142-280 | where nothing is left to rewrite nothing changes, so planning twice is planning once |
| `TagMapRewrite.RewrittenExactlyWhen` | src/support.rs:145-216 | a call is rewritten if and only if it is `=` or `<>` with `tag_map_denormalize(map) -> key` as its first argument, coercions aside, and is not planned inside a subquery |
| `TagMapRewrite.RewrittenTo` | src/support.rs:215-280 | to `map @> tag_v_eq_matching_tags(key, value)` or `map @> ANY (tag_v_ne_matching_tags(key, value))`, the call as a subquery if and only if key and value are constants |
| `TagMapRewrite.LiftedExactlyWhen` | src/support.rs:35-107 | a call becomes a subquery if and only if all its arguments are constants, domain coercions aside, and it is not planned inside one |
| `TagMapRewrite.CallRewriteSound` | src/support.rs:142-291 | one rewritten call, as a function or an operator, is TRUE for the same rows and has the same value exactly under that condition |
| `TagMapRewrite.NotNeedsSameValue` | src/support.rs:142-291 | below a NOT a rewritten call selects the same rows if and only if that condition holds |
| `TagMapRewrite.EqRewriteSound` | src/support.rs:142-291 | a rewritten `=` is TRUE for the same rows, and has the same value exactly under the stated condition |
| `TagMapRewrite.NeRewriteSound` | src/support.rs:256-272 | the same for `<>` and `@> ANY` |
| `TagMapRewrite.EqValues` | migration/idempotent/007-tracing-tags.sql:84-96 | the three-valued results of `=` and of containment of the helper's result: when TRUE and when equal |
| `TagMapRewrite.NeValues` | migration/idempotent/007-tracing-tags.sql:222-232 | the same for `<>` |
| `TagMapRewrite.SubqueryIsSound` | src/support.rs:35-80 | lifting an accepted call into a subquery changes its value on no row |
| `TagMapRewrite.AcceptedArgIgnoresRow` | src/support.rs:96-107 | an accepted argument has the same value on all rows |
| `TagMapRewrite.NotIsNotPreserved` | migration/idempotent/007-tracing-tags.sql:84-96 | a span without tags is selected by the planned form of a negated condition but not by the original |
| `TagMap.StoredPair` | migration/idempotent/007-tracing-tags.sql:14-18 | a tag is part of a well-formed map if and only if the map contains its pair |
| `TagMap.EqHelper` | migration/incremental/015-tracing-redesign.sql:405 | the helper for `=` finds the one matching tag whenever there is one |
| `TagMap.EqIsContainment` | migration/idempotent/007-tracing-tags.sql:84-96 | the field equals the value if and only if there is a matching tag and the map contains its pair |
| `TagMap.NeIsAnyContainment` | migration/idempotent/007-tracing-tags.sql:222-232 | the field differs from the value if and only if the map contains the pair of some tag with another value |
| `TagMap.FieldOf` | migration/idempotent/007-tracing-tags.sql:30-33 | the arrow yields the value of the map's tag of that key |
| `SpanTree.Duality` | migration/idempotent/008-tracing-functions.sql:158-245 | for any trace and distance limit, pruned inside the recursion: d is downstream of s along a path if and only if s is upstream of d along the same path at the same distance |
| `SpanTree.DownstreamExactly` | migration/idempotent/008-tracing-functions.sql:203-245 | a row is downstream if and only if its path is the ids, from the top down, of a chain of spans from the given span to the row's, one longer than its distance, which is within the limit |
| `SpanTree.UpstreamExactly` | migration/idempotent/008-tracing-functions.sql:148-191 | a row is upstream if and only if its path is the ids, from the top down, of a chain from the row's span to the given one, one longer than its distance, which is within the limit |
| `SpanTree.DownPrunes` | migration/idempotent/008-tracing-functions.sql:229-237 | pruning at the limit inside the recursion produces in each round exactly the rows that the unlimited recursion has within the limit |
| `SpanTree.UpPrunes` | migration/idempotent/008-tracing-functions.sql:174-184 | the same upwards |
| `SpanTree.LimitEnds` | migration/idempotent/008-tracing-functions.sql:184 | with a limit both recursions end after it, whatever the parent links |
| `SpanTree.DownstreamTerminates` | migration/idempotent/008-tracing-functions.sql:213-238 | with unique ids and no limit, the recursion ends if and only if following at most as many parent links as there are spans does not lead back to the span, and then within that many rounds |
| `SpanTree.UpstreamTerminates` | migration/idempotent/008-tracing-functions.sql:158-185 | with unique ids and no limit, the recursion ends if and only if the parent links run out within as many steps as there are spans, and then within that many rounds |
| `SpanTree.EndsExactlyWhenAcyclic` | migration/idempotent/008-tracing-functions.sql:158-238 | with unique ids, both recursions end within as many rounds as there are spans, for every span, if and only if the parent links have no cycle |
| `SpanTree.OwnParentNeverEnds` | migration/idempotent/008-tracing-functions.sql:158-238 | on a span that is its own parent neither recursion ever ends |
| `SpanTree.SpanTreeDuality` | migration/idempotent/008-tracing-functions.sql:328-347 | the same for the rows of `span_tree` |
| `SpanTree.SpanTreeExactly` | migration/idempotent/008-tracing-functions.sql:328-347 | the span itself is there at distance 0, neither upstream nor downstream; all other rows are either, exactly as above |
| `SpanTree.TreeIsDownstreamOfRoots` | migration/idempotent/008-tracing-functions.sql:107-140 | with unique ids the rows of `trace_tree` are exactly the downstream rows of the roots |
| `SpanTree.TraceTreeExactly` | migration/idempotent/008-tracing-functions.sql:107-140 | a row is in the tree if and only if its path is the ids of a chain from a root to its span, of the length of its level |
| `SpanTree.TraceTreeTerminates` | migration/idempotent/008-tracing-functions.sql:107-140 | with unique ids `trace_tree` ends within as many rounds as there are spans, cyclic parent links included |
| `SpanTree.RepeatsFromStart` | migration/idempotent/008-tracing-functions.sql:129-131 | a repetition in a chain starts at its first span |
| `SpanTree.ChainIsShort` | migration/idempotent/008-tracing-functions.sql:129-131 | a chain whose first span does not come back is no longer than the trace |
| `SpanTree.PumpDown` | migration/idempotent/008-tracing-functions.sql:229-236 | a chain that ends in a cycle can be continued for ever |
| `SpanTree.PumpUp` | migration/idempotent/008-tracing-functions.sql:174-183 | a chain that starts in a cycle can be extended upwards for ever |

## Left out

- SHA-512, `numeric_normalize`, detoasting and the internals of `JsonbIterator`: foreign code, replaced by the hypotheses above.
- IEEE 754 rounding and 64-bit overflow: values are reals, with infinities and not-a-number only where a division by zero makes them, and times are unbounded integers.
- Serialization of aggregate states, memory contexts, node allocation and datum handling: plumbing without an algorithm.
- `drop_metric` and `unregister_metric_view`: they remove the entry of a metric while runs on it are under way, which the retention theorems exclude.
- Plain views: a registered view is modelled as a table with rows of its own, as a continuous aggregate is.
- Races inside one statement of get-or-create against a concurrent delete: each is one atomic step.
- `get_or_create_series_id_for_label_array` with label ids cached by a client: ids are looked up when the array is built.
- Metric names that are truncated or made unique: a metric's table carries its name.
- `get_new_pos_for_key` recreating the metric views, and its error when another session takes the position despite the lock.
- `prom_api.eq` on label arrays: it is not label-set equality on zero-padded arrays.
- TimescaleDB catalog queries, compression of a chunk, settings, grants, jobs and telemetry: I/O.
- Errors and cancellation in the middle of a maintenance run: a worker that fails releases its locks with its session, which is not modelled.
- Retention.GracePeriod: speaks of the row and its label array; that its labels still exist is `RetentionSafety.LabelsKeptExactlyWhen`, with the condition it has.
- CatalogProcedures.Catalog.GetOrCreateSeriesId: starts from the label array; building the array is a query expression and is modelled as the function behind `LabelArrays.LabelArrayCorrect`.
- CatalogProcedures.Catalog.DropMetricChunkData: which chunks are dropped is up to TimescaleDB; the model takes any set of rows and drops those older than the cut-off.
- GapfillDelta.Aggregate: for rows that are in bounds but not ascending it promises neither an error nor a result, because the code detects a late sample only while its predecessor is still in the window (`GapfillDelta.GapfillDeltaTransition.AddDataPoint` says exactly when).
- TagMapRewrite.SimplifySelectsSame: operators and functions are recognized by name, as the planner function does for `->` and `tag_map_denormalize`; that these names mean the tag-map ones is assumed.
- The tag-map round trip on an empty map, which yields NULL.
- `operation_calls`, `sibling_spans` and the `put_*` functions of the tracing schema: they would add only easy members.
