/** Runs in which garbage collection takes something that is still in use: a series that a registered view
    has data for, one that a view has data for which is registered later, and a label that a series table
    which is not attached yet uses. */
module RetentionGaps {
  import opened Wrappers
  import opened LabelPositions
  import opened LabelArrays
  import opened SeriesCatalog
  import opened Retention
  import opened RetentionSafety

  lemma {:induction false} AfterPrefix(d: int, events: seq<Event>, e: Event, n: nat)
    requires n <= |events|
    ensures After(d, events + [e], n) == After(d, events, n)
  {
    if n > 0 {
      AfterPrefix(d, events, e, n - 1);
    }
  }

  ghost function End(events: seq<Event>): State {
    After(0, events, |events|)
  }

  lemma Extend(events: seq<Event>, e: Event)
    ensures End(events + [e]) == Next(0, End(events), e)
  {
    AfterPrefix(0, events, e, |events|);
  }

  /** At epoch `k`, updated at time `k`, with nothing that a run reading it would delete. */
  ghost predicate Quiet(s: State, k: nat) {
    && s.db.epoch == k && s.db.lastUpdate == k && (forall j | j in s.jobs :: j <= k)
    && forall id | id in s.db.series && s.db.series[id].deleteEpoch.Some? ::
         s.db.series[id].deleteEpoch.value > k - KEPT_EPOCHS
  }

  lemma NothingExpired(db: Db, t: Table, k: nat)
    requires db.epoch == k && db.lastUpdate == k
    requires forall id | id in db.series && db.series[id].deleteEpoch.Some? ::
               db.series[id].deleteEpoch.value > k - KEPT_EPOCHS
    ensures DeleteExpired(db, t, t, k + 1, k, k, k + 1, 0) == db.(epoch := k + 1, lastUpdate := k + 1)
  {
    var db' := DeleteExpired(db, t, t, k + 1, k, k, k + 1, 0);
    assert db'.series == db.series;
    assert db'.labels.rows == db.labels.rows;
  }

  /** A run on table `t` that finds no chunks to drop, up to its last transaction. */
  lemma Begins(events: seq<Event>, k: nat, t: Table) returns (more: seq<Event>)
    requires var s := End(events);
             s.db.epoch == k && s.db.lastUpdate == k && k + 1 !in s.jobs && t in s.db.metrics && s.db.metrics[t] == t
    ensures End(more) == End(events).(
              jobs := End(events).jobs[k + 1 := Job(t, t, k + 1, DeleteExpiredSeries, None, k, k)])
  {
    Extend(events, Start(k + 1, t, k + 1));
    more := events + [Start(k + 1, t, k + 1)];
    Extend(more, RunNext(k + 1, None, {}, k + 1));
    more := more + [RunNext(k + 1, None, {}, k + 1)];
  }

  /** An idle run raises the epoch and does nothing else. */
  lemma Idle(events: seq<Event>, k: nat, t: Table) returns (more: seq<Event>)
    requires Quiet(End(events), k) && t in End(events).db.metrics && End(events).db.metrics[t] == t
    ensures End(more).db == End(events).db.(epoch := k + 1, lastUpdate := k + 1)
    ensures forall j | j in End(more).jobs :: j <= k + 1
  {
    more := Begins(events, k, t);
    Extend(more, RunNext(k + 1, None, {}, k + 1));
    NothingExpired(End(events).db, t, k);
    more := more + [RunNext(k + 1, None, {}, k + 1)];
  }

  lemma {:induction false} Idles(events: seq<Event>, k: nat, t: Table) returns (more: seq<Event>)
    requires k <= 5 && Quiet(End(events), 0) && t in End(events).db.metrics && End(events).db.metrics[t] == t
    requires forall id | id in End(events).db.series && End(events).db.series[id].deleteEpoch.Some? ::
               End(events).db.series[id].deleteEpoch.value == 1
    ensures End(more).db == End(events).db.(epoch := k, lastUpdate := k) && forall j | j in End(more).jobs :: j <= k
  {
    more := events;
    if k > 0 {
      more := Idles(events, k - 1, t);
      more := Idle(more, k - 1, t);
    }
  }

  // ---------- a series that a registered view has data for ----------

  const M: Table := "m"
  const VIEW: Table := "v"

  /** The metric's only series, deleted as `delete_series_from_metric` does it, with a view's row left. */
  ghost predicate ViewRowLeft(s: State, id: SeriesId) {
    && s.db.epoch == 0 && s.db.lastUpdate == 0 && s.jobs == map[]
    && M in s.db.metrics && s.db.metrics[M] == M && VIEW in s.db.metrics && s.db.metrics[VIEW] == M
    && s.db.data == {Row(VIEW, 10, id)}
    && s.db.series.Keys == {id} && s.db.series[id].table == M && s.db.series[id].deleteEpoch == Some(1)
  }

  /** What an enabled get-or-create does to the state, as far as the runs below need it. */
  ghost predicate Obtained(s: State, e: Event, s': State, id: SeriesId)
    requires e.Obtain?
  {
    && Inv(s') && (AllCanonical(s.db) ==> AllCanonical(s'.db)) && Extends(s.db.labels, s'.db.labels)
    && s'.jobs == s.jobs && s'.db.data == s.db.data && s'.db.attached == s.db.attached
    && s'.db.epoch == s.db.epoch && s'.db.lastUpdate == s.db.lastUpdate
    && s'.db.metrics == s.db.metrics[e.table := e.table]
    && s'.db.series.Keys == s.db.series.Keys + {id}
    && s'.db.series[id].table == e.table && s'.db.series[id].deleteEpoch == None
    && SeriesLabels(s'.db, id) == (set l | l in e.ls) && HeldFor(s'.db, id, e.epoch) in s'.held
    && (id in s.db.series ==> s.db.series[id].table == e.table)
    && forall j | j in s.db.series && j != id :: s'.db.series[j] == s.db.series[j]
  }

  lemma Obtains(s: State, e: Event) returns (id: SeriesId)
    requires Inv(s) && e.Obtain? && Enabled(s, e)
    ensures Obtained(s, e, Next(0, s, e), id)
  {
    ObtainHolds(0, s, e);
    ObtainKeeps(0, s, e);
    ObtainAdvances(s.db, e.table, e.ls);
    GetOrCreateCorrect(s.db, e.table, e.ls);
    id := GetOrCreate(s.db, e.table, e.ls).1;
  }

  lemma ObtainNext(events: seq<Event>, e: Event) returns (more: seq<Event>, id: SeriesId)
    requires Inv(End(events)) && e.Obtain? && Enabled(End(events), e)
    ensures Obtained(End(events), e, End(more), id)
  {
    id := Obtains(End(events), e);
    Extend(events, e);
    more := events + [e];
  }

  lemma FirstSeries(name: string, ls: seq<Label>) returns (events: seq<Event>, id: SeriesId)
    requires Request(ls) && Label(NAME, name) in ls
    ensures var s := End(events);
            && Inv(s) && AllCanonical(s.db) && s.db.epoch == 0 && s.db.lastUpdate == 0
            && s.jobs == map[] && s.db.data == {} && s.db.attached == {}
            && s.db.metrics == map[name := name]
            && s.db.series.Keys == {id} && s.db.series[id].table == name && s.db.series[id].deleteEpoch == None
            && SeriesLabels(s.db, id) == (set l | l in ls)
            && HeldFor(s.db, id, 0) in s.held
  {
    assert End([]) == State(Begin(), map[], {});
    events, id := ObtainNext([], Obtain(name, ls, 0));
  }

  /** One row ingested, and a view registered and refreshed. */
  lemma Materialized() returns (events: seq<Event>, id: SeriesId)
    ensures var s := End(events);
            && s.db.epoch == 0 && s.db.lastUpdate == 0 && s.jobs == map[] && s.db.metrics == map[M := M, VIEW := M]
            && s.db.data == {Row(M, 10, id), Row(VIEW, 10, id)}
            && s.db.series.Keys == {id} && s.db.series[id].table == M && s.db.series[id].deleteEpoch == None
  {
    events, id := FirstSeries(M, [Label(NAME, M)]);
    var h := HeldFor(End(events).db, id, 0);
    Extend(events, Insert(h, 10));
    events := events + [Insert(h, 10)];
    assert Row(M, 10, id) in End(events).db.data;
    assert End(events).db.HasData(M, id);
    Extend(events, RegisterView(VIEW, M));
    events := events + [RegisterView(VIEW, M)];
    assert End(events).db.HasData(M, id);
    Extend(events, Materialize(VIEW, M, id, 10));
    events := events + [Materialize(VIEW, M, id, 10)];
  }

  lemma LeaveViewRow() returns (events: seq<Event>, id: SeriesId)
    ensures ViewRowLeft(End(events), id)
  {
    events, id := Materialized();
    var row := Row(M, 10, id);
    Extend(events, DeleteRows({row}));
    events := events + [DeleteRows({row})];
    Extend(events, MarkRows(M, {id}));
    events := events + [MarkRows(M, {id})];
  }

  /** Six runs on the metric, the last of which deletes its only series, marked at the start; the view's
      row stays. */
  lemma SixRuns(events: seq<Event>, id: SeriesId) returns (more: seq<Event>)
    requires Quiet(End(events), 0) && M in End(events).db.metrics && End(events).db.metrics[M] == M
    requires End(events).db.data == {Row(VIEW, 10, id)} && End(events).db.series.Keys == {id}
    requires End(events).db.series[id].table == M && End(events).db.series[id].deleteEpoch == Some(1)
    ensures End(more).db.data == {Row(VIEW, 10, id)} && id !in End(more).db.series
    ensures End(more).db.metrics == End(events).db.metrics
  {
    more := Idles(events, 5, M);
    more := Begins(more, 5, M);
    var db := End(more).db;
    assert !db.HasData(M, id);
    assert Doomed(db, M, M, 5, id);
    Extend(more, RunNext(6, None, {}, 6));
    more := more + [RunNext(6, None, {}, 6)];
  }

  /** `delete_series_from_metric` on a metric with a view, and six runs on the metric: the view's row is
      left without its series. */
  lemma SharedTableDangles() returns (events: seq<Event>)
    ensures !NoDangling(End(events).db, M)
  {
    var id;
    events, id := LeaveViewRow();
    events := SixRuns(events, id);
    assert Row(VIEW, 10, id) in End(events).db.data;
  }

  // ---------- a series that a view has data for which is registered later ----------

  /** One row ingested, a view on it refreshed but not registered, and the metric's row dropped by a
      retention run that has marked the series: only registered tables are searched. */
  lemma UnregisteredViewRow() returns (events: seq<Event>, id: SeriesId)
    ensures var s := End(events);
            && Quiet(s, 0) && s.db.metrics == map[M := M] && s.db.data == {Row(VIEW, 10, id)}
            && s.db.series.Keys == {id} && s.db.series[id].table == M && s.db.series[id].deleteEpoch == Some(1)
  {
    var row;
    events, id, row := RefreshedUnregistered();
    events := RetentionStarts(events);
    var e := RunNext(0, None, {}, 0);
    assert Unused(End(events).db, M, M, 20, id) by {
      assert End(events).db.HasDataBefore(M, id, 20);
    }
    Extend(events, e);
    events := events + [e];
    Extend(events, RunNext(0, None, {row}, 0));
    events := events + [RunNext(0, None, {row}, 0)];
  }

  lemma RefreshedUnregistered() returns (events: seq<Event>, id: SeriesId, row: Row)
    ensures var s := End(events);
            && s.db.epoch == 0 && s.db.lastUpdate == 0 && s.jobs == map[] && s.db.metrics == map[M := M]
            && row == Row(M, 10, id) && s.db.data == {row, Row(VIEW, 10, id)}
            && s.db.series.Keys == {id} && s.db.series[id].table == M && s.db.series[id].deleteEpoch == None
  {
    events, id := FirstSeries(M, [Label(NAME, M)]);
    var h := HeldFor(End(events).db, id, 0);
    Extend(events, Insert(h, 10));
    events := events + [Insert(h, 10)];
    row := Row(M, 10, id);
    assert row in End(events).db.data;
    assert End(events).db.HasData(M, id);
    Extend(events, Materialize(VIEW, M, id, 10));
    events := events + [Materialize(VIEW, M, id, 10)];
  }

  /** A run that drops what is older than 20, up to its second transaction. */
  lemma RetentionStarts(events: seq<Event>) returns (more: seq<Event>)
    requires End(events).db.metrics == map[M := M] && End(events).jobs == map[]
    ensures var db := End(events).db;
            End(more) == End(events).(jobs := map[0 := Job(M, M, 0, MarkUnused, Some(20), db.epoch, db.lastUpdate)])
  {
    Extend(events, Start(0, M, 0));
    more := events + [Start(0, M, 0)];
    Extend(more, RunNext(0, Some(20), {}, 0));
    more := more + [RunNext(0, Some(20), {}, 0)];
  }

  /** Registering the view when its series is gone: no deletion took a series that another registered
      table had data for, and yet the view's row is without its series. */
  lemma LateRegistrationDangles() returns (events: seq<Event>)
    ensures !NoDangling(End(events).db, M)
  {
    var id;
    events, id := UnregisteredViewRow();
    events := SixRuns(events, id);
    Extend(events, RegisterView(VIEW, M));
    events := events + [RegisterView(VIEW, M)];
    assert Row(VIEW, 10, id) in End(events).db.data;
  }

  /** The same view, left unregistered, as the source of another view that is registered and refreshed. */
  lemma LateRefreshDangles() returns (events: seq<Event>)
    ensures !NoDangling(End(events).db, M)
  {
    var id;
    events, id := UnregisteredViewRow();
    events := SixRuns(events, id);
    Extend(events, RegisterView("w", M));
    events := events + [RegisterView("w", M)];
    assert Row(VIEW, 10, id) in End(events).db.data;
    assert End(events).db.HasData(VIEW, id);
    Extend(events, Materialize("w", VIEW, id, 10));
    events := events + [Materialize("w", VIEW, id, 10)];
    assert Row("w", 10, id) in End(events).db.data;
  }

  // ---------- a label that an unattached table uses ----------

  const SHARED: Label := Label("x", "y")

  /** Two metrics, neither table attached, each with a series that uses label id `l`. */
  ghost predicate Sharing(s: State, a: SeriesId, b: SeriesId, l: int, marked: Option<int>) {
    && s.db.epoch == 0 && s.db.lastUpdate == 0 && s.jobs == map[] && s.db.data == {} && s.db.attached == {}
    && Valid(s.db) && AllCanonical(s.db) && M in s.db.metrics && s.db.metrics[M] == M
    && s.db.series.Keys == {a, b} && s.db.series[a].table == M && s.db.series[b].table == "n"
    && s.db.series[a].deleteEpoch == marked && s.db.series[b].deleteEpoch == None
    && l in s.db.labels.rows && s.db.labels.rows[l] == SHARED
    && l in s.db.series[a].labels && l in s.db.series[b].labels
  }

  /** Two series with a label in common use the same label id. */
  lemma CommonLabel(db: Db, db': Db, a: SeriesId, b: SeriesId, shared: Label) returns (l: int)
    requires Valid(db') && Extends(db.labels, db'.labels) && a in db.series && a in db'.series
    requires db'.series[a] == db.series[a]
    requires b in db'.series && shared in SeriesLabels(db, a) && shared in SeriesLabels(db', b)
    ensures l in db'.labels.rows && db'.labels.rows[l] == shared && l in db'.series[a].labels
    ensures l in db'.series[b].labels
  {
    var ra, rb := db.series[a].labels, db'.series[b].labels;
    var i :| 0 <= i < |ra| && ra[i] in db.labels.rows && db.labels.rows[ra[i]] == shared;
    l := ra[i];
    var j :| 0 <= j < |rb| && rb[j] in db'.labels.rows && db'.labels.rows[rb[j]] == shared;
    assert rb[j] == l;
  }

  lemma BothSeries() returns (events: seq<Event>, a: SeriesId, b: SeriesId, l: int)
    ensures Sharing(End(events), a, b, l, None)
  {
    var ls, ls' := [Label(NAME, M), SHARED], [Label(NAME, "n"), SHARED];
    assert ls[1] == SHARED && ls'[1] == SHARED;
    var first;
    first, a := FirstSeries(M, ls);
    events, b := ObtainNext(first, Obtain("n", ls', 0));
    l := CommonLabel(End(first).db, End(events).db, a, b, SHARED);
  }

  lemma MarkSharing() returns (events: seq<Event>, a: SeriesId, b: SeriesId, l: int)
    ensures Sharing(End(events), a, b, l, Some(1))
  {
    events, a, b, l := BothSeries();
    var s := End(events);
    Extend(events, MarkRows(M, {a}));
    events := events + [MarkRows(M, {a})];
    MarkAdvances(s.db, M, {a});
    SameSeriesCanonical(s.db, End(events).db);
  }

  lemma SharedLabelDropped(db: Db, a: SeriesId, b: SeriesId, l: int)
    requires db.data == {} && db.attached == {} && db.series.Keys == {a, b}
    requires l in db.labels.rows && db.labels.rows[l] == SHARED
    requires db.series[a].table == M && db.series[a].deleteEpoch == Some(1) && db.series[b].table != M
    requires l in db.series[a].labels && l in db.series[b].labels
    ensures ForeignUse(db, M, M, 5)
  {
    assert Doomed(db, M, M, 5, a) && Uses(db.series[a], l) && Uses(db.series[b], l);
    assert DropsLabel(db, M, M, 5, l);
  }

  lemma BeforeTheLoss() returns (events: seq<Event>)
    ensures var s := End(events);
            && AllCanonical(s.db) && ForeignUse(s.db, M, M, 5) && s.db.epoch == 5 && s.db.lastUpdate == 5
            && 6 !in s.jobs && M in s.db.metrics && s.db.metrics[M] == M
  {
    var marked, a, b, l;
    marked, a, b, l := MarkSharing();
    events := Idles(marked, 5, M);
    SameSeriesCanonical(End(marked).db, End(events).db);
    SharedLabelDropped(End(events).db, a, b, l);
  }

  /** Six runs on a metric whose only series is marked take its labels, although a series in a table
      that is not attached yet uses one of them. */
  lemma UnattachedTableLosesLabels() returns (events: seq<Event>)
    ensures !AllCanonical(End(events).db)
  {
    events := BeforeTheLoss();
    events := Begins(events, 5, M);
    var e := RunNext(6, None, {}, 6);
    Reachable(0, events, |events|);
    assert ForeignStep(End(events), e);
    LabelStep(0, End(events), e);
    Extend(events, e);
    events := events + [e];
  }
}
