/** The audit log as the history of a cluster's leases, and what it says about fencing. */
module HaLeaseHistory {
  import opened Wrappers
  import opened HaLease

  /** What a statement may do to a cluster's log and lease row: nothing to the log while the lease only
      extends, the first row with the first lease, or the last row closed and one appended with a new one. */
  ghost predicate Grown(log: seq<LogRow>, row: Option<Lease>, log': seq<LogRow>, row': Option<Lease>) {
    || (log' == log && (row' == row || (row.Some? && row'.Some? && SameLease(row.value, row'.value))))
    || (row.None? && row'.Some? && log' == [LogRow(row'.value.leader, row'.value.start, None)])
    || (row.Some? && row'.Some? && log != []
        && log' == log[..|log| - 1] + [LogRow(row.value.leader, row.value.start, Some(row.value.until)),
                                       LogRow(row'.value.leader, row'.value.start, None)])
  }

  predicate SameLease(a: Lease, b: Lease) {
    a.leader == b.leader && a.start == b.start
  }

  lemma WriteGrows(t: Tables, c: Name, lease: Lease)
    requires ClusterInv(t, c) && ChainOk(t, c) && Write(t, c, lease).Some?
    requires t.Row(c).Some? && t.Row(c).value.leader == lease.leader ==> t.Row(c).value.start == lease.start
    ensures var t' := Write(t, c, lease).value; Grown(t.Log(c), t.Row(c), t'.Log(c), t'.Row(c))
  {
    var log, log' := t.Log(c), Write(t, c, lease).value.Log(c);
    if t.Row(c).Some? && t.Row(c).value.leader != lease.leader {
      var row, n := t.Row(c).value, |log|;
      forall i | 0 <= i < n - 1 ensures CloseRow(log, row)[i] == log[i] {
        assert log[i].until == Some(log[i + 1].start);
      }
      assert CloseRow(log, row) == log[..n - 1] + [LogRow(row.leader, row.start, Some(row.until))];
    }
  }

  lemma ExecuteGrows(cfg: Config, t: Tables, s: Session, c: Name)
    requires cfg.Valid() && SessionInv(t, s) && ClusterInv(t, s.call.cluster) && ClusterInv(t, c) && ChainOk(t, c)
    requires !(c == s.call.cluster && TakesOverFromSelf(t, s))
    ensures var t' := Execute(cfg, t, s).0; Grown(t.Log(c), t.Row(c), t'.Log(c), t'.Row(c))
  {
    var row := t.Row(s.call.cluster);
    TargetMovesForward(cfg, row, s);
    match Target(cfg, row, s)
    case None =>
    case Some(lease) =>
      WriteKeeps(t, s.call.cluster, lease);
      if c == s.call.cluster {
        WriteGrows(t, c, lease);
      }
  }

  lemma GrowsAt(cfg: Config, events: seq<Event>, c: Name, n: nat)
    requires cfg.Valid() && n < |events| && NoSelfTakeover(cfg, events, c, n + 1)
    ensures var t, t' := State(cfg, events, n).tables, State(cfg, events, n + 1).tables;
            ChainOk(t, c) && ChainOk(t', c) && Grown(t.Log(c), t.Row(c), t'.Log(c), t'.Row(c))
  {
    var g := State(cfg, events, n);
    StateInv(cfg, events, n);
    QuietKeepsChain(cfg, events, c, n);
    QuietKeepsChain(cfg, events, c, n + 1);
    assert !SelfTakeoverAt(cfg, events, n, c);
    if events[n].Run? && events[n].id in g.sessions {
      ExecuteGrows(cfg, g.tables, g.sessions[events[n].id], c);
    }
  }

  // ---------- the log is the history ----------

  /** The lease of the log row is the current one, with the row's end if that is closed. */
  predicate IsHeld(row: Option<Lease>, logged: LogRow) {
    && row.Some? && row.value.leader == logged.leader && row.value.start == logged.start
    && (logged.until.Some? ==> row.value.until == logged.until.value)
  }

  lemma GrownHeld(t: Tables, t': Tables, c: Name, i: nat)
    requires Grown(t.Log(c), t.Row(c), t'.Log(c), t'.Row(c)) && ChainOk(t', c) && i < |t'.Log(c)|
    ensures || (i < |t.Log(c)| && t'.Log(c)[i] == t.Log(c)[i])
            || IsHeld(t.Row(c), t'.Log(c)[i]) || IsHeld(t'.Row(c), t'.Log(c)[i])
  {
  }

  /** Every row of the log is a lease that was held, until its end once it is closed. */
  lemma {:induction false} RowsWereHeld(cfg: Config, events: seq<Event>, n: nat, c: Name, i: nat) returns (j: nat)
    requires cfg.Valid() && n <= |events| && NoSelfTakeover(cfg, events, c, n)
    requires i < |State(cfg, events, n).tables.Log(c)|
    ensures j <= n && IsHeld(State(cfg, events, j).tables.Row(c), State(cfg, events, n).tables.Log(c)[i])
    decreases n
  {
    if n > 0 {
      GrowsAt(cfg, events, c, n - 1);
      GrownHeld(State(cfg, events, n - 1).tables, State(cfg, events, n).tables, c, i);
      var logged := State(cfg, events, n).tables.Log(c)[i];
      if IsHeld(State(cfg, events, n).tables.Row(c), logged) {
        j := n;
      } else if IsHeld(State(cfg, events, n - 1).tables.Row(c), logged) {
        j := n - 1;
      } else {
        j := RowsWereHeld(cfg, events, n - 1, c, i);
      }
    }
  }

  predicate Records(row: LogRow, lease: Lease) {
    row.leader == lease.leader && row.start == lease.start && (row.until.Some? ==> lease.until <= row.until.value)
  }

  lemma GrownRecords(log: seq<LogRow>, row: Option<Lease>, log': seq<LogRow>, row': Option<Lease>, lease: Lease, i: nat)
    requires Grown(log, row, log', row') && row.Some? && i < |log| && Records(log[i], lease)
    requires lease.until <= row.value.until
    requires log[|log| - 1] == LogRow(row.value.leader, row.value.start, None)
    ensures i < |log'| && Records(log'[i], lease)
  {
  }

  lemma RecordStays(cfg: Config, events: seq<Event>, n: nat, c: Name, lease: Lease, i: nat)
    requires cfg.Valid() && n < |events| && NoSelfTakeover(cfg, events, c, n + 1)
    requires var t := State(cfg, events, n).tables;
             i < |t.Log(c)| && Records(t.Log(c)[i], lease) && t.Row(c).Some? && lease.until <= t.Row(c).value.until
    ensures var t' := State(cfg, events, n + 1).tables; i < |t'.Log(c)| && Records(t'.Log(c)[i], lease)
  {
    var t, t' := State(cfg, events, n).tables, State(cfg, events, n + 1).tables;
    GrowsAt(cfg, events, c, n);
    GrownRecords(t.Log(c), t.Row(c), t'.Log(c), t'.Row(c), lease, i);
  }

  /** Every lease ever held has its row, which is open or ends no earlier than the lease then did. */
  lemma {:induction false} LeasesAreRecorded(cfg: Config, events: seq<Event>, j: nat, n: nat, c: Name) returns (i: nat)
    requires cfg.Valid() && j <= n <= |events| && NoSelfTakeover(cfg, events, c, n)
    requires State(cfg, events, j).tables.Row(c).Some?
    ensures var log := State(cfg, events, n).tables.Log(c);
            i < |log| && Records(log[i], State(cfg, events, j).tables.Row(c).value)
    decreases n
  {
    if j == n {
      QuietKeepsChain(cfg, events, c, n);
      i := |State(cfg, events, n).tables.Log(c)| - 1;
    } else {
      i := LeasesAreRecorded(cfg, events, j, n - 1, c);
      RowEvolves(cfg, events, j, n - 1, c);
      RecordStays(cfg, events, n - 1, c, State(cfg, events, j).tables.Row(c).value, i);
    }
  }

  // ---------- fencing, read off the log ----------

  /** A lease of another leader contains the call's `maxTime`. */
  ghost predicate OtherContains(t: Tables, call: Call)
    requires call.UpdateLease?
  {
    var row := t.Row(call.cluster);
    row.Some? && row.value.leader != call.writer && row.value.Contains(call.maxTime)
  }

  predicate ClosedOver(row: LogRow, call: Call)
    requires call.UpdateLease?
  {
    row.leader != call.writer && row.until.Some? && row.start <= call.maxTime < row.until.value
  }

  ghost predicate Fenced(cfg: Config, events: seq<Event>, call: Call)
    requires call.UpdateLease?
  {
    forall j: nat | j <= |events| :: !OtherContains(State(cfg, events, j).tables, call)
  }

  ghost predicate NoClosedRow(t: Tables, call: Call)
    requires call.UpdateLease?
  {
    forall i | 0 <= i < |t.Log(call.cluster)| :: !ClosedOver(t.Log(call.cluster)[i], call)
  }

  /** A lease of another leader that contains the time of a call holding the lease has a closed row that does. */
  lemma OtherIsLogged(cfg: Config, events: seq<Event>, k: nat, id: nat, j: nat)
    requires cfg.Valid() && k <= |events| && j <= |events| && Holds(State(cfg, events, k), id)
    requires NoSelfTakeover(cfg, events, State(cfg, events, k).sessions[id].call.cluster, k)
    requires OtherContains(State(cfg, events, j).tables, State(cfg, events, k).sessions[id].call)
    ensures !NoClosedRow(State(cfg, events, k).tables, State(cfg, events, k).sessions[id].call)
  {
    var t, call := State(cfg, events, k).tables, State(cfg, events, k).sessions[id].call;
    if j > k {
      RowEvolves(cfg, events, k, j, call.cluster);
      assert false;
    }
    var i := LeasesAreRecorded(cfg, events, j, k, call.cluster);
    QuietKeepsChain(cfg, events, call.cluster, k);
    assert t.Log(call.cluster)[i].until.Some? by {
      if i < |t.Log(call.cluster)| - 1 {
        assert t.Log(call.cluster)[i].until == Some(t.Log(call.cluster)[i + 1].start);
      }
    }
    assert ClosedOver(t.Log(call.cluster)[i], call);
  }

  /** What the log says about a call that holds the lease: its time is in no lease of another leader, at
      any state of the run, exactly when it is in no closed row of another leader. */
  lemma FencedExactlyWhen(cfg: Config, events: seq<Event>, k: nat, id: nat)
    requires cfg.Valid() && k <= |events| && Holds(State(cfg, events, k), id)
    requires NoSelfTakeover(cfg, events, State(cfg, events, k).sessions[id].call.cluster, k)
    ensures var g := State(cfg, events, k);
            Fenced(cfg, events, g.sessions[id].call) <==> NoClosedRow(g.tables, g.sessions[id].call)
  {
    var t, call := State(cfg, events, k).tables, State(cfg, events, k).sessions[id].call;
    if !Fenced(cfg, events, call) {
      var j: nat :| j <= |events| && OtherContains(State(cfg, events, j).tables, call);
      OtherIsLogged(cfg, events, k, id, j);
    }
    if !NoClosedRow(t, call) {
      var i :| 0 <= i < |t.Log(call.cluster)| && ClosedOver(t.Log(call.cluster)[i], call);
      var j := RowsWereHeld(cfg, events, k, call.cluster, i);
      assert OtherContains(State(cfg, events, j).tables, call);
    }
  }
}
