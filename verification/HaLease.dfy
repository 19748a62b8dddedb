/** HA leader leases: the tables `ha_leases` and `ha_leases_logs`, the audit trigger, and the two
    functions `update_lease` and `try_change_leader`, run by any number of sessions whose SQL
    statements interleave freely. */
module HaLease {
  import opened Wrappers

  type Name = string
  type Time = int

  datatype Config = Config(timeout: int, refresh: int) {
    ghost predicate Valid() { 0 <= refresh < timeout }
  }

  datatype Lease = Lease(leader: Name, start: Time, until: Time) {
    // Leases are half-open intervals.
    ghost predicate Contains(t: Time) { start <= t < until }
  }

  datatype LogRow = LogRow(leader: Name, start: Time, until: Option<Time>)

  /** `ha_leases` by its primary key, and for each cluster its log rows in insertion order. */
  datatype Tables = Tables(leases: map<Name, Lease>, logs: map<Name, seq<LogRow>>) {
    function Row(cluster: Name): Option<Lease> {
      if cluster in leases then Some(leases[cluster]) else None
    }

    function Log(cluster: Name): seq<LogRow> {
      if cluster in logs then logs[cluster] else []
    }
  }

  // ---------- the audit trigger and the writing statements ----------

  function CloseRow(log: seq<LogRow>, prev: Lease): seq<LogRow> {
    seq(|log|, i requires 0 <= i < |log| =>
      if log[i] == LogRow(prev.leader, prev.start, None) then log[i].(until := Some(prev.until)) else log[i])
  }

  predicate HasKey(log: seq<LogRow>, leader: Name, start: Time) {
    exists i | 0 <= i < |log| :: log[i].leader == leader && log[i].start == start
  }

  /** The trigger body; `None` is a violation of the log's primary key. */
  function Audit(log: seq<LogRow>, prev: Option<Lease>, lease: Lease): Option<seq<LogRow>> {
    if prev.Some? && prev.value.leader == lease.leader then
      Some(log)
    else
      var closed := if prev.Some? then CloseRow(log, prev.value) else log;
      if HasKey(closed, lease.leader, lease.start) then None
      else Some(closed + [LogRow(lease.leader, lease.start, None)])
  }

  /** Row by row: an unchanged leader leaves the log alone; otherwise the open row of the previous lease is
      closed and a row is added, unless the log has one of the same leader and start. */
  lemma AuditExactly(log: seq<LogRow>, prev: Option<Lease>, lease: Lease)
    ensures var same := prev.Some? && prev.value.leader == lease.leader;
            var taken := exists row | row in log :: row.leader == lease.leader && row.start == lease.start;
            match Audit(log, prev, lease)
            case None => !same && taken
            case Some(log') =>
              && (same || !taken) && |log'| == |log| + (if same then 0 else 1)
              && (!same ==> log'[|log|] == LogRow(lease.leader, lease.start, None))
              && forall i | 0 <= i < |log| ::
                   log'[i] == if !same && prev.Some? && log[i] == LogRow(prev.value.leader, prev.value.start, None)
                              then LogRow(log[i].leader, log[i].start, Some(prev.value.until)) else log[i]
  {
    var closed := if prev.Some? then CloseRow(log, prev.value) else log;
    assert forall i | 0 <= i < |log| :: closed[i].leader == log[i].leader && closed[i].start == log[i].start;
    if row :| row in log && row.leader == lease.leader && row.start == lease.start {
      var i :| 0 <= i < |log| && log[i] == row;
      assert closed[i].leader == lease.leader;
    }
    if HasKey(closed, lease.leader, lease.start) {
      var i :| 0 <= i < |closed| && closed[i].leader == lease.leader && closed[i].start == lease.start;
      assert log[i] in log;
    }
  }

  /** Writing a lease row fires the trigger; `None` aborts the statement. */
  function Write(t: Tables, cluster: Name, lease: Lease): Option<Tables> {
    match Audit(t.Log(cluster), t.Row(cluster), lease)
    case None => None
    case Some(log) => Some(Tables(t.leases[cluster := lease], t.logs[cluster := log]))
  }

  // ---------- sessions ----------

  datatype Call =
    | UpdateLease(cluster: Name, writer: Name, minTime: Time, maxTime: Time)
    | TryChangeLeader(cluster: Name, newLeader: Name, maxTime: Time)

  datatype Error = LeaderHasChanged | NoRow | UniqueViolation

  /** The statement a call executes next, or how it ended. */
  datatype Pc = ReadRow | InsertRow | ReadInserted | ExtendRow | Reread | ChangeRow | FinalRead
              | Returned(row: Lease) | Raised(error: Error)

  datatype Session = Session(call: Call, pc: Pc)

  function Begin(call: Call): Session {
    Session(call, if call.UpdateLease? then ReadRow else ChangeRow)
  }

  /** The control flow of `update_lease` after it has read the row. */
  function Check(cfg: Config, call: Call, row: Lease): Pc
    requires call.UpdateLease?
  {
    if row.leader != call.writer then Raised(LeaderHasChanged)
    else if call.maxTime + cfg.timeout > row.until + cfg.refresh then ExtendRow
    else FinalRead
  }

  predicate Extends(cfg: Config, call: Call, row: Option<Lease>)
    requires call.UpdateLease?
  {
    row.Some? && row.value.leader == call.writer && row.value.until + cfg.refresh < call.maxTime + cfg.timeout
  }

  predicate Changes(call: Call, row: Option<Lease>) {
    row.Some? && row.value.until <= call.maxTime
  }

  /** The lease that the session's next statement writes, if it writes one. */
  function Target(cfg: Config, row: Option<Lease>, s: Session): Option<Lease> {
    match s.call
    case UpdateLease(_, writer, minTime, maxTime) =>
      if s.pc == InsertRow && row.None? then Some(Lease(writer, minTime, maxTime + cfg.timeout))
      else if s.pc == ExtendRow && Extends(cfg, s.call, row) then Some(row.value.(until := maxTime + cfg.timeout))
      else None
    case TryChangeLeader(_, newLeader, maxTime) =>
      if s.pc == ChangeRow && Changes(s.call, row) then Some(Lease(newLeader, row.value.until, maxTime + cfg.timeout))
      else None
  }

  /** The session's control state after its next statement. */
  function Next(cfg: Config, row: Option<Lease>, s: Session): Pc {
    if s.pc == FinalRead then
      (if row.None? then Raised(NoRow) else Returned(row.value))
    else if s.call.TryChangeLeader? then
      (if s.pc == ChangeRow then FinalRead else s.pc)
    else match s.pc
      case ReadRow => if row.None? then InsertRow else Check(cfg, s.call, row.value)
      case InsertRow => ReadInserted
      case ReadInserted => if row.None? then FinalRead else Check(cfg, s.call, row.value)
      case ExtendRow => if Extends(cfg, s.call, row) then FinalRead else Reread
      case Reread =>
        if row.Some? && (row.value.leader != s.call.writer || row.value.until <= s.call.maxTime)
        then Raised(LeaderHasChanged) else FinalRead
      case _ => s.pc
  }

  /** One statement of a session against the tables. */
  function Execute(cfg: Config, t: Tables, s: Session): (Tables, Session) {
    var row := t.Row(s.call.cluster);
    var s' := s.(pc := Next(cfg, row, s));
    match Target(cfg, row, s)
    case None => (t, s')
    case Some(lease) =>
      match Write(t, s.call.cluster, lease)
      case None => (t, s.(pc := Raised(UniqueViolation)))
      case Some(t') => (t', s')
  }

  // ---------- runs ----------

  datatype Event = Start(id: nat, call: Call) | Run(id: nat)

  datatype Global = Global(tables: Tables, sessions: map<nat, Session>)

  /** An event that is not enabled changes nothing. */
  function Apply(cfg: Config, g: Global, e: Event): Global {
    match e
    case Start(id, call) =>
      if id in g.sessions || (call.UpdateLease? && call.minTime > call.maxTime) then g
      else g.(sessions := g.sessions[id := Begin(call)])
    case Run(id) =>
      if id !in g.sessions then g
      else
        var (t, s) := Execute(cfg, g.tables, g.sessions[id]);
        Global(t, g.sessions[id := s])
  }

  /** The state after the first `n` events of a run. */
  function State(cfg: Config, events: seq<Event>, n: nat): Global
    requires n <= |events|
  {
    if n == 0 then Global(Tables(map[], map[]), map[])
    else Apply(cfg, State(cfg, events, n - 1), events[n - 1])
  }

  // ---------- the imperative form ----------

  class HaCatalog {
    var leases: map<Name, Lease>
    var logs: map<Name, seq<LogRow>>
    var sessions: map<nat, Session>
    const cfg: Config

    constructor (cfg: Config)
      ensures this.cfg == cfg && Contents() == Global(Tables(map[], map[]), map[])
    {
      this.cfg := cfg;
      leases, logs, sessions := map[], map[], map[];
    }

    function Contents(): Global
      reads this
    {
      Global(Tables(leases, logs), sessions)
    }

    /** `ha_leases_audit_fn`, fired after the row has been written. */
    method HaLeasesAuditFn(cluster: Name, prev: Option<Lease>, lease: Lease) returns (ok: bool)
      modifies this`logs
      ensures var audited := Audit(old(Contents()).tables.Log(cluster), prev, lease);
              ok == audited.Some? && logs == if ok then old(logs)[cluster := audited.value] else old(logs)
    {
      var log := Contents().tables.Log(cluster);
      if prev.Some? && prev.value.leader == lease.leader {
        logs := logs[cluster := log];
        return true;
      }
      if prev.Some? && prev.value.leader != lease.leader {
        log := CloseRow(log, prev.value);
      }
      if HasKey(log, lease.leader, lease.start) {
        return false;
      }
      logs := logs[cluster := log + [LogRow(lease.leader, lease.start, None)]];
      return true;
    }

    /** Writes one lease row; an error in the trigger undoes the write. */
    method WriteLease(cluster: Name, lease: Lease) returns (ok: bool)
      modifies this`leases, this`logs
      ensures var written := Write(old(Contents()).tables, cluster, lease);
              ok == written.Some? && Contents().tables == if ok then written.value else old(Contents()).tables
    {
      var before := leases;
      var prev := Contents().tables.Row(cluster);
      leases := leases[cluster := lease];
      ok := HaLeasesAuditFn(cluster, prev, lease);
      if !ok {
        leases := before;
      }
    }

    /** Executes the next statement of one session. */
    method RunStatement(id: nat)
      modifies this
      ensures Contents() == Apply(cfg, old(Contents()), Run(id))
    {
      if id !in sessions {
        return;
      }
      var s := sessions[id];
      var row := Contents().tables.Row(s.call.cluster);
      var pc, ok := s.pc, true;
      match s.call {
        case UpdateLease(cluster, writer, minTime, maxTime) =>
          match s.pc {
            case ReadRow =>
              pc := if row.None? then InsertRow else Check(cfg, s.call, row.value);
            case InsertRow =>
              if row.None? {
                ok := WriteLease(cluster, Lease(writer, minTime, maxTime + cfg.timeout));
              }
              pc := ReadInserted;
            case ReadInserted =>
              pc := if row.None? then FinalRead else Check(cfg, s.call, row.value);
            case ExtendRow =>
              if Extends(cfg, s.call, row) {
                ok := WriteLease(cluster, row.value.(until := maxTime + cfg.timeout));
                pc := FinalRead;
              } else {
                pc := Reread;
              }
            case Reread =>
              if row.Some? && (row.value.leader != writer || row.value.until <= maxTime) {
                pc := Raised(LeaderHasChanged);
              } else {
                pc := FinalRead;
              }
            case _ =>
          }
        case TryChangeLeader(cluster, newLeader, maxTime) =>
          if s.pc == ChangeRow {
            if Changes(s.call, row) {
              ok := WriteLease(cluster, Lease(newLeader, row.value.until, maxTime + cfg.timeout));
            }
            pc := FinalRead;
          }
      }
      if s.pc == FinalRead {
        pc := if row.None? then Raised(NoRow) else Returned(row.value);
      }
      if !ok {
        pc := Raised(UniqueViolation);
      }
      sessions := sessions[id := s.(pc := pc)];
    }
  }

  // ---------- invariants ----------

  /** What one step, and hence any number of steps, may do to a lease row. */
  ghost predicate Evolves(a: Option<Lease>, b: Option<Lease>) {
    a.Some? ==>
      && b.Some?
      && a.value.until <= b.value.until
      && ((a.value.leader == b.value.leader && a.value.start == b.value.start) || a.value.until <= b.value.start)
  }

  /** Every lease is non-empty and no log row starts after the current lease. */
  ghost predicate ClusterInv(t: Tables, c: Name) {
    match t.Row(c)
    case None => t.Log(c) == []
    case Some(l) => l.start < l.until && forall i | 0 <= i < |t.Log(c)| :: t.Log(c)[i].start <= l.start
  }

  ghost predicate SessionInv(t: Tables, s: Session) {
    && (s.call.UpdateLease? ==> s.call.minTime <= s.call.maxTime)
    && (s.pc in {ReadInserted, ExtendRow, Reread} ==> s.call.UpdateLease? && t.Row(s.call.cluster).Some?)
    && (s.pc.FinalRead? && s.call.UpdateLease? ==> t.Row(s.call.cluster).Some?)
    && s.pc != Raised(UniqueViolation)
  }

  ghost predicate Inv(g: Global) {
    && (forall c :: ClusterInv(g.tables, c))
    && (forall id | id in g.sessions :: SessionInv(g.tables, g.sessions[id]))
  }

  /** A write that only moves the lease forward passes the trigger and keeps the cluster's invariant. */
  lemma WriteKeeps(t: Tables, c: Name, lease: Lease)
    requires ClusterInv(t, c) && lease.start < lease.until && Evolves(t.Row(c), Some(lease))
    ensures Write(t, c, lease).Some? && ClusterInv(Write(t, c, lease).value, c)
  {
    var log := t.Log(c);
    if t.Row(c).Some? && t.Row(c).value.leader != lease.leader {
      var closed := CloseRow(log, t.Row(c).value);
      assert forall i | 0 <= i < |closed| :: closed[i].start == log[i].start < lease.start;
    }
  }

  lemma TargetMovesForward(cfg: Config, row: Option<Lease>, s: Session)
    requires cfg.Valid() && (s.call.UpdateLease? ==> s.call.minTime <= s.call.maxTime)
    requires row.Some? ==> row.value.start < row.value.until
    ensures var target := Target(cfg, row, s);
            target.Some? ==>
              && target.value.start < target.value.until && Evolves(row, target)
              && (row.Some? ==> row.value.until < target.value.until)
  {
  }

  /** A statement keeps the invariants, moves the row only forward, and never violates the log's key. */
  lemma ExecuteKeeps(cfg: Config, t: Tables, s: Session, c: Name)
    requires cfg.Valid() && SessionInv(t, s)
    requires ClusterInv(t, s.call.cluster) && ClusterInv(t, c)
    ensures var (t', s') := Execute(cfg, t, s);
            ClusterInv(t', c) && SessionInv(t', s') && Evolves(t.Row(c), t'.Row(c))
  {
    var row := t.Row(s.call.cluster);
    TargetMovesForward(cfg, row, s);
    match Target(cfg, row, s)
    case None =>
    case Some(lease) =>
      WriteKeeps(t, s.call.cluster, lease);
      var t' := Write(t, s.call.cluster, lease).value;
      assert c != s.call.cluster ==> t'.Log(c) == t.Log(c) && t'.Row(c) == t.Row(c);
  }

  lemma ApplyKeeps(cfg: Config, g: Global, e: Event)
    requires cfg.Valid() && Inv(g)
    ensures Inv(Apply(cfg, g, e))
  {
    if e.Run? && e.id in g.sessions {
      var t' := Execute(cfg, g.tables, g.sessions[e.id]).0;
      forall c ensures ClusterInv(t', c) && Evolves(g.tables.Row(c), t'.Row(c)) {
        ExecuteKeeps(cfg, g.tables, g.sessions[e.id], c);
      }
      ExecuteKeeps(cfg, g.tables, g.sessions[e.id], g.sessions[e.id].call.cluster);
    }
  }

  lemma {:induction false} StateInv(cfg: Config, events: seq<Event>, n: nat)
    requires cfg.Valid() && n <= |events|
    ensures Inv(State(cfg, events, n))
  {
    if n > 0 {
      StateInv(cfg, events, n - 1);
      ApplyKeeps(cfg, State(cfg, events, n - 1), events[n - 1]);
    }
  }

  // ---------- evolution of one lease row over a run ----------

  lemma EvolvesTransitive(a: Option<Lease>, b: Option<Lease>, c: Option<Lease>)
    requires Evolves(a, b) && Evolves(b, c)
    requires b.Some? ==> b.value.start < b.value.until
    ensures Evolves(a, c)
  {
  }

  lemma {:induction false} RowEvolves(cfg: Config, events: seq<Event>, i: nat, j: nat, c: Name)
    requires cfg.Valid() && i <= j <= |events|
    ensures Evolves(State(cfg, events, i).tables.Row(c), State(cfg, events, j).tables.Row(c))
    decreases j
  {
    if i < j {
      RowEvolves(cfg, events, i, j - 1, c);
      StateInv(cfg, events, j - 1);
      var g := State(cfg, events, j - 1);
      assert ClusterInv(g.tables, c);
      if events[j - 1].Run? && events[j - 1].id in g.sessions {
        var s := g.sessions[events[j - 1].id];
        assert ClusterInv(g.tables, s.call.cluster);
        ExecuteKeeps(cfg, g.tables, s, c);
      }
      EvolvesTransitive(State(cfg, events, i).tables.Row(c), g.tables.Row(c), State(cfg, events, j).tables.Row(c));
    }
  }

  // ---------- fencing ----------

  /** In this state the call is about to return, its writer leads, and the lease covers its data. */
  ghost predicate Holds(g: Global, id: nat) {
    && id in g.sessions
    && var s := g.sessions[id];
    && s.call.UpdateLease? && s.pc == FinalRead
    && var row := g.tables.Row(s.call.cluster);
    && row.Some? && row.value.leader == s.call.writer && row.value.until > s.call.maxTime
  }

  /** Every `update_lease` that gets past its checks has passed through a state in which it holds the lease. */
  lemma {:induction false} ReturnsHeld(cfg: Config, events: seq<Event>, n: nat, id: nat) returns (k: nat)
    requires cfg.Valid() && n <= |events|
    requires var g := State(cfg, events, n);
             id in g.sessions && g.sessions[id].call.UpdateLease?
             && (g.sessions[id].pc == FinalRead || g.sessions[id].pc.Returned?)
    ensures k <= n && Holds(State(cfg, events, k), id)
    ensures State(cfg, events, k).sessions[id].call == State(cfg, events, n).sessions[id].call
  {
    var g := State(cfg, events, n - 1);
    StateInv(cfg, events, n - 1);
    if id in g.sessions && (g.sessions[id].pc == FinalRead || g.sessions[id].pc.Returned?) {
      k := ReturnsHeld(cfg, events, n - 1, id);
    } else {
      k := n;
      assert SessionInv(g.tables, g.sessions[id]);
    }
  }

  /** Once a writer holds the lease of a cluster over `maxTime`, no lease of another leader of that
      cluster contains `maxTime` at any point of the run, before or after. */
  lemma HeldIsExclusive(cfg: Config, events: seq<Event>, k: nat, id: nat, j: nat)
    requires cfg.Valid() && k <= |events| && j <= |events|
    requires Holds(State(cfg, events, k), id)
    ensures var call := State(cfg, events, k).sessions[id].call;
            var held := State(cfg, events, k).tables.Row(call.cluster).value;
            var other := State(cfg, events, j).tables.Row(call.cluster);
            (held.start <= call.maxTime && other.Some? && other.value.leader != call.writer) ==>
              !other.value.Contains(call.maxTime)
  {
    var c := State(cfg, events, k).sessions[id].call.cluster;
    if j <= k {
      RowEvolves(cfg, events, j, k, c);
    } else {
      RowEvolves(cfg, events, k, j, c);
    }
  }

  /** Fencing: an `update_lease` that returned normally held the lease at some state of its call, and
      if that lease had started by `maxTime` then nobody else's lease ever contains `maxTime`. */
  lemma Fencing(cfg: Config, events: seq<Event>, id: nat) returns (k: nat)
    requires cfg.Valid()
    requires var g := State(cfg, events, |events|);
             id in g.sessions && g.sessions[id].call.UpdateLease? && g.sessions[id].pc.Returned?
    ensures k <= |events| && Holds(State(cfg, events, k), id)
    ensures State(cfg, events, k).sessions[id].call == State(cfg, events, |events|).sessions[id].call
    ensures var call := State(cfg, events, k).sessions[id].call;
            State(cfg, events, k).tables.Row(call.cluster).value.start <= call.maxTime ==>
              forall j: nat :: j <= |events| ==>
                var other := State(cfg, events, j).tables.Row(call.cluster);
                other.Some? && other.value.leader != call.writer ==> !other.value.Contains(call.maxTime)
  {
    k := ReturnsHeld(cfg, events, |events|, id);
    forall j: nat | j <= |events| {
      HeldIsExclusive(cfg, events, k, id, j);
    }
  }

  const TAKE: Call := Call.TryChangeLeader("c", "b", 60)
  const LATE: Call := Call.UpdateLease("c", "b", 50, 55)

  lemma FirstLease(cfg: Config, events: seq<Event>)
    requires cfg == Config(60, 10) && |events| >= 3
    requires events[0] == Start(0, Call.UpdateLease("c", "a", 0, 0)) && events[1] == Run(0) && events[2] == Run(0)
    ensures State(cfg, events, 3).tables.Row("c") == Some(Lease("a", 0, 60))
    ensures State(cfg, events, 3).sessions.Keys == {0}
  {
    var call, none := Call.UpdateLease("c", "a", 0, 0), Tables(map[], map[]);
    assert State(cfg, events, 0) == Global(none, map[]);
    assert State(cfg, events, 1) == Global(none, map[0 := Session(call, ReadRow)]);
    assert State(cfg, events, 2) == Global(none, map[0 := Session(call, InsertRow)]);
  }

  lemma TakesOver(cfg: Config, g: Global)
    requires cfg == Config(60, 10) && ClusterInv(g.tables, "c") && g.tables.Row("c") == Some(Lease("a", 0, 60))
    requires 1 in g.sessions && g.sessions[1] == Session(TAKE, ChangeRow)
    ensures var g' := Apply(cfg, g, Run(1));
            g'.tables.Row("c") == Some(Lease("b", 60, 120)) && g'.sessions.Keys == g.sessions.Keys
  {
    WriteKeeps(g.tables, "c", Lease("b", 60, 120));
  }

  lemma ReturnsLate(cfg: Config, g: Global)
    requires cfg == Config(60, 10) && g.tables.Row("c") == Some(Lease("b", 60, 120)) && 2 !in g.sessions
    ensures var g' := Apply(cfg, Apply(cfg, Apply(cfg, g, Start(2, LATE)), Run(2)), Run(2));
            2 in g'.sessions && g'.sessions[2] == Session(LATE, Returned(Lease("b", 60, 120)))
  {
    var g1 := Apply(cfg, g, Start(2, LATE));
    assert g1.sessions[2] == Session(LATE, ReadRow) && g1.tables == g.tables;
    var g2 := Apply(cfg, g1, Run(2));
    assert g2.sessions[2] == Session(LATE, FinalRead) && g2.tables == g.tables;
  }

  lemma AfterTakeover(cfg: Config, events: seq<Event>, n: nat)
    requires cfg == Config(60, 10) && n + 2 <= |events| && events[n] == Start(1, TAKE) && events[n + 1] == Run(1)
    requires State(cfg, events, n).tables.Row("c") == Some(Lease("a", 0, 60))
    requires State(cfg, events, n).sessions.Keys == {0}
    ensures State(cfg, events, n + 2).tables.Row("c") == Some(Lease("b", 60, 120))
    ensures 2 !in State(cfg, events, n + 2).sessions
  {
    var g := State(cfg, events, n + 1);
    assert g == Apply(cfg, State(cfg, events, n), events[n]);
    StateInv(cfg, events, n + 1);
    TakesOver(cfg, g);
    assert State(cfg, events, n + 2) == Apply(cfg, g, events[n + 1]);
  }

  lemma AfterLateCall(cfg: Config, events: seq<Event>, n: nat)
    requires cfg == Config(60, 10) && n + 3 <= |events|
    requires events[n] == Start(2, LATE) && events[n + 1] == Run(2) && events[n + 2] == Run(2)
    requires State(cfg, events, n).tables.Row("c") == Some(Lease("b", 60, 120)) && 2 !in State(cfg, events, n).sessions
    ensures var g := State(cfg, events, n + 3);
            2 in g.sessions && g.sessions[2] == Session(LATE, Returned(Lease("b", 60, 120)))
  {
    ReturnsLate(cfg, State(cfg, events, n));
    assert State(cfg, events, n + 1) == Apply(cfg, State(cfg, events, n), events[n]);
    assert State(cfg, events, n + 2) == Apply(cfg, State(cfg, events, n + 1), events[n + 1]);
  }

  /** A new leader may still claim a time before its own lease: "a" has held [0, 60) when "b" takes over
      for [60, 120), and yet `update_lease` returns normally to "b" for a batch that ends at 55. */
  lemma EarlierTimesAreNotFenced() returns (events: seq<Event>, n: nat)
    ensures n <= |events|
    ensures var before, after := State(Config(60, 10), events, n), State(Config(60, 10), events, |events|);
            && before.tables.Row("c") == Some(Lease("a", 0, 60)) && before.tables.Row("c").value.Contains(LATE.maxTime)
            && 2 in after.sessions && after.sessions[2] == Session(LATE, Returned(Lease("b", 60, 120)))
  {
    var cfg := Config(60, 10);
    var start := Start(0, Call.UpdateLease("c", "a", 0, 0));
    events, n := [start, Run(0), Run(0), Start(1, TAKE), Run(1), Start(2, LATE), Run(2), Run(2)], 3;
    FirstLease(cfg, events);
    AfterTakeover(cfg, events, n);
    AfterLateCall(cfg, events, n + 2);
  }

  // ---------- the audit log ----------

  /** The statement in which a cluster's leader takes the lease over from itself. */
  predicate TakesOverFromSelf(t: Tables, s: Session) {
    && s.call.TryChangeLeader? && s.pc == ChangeRow
    && var row := t.Row(s.call.cluster);
    && Changes(s.call, row) && row.value.leader == s.call.newLeader
  }

  /** The log rows are contiguous half-open intervals in start order; only the newest one is open,
      and it is the current lease. */
  ghost predicate ChainOk(t: Tables, c: Name) {
    var log := t.Log(c);
    match t.Row(c)
    case None => log == []
    case Some(l) =>
      && log != []
      && log[|log| - 1] == LogRow(l.leader, l.start, None)
      && forall i | 0 <= i < |log| - 1 :: log[i].until == Some(log[i + 1].start) && log[i].start < log[i + 1].start
  }

  /** A write keeps the chain unless it moves the start of a lease whose leader stays. */
  lemma WriteChain(t: Tables, c: Name, lease: Lease)
    requires ClusterInv(t, c) && ChainOk(t, c)
    requires lease.start < lease.until && Evolves(t.Row(c), Some(lease)) && Write(t, c, lease).Some?
    requires var row := t.Row(c); row.Some? && row.value.leader != lease.leader ==> lease.start == row.value.until
    ensures var row := t.Row(c);
            ChainOk(Write(t, c, lease).value, c) <==>
              (row.Some? && row.value.leader == lease.leader ==> row.value.start == lease.start)
  {
    var log, log' := t.Log(c), Write(t, c, lease).value.Log(c);
    if t.Row(c).Some? && t.Row(c).value.leader != lease.leader {
      var row := t.Row(c).value;
      assert log' == CloseRow(log, row) + [LogRow(lease.leader, lease.start, None)];
      assert log'[|log| - 1] == LogRow(row.leader, row.start, Some(row.until));
      forall i | 0 <= i < |log| - 1 ensures log'[i] == log[i] {
        assert log[i].until == Some(log[i + 1].start);
      }
    }
  }

  /** A statement breaks the chain exactly when the leader takes over from itself. */
  lemma ChainStep(cfg: Config, t: Tables, s: Session, c: Name)
    requires cfg.Valid() && SessionInv(t, s)
    requires ClusterInv(t, s.call.cluster) && ChainOk(t, c)
    ensures ChainOk(Execute(cfg, t, s).0, c) <==> !(c == s.call.cluster && TakesOverFromSelf(t, s))
  {
    var row := t.Row(s.call.cluster);
    TargetMovesForward(cfg, row, s);
    match Target(cfg, row, s)
    case None =>
    case Some(lease) =>
      WriteKeeps(t, s.call.cluster, lease);
      var t' := Write(t, s.call.cluster, lease).value;
      if c == s.call.cluster {
        WriteChain(t, c, lease);
      } else {
        assert t'.Log(c) == t.Log(c) && t'.Row(c) == t.Row(c);
      }
  }

  predicate SelfTakeoverAt(cfg: Config, events: seq<Event>, n: nat, c: Name)
    requires n < |events|
  {
    var g := State(cfg, events, n);
    && events[n].Run? && events[n].id in g.sessions
    && g.sessions[events[n].id].call.cluster == c
    && TakesOverFromSelf(g.tables, g.sessions[events[n].id])
  }

  lemma ChainAt(cfg: Config, events: seq<Event>, c: Name, n: nat)
    requires cfg.Valid() && n < |events| && ChainOk(State(cfg, events, n).tables, c)
    ensures ChainOk(State(cfg, events, n + 1).tables, c) <==> !SelfTakeoverAt(cfg, events, n, c)
  {
    StateInv(cfg, events, n);
    var g := State(cfg, events, n);
    if events[n].Run? && events[n].id in g.sessions {
      var s := g.sessions[events[n].id];
      assert ClusterInv(g.tables, s.call.cluster);
      ChainStep(cfg, g.tables, s, c);
    }
  }

  lemma {:induction false} QuietKeepsChain(cfg: Config, events: seq<Event>, c: Name, n: nat)
    requires cfg.Valid() && n <= |events|
    requires forall i: nat :: i < n ==> !SelfTakeoverAt(cfg, events, i, c)
    ensures ChainOk(State(cfg, events, n).tables, c)
  {
    if n > 0 {
      QuietKeepsChain(cfg, events, c, n - 1);
      ChainAt(cfg, events, c, n - 1);
    }
  }

  ghost predicate ChainThroughout(cfg: Config, events: seq<Event>, c: Name, n: nat)
    requires n <= |events|
  {
    forall i: nat | i <= n :: ChainOk(State(cfg, events, i).tables, c)
  }

  ghost predicate NoSelfTakeover(cfg: Config, events: seq<Event>, c: Name, n: nat)
    requires n <= |events|
  {
    forall i: nat | i < n :: !SelfTakeoverAt(cfg, events, i, c)
  }

  /** The log is a faithful chain throughout a run exactly when no leader takes over from itself in it. */
  lemma AuditLogChain(cfg: Config, events: seq<Event>, c: Name, n: nat)
    requires cfg.Valid() && n <= |events|
    ensures ChainThroughout(cfg, events, c, n) <==> NoSelfTakeover(cfg, events, c, n)
  {
    if NoSelfTakeover(cfg, events, c, n) {
      forall i: nat | i <= n ensures ChainOk(State(cfg, events, i).tables, c) {
        QuietKeepsChain(cfg, events, c, i);
      }
    }
    if ChainThroughout(cfg, events, c, n) {
      forall i: nat | i < n ensures !SelfTakeoverAt(cfg, events, i, c) {
        assert ChainOk(State(cfg, events, i).tables, c) && ChainOk(State(cfg, events, i + 1).tables, c);
        ChainAt(cfg, events, c, i);
      }
    }
  }

  /** Such a run exists: a leader whose lease has run out calls `try_change_leader` for itself. */
  lemma SelfTakeoverBreaksTheLog() returns (events: seq<Event>)
    ensures |events| == 5 && !ChainThroughout(Config(60, 10), events, "c", 5)
  {
    var cfg := Config(60, 10);
    var first, second := Call.UpdateLease("c", "a", 0, 0), Call.TryChangeLeader("c", "a", 60);
    events := [Start(0, first), Run(0), Run(0), Start(1, second), Run(1)];
    var none := Tables(map[], map[]);
    assert State(cfg, events, 0) == Global(none, map[]);
    assert State(cfg, events, 1) == Global(none, map[0 := Session(first, ReadRow)]);
    assert State(cfg, events, 2) == Global(none, map[0 := Session(first, InsertRow)]);
    var g := State(cfg, events, 3);
    assert g == Apply(cfg, State(cfg, events, 2), Run(0));
    assert g.tables.Row("c") == Some(Lease("a", 0, 60)) && 1 !in g.sessions;
    assert State(cfg, events, 4) == Apply(cfg, g, Start(1, second));
    assert SelfTakeoverAt(cfg, events, 4, "c");
    AuditLogChain(cfg, events, "c", 5);
  }

  // ---------- the write order and the log's primary key ----------

  /** A statement that writes the row strictly raises `lease_until`, and no statement of any run
      violates the primary key of the log, self-takeovers included. */
  lemma WritesRaiseUntil(cfg: Config, events: seq<Event>, n: nat, c: Name)
    requires cfg.Valid() && n < |events|
    ensures var before := State(cfg, events, n).tables.Row(c);
            var after := State(cfg, events, n + 1).tables.Row(c);
            before.Some? && after != before ==> after.Some? && before.value.until < after.value.until
    ensures var sessions := State(cfg, events, n + 1).sessions;
            forall id | id in sessions :: sessions[id].pc != Raised(UniqueViolation)
  {
    StateInv(cfg, events, n);
    StateInv(cfg, events, n + 1);
    assert ClusterInv(State(cfg, events, n).tables, c);
  }

  /** A call after `n` statements with no other session in between. */
  function RunAlone(cfg: Config, t: Tables, call: Call, n: nat): (Tables, Session) {
    if n == 0 then (t, Begin(call))
    else var (t', s') := RunAlone(cfg, t, call, n - 1); Execute(cfg, t', s')
  }

  /** What `update_lease` does when nothing interferes: it refuses another leader, creates the lease
      of a new cluster, and otherwise extends the lease only when that gains more than `refresh`. */
  lemma AloneUpdateLease(cfg: Config, t: Tables, c: Name, w: Name, min: Time, max: Time)
    requires cfg.Valid() && min <= max && ClusterInv(t, c)
    ensures var (t', s') := RunAlone(cfg, t, Call.UpdateLease(c, w, min, max), 4);
            match t.Row(c)
            case None =>
              var lease := Lease(w, min, max + cfg.timeout);
              s'.pc == Returned(lease) && t'.Row(c) == Some(lease) && t'.Log(c) == [LogRow(w, min, None)]
            case Some(l) =>
              if l.leader != w then t' == t && s'.pc == Raised(LeaderHasChanged)
              else
                var kept := if max + cfg.timeout > l.until + cfg.refresh then l.(until := max + cfg.timeout) else l;
                s'.pc == Returned(kept) && t'.Row(c) == Some(kept) && t'.Log(c) == t.Log(c)
  {
    var call := Call.UpdateLease(c, w, min, max);
    assert RunAlone(cfg, t, call, 0) == (t, Begin(call));
    var (t1, s1) := RunAlone(cfg, t, call, 1);
    var (t2, s2) := RunAlone(cfg, t, call, 2);
    var (t3, s3) := RunAlone(cfg, t, call, 3);
    assert t1 == t && s1.call == call;
    assert (t2, s2) == Execute(cfg, t1, s1) && (t3, s3) == Execute(cfg, t2, s2);
  }

  /** What `try_change_leader` does when nothing interferes: nothing while the lease still covers
      `max_time`; otherwise the new leader's lease starts where the old one ended and covers `max_time`. */
  lemma AloneTryChangeLeader(cfg: Config, t: Tables, c: Name, w: Name, max: Time)
    requires cfg.Valid() && ClusterInv(t, c)
    ensures var (t', s') := RunAlone(cfg, t, Call.TryChangeLeader(c, w, max), 2);
            match t.Row(c)
            case None => t' == t && s'.pc == Raised(NoRow)
            case Some(l) =>
              if l.until > max then t' == t && s'.pc == Returned(l)
              else
                var taken := Lease(w, l.until, max + cfg.timeout);
                && s'.pc == Returned(taken) && t'.Row(c) == Some(taken) && taken.Contains(max)
                && (l.leader == w ==> t'.Log(c) == t.Log(c))
                && (l.leader != w && ChainOk(t, c) ==>
                      t'.Log(c) == t.Log(c)[..|t.Log(c)| - 1]
                                   + [LogRow(l.leader, l.start, Some(l.until)), LogRow(w, l.until, None)])
  {
    var call := Call.TryChangeLeader(c, w, max);
    assert RunAlone(cfg, t, call, 1) == Execute(cfg, t, Begin(call));
    if t.Row(c).Some? && t.Row(c).value.until <= max {
      var l, log := t.Row(c).value, t.Log(c);
      var taken := Lease(w, l.until, max + cfg.timeout);
      WriteKeeps(t, c, taken);
      if l.leader != w && ChainOk(t, c) {
        forall i | 0 <= i < |log| - 1 ensures CloseRow(log, l)[i] == log[i] {
          assert log[i].until == Some(log[i + 1].start);
        }
        assert CloseRow(log, l) == log[..|log| - 1] + [LogRow(l.leader, l.start, Some(l.until))];
      }
    }
  }

  // ---------- what a statement writes, in any run ----------

  /** A statement that changes the row of a cluster is an insert, an extension or a takeover of its call. A
      lease that is made covers the call's `max_time` by the timeout; an extension ends there too, gains more
      than the refresh margin, and keeps leader and start; a takeover is of a lease that has run out by
      `max_time`, and starts where that one ended. */
  lemma WritesExactly(cfg: Config, events: seq<Event>, n: nat, c: Name)
    requires cfg.Valid() && n < |events|
    requires State(cfg, events, n).tables.Row(c) != State(cfg, events, n + 1).tables.Row(c)
    ensures events[n].Run? && events[n].id in State(cfg, events, n).sessions
    ensures var before, after := State(cfg, events, n).tables.Row(c), State(cfg, events, n + 1).tables.Row(c);
            var call := State(cfg, events, n).sessions[events[n].id].call;
            && call.cluster == c && after.Some?
            && after.value.until == call.maxTime + cfg.timeout && after.value.until > call.maxTime
            && (before.None? ==>
                  call.UpdateLease? && after.value.leader == call.writer && after.value.start == call.minTime)
            && (before.Some? && call.UpdateLease? ==>
                  && after.value.leader == before.value.leader == call.writer && after.value.start == before.value.start
                  && after.value.until > before.value.until + cfg.refresh)
            && (before.Some? && call.TryChangeLeader? ==>
                  && after.value.leader == call.newLeader && after.value.start == before.value.until <= call.maxTime
                  && after.value.Contains(call.maxTime))
  {
    StateInv(cfg, events, n);
    assert ClusterInv(State(cfg, events, n).tables, c);
  }

  /** `update_lease` is only refused for good reason: the cluster is then led by another, or its lease does
      not cover the call's `max_time`. */
  lemma RefusedOnlyWhenLost(cfg: Config, events: seq<Event>, n: nat, id: nat)
    requires cfg.Valid() && n < |events|
    requires id in State(cfg, events, n + 1).sessions
    requires State(cfg, events, n + 1).sessions[id].pc == Raised(LeaderHasChanged)
    requires id in State(cfg, events, n).sessions && State(cfg, events, n).sessions[id].pc != Raised(LeaderHasChanged)
    ensures var call := State(cfg, events, n).sessions[id].call;
            var row := State(cfg, events, n).tables.Row(call.cluster);
            && call.UpdateLease? && row.Some? && (row.value.leader != call.writer || row.value.until <= call.maxTime)
  {
    StateInv(cfg, events, n);
    assert SessionInv(State(cfg, events, n).tables, State(cfg, events, n).sessions[id]);
  }

  /** A writer that finds its guarded statement was overtaken goes on as if it had come later: one whose
      insert lost checks the winner's row, and one whose update lost is content with a lease that covers it. */
  lemma OvertakenGoesOn(cfg: Config, t: Tables, s: Session)
    requires s.call.UpdateLease? && t.Row(s.call.cluster).Some?
    ensures var row := t.Row(s.call.cluster).value;
            && (s.pc == ReadInserted ==> Execute(cfg, t, s) == Execute(cfg, t, s.(pc := ReadRow)))
            && (s.pc == InsertRow ==> Execute(cfg, t, s) == (t, s.(pc := ReadInserted)))
            && (s.pc == ExtendRow
                && (row.leader != s.call.writer || row.until + cfg.refresh >= s.call.maxTime + cfg.timeout) ==>
                  Execute(cfg, t, s) == (t, s.(pc := Reread)))
            && (s.pc == Reread && row.leader == s.call.writer && row.until > s.call.maxTime ==>
                  Execute(cfg, t, s) == (t, s.(pc := FinalRead)))
            && (s.pc == FinalRead ==> Execute(cfg, t, s) == (t, s.(pc := Returned(row))))
  {
  }
}
