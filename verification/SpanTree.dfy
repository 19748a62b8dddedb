/** The recursive queries over the spans of one trace: `trace_tree`, `upstream_spans`,
    `downstream_spans` and `span_tree`. */
module SpanTree {
  import opened Wrappers

  type Id = int

  datatype Span = Span(id: Id, parent: Option<Id>)

  /** A row of a query; `dist` is one less than the level that `trace_tree` reports. */
  datatype Row = Row(parent: Option<Id>, id: Id, dist: nat, path: seq<Id>)

  predicate Within(maxDist: Option<int>, dist: int) {
    maxDist.None? || dist <= maxDist.value
  }

  // ---------- the recursive parts ----------

  function Children(spans: set<Span>, working: set<Row>): set<Row> {
    set x, s | x in working && s in spans && s.parent == Some(x.id) :: Row(s.parent, s.id, x.dist + 1, x.path + [s.id])
  }

  function Parents(spans: set<Span>, working: set<Row>): set<Row> {
    set x, s | x in working && s in spans && x.parent == Some(s.id) :: Row(s.parent, s.id, x.dist + 1, [s.id] + x.path)
  }

  function StartingAt(spans: set<Span>, id: Id): set<Row> {
    set s | s in spans && s.id == id :: Row(s.parent, s.id, 0, [s.id])
  }

  function Roots(spans: set<Span>): set<Row> {
    set s | s in spans && s.parent == None :: Row(s.parent, s.id, 0, [s.id])
  }

  /** The working table after `n` rounds of a recursion. */
  function DownRound(spans: set<Span>, start: set<Row>, n: nat): set<Row> {
    if n == 0 then start else Children(spans, DownRound(spans, start, n - 1))
  }

  function UpRound(spans: set<Span>, id: Id, n: nat): set<Row> {
    if n == 0 then StartingAt(spans, id) else Parents(spans, UpRound(spans, id, n - 1))
  }

  function Limited(maxDist: Option<int>, rows: set<Row>): set<Row> {
    set r | r in rows && Within(maxDist, r.dist)
  }

  /** The rounds with a distance limit: no row beyond it is produced, so none is extended. */
  function DownRoundWithin(spans: set<Span>, start: set<Row>, maxDist: Option<int>, n: nat): set<Row> {
    if n == 0 then start else Limited(maxDist, Children(spans, DownRoundWithin(spans, start, maxDist, n - 1)))
  }

  function UpRoundWithin(spans: set<Span>, id: Id, maxDist: Option<int>, n: nat): set<Row> {
    if n == 0 then StartingAt(spans, id) else Limited(maxDist, Parents(spans, UpRoundWithin(spans, id, maxDist, n - 1)))
  }

  ghost predicate IsDownstream(spans: set<Span>, id: Id, maxDist: Option<int>, r: Row) {
    exists n: nat :: r in DownRoundWithin(spans, StartingAt(spans, id), maxDist, n)
  }

  ghost predicate IsUpstream(spans: set<Span>, id: Id, maxDist: Option<int>, r: Row) {
    exists n: nat :: r in UpRoundWithin(spans, id, maxDist, n)
  }

  lemma {:induction false} RoundDist(spans: set<Span>, start: set<Row>, n: nat, r: Row)
    requires r in DownRound(spans, start, n) && forall x | x in start :: x.dist == 0
    ensures r.dist == n
  {
    if n > 0 {
      var x, s := ChildOf(spans, DownRound(spans, start, n - 1), r);
      RoundDist(spans, start, n - 1, x);
    }
  }

  lemma {:induction false} UpRoundDist(spans: set<Span>, id: Id, n: nat, r: Row)
    requires r in UpRound(spans, id, n)
    ensures r.dist == n
  {
    if n > 0 {
      var x, s := ParentOf(spans, UpRound(spans, id, n - 1), r);
      UpRoundDist(spans, id, n - 1, x);
    }
  }

  lemma LimitedRound(maxDist: Option<int>, rows: set<Row>, n: nat)
    requires forall r | r in rows :: r.dist == n
    ensures Limited(maxDist, rows) == if Within(maxDist, n) then rows else {}
  {
  }

  /** Pruning inside the recursion leaves the rows that a filter on the whole recursion would. */
  lemma {:induction false} DownPrunes(spans: set<Span>, start: set<Row>, maxDist: Option<int>, n: nat)
    requires forall x | x in start :: x.dist == 0
    ensures DownRoundWithin(spans, start, maxDist, n)
         == if n == 0 || Within(maxDist, n) then DownRound(spans, start, n) else {}
  {
    if n > 0 {
      DownPrunes(spans, start, maxDist, n - 1);
      forall r | r in DownRound(spans, start, n) ensures r.dist == n {
        RoundDist(spans, start, n, r);
      }
      LimitedRound(maxDist, DownRound(spans, start, n), n);
    }
  }

  lemma {:induction false} UpPrunes(spans: set<Span>, id: Id, maxDist: Option<int>, n: nat)
    ensures UpRoundWithin(spans, id, maxDist, n) == if n == 0 || Within(maxDist, n) then UpRound(spans, id, n) else {}
  {
    if n > 0 {
      UpPrunes(spans, id, maxDist, n - 1);
      forall r | r in UpRound(spans, id, n) ensures r.dist == n {
        UpRoundDist(spans, id, n, r);
      }
      LimitedRound(maxDist, UpRound(spans, id, n), n);
    }
  }

  /** With a limit, both recursions end after it, whatever the parent links. */
  lemma LimitEnds(spans: set<Span>, id: Id, max: int, n: nat)
    requires n > 0 && n > max
    ensures DownRoundWithin(spans, StartingAt(spans, id), Some(max), n) == {}
    ensures UpRoundWithin(spans, id, Some(max), n) == {}
  {
    DownPrunes(spans, StartingAt(spans, id), Some(max), n);
    UpPrunes(spans, id, Some(max), n);
  }

  /** A row is downstream when it comes up in the round of its distance, and that is not beyond the limit. */
  lemma DownstreamRound(spans: set<Span>, id: Id, maxDist: Option<int>, r: Row)
    ensures IsDownstream(spans, id, maxDist, r) <==>
              r in DownRound(spans, StartingAt(spans, id), r.dist) && (r.dist == 0 || Within(maxDist, r.dist))
  {
    var start := StartingAt(spans, id);
    DownPrunes(spans, start, maxDist, r.dist);
    if n: nat :| r in DownRoundWithin(spans, start, maxDist, n) {
      DownPrunes(spans, start, maxDist, n);
      RoundDist(spans, start, n, r);
    }
  }

  lemma UpstreamRound(spans: set<Span>, id: Id, maxDist: Option<int>, r: Row)
    ensures IsUpstream(spans, id, maxDist, r) <==>
              r in UpRound(spans, id, r.dist) && (r.dist == 0 || Within(maxDist, r.dist))
  {
    UpPrunes(spans, id, maxDist, r.dist);
    if n: nat :| r in UpRoundWithin(spans, id, maxDist, n) {
      UpPrunes(spans, id, maxDist, n);
      UpRoundDist(spans, id, n, r);
    }
  }

  // ---------- chains ----------

  /** Spans in a row from parent to child. */
  predicate Chain(spans: set<Span>, c: seq<Span>) {
    && c != []
    && (forall i | 0 <= i < |c| :: c[i] in spans)
    && forall i | 0 < i < |c| :: c[i].parent == Some(c[i - 1].id)
  }

  function Ids(c: seq<Span>): seq<Id> {
    seq(|c|, i requires 0 <= i < |c| => c[i].id)
  }

  function DownRow(c: seq<Span>): Row
    requires c != []
  {
    Row(c[|c| - 1].parent, c[|c| - 1].id, |c| - 1, Ids(c))
  }

  function UpRow(c: seq<Span>): Row
    requires c != []
  {
    Row(c[0].parent, c[0].id, |c| - 1, Ids(c))
  }

  lemma ConsChain(spans: set<Span>, s: Span, rest: seq<Span>)
    requires Chain(spans, rest) && s in spans && rest[0].parent == Some(s.id)
    ensures Chain(spans, [s] + rest) && Ids([s] + rest) == [s.id] + Ids(rest)
  {
  }

  lemma SnocChain(spans: set<Span>, init: seq<Span>, s: Span)
    requires Chain(spans, init) && s in spans && s.parent == Some(init[|init| - 1].id)
    ensures Chain(spans, init + [s]) && Ids(init + [s]) == Ids(init) + [s.id]
    ensures DownRow(init + [s]) == Row(s.parent, s.id, DownRow(init).dist + 1, DownRow(init).path + [s.id])
  {
  }

  lemma ChildOf(spans: set<Span>, working: set<Row>, r: Row) returns (x: Row, s: Span)
    requires r in Children(spans, working)
    ensures x in working && s in spans && s.parent == Some(x.id)
    ensures r == Row(s.parent, s.id, x.dist + 1, x.path + [s.id])
  {
    x, s :| x in working && s in spans && s.parent == Some(x.id)
            && r == Row(s.parent, s.id, x.dist + 1, x.path + [s.id]);
  }

  lemma ParentOf(spans: set<Span>, working: set<Row>, r: Row) returns (x: Row, s: Span)
    requires r in Parents(spans, working)
    ensures x in working && s in spans && x.parent == Some(s.id)
    ensures r == Row(s.parent, s.id, x.dist + 1, [s.id] + x.path)
  {
    x, s :| x in working && s in spans && x.parent == Some(s.id)
            && r == Row(s.parent, s.id, x.dist + 1, [s.id] + x.path);
  }

  lemma {:induction false} ChainToDown(spans: set<Span>, start: set<Row>, c: seq<Span>)
    requires Chain(spans, c) && DownRow(c[..1]) in start
    ensures DownRow(c) in DownRound(spans, start, |c| - 1)
  {
    var n := |c|;
    if n > 1 {
      var init := c[..n - 1];
      assert init[..1] == c[..1];
      ChainToDown(spans, start, init);
      assert c[n - 1].parent == Some(init[n - 2].id);
      assert Ids(c) == Ids(init) + [c[n - 1].id];
    } else {
      assert c[..1] == c;
    }
  }

  /** A row of the non-recursive part: a span of the trace on its own. */
  predicate IsStart(spans: set<Span>, x: Row) {
    Span(x.id, x.parent) in spans && x == DownRow([Span(x.id, x.parent)])
  }

  lemma StartChain(spans: set<Span>, x: Row) returns (c: seq<Span>)
    requires IsStart(spans, x)
    ensures Chain(spans, c) && x == DownRow(c) && |c| == 1
  {
    c := [Span(x.id, x.parent)];
  }

  lemma {:induction false} DownToChain(spans: set<Span>, start: set<Row>, n: nat, r: Row) returns (c: seq<Span>)
    requires r in DownRound(spans, start, n) && forall x | x in start :: IsStart(spans, x)
    ensures Chain(spans, c) && r == DownRow(c) && |c| == n + 1 && DownRow(c[..1]) in start
  {
    if n == 0 {
      c := StartChain(spans, r);
      assert c[..1] == c;
    } else {
      var x, s := ChildOf(spans, DownRound(spans, start, n - 1), r);
      var init := DownToChain(spans, start, n - 1, x);
      SnocChain(spans, init, s);
      c := init + [s];
      assert c[..1] == init[..1];
    }
  }

  lemma {:induction false} ChainToUp(spans: set<Span>, id: Id, c: seq<Span>)
    requires Chain(spans, c) && c[|c| - 1].id == id
    ensures UpRow(c) in UpRound(spans, id, |c| - 1)
  {
    if |c| > 1 {
      var rest := c[1..];
      assert forall i | 0 <= i < |rest| :: rest[i] == c[i + 1];
      ChainToUp(spans, id, rest);
      assert c[1].parent == Some(c[0].id);
      assert Ids(c) == [c[0].id] + Ids(rest);
    } else {
      assert Ids(c) == [c[0].id];
    }
  }

  lemma {:induction false} UpToChain(spans: set<Span>, id: Id, n: nat, r: Row) returns (c: seq<Span>)
    requires r in UpRound(spans, id, n)
    ensures Chain(spans, c) && r == UpRow(c) && |c| == n + 1 && c[n].id == id
  {
    if n == 0 {
      c := [Span(r.id, r.parent)];
      assert Ids(c) == [r.id];
    } else {
      var x, s := ParentOf(spans, UpRound(spans, id, n - 1), r);
      var rest := UpToChain(spans, id, n - 1, x);
      c := [s] + rest;
      ConsChain(spans, s, rest);
    }
  }

  lemma StartRows(spans: set<Span>, start: set<Row>)
    requires forall x | x in start :: exists s | s in spans :: x == Row(s.parent, s.id, 0, [s.id])
    ensures forall x | x in start :: IsStart(spans, x)
  {
  }

  lemma DownstreamChain(spans: set<Span>, s: Id, r: Row) returns (c: seq<Span>)
    requires r in DownRound(spans, StartingAt(spans, s), r.dist)
    ensures Chain(spans, c) && c[0].id == s && r == DownRow(c)
  {
    StartRows(spans, StartingAt(spans, s));
    c := DownToChain(spans, StartingAt(spans, s), r.dist, r);
    assert Ids(c[..1]) == [c[0].id];
  }

  lemma ChainDownstream(spans: set<Span>, c: seq<Span>)
    requires Chain(spans, c)
    ensures DownRow(c) in DownRound(spans, StartingAt(spans, c[0].id), |c| - 1)
  {
    assert Ids(c[..1]) == [c[0].id];
    ChainToDown(spans, StartingAt(spans, c[0].id), c);
  }

  /** The row reports this chain: its ids from the top down, and their number less one. */
  ghost predicate Reports(spans: set<Span>, c: seq<Span>, r: Row) {
    && Chain(spans, c)
    && |r.path| == |c| == r.dist + 1
    && forall i | 0 <= i < |c| :: r.path[i] == c[i].id
  }

  ghost predicate InReach(maxDist: Option<int>, dist: nat) {
    maxDist.Some? && dist > 0 ==> dist <= maxDist.value
  }

  /** The downstream rows of `s` are the chains that start at `s` and are in reach; the row is of the last span. */
  lemma DownstreamExactly(spans: set<Span>, s: Id, maxDist: Option<int>, r: Row)
    ensures IsDownstream(spans, s, maxDist, r) <==>
              && InReach(maxDist, r.dist)
              && exists c: seq<Span> :: Reports(spans, c, r) && c[0].id == s && c[r.dist] == Span(r.id, r.parent)
  {
    DownstreamRound(spans, s, maxDist, r);
    if IsDownstream(spans, s, maxDist, r) {
      var c := DownstreamChain(spans, s, r);
      assert Reports(spans, c, r);
    }
    if c: seq<Span> :| Reports(spans, c, r) && c[0].id == s && c[r.dist] == Span(r.id, r.parent) {
      ChainDownstream(spans, c);
      assert Ids(c) == r.path;
    }
  }

  /** The upstream rows of `d` are the chains that end at `d` and are in reach; the row is of the first span. */
  lemma UpstreamExactly(spans: set<Span>, d: Id, maxDist: Option<int>, r: Row)
    ensures IsUpstream(spans, d, maxDist, r) <==>
              && InReach(maxDist, r.dist)
              && exists c: seq<Span> :: Reports(spans, c, r) && c[r.dist].id == d && c[0] == Span(r.id, r.parent)
  {
    UpstreamRound(spans, d, maxDist, r);
    if IsUpstream(spans, d, maxDist, r) {
      var c := UpToChain(spans, d, r.dist, r);
      assert Reports(spans, c, r);
    }
    if c: seq<Span> :| Reports(spans, c, r) && c[r.dist].id == d && c[0] == Span(r.id, r.parent) {
      ChainToUp(spans, d, c);
      assert Ids(c) == r.path;
    }
  }

  lemma DownThenUp(spans: set<Span>, s: Id, maxDist: Option<int>, r: Row) returns (p: Option<Id>)
    requires IsDownstream(spans, s, maxDist, r)
    ensures IsUpstream(spans, r.id, maxDist, Row(p, s, r.dist, r.path))
  {
    DownstreamRound(spans, s, maxDist, r);
    var c := DownstreamChain(spans, s, r);
    ChainToUp(spans, r.id, c);
    p := c[0].parent;
    UpstreamRound(spans, r.id, maxDist, Row(p, s, r.dist, r.path));
  }

  lemma UpThenDown(spans: set<Span>, d: Id, maxDist: Option<int>, r: Row) returns (p: Option<Id>)
    requires IsUpstream(spans, d, maxDist, r)
    ensures IsDownstream(spans, r.id, maxDist, Row(p, d, r.dist, r.path))
  {
    UpstreamRound(spans, d, maxDist, r);
    var c := UpToChain(spans, d, r.dist, r);
    ChainDownstream(spans, c);
    p := c[|c| - 1].parent;
    DownstreamRound(spans, r.id, maxDist, Row(p, d, r.dist, r.path));
  }

  /** Seen from `s`, the span `d` is downstream along a path exactly when, seen from `d`, the span `s`
      is upstream along the same path at the same distance. */
  lemma Duality(spans: set<Span>, s: Id, d: Id, maxDist: Option<int>, dist: nat, path: seq<Id>)
    ensures (exists p :: IsDownstream(spans, s, maxDist, Row(p, d, dist, path)))
       <==> (exists p :: IsUpstream(spans, d, maxDist, Row(p, s, dist, path)))
  {
    if p :| IsDownstream(spans, s, maxDist, Row(p, d, dist, path)) {
      var p' := DownThenUp(spans, s, maxDist, Row(p, d, dist, path));
    }
    if p :| IsUpstream(spans, d, maxDist, Row(p, s, dist, path)) {
      var p' := UpThenDown(spans, d, maxDist, Row(p, s, dist, path));
    }
  }

  // ---------- span_tree ----------

  datatype TreeRow = TreeRow(row: Row, isUpstream: bool, isDownstream: bool)

  ghost predicate IsSpanTreeRow(spans: set<Span>, id: Id, maxDist: Option<int>, t: TreeRow) {
    if t.isUpstream then !t.isDownstream && t.row.dist != 0 && IsUpstream(spans, id, maxDist, t.row)
    else t.isDownstream == (t.row.dist != 0) && IsDownstream(spans, id, maxDist, t.row)
  }

  /** The span itself is there once, as neither above nor below; all others are one or the other. */
  lemma SpanTreeExactly(spans: set<Span>, s: Id, maxDist: Option<int>, t: TreeRow)
    ensures t.row.dist == 0 ==>
              (IsSpanTreeRow(spans, s, maxDist, t) <==>
                !t.isUpstream && !t.isDownstream && Span(s, t.row.parent) in spans
                && t.row == Row(t.row.parent, s, 0, [s]))
    ensures t.row.dist > 0 ==>
              (IsSpanTreeRow(spans, s, maxDist, t) <==>
                InReach(maxDist, t.row.dist) && t.isUpstream != t.isDownstream
                && exists c: seq<Span> :: Reports(spans, c, t.row)
                               && if t.isUpstream then c[t.row.dist].id == s && c[0] == Span(t.row.id, t.row.parent)
                                  else c[0].id == s && c[t.row.dist] == Span(t.row.id, t.row.parent))
  {
    DownstreamExactly(spans, s, maxDist, t.row);
    UpstreamExactly(spans, s, maxDist, t.row);
    if t.row == Row(t.row.parent, s, 0, [s]) && Span(s, t.row.parent) in spans {
      assert Reports(spans, [Span(s, t.row.parent)], t.row);
    }
  }

  /** `t` is below `s` in the span tree of `s` exactly when `s` is above `t` in the span tree of `t`. */
  lemma SpanTreeDuality(spans: set<Span>, s: Id, t: Id, maxDist: Option<int>, dist: nat, path: seq<Id>)
    requires dist != 0
    ensures (exists p :: IsSpanTreeRow(spans, s, maxDist, TreeRow(Row(p, t, dist, path), false, true)))
       <==> (exists p :: IsSpanTreeRow(spans, t, maxDist, TreeRow(Row(p, s, dist, path), true, false)))
  {
    Duality(spans, s, t, maxDist, dist, path);
    if p :| IsDownstream(spans, s, maxDist, Row(p, t, dist, path)) {
      assert IsSpanTreeRow(spans, s, maxDist, TreeRow(Row(p, t, dist, path), false, true));
    }
    if p :| IsUpstream(spans, t, maxDist, Row(p, s, dist, path)) {
      assert IsSpanTreeRow(spans, t, maxDist, TreeRow(Row(p, s, dist, path), true, false));
    }
  }

  // ---------- trace_tree ----------

  ghost predicate UniqueIds(spans: set<Span>) {
    forall s, t | s in spans && t in spans && s.id == t.id :: s == t
  }

  lemma TreeRowHasRoot(spans: set<Span>, r: Row) returns (root: Span)
    requires r in DownRound(spans, Roots(spans), r.dist)
    ensures root in spans && root.parent == None && IsDownstream(spans, root.id, None, r)
  {
    StartRows(spans, Roots(spans));
    var c := DownToChain(spans, Roots(spans), r.dist, r);
    assert DownRow(c[..1]).parent == None;
    ChainDownstream(spans, c);
    DownstreamRound(spans, c[0].id, None, r);
    root := c[0];
  }

  /** The rows of `trace_tree` are the chains that start at a root; the row is of the last span and its
      level, one more than `dist`, is the length of the path. */
  lemma TraceTreeExactly(spans: set<Span>, r: Row)
    ensures r in DownRound(spans, Roots(spans), r.dist) <==>
              exists c: seq<Span> :: Reports(spans, c, r) && c[0].parent == None && c[r.dist] == Span(r.id, r.parent)
  {
    if r in DownRound(spans, Roots(spans), r.dist) {
      StartRows(spans, Roots(spans));
      var c := DownToChain(spans, Roots(spans), r.dist, r);
      assert DownRow(c[..1]).parent == None;
      assert Reports(spans, c, r);
    }
    if c: seq<Span> :| Reports(spans, c, r) && c[0].parent == None && c[r.dist] == Span(r.id, r.parent) {
      assert Ids(c[..1]) == [c[0].id];
      ChainToDown(spans, Roots(spans), c);
      assert Ids(c) == r.path;
    }
  }

  lemma BelowRootIsTreeRow(spans: set<Span>, root: Span, r: Row)
    requires UniqueIds(spans) && root in spans && root.parent == None && IsDownstream(spans, root.id, None, r)
    ensures r in DownRound(spans, Roots(spans), r.dist)
  {
    DownstreamRound(spans, root.id, None, r);
    var c := DownstreamChain(spans, root.id, r);
    assert c[0] == root && Ids(c[..1]) == [root.id];
    ChainToDown(spans, Roots(spans), c);
  }

  /** The rows of `trace_tree` are the downstream rows of the roots (its level is one more than `dist`). */
  lemma TreeIsDownstreamOfRoots(spans: set<Span>, r: Row)
    requires UniqueIds(spans)
    ensures r in DownRound(spans, Roots(spans), r.dist) <==>
              exists root | root in spans && root.parent == None :: IsDownstream(spans, root.id, None, r)
  {
    if r in DownRound(spans, Roots(spans), r.dist) {
      var root := TreeRowHasRoot(spans, r);
    }
    if root :| root in spans && root.parent == None && IsDownstream(spans, root.id, None, r) {
      BelowRootIsTreeRow(spans, root, r);
    }
  }

  // ---------- termination ----------

  /** If two spans of a chain are the same, then so is the first one and one further down. */
  lemma {:induction false} RepeatsFromStart(spans: set<Span>, c: seq<Span>, i: nat, j: nat)
    requires UniqueIds(spans) && Chain(spans, c) && i < j < |c| && c[i].id == c[j].id
    ensures c[0] == c[j - i]
  {
    if i > 0 {
      assert c[i].parent == Some(c[i - 1].id) && c[j].parent == Some(c[j - 1].id);
      RepeatsFromStart(spans, c, i - 1, j - 1);
    }
  }

  predicate NoRepeats(c: seq<Span>) {
    forall i, j | 0 <= i < j < |c| :: c[i] != c[j]
  }

  lemma {:induction false} NoRepeatsIsShort(spans: set<Span>, c: seq<Span>)
    requires NoRepeats(c) && forall i | 0 <= i < |c| :: c[i] in spans
    ensures |c| <= |spans|
  {
    if c != [] {
      var n := |c|;
      NoRepeatsIsShort(spans - {c[n - 1]}, c[..n - 1]);
      assert c[n - 1] in spans;
    }
  }

  /** A chain whose first span does not come back is no longer than the trace. */
  lemma ChainIsShort(spans: set<Span>, c: seq<Span>)
    requires UniqueIds(spans) && Chain(spans, c) && forall i | 0 < i < |c| :: c[i] != c[0]
    ensures |c| <= |spans|
  {
    forall i, j | 0 <= i < j < |c| ensures c[i] != c[j] {
      if c[i] == c[j] {
        RepeatsFromStart(spans, c, i, j);
        assert false;
      }
    }
    NoRepeatsIsShort(spans, c);
  }

  /** `trace_tree` terminates on every trace with unique span ids, whatever its parent links. */
  lemma TraceTreeTerminates(spans: set<Span>)
    requires UniqueIds(spans)
    ensures DownRound(spans, Roots(spans), |spans|) == {}
  {
    StartRows(spans, Roots(spans));
    if r :| r in DownRound(spans, Roots(spans), |spans|) {
      var c := DownToChain(spans, Roots(spans), |spans|, r);
      assert DownRow(c[..1]).parent == None;
      forall i | 0 < i < |c| ensures c[i] != c[0] {
        assert c[i].parent == Some(c[i - 1].id);
      }
      ChainIsShort(spans, c);
      assert false;
    }
  }

  /** A chain that ends in a cycle can be continued along it for ever. */
  lemma {:induction false} PumpDown(spans: set<Span>, c: seq<Span>, p: nat, n: nat) returns (d: seq<Span>)
    requires UniqueIds(spans) && Chain(spans, c) && 1 <= p < |c| && c[|c| - 1 - p] == c[|c| - 1]
    ensures Chain(spans, d) && |d| >= n && d[0] == c[0]
    decreases n - |c|
  {
    if |c| >= n {
      d := c;
    } else {
      var next := c[|c| - p];
      assert c[|c| - p].parent == Some(c[|c| - 1 - p].id);
      SnocChain(spans, c, next);
      d := PumpDown(spans, c + [next], p, n);
    }
  }

  lemma {:induction false} PumpUp(spans: set<Span>, c: seq<Span>, p: nat, n: nat) returns (d: seq<Span>)
    requires UniqueIds(spans) && Chain(spans, c) && 1 <= p < |c| && c[0] == c[p]
    ensures Chain(spans, d) && |d| >= n && d[|d| - 1] == c[|c| - 1]
    decreases n - |c|
  {
    if |c| >= n {
      d := c;
    } else {
      assert c[p].parent == Some(c[p - 1].id);
      ConsChain(spans, c[p - 1], c);
      d := PumpUp(spans, [c[p - 1]] + c, p, n);
    }
  }

  // ---------- cycles of parent links ----------

  ghost function SpanOf(spans: set<Span>, id: Id): (r: Option<Span>)
    ensures r.Some? ==> r.value in spans && r.value.id == id
    ensures r.None? ==> forall s | s in spans :: s.id != id
  {
    if s :| s in spans && s.id == id then Some(s) else None
  }

  /** The span that `n` parent links lead to, if they do not run out. */
  ghost function Ancestor(spans: set<Span>, id: Id, n: nat): Option<Span> {
    if n == 0 then SpanOf(spans, id)
    else match Ancestor(spans, id, n - 1)
      case None => None
      case Some(s) => if s.parent.Some? then SpanOf(spans, s.parent.value) else None
  }

  /** Following at most as many parent links as there are spans leads back to the span. */
  ghost predicate OnCycle(spans: set<Span>, id: Id) {
    exists n | 1 <= n <= |spans| :: LeadsTo(spans, id, n, id)
  }

  ghost predicate LeadsTo(spans: set<Span>, id: Id, n: nat, ancestor: Id) {
    Ancestor(spans, id, n).Some? && Ancestor(spans, id, n).value.id == ancestor
  }

  lemma {:induction false} ChainLeads(spans: set<Span>, c: seq<Span>, id: Id)
    requires UniqueIds(spans) && Chain(spans, c) && c[|c| - 1].id == id
    ensures Ancestor(spans, id, |c| - 1) == Some(c[0])
  {
    if |c| > 1 {
      Suffix(spans, c, |c| - 1);
      ChainLeads(spans, c[1..], id);
      assert c[1].parent == Some(c[0].id);
    }
  }

  lemma {:induction false} LeadsChain(spans: set<Span>, id: Id, n: nat) returns (c: seq<Span>)
    requires Ancestor(spans, id, n).Some?
    ensures Chain(spans, c) && |c| == n + 1 && c[n].id == id && Ancestor(spans, id, n) == Some(c[0])
  {
    if n == 0 {
      c := [SpanOf(spans, id).value];
    } else {
      var rest := LeadsChain(spans, id, n - 1);
      var s := SpanOf(spans, rest[0].parent.value).value;
      ConsChain(spans, s, rest);
      c := [s] + rest;
    }
  }

  /** The first return of a chain to its first span. */
  lemma {:induction false} FirstReturn(c: seq<Span>, i: nat) returns (k: nat)
    requires 1 <= i < |c| && c[i] == c[0]
    ensures 1 <= k <= i && c[k] == c[0] && forall j | 0 < j < k :: c[j] != c[0]
  {
    if j :| 0 < j < i && c[j] == c[0] {
      k := FirstReturn(c, j);
    } else {
      k := i;
    }
  }

  lemma Suffix(spans: set<Span>, c: seq<Span>, n: nat)
    requires Chain(spans, c) && 1 <= n <= |c|
    ensures Chain(spans, c[|c| - n..]) && c[|c| - n..][n - 1] == c[|c| - 1]
  {
  }

  /** A chain from a span back to itself has a turn of it that is no longer than the trace. */
  lemma ReturnIsCycle(spans: set<Span>, c: seq<Span>)
    requires UniqueIds(spans) && Chain(spans, c) && |c| > 1 && c[0] == c[|c| - 1]
    ensures OnCycle(spans, c[0].id)
  {
    var k := FirstReturn(c, |c| - 1);
    ChainIsShort(spans, c[..k]);
    ChainLeads(spans, c[..k + 1], c[0].id);
    assert LeadsTo(spans, c[0].id, k, c[0].id);
  }

  // ---------- downstream ----------

  lemma CycleLoopsDown(spans: set<Span>, s: Id, n: nat)
    requires UniqueIds(spans) && OnCycle(spans, s)
    ensures DownRound(spans, StartingAt(spans, s), n) != {}
  {
    var m :| 1 <= m <= |spans| && LeadsTo(spans, s, m, s);
    var c := LeadsChain(spans, s, m);
    var d := PumpDown(spans, c, m, n + 1);
    ChainDownstream(spans, d[..n + 1]);
  }

  lemma NoCycleEndsDown(spans: set<Span>, s: Id)
    requires UniqueIds(spans) && !OnCycle(spans, s)
    ensures DownRound(spans, StartingAt(spans, s), |spans|) == {}
  {
    if r :| r in DownRound(spans, StartingAt(spans, s), |spans|) {
      RoundDist(spans, StartingAt(spans, s), |spans|, r);
      var c := DownstreamChain(spans, s, r);
      forall i | 0 < i < |c| ensures c[i] != c[0] {
        if c[i] == c[0] {
          ReturnIsCycle(spans, c[..i + 1]);
          assert false;
        }
      }
      ChainIsShort(spans, c);
      assert false;
    }
  }

  /** Without a distance limit, `downstream_spans` ends exactly when the parent links of its span do
      not lead back to it, and then within as many rounds as there are spans. */
  lemma DownstreamTerminates(spans: set<Span>, s: Id)
    requires UniqueIds(spans)
    ensures (exists n: nat :: DownRound(spans, StartingAt(spans, s), n) == {}) <==> !OnCycle(spans, s)
    ensures !OnCycle(spans, s) ==> DownRound(spans, StartingAt(spans, s), |spans|) == {}
  {
    if OnCycle(spans, s) {
      forall n: nat ensures DownRound(spans, StartingAt(spans, s), n) != {} {
        CycleLoopsDown(spans, s, n);
      }
    } else {
      NoCycleEndsDown(spans, s);
    }
  }

  // ---------- upstream ----------

  lemma AncestorsAreRounds(spans: set<Span>, d: Id, n: nat)
    requires UniqueIds(spans)
    ensures UpRound(spans, d, n) != {} <==> Ancestor(spans, d, n).Some?
  {
    if r :| r in UpRound(spans, d, n) {
      var c := UpToChain(spans, d, n, r);
      ChainLeads(spans, c, d);
    }
    if Ancestor(spans, d, n).Some? {
      var c := LeadsChain(spans, d, n);
      ChainToUp(spans, d, c);
    }
  }

  lemma LongChainRepeats(spans: set<Span>, c: seq<Span>) returns (p: nat)
    requires UniqueIds(spans) && Chain(spans, c) && |c| > |spans|
    ensures 1 <= p < |c| && c[0] == c[p]
  {
    if i :| 0 < i < |c| && c[i] == c[0] {
      p := i;
    } else {
      ChainIsShort(spans, c);
      assert false;
    }
  }

  lemma LongWalkLoopsUp(spans: set<Span>, d: Id, n: nat)
    requires UniqueIds(spans) && Ancestor(spans, d, |spans|).Some?
    ensures UpRound(spans, d, n) != {}
  {
    var c := LeadsChain(spans, d, |spans|);
    var p := LongChainRepeats(spans, c);
    var e := PumpUp(spans, c, p, n + 1);
    Suffix(spans, e, n + 1);
    ChainToUp(spans, d, e[|e| - (n + 1)..]);
  }

  /** Without a distance limit, `upstream_spans` ends exactly when the parent links of its span run
      out within as many steps as there are spans. */
  lemma UpstreamTerminates(spans: set<Span>, d: Id)
    requires UniqueIds(spans)
    ensures (exists n: nat :: UpRound(spans, d, n) == {}) <==> Ancestor(spans, d, |spans|).None?
    ensures Ancestor(spans, d, |spans|).None? ==> UpRound(spans, d, |spans|) == {}
  {
    AncestorsAreRounds(spans, d, |spans|);
    if Ancestor(spans, d, |spans|).Some? {
      forall n: nat ensures UpRound(spans, d, n) != {} {
        LongWalkLoopsUp(spans, d, n);
      }
    }
  }

  // ---------- whole traces ----------

  lemma LongWalkHasCycle(spans: set<Span>, d: Id) returns (s: Span)
    requires UniqueIds(spans) && Ancestor(spans, d, |spans|).Some?
    ensures s in spans && OnCycle(spans, s.id)
  {
    var c := LeadsChain(spans, d, |spans|);
    var p := LongChainRepeats(spans, c);
    ReturnIsCycle(spans, c[..p + 1]);
    s := c[0];
  }

  ghost predicate Acyclic(spans: set<Span>) {
    forall s | s in spans :: !OnCycle(spans, s.id)
  }

  /** Both recursions end within as many rounds as there are spans, for every span id, exactly when
      the parent links have no cycle. */
  lemma EndsExactlyWhenAcyclic(spans: set<Span>)
    requires UniqueIds(spans)
    ensures Acyclic(spans) <==>
              forall id :: DownRound(spans, StartingAt(spans, id), |spans|) == {} && UpRound(spans, id, |spans|) == {}
  {
    if Acyclic(spans) {
      forall id ensures DownRound(spans, StartingAt(spans, id), |spans|) == {} && UpRound(spans, id, |spans|) == {} {
        DownstreamTerminates(spans, id);
        if Ancestor(spans, id, |spans|).Some? {
          var s := LongWalkHasCycle(spans, id);
          assert false;
        }
        UpstreamTerminates(spans, id);
      }
    } else {
      var s :| s in spans && OnCycle(spans, s.id);
      CycleLoopsDown(spans, s.id, |spans|);
    }
  }

  /** A span that is its own parent: neither recursion ends. */
  lemma OwnParentNeverEnds(n: nat)
    ensures var spans := {Span(1, Some(1))};
            UniqueIds(spans) && DownRound(spans, StartingAt(spans, 1), n) != {} && UpRound(spans, 1, n) != {}
  {
    var s := Span(1, Some(1));
    var spans := {s};
    ReturnIsCycle(spans, [s, s]);
    CycleLoopsDown(spans, 1, n);
    ChainLeads(spans, [s, s], 1);
    LongWalkLoopsUp(spans, 1, n);
  }
}
