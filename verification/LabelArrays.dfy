/** The label table and the label arrays of series: `get_or_create_label_id` and
    `get_or_create_label_array`. An array has a label id at the position of the label's key and 0
    where a key is not set. */
module LabelArrays {
  import opened Wrappers
  import opened LabelPositions

  datatype Label = Label(key: Key, value: string)

  /** The label table and the next value of its id sequence. */
  datatype LabelTable = LabelTable(rows: map<int, Label>, next: int) {
    ghost predicate Valid() {
      && next > 0
      && (forall id | id in rows :: 0 < id < next)
      && (forall i, j | i in rows && j in rows && rows[i] == rows[j] :: i == j)
    }

    ghost function IdOf(l: Label): (r: Option<int>)
      ensures r.Some? ==> r.value in rows && rows[r.value] == l
      ensures r.None? ==> forall id | id in rows :: rows[id] != l
    {
      if id :| id in rows && rows[id] == l then Some(id) else None
    }

    /** `get_or_create_label_id` */
    ghost function Intern(l: Label): LabelTable {
      if IdOf(l).Some? then this else LabelTable(rows[next := l], next + 1)
    }

    ghost function InternAll(ls: seq<Label>): LabelTable {
      if ls == [] then this else InternAll(ls[..|ls| - 1]).Intern(ls[|ls| - 1])
    }
  }

  /** `t'` has all labels of `t` under their ids. */
  ghost predicate Extends(t: LabelTable, t': LabelTable) {
    t.next <= t'.next && forall id | id in t.rows :: id in t'.rows && t'.rows[id] == t.rows[id]
  }

  lemma {:induction false} InternAllKeeps(t: LabelTable, ls: seq<Label>)
    requires t.Valid()
    ensures var t' := t.InternAll(ls);
            t'.Valid() && Extends(t, t') && (forall l | l in ls :: t'.IdOf(l).Some?)
            && (forall id | id in t'.rows && id !in t.rows :: t.next <= id && t'.rows[id] in ls)
  {
    if ls != [] {
      var init, last := ls[..|ls| - 1], ls[|ls| - 1];
      InternAllKeeps(t, init);
      var t1 := t.InternAll(init);
      var t2 := t1.Intern(last);
      assert ls == init + [last];
      forall l | l in ls ensures t2.IdOf(l).Some? {
        if l in init {
          assert t1.IdOf(l).value in t2.rows;
        } else if t1.IdOf(l).None? {
          assert t2.rows[t1.next] == l;
        }
      }
    }
  }

  // ---------- building an array ----------

  /** The labels of a series, in the order they are looked up; no key comes twice. */
  ghost predicate Request(ls: seq<Label>) {
    ls != [] && forall i, j | 0 <= i < j < |ls| :: ls[i].key != ls[j].key
  }

  function Keys(ls: seq<Label>): seq<Key> {
    seq(|ls|, i requires 0 <= i < |ls| => ls[i].key)
  }

  function Index(positions: seq<Position>, l: Label): int {
    match Find(positions, l.key)
    case Some(p) => p
    case None => 0
  }

  function MaxIndex(positions: seq<Position>, ls: seq<Label>): int {
    if ls == [] then 0
    else
      var m, p := MaxIndex(positions, ls[..|ls| - 1]), Index(positions, ls[|ls| - 1]);
      if p > m then p else m
  }

  /** The id of the label whose key is at index `g`, 0 when there is none. */
  ghost function ValueAt(positions: seq<Position>, t: LabelTable, ls: seq<Label>, g: int): int {
    if ls == [] then 0
    else
      var l := ls[|ls| - 1];
      if Index(positions, l) == g && t.IdOf(l).Some? then t.IdOf(l).value else ValueAt(positions, t, ls[..|ls| - 1], g)
  }

  ghost function LabelArray(positions: seq<Position>, t: LabelTable, ls: seq<Label>): seq<int> {
    var n := MaxIndex(positions, ls);
    seq(if n < 0 then 0 else n, i requires 0 <= i => ValueAt(positions, t, ls, i + 1))
  }

  // ---------- what an array stands for ----------

  ghost function LabelsOf(t: LabelTable, a: seq<int>): set<Label> {
    set i | 0 <= i < |a| && a[i] in t.rows :: t.rows[a[i]]
  }

  /** Every id is a label whose key belongs at its index, and there is no padding at the end. */
  ghost predicate Canonical(positions: seq<Position>, t: LabelTable, a: seq<int>) {
    && (forall i | 0 <= i < |a| && a[i] != 0 :: a[i] in t.rows && Find(positions, t.rows[a[i]].key) == Some(i + 1))
    && a != [] && a[|a| - 1] != 0
  }

  lemma {:induction false} ValueAtSpec(positions: seq<Position>, t: LabelTable, ls: seq<Label>, g: int)
    requires t.Valid() && forall l | l in ls :: t.IdOf(l).Some?
    ensures var v := ValueAt(positions, t, ls, g);
            if v == 0 then forall l | l in ls :: Index(positions, l) != g
            else exists l | l in ls :: Index(positions, l) == g && t.IdOf(l) == Some(v)
  {
    if ls != [] {
      var init, last := ls[..|ls| - 1], ls[|ls| - 1];
      assert ls == init + [last] && last in ls;
      ValueAtSpec(positions, t, init, g);
    }
  }

  lemma {:induction false} MaxIndexSpec(positions: seq<Position>, ls: seq<Label>)
    requires forall l | l in ls :: Index(positions, l) >= 1
    ensures var m := MaxIndex(positions, ls);
            && m >= 0 && (ls != [] ==> exists l | l in ls :: Index(positions, l) == m)
            && forall l | l in ls :: Index(positions, l) <= m
  {
    if ls != [] {
      var init, last := ls[..|ls| - 1], ls[|ls| - 1];
      assert ls == init + [last] && last in ls;
      MaxIndexSpec(positions, init);
      if init == [] {
        assert MaxIndex(positions, init) == 0;
      }
    }
  }

  lemma ArrayEntry(positions: seq<Position>, t: LabelTable, ls: seq<Label>, i: nat)
    requires t.Valid() && Good(positions, false) && Request(ls)
    requires forall l | l in ls :: Find(positions, l.key).Some? && t.IdOf(l).Some?
    requires i < |LabelArray(positions, t, ls)|
    ensures var v := LabelArray(positions, t, ls)[i];
            v != 0 ==> v in t.rows && t.rows[v] in ls && Find(positions, t.rows[v].key) == Some(i + 1)
  {
    ValueAtSpec(positions, t, ls, i + 1);
  }

  lemma ArrayHasLabel(positions: seq<Position>, t: LabelTable, ls: seq<Label>, l: Label) returns (i: nat)
    requires t.Valid() && Good(positions, false) && Request(ls) && l in ls
    requires forall l | l in ls :: Find(positions, l.key).Some? && t.IdOf(l).Some?
    ensures i < |LabelArray(positions, t, ls)| && Some(LabelArray(positions, t, ls)[i]) == t.IdOf(l)
    ensures Find(positions, l.key) == Some(i + 1)
  {
    forall l | l in ls ensures Index(positions, l) >= 1 {
      PositionRange(positions, l.key, false);
    }
    MaxIndexSpec(positions, ls);
    var g := Index(positions, l);
    ValueAtSpec(positions, t, ls, g);
    i := g - 1;
    var l' :| l' in ls && Index(positions, l') == g && t.IdOf(l') == Some(ValueAt(positions, t, ls, g));
    PositionsInjective(positions, l.key, l'.key, false);
  }

  lemma ArrayEnds(positions: seq<Position>, t: LabelTable, ls: seq<Label>)
    requires t.Valid() && Good(positions, false) && Request(ls)
    requires forall l | l in ls :: Find(positions, l.key).Some? && t.IdOf(l).Some?
    ensures var a := LabelArray(positions, t, ls); a != [] && a[|a| - 1] != 0
  {
    forall l | l in ls ensures Index(positions, l) >= 1 {
      PositionRange(positions, l.key, false);
    }
    MaxIndexSpec(positions, ls);
    var top :| top in ls && Index(positions, top) == MaxIndex(positions, ls);
    var last := ArrayHasLabel(positions, t, ls, top);
  }

  /** The array built for a request is canonical and stands for exactly the requested labels. */
  lemma LabelArrayCorrect(positions: seq<Position>, t: LabelTable, ls: seq<Label>)
    requires t.Valid() && Good(positions, false) && Request(ls)
    requires forall l | l in ls :: Find(positions, l.key).Some? && t.IdOf(l).Some?
    ensures var a := LabelArray(positions, t, ls);
            Canonical(positions, t, a) && LabelsOf(t, a) == set l | l in ls
  {
    var a := LabelArray(positions, t, ls);
    ArrayEnds(positions, t, ls);
    forall i | 0 <= i < |a| && a[i] != 0
      ensures a[i] in t.rows && t.rows[a[i]] in ls && Find(positions, t.rows[a[i]].key) == Some(i + 1) {
      ArrayEntry(positions, t, ls, i);
    }
    forall l | l in ls ensures l in LabelsOf(t, a) {
      var i := ArrayHasLabel(positions, t, ls, l);
    }
  }

  /** Zero padding makes arrays canonical: two arrays for the same labels are the same array. */
  lemma CanonicalUnique(positions: seq<Position>, t: LabelTable, a: seq<int>, b: seq<int>)
    requires t.Valid() && Canonical(positions, t, a) && Canonical(positions, t, b) && LabelsOf(t, a) == LabelsOf(t, b)
    ensures a == b
  {
    SameEntries(positions, t, a, b);
    SameEntries(positions, t, b, a);
  }

  lemma SameEntries(positions: seq<Position>, t: LabelTable, a: seq<int>, b: seq<int>)
    requires t.Valid() && Canonical(positions, t, a) && Canonical(positions, t, b) && LabelsOf(t, a) <= LabelsOf(t, b)
    ensures |a| <= |b| && forall i | 0 <= i < |a| && a[i] != 0 :: b[i] == a[i]
  {
    forall i | 0 <= i < |a| && a[i] != 0 ensures i < |b| && b[i] == a[i] {
      assert t.rows[a[i]] in LabelsOf(t, a);
      var j :| 0 <= j < |b| && b[j] in t.rows && t.rows[b[j]] == t.rows[a[i]];
      assert b[j] == a[i] && b[j] != 0;
    }
  }

  /** Growing tables change neither what an array stands for nor that it is canonical. */
  lemma CanonicalStable(positions: seq<Position>, positions': seq<Position>, t: LabelTable, t': LabelTable, a: seq<int>)
    requires t'.Valid() && Canonical(positions, t, a)
    requires forall i | 0 <= i < |a| && a[i] != 0 :: a[i] in t'.rows && t'.rows[a[i]] == t.rows[a[i]]
    requires forall k | Find(positions, k).Some? :: Find(positions', k) == Find(positions, k)
    ensures Canonical(positions', t', a)
    ensures t.Valid() ==> LabelsOf(t', a) == LabelsOf(t, a)
  {
    if t.Valid() {
      assert 0 !in t.rows && 0 !in t'.rows;
    }
  }
}
