/** The position of every label key in a metric's label arrays: `get_new_pos_for_key` on the tables
    `label_key_position` and `exemplar_label_key_position`, for the rows of one metric. */
module LabelPositions {
  import opened Wrappers

  type Key = string

  const NAME: Key := "__name__"

  /** A row of the position table; rows are kept in insertion order. */
  datatype Position = Position(key: Key, pos: int)

  function Find(rows: seq<Position>, key: Key): Option<int> {
    if rows == [] then None
    else if rows[|rows| - 1].key == key then Some(rows[|rows| - 1].pos)
    else Find(rows[..|rows| - 1], key)
  }

  function MaxPos(rows: seq<Position>): int
    requires rows != []
  {
    var last := rows[|rows| - 1].pos;
    if |rows| == 1 then last
    else if MaxPos(rows[..|rows| - 1]) > last then MaxPos(rows[..|rows| - 1]) else last
  }

  /** The first position to give out; position 1 of a metric is reserved for its name. */
  function FirstPos(exemplar: bool): int {
    if exemplar then 1 else 2
  }

  function NextPos(rows: seq<Position>, exemplar: bool): int {
    if rows == [] then FirstPos(exemplar) else MaxPos(rows) + 1
  }

  predicate Reserved(key: Key, exemplar: bool) {
    !exemplar && key == NAME
  }

  // ---------- what the loop computes ----------

  /** The rows after `keys` have been given positions from `next` on. */
  function Assign(rows: seq<Position>, keys: seq<Key>, next: int, exemplar: bool): seq<Position>
    decreases |keys|
  {
    if keys == [] then rows
    else if Find(rows, keys[0]).Some? then Assign(rows, keys[1..], next, exemplar)
    else if Reserved(keys[0], exemplar) then Assign(rows + [Position(keys[0], 1)], keys[1..], next, exemplar)
    else Assign(rows + [Position(keys[0], next)], keys[1..], next + 1, exemplar)
  }

  function WithKeys(rows: seq<Position>, keys: seq<Key>, exemplar: bool): seq<Position> {
    Assign(rows, keys, NextPos(rows, exemplar), exemplar)
  }

  ghost predicate Aligned(rows: seq<Position>, keys: seq<Key>, positions: seq<int>) {
    |positions| == |keys| && forall i | 0 <= i < |keys| :: Find(rows, keys[i]) == Some(positions[i])
  }

  // ---------- the invariant of the table ----------

  /** How many rows hold a position that was given out in turn. */
  function Counted(rows: seq<Position>, exemplar: bool): nat {
    if rows == [] then 0
    else Counted(rows[..|rows| - 1], exemplar) + (if Reserved(rows[|rows| - 1].key, exemplar) then 0 else 1)
  }

  /** Keys are unique, the name is at 1, and all others fill the positions after it in turn. */
  ghost predicate Good(rows: seq<Position>, exemplar: bool) {
    rows != [] ==>
      var init, last := rows[..|rows| - 1], rows[|rows| - 1];
      && Good(init, exemplar) && Find(init, last.key) == None
      && last.pos == if Reserved(last.key, exemplar) then 1 else FirstPos(exemplar) + Counted(init, exemplar)
  }

  lemma FindSnocAll(rows: seq<Position>, row: Position)
    ensures forall key :: Find(rows + [row], key) == if row.key == key then Some(row.pos) else Find(rows, key)
  {
  }

  lemma GoodSnoc(rows: seq<Position>, row: Position, exemplar: bool)
    requires Good(rows, exemplar) && Find(rows, row.key) == None
    requires row.pos == if Reserved(row.key, exemplar) then 1 else FirstPos(exemplar) + Counted(rows, exemplar)
    ensures Good(rows + [row], exemplar)
    ensures Counted(rows + [row], exemplar) == Counted(rows, exemplar) + (if Reserved(row.key, exemplar) then 0 else 1)
  {
  }

  lemma {:induction false} NextPosCounts(rows: seq<Position>, exemplar: bool)
    requires Good(rows, exemplar)
    ensures NextPos(rows, exemplar) == FirstPos(exemplar) + Counted(rows, exemplar)
  {
    if |rows| > 1 {
      NextPosCounts(rows[..|rows| - 1], exemplar);
    }
  }

  lemma {:induction false} CountedRows(rows: seq<Position>, exemplar: bool)
    requires Good(rows, exemplar)
    ensures Counted(rows, exemplar) + (if !exemplar && Find(rows, NAME).Some? then 1 else 0) == |rows|
  {
    if rows != [] {
      CountedRows(rows[..|rows| - 1], exemplar);
    }
  }

  /** `max(pos) + 1` is one more than there are rows, and a further one while a metric's table, whose
      position 1 is kept for `__name__`, has no row for it. */
  lemma NextPosIsFree(rows: seq<Position>, exemplar: bool)
    requires Good(rows, exemplar)
    ensures NextPos(rows, exemplar) == |rows| + (if exemplar || Find(rows, "__name__").Some? then 1 else 2)
  {
    NextPosCounts(rows, exemplar);
    CountedRows(rows, exemplar);
  }

  /** `after` has the positions of `before`, unchanged, and positions for `keys`, and no others. */
  ghost predicate Grows(before: seq<Position>, after: seq<Position>, keys: seq<Key>) {
    && (forall k | Find(before, k).Some? :: Find(after, k) == Find(before, k))
    && (forall k :: Find(after, k).Some? <==> Find(before, k).Some? || k in keys)
  }

  lemma GrowsKnown(before: seq<Position>, after: seq<Position>, keys: seq<Key>)
    requires keys != [] && Find(before, keys[0]).Some? && Grows(before, after, keys[1..])
    ensures Grows(before, after, keys)
  {
  }

  lemma GrowsInserted(before: seq<Position>, row: Position, after: seq<Position>, keys: seq<Key>)
    requires keys != [] && row.key == keys[0] && Find(before, row.key) == None
    requires Grows(before + [row], after, keys[1..])
    ensures Grows(before, after, keys)
  {
  }

  lemma {:induction false} AssignKeeps(rows: seq<Position>, keys: seq<Key>, next: int, exemplar: bool)
    requires Good(rows, exemplar) && next == FirstPos(exemplar) + Counted(rows, exemplar)
    ensures Good(Assign(rows, keys, next, exemplar), exemplar)
    ensures Grows(rows, Assign(rows, keys, next, exemplar), keys)
    decreases |keys|
  {
    if keys != [] {
      var after := Assign(rows, keys, next, exemplar);
      if Find(rows, keys[0]).Some? {
        AssignKeeps(rows, keys[1..], next, exemplar);
        GrowsKnown(rows, after, keys);
      } else {
        var row := Position(keys[0], if Reserved(keys[0], exemplar) then 1 else next);
        GoodSnoc(rows, row, exemplar);
        AssignKeeps(rows + [row], keys[1..], if Reserved(keys[0], exemplar) then next else next + 1, exemplar);
        GrowsInserted(rows, row, after, keys);
      }
    }
  }

  /** Asking for positions keeps the table good, changes no position, and gives one to every key. */
  lemma WithKeysKeeps(rows: seq<Position>, keys: seq<Key>, exemplar: bool)
    requires Good(rows, exemplar)
    ensures Good(WithKeys(rows, keys, exemplar), exemplar) && Grows(rows, WithKeys(rows, keys, exemplar), keys)
  {
    NextPosCounts(rows, exemplar);
    AssignKeeps(rows, keys, NextPos(rows, exemplar), exemplar);
  }

  lemma {:induction false} AssignSplit(rows: seq<Position>, keys: seq<Key>, key: Key, next: int, exemplar: bool)
    requires Good(rows, exemplar) && next == FirstPos(exemplar) + Counted(rows, exemplar)
    ensures Assign(rows, keys + [key], next, exemplar) == WithKeys(Assign(rows, keys, next, exemplar), [key], exemplar)
    decreases |keys|
  {
    if keys == [] {
      assert keys + [key] == [key];
      NextPosCounts(rows, exemplar);
    } else {
      assert (keys + [key])[1..] == keys[1..] + [key];
      if Find(rows, keys[0]).Some? {
        AssignSplit(rows, keys[1..], key, next, exemplar);
      } else {
        var row := Position(keys[0], if Reserved(keys[0], exemplar) then 1 else next);
        GoodSnoc(rows, row, exemplar);
        AssignSplit(rows + [row], keys[1..], key, if Reserved(keys[0], exemplar) then next else next + 1, exemplar);
      }
    }
  }

  /** Asking for the keys one at a time, as `get_or_create_label_key_pos` does, gives the same rows. */
  lemma OneKeyAtATime(rows: seq<Position>, keys: seq<Key>, key: Key, exemplar: bool)
    requires Good(rows, exemplar)
    ensures WithKeys(rows, keys + [key], exemplar) == WithKeys(WithKeys(rows, keys, exemplar), [key], exemplar)
  {
    NextPosCounts(rows, exemplar);
    AssignSplit(rows, keys, key, NextPos(rows, exemplar), exemplar);
  }

  lemma {:induction false} InRange(rows: seq<Position>, key: Key, exemplar: bool)
    requires Good(rows, exemplar) && Find(rows, key).Some?
    ensures var p := Find(rows, key).value;
            if Reserved(key, exemplar) then p == 1
            else FirstPos(exemplar) <= p < FirstPos(exemplar) + Counted(rows, exemplar)
  {
    if rows[|rows| - 1].key != key {
      InRange(rows[..|rows| - 1], key, exemplar);
    }
  }

  /** In a metric's table `__name__` is at 1 and all other keys are from 2 on; an exemplar table starts at 1. */
  lemma PositionRange(rows: seq<Position>, key: Key, exemplar: bool)
    requires Good(rows, exemplar) && Find(rows, key).Some?
    ensures var p := Find(rows, key).value;
            if exemplar then 1 <= p < NextPos(rows, exemplar)
            else if key == "__name__" then p == 1
            else 2 <= p < NextPos(rows, exemplar)
  {
    InRange(rows, key, exemplar);
    NextPosCounts(rows, exemplar);
  }

  /** No two keys share a position. */
  lemma {:induction false} PositionsInjective(rows: seq<Position>, a: Key, b: Key, exemplar: bool)
    requires Good(rows, exemplar) && Find(rows, a).Some? && Find(rows, a) == Find(rows, b)
    ensures a == b
  {
    var init, last := rows[..|rows| - 1], rows[|rows| - 1];
    if last.key != a && last.key != b {
      PositionsInjective(init, a, b, exemplar);
    } else if last.key != a {
      InRange(init, a, exemplar);
    } else if last.key != b {
      InRange(init, b, exemplar);
    }
  }

  lemma {:induction false} FindAt(rows: seq<Position>, p: int, exemplar: bool) returns (key: Key)
    requires Good(rows, exemplar) && FirstPos(exemplar) <= p < FirstPos(exemplar) + Counted(rows, exemplar)
    ensures !Reserved(key, exemplar) && Find(rows, key) == Some(p)
  {
    var init, last := rows[..|rows| - 1], rows[|rows| - 1];
    if !Reserved(last.key, exemplar) && last.pos == p {
      key := last.key;
    } else {
      key := FindAt(init, p, exemplar);
    }
  }

  /** The positions from the first one on are filled without gaps. */
  lemma PositionsCompact(rows: seq<Position>, p: int, exemplar: bool) returns (key: Key)
    requires Good(rows, exemplar) && (if exemplar then 1 else 2) <= p < NextPos(rows, exemplar)
    ensures Find(rows, key) == Some(p)
  {
    NextPosCounts(rows, exemplar);
    key := FindAt(rows, p, exemplar);
  }

  // ---------- the imperative form ----------

  class PositionTable {
    var rows: seq<Position>
    const exemplar: bool

    constructor (exemplar: bool)
      ensures rows == [] && this.exemplar == exemplar
    {
      this.exemplar := exemplar;
      rows := [];
    }

    /** The first, optimistic look: the positions that are there already, in the order of the keys. */
    method Known(keys: seq<Key>) returns (positions: seq<int>)
      ensures |positions| <= |keys|
      ensures |positions| == |keys| <==> forall i | 0 <= i < |keys| :: Find(rows, keys[i]).Some?
      ensures |positions| == |keys| ==> Aligned(rows, keys, positions)
    {
      positions := [];
      for i := 0 to |keys|
        invariant |positions| <= i
        invariant |positions| == i <==> forall j | 0 <= j < i :: Find(rows, keys[j]).Some?
        invariant |positions| == i ==> forall j | 0 <= j < i :: Find(rows, keys[j]) == Some(positions[j])
      {
        var p := Find(rows, keys[i]);
        if p.Some? {
          positions := positions + [p.value];
        }
      }
    }

    /** The body of the loop: look the key up again under the lock, or insert it. */
    method LookUpOrInsert(key: Key, maxPosition: int) returns (position: int, maxPosition': int)
      requires Good(rows, exemplar) && maxPosition == FirstPos(exemplar) + Counted(rows, exemplar)
      modifies this
      ensures Good(rows, exemplar) && maxPosition' == FirstPos(exemplar) + Counted(rows, exemplar)
      ensures Find(rows, key) == Some(position)
      ensures forall k | Find(old(rows), k).Some? :: Find(rows, k) == Find(old(rows), k)
      ensures forall rest ::
                Assign(old(rows), [key] + rest, maxPosition, exemplar) == Assign(rows, rest, maxPosition', exemplar)
    {
      AssignFirst(rows, key, maxPosition, exemplar);
      var found := Find(rows, key);
      if found.Some? {
        return found.value, maxPosition;
      }
      maxPosition' := maxPosition;
      if !exemplar && key == NAME {
        position := 1;
      } else {
        position := maxPosition;
        maxPosition' := maxPosition + 1;
      }
      GoodSnoc(rows, Position(key, position), exemplar);
      FindSnocAll(rows, Position(key, position));
      rows := rows + [Position(key, position)];
    }

    /** Before the lock is taken, other sessions may add rows for keys of their own. */
    method OtherSessions() returns (ghost others: seq<Key>)
      requires Good(rows, exemplar)
      modifies this
      ensures Good(rows, exemplar) && rows == WithKeys(old(rows), others, exemplar)
    {
      others := [];
    }

    /** The double check: an optimistic look without the lock, then the lock and a second look key by key. */
    method GetNewPosForKey(keys: seq<Key>) returns (positions: seq<int>, ghost others: seq<Key>)
      requires Good(rows, exemplar)
      modifies this
      ensures rows == WithKeys(WithKeys(old(rows), others, exemplar), keys, exemplar)
      ensures Good(rows, exemplar) && Aligned(rows, keys, positions)
      ensures forall k | Find(old(rows), k).Some? :: Find(rows, k) == Find(old(rows), k)
    {
      others := [];
      positions := Known(keys);
      if keys != [] && |positions| == |keys| {
        AllKnown(rows, keys, NextPos(rows, exemplar), exemplar);
        return;
      }
      others := OtherSessions();
      WithKeysKeeps(old(rows), others, exemplar);
      positions := UnderLock(keys);
    }

    /** What happens under the lock. */
    method UnderLock(keys: seq<Key>) returns (positions: seq<int>)
      requires Good(rows, exemplar)
      modifies this
      ensures rows == WithKeys(old(rows), keys, exemplar)
      ensures Good(rows, exemplar) && Aligned(rows, keys, positions)
      ensures forall k | Find(old(rows), k).Some? :: Find(rows, k) == Find(old(rows), k)
    {
      ghost var target := WithKeys(rows, keys, exemplar);
      WithKeysKeeps(rows, keys, exemplar);
      NextPosCounts(rows, exemplar);
      var maxPosition := NextPos(rows, exemplar);
      positions := [];
      for i := 0 to |keys|
        invariant Good(rows, exemplar) && maxPosition == FirstPos(exemplar) + Counted(rows, exemplar)
        invariant Assign(rows, keys[i..], maxPosition, exemplar) == target
        invariant Aligned(rows, keys[..i], positions)
      {
        assert keys[i..] == [keys[i]] + keys[i + 1..];
        ghost var before := rows;
        var position;
        position, maxPosition := LookUpOrInsert(keys[i], maxPosition);
        AlignedNext(before, rows, keys, i, positions, position);
        positions := positions + [position];
      }
      assert keys[..|keys|] == keys;
    }
  }

  lemma AlignedNext(before: seq<Position>, after: seq<Position>, keys: seq<Key>, i: nat,
                    positions: seq<int>, position: int)
    requires i < |keys| && Aligned(before, keys[..i], positions) && Find(after, keys[i]) == Some(position)
    requires forall k | Find(before, k).Some? :: Find(after, k) == Find(before, k)
    ensures Aligned(after, keys[..i + 1], positions + [position])
  {
  }

  lemma AssignFirst(rows: seq<Position>, key: Key, next: int, exemplar: bool)
    ensures forall rest :: Assign(rows, [key] + rest, next, exemplar) ==
              if Find(rows, key).Some? then Assign(rows, rest, next, exemplar)
              else if Reserved(key, exemplar) then Assign(rows + [Position(key, 1)], rest, next, exemplar)
              else Assign(rows + [Position(key, next)], rest, next + 1, exemplar)
  {
  }

  lemma {:induction false} AllKnown(rows: seq<Position>, keys: seq<Key>, next: int, exemplar: bool)
    requires forall i | 0 <= i < |keys| :: Find(rows, keys[i]).Some?
    ensures Assign(rows, keys, next, exemplar) == rows
    decreases |keys|
  {
    if keys != [] {
      AllKnown(rows, keys[1..], next, exemplar);
    }
  }
}
