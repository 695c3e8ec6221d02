/**
 * The schedule ring (table schedule) of modules/streamer/schedule.go: a cyclic playlist in
 * schedule_position order with one is_current cursor. Rows are kept in table (id) order; where
 * several rows share the least position the database may return any of them, and the model
 * returns the first in table order. The invariant kept by every operation makes positions
 * distinct, so the rule never decides anything for a well-formed table.
 */
module Scheduler {
  import opened Wrappers
  import opened FilePaths
  import opened Host
  import opened Ordering
  import opened ScheduleRecord
  import Catalog

  datatype ScheduleError = FileDoesNotExist | NotInSchedule

  /** Ids in insertion order, is_current 0 or 1 with at most one 1, distinct positions. */
  predicate WellFormed(rows: seq<Schedule>) {
    && (forall i, j :: 0 <= i < j < |rows| ==> rows[i].id < rows[j].id)
    && (forall i :: 0 <= i < |rows| ==> rows[i].isCurrent == 0 || rows[i].isCurrent == 1)
    && (forall i, j :: 0 <= i < j < |rows| ==> !(rows[i].isCurrent == 1 && rows[j].isCurrent == 1))
    && (forall i, j :: 0 <= i < j < |rows| ==> rows[i].position != rows[j].position)
  }

  predicate Above(s: Schedule, floor: Option<int>) {
    floor.None? || s.position > floor.value
  }

  /**
   * Among the first n rows with a position above floor (any position when floor is None),
   * the index of the first one holding the least position.
   */
  function FirstLeast(rows: seq<Schedule>, n: nat, floor: Option<int>): (r: Option<nat>)
    requires n <= |rows|
    ensures r.None? <==> forall i :: 0 <= i < n ==> !Above(rows[i], floor)
    ensures r.Some? ==> r.value < n && Above(rows[r.value], floor)
    ensures r.Some? ==> forall i :: 0 <= i < n && Above(rows[i], floor) ==>
      rows[r.value].position <= rows[i].position
    ensures r.Some? ==> forall i :: 0 <= i < r.value && Above(rows[i], floor) ==>
      rows[i].position > rows[r.value].position
  {
    if n == 0 then None
    else
      var r := FirstLeast(rows, n - 1, floor);
      if !Above(rows[n - 1], floor) then r
      else if r.None? || rows[n - 1].position < rows[r.value].position then Some(n - 1)
      else r
  }

  /** ORDER BY schedule_position ASC, first row. */
  function Lowest(rows: seq<Schedule>): Option<nat> {
    FirstLeast(rows, |rows|, None)
  }

  /** WHERE schedule_position > p ORDER BY schedule_position ASC, first row. */
  function Successor(rows: seq<Schedule>, p: int): Option<nat> {
    FirstLeast(rows, |rows|, Some(p))
  }

  /** WHERE is_current = 1, first row in table order. */
  function CurrentIndex(rows: seq<Schedule>): (r: Option<nat>)
    ensures r.None? <==> forall i :: 0 <= i < |rows| ==> rows[i].isCurrent != 1
    ensures r.Some? ==> r.value < |rows| && rows[r.value].isCurrent == 1
  {
    if rows == [] then None
    else if rows[|rows| - 1].isCurrent == 1 then
      (var r := CurrentIndex(rows[..|rows| - 1]); if r.Some? then r else Some(|rows| - 1))
    else CurrentIndex(rows[..|rows| - 1])
  }

  /** The row GetNextFromSchedule moves the cursor to. */
  function PickNext(rows: seq<Schedule>): (k: Option<nat>)
    ensures k.None? <==> rows == []
    ensures k.Some? ==> k.value < |rows|
  {
    match CurrentIndex(rows)
    case None => Lowest(rows)
    case Some(c) =>
      var s := Successor(rows, rows[c].position);
      if s.Some? then s else Lowest(rows)
  }

  /** UPDATE schedule SET is_current = 0 WHERE is_current = 1. */
  function UnmarkCurrent(rows: seq<Schedule>): (r: seq<Schedule>)
    ensures |r| == |rows|
    ensures forall i :: 0 <= i < |rows| ==>
      r[i] == (if rows[i].isCurrent == 1 then rows[i].UnmarkAsCurrent() else rows[i])
  {
    seq(|rows|, i requires 0 <= i < |rows| =>
      if rows[i].isCurrent == 1 then rows[i].UnmarkAsCurrent() else rows[i])
  }

  /**
   * GetNextFromSchedule: the returned row and the new table. Afterwards exactly one row is
   * current, the returned one, and no column other than is_current has changed.
   */
  function Advance(rows: seq<Schedule>): (out: (Option<Schedule>, seq<Schedule>))
    ensures |out.1| == |rows|
    ensures forall i :: 0 <= i < |rows| ==> out.1[i].SameExceptCurrent(rows[i])
    ensures out.0.None? <==> rows == []
    ensures out.0.None? ==> out.1 == rows
    ensures out.0.Some? ==> exists k :: (0 <= k < |rows| && out.1[k] == out.0.value &&
      out.0.value == rows[k].MarkAsCurrent() &&
      forall i :: 0 <= i < |rows| && i != k ==> out.1[i].isCurrent != 1)
  {
    match PickNext(rows)
    case None => (None, rows)
    case Some(k) =>
      var marked := rows[k].MarkAsCurrent();
      var base := if CurrentIndex(rows).Some? then UnmarkCurrent(rows) else rows;
      (Some(marked), base[k := marked])
  }

  /** Without a current row the cursor goes to the lowest position. */
  lemma AdvanceFromStart(rows: seq<Schedule>)
    requires rows != [] && forall i :: 0 <= i < |rows| ==> rows[i].isCurrent != 1
    ensures Advance(rows).0.Some?
    ensures forall i :: 0 <= i < |rows| ==> Advance(rows).0.value.position <= rows[i].position
  {
    var k := PickNext(rows).value;
    assert Advance(rows).0.value == rows[k].MarkAsCurrent();
    assert k == Lowest(rows).value;
  }

  /**
   * From the current row the cursor goes to the least position above it, or wraps to the
   * lowest position when nothing lies above.
   */
  lemma AdvanceFromCurrent(rows: seq<Schedule>, c: nat)
    requires WellFormed(rows) && c < |rows| && rows[c].isCurrent == 1
    ensures Advance(rows).0.Some?
    ensures var p := Advance(rows).0.value.position;
      if exists i :: 0 <= i < |rows| && rows[i].position > rows[c].position then
        p > rows[c].position &&
        forall i :: 0 <= i < |rows| && rows[i].position > rows[c].position ==> p <= rows[i].position
      else
        forall i :: 0 <= i < |rows| ==> p <= rows[i].position
  {
    var cur := CurrentIndex(rows).value;
    if cur != c {
      assert false;
    }
    var k := PickNext(rows).value;
    assert Advance(rows).0.value == rows[k].MarkAsCurrent();
    var s := Successor(rows, rows[c].position);
    if s.None? {
      assert k == Lowest(rows).value;
    }
  }

  /** Advancing keeps the table well formed. */
  lemma AdvanceWellFormed(rows: seq<Schedule>)
    requires WellFormed(rows)
    ensures WellFormed(Advance(rows).1)
  {
    var out := Advance(rows);
    if out.0.Some? {
      var k :| 0 <= k < |rows| && out.1[k] == out.0.value && out.0.value == rows[k].MarkAsCurrent() &&
        forall i :: 0 <= i < |rows| && i != k ==> out.1[i].isCurrent != 1;
      forall i | 0 <= i < |rows| ensures out.1[i].isCurrent == 0 || out.1[i].isCurrent == 1 {
        if i != k {
          assert out.1[i].isCurrent == rows[i].isCurrent || out.1[i].isCurrent == 0;
        }
      }
    }
  }

  /** ResetSchedulePosition: every row's is_current set to 0, nothing else touched. */
  function Reset(rows: seq<Schedule>): (r: seq<Schedule>)
    ensures |r| == |rows|
    ensures forall i :: 0 <= i < |rows| ==> r[i].isCurrent == 0 && r[i].SameExceptCurrent(rows[i])
    ensures WellFormed(rows) ==> WellFormed(r)
  {
    seq(|rows|, i requires 0 <= i < |rows| => rows[i].UnmarkAsCurrent())
  }

  /** After a reset the next advance starts again at the lowest position. */
  lemma ResetRestarts(rows: seq<Schedule>)
    requires rows != []
    ensures Advance(Reset(rows)).0.Some?
    ensures forall i :: 0 <= i < |rows| ==> Advance(Reset(rows)).0.value.position <= rows[i].position
  {
    var r := Reset(rows);
    AdvanceFromStart(r);
  }

  /** Positions 0, 1, 2 and no cursor: four advances visit 0, 1, 2 and then 0 again. */
  lemma CycleOfThree(rows: seq<Schedule>)
    requires WellFormed(rows) && |rows| == 3
    requires forall i :: 0 <= i < 3 ==> rows[i].position == i && rows[i].isCurrent == 0
    ensures var a1 := Advance(rows); var a2 := Advance(a1.1); var a3 := Advance(a2.1);
      var a4 := Advance(a3.1);
      && a1.0.Some? && a2.0.Some? && a3.0.Some? && a4.0.Some?
      && a1.0.value.position == 0 && a2.0.value.position == 1
      && a3.0.value.position == 2 && a4.0.value.position == 0
  {
    var a1 := Advance(rows);
    AdvanceFromStart(rows);
    AdvanceWellFormed(rows);
    var a2 := Advance(a1.1);
    CursorAt(rows, 0);
    AdvanceFromCurrent(a1.1, 0);
    AdvanceWellFormed(a1.1);
    var a3 := Advance(a2.1);
    CursorAt(a1.1, 1);
    AdvanceFromCurrent(a2.1, 1);
    AdvanceWellFormed(a2.1);
    CursorAt(a2.1, 2);
    AdvanceFromCurrent(a3.1, 2);
  }

  /** The row an advance returns is the current row of the new table, at the same index. */
  lemma CursorAt(rows: seq<Schedule>, k: nat)
    requires WellFormed(rows) && k < |rows|
    requires Advance(rows).0.Some? && Advance(rows).0.value.position == rows[k].position
    ensures Advance(rows).1[k].isCurrent == 1
  {
    var out := Advance(rows);
    var m :| 0 <= m < |rows| && out.1[m] == out.0.value && out.0.value == rows[m].MarkAsCurrent() &&
      forall i :: 0 <= i < |rows| && i != m ==> out.1[i].isCurrent != 1;
    assert rows[m].position == rows[k].position;
  }

  /** SELECT COALESCE(MAX(schedule_position), -1). */
  function MaxPositionOrMinusOne(rows: seq<Schedule>): (m: int)
    ensures forall i :: 0 <= i < |rows| ==> rows[i].position <= m
    ensures rows == [] ==> m == -1
    ensures rows != [] ==> exists i :: 0 <= i < |rows| && rows[i].position == m
  {
    if rows == [] then -1
    else if |rows| == 1 then rows[0].position
    else
      var m := MaxPositionOrMinusOne(rows[..|rows| - 1]);
      var last := rows[|rows| - 1].position;
      if last > m then last else m
  }

  /** The row AddToSchedule inserts: behind every position, not current. */
  function Appended(rows: seq<Schedule>, id: nat, fileId: string, path: string, now: int): (r: seq<Schedule>)
    ensures |r| == |rows| + 1 && r[..|rows|] == rows
    ensures r[|rows|] == Schedule(id, fileId, path, MaxPositionOrMinusOne(rows) + 1, 0, now)
    ensures rows == [] ==> r[0].position == 0
    ensures forall i :: 0 <= i < |rows| ==> rows[i].position < r[|rows|].position
  {
    rows + [Schedule(id, fileId, path, MaxPositionOrMinusOne(rows) + 1, 0, now)]
  }

  predicate InSchedule(rows: seq<Schedule>, fileId: string) {
    exists i :: 0 <= i < |rows| && rows[i].fileId == fileId
  }

  /** DELETE FROM schedule WHERE file_id = ?: the other rows stay as they are, positions included. */
  function WithoutFile(rows: seq<Schedule>, fileId: string): (r: seq<Schedule>)
    ensures forall s :: s in r <==> s in rows && s.fileId != fileId
    ensures |r| <= |rows|
    ensures |r| == |rows| <==> !InSchedule(rows, fileId)
  {
    if rows == [] then []
    else
      var last := rows[|rows| - 1];
      var rest := WithoutFile(rows[..|rows| - 1], fileId);
      assert forall s :: s in rows <==> s in rows[..|rows| - 1] || s == last;
      if last.fileId == fileId then rest
      else rest + [last]
  }

  lemma {:induction false} WithoutFileOrdered(rows: seq<Schedule>, fileId: string)
    requires forall i, j :: 0 <= i < j < |rows| ==> rows[i].id < rows[j].id
    ensures forall i, j :: 0 <= i < j < |WithoutFile(rows, fileId)| ==>
      WithoutFile(rows, fileId)[i].id < WithoutFile(rows, fileId)[j].id
  {
    if rows != [] {
      var init := rows[..|rows| - 1];
      WithoutFileOrdered(init, fileId);
      var rest := WithoutFile(init, fileId);
      forall i | 0 <= i < |rest| ensures rest[i].id < rows[|rows| - 1].id {
        assert rest[i] in init;
      }
      assert init == rows[..|rows| - 1];
      if rows[|rows| - 1].fileId != fileId {
        var r := rest + [rows[|rows| - 1]];
        assert WithoutFile(rows, fileId) == r;
        forall i, j | 0 <= i < j < |r| ensures r[i].id < r[j].id {
          if j < |rest| {
            assert r[i] == rest[i] && r[j] == rest[j];
          }
        }
      }
    }
  }

  /** Removing a file keeps the table well formed; the gap it leaves is not closed. */
  lemma WithoutFileWellFormed(rows: seq<Schedule>, fileId: string)
    requires WellFormed(rows)
    ensures WellFormed(WithoutFile(rows, fileId))
  {
    WithoutFileOrdered(rows, fileId);
    var r := WithoutFile(rows, fileId);
    assert forall i, j :: 0 <= i < j < |r| ==> r[i].id < r[j].id;
    forall i, j | 0 <= i < j < |r|
      ensures !(r[i].isCurrent == 1 && r[j].isCurrent == 1) && r[i].position != r[j].position
    {
      assert r[i] in rows && r[j] in rows;
      var a :| 0 <= a < |rows| && rows[a] == r[i];
      var b :| 0 <= b < |rows| && rows[b] == r[j];
      assert r[i].id < r[j].id;
    }
    forall i | 0 <= i < |r| ensures r[i].isCurrent == 0 || r[i].isCurrent == 1 {
      assert r[i] in rows;
    }
  }

  /** The schedule table. */
  class ScheduleTable {
    var rows: seq<Schedule>
    var nextId: nat

    ghost predicate Valid()
      reads this
    {
      WellFormed(rows) && nextId >= 1 && forall i :: 0 <= i < |rows| ==> rows[i].id < nextId
    }

    constructor()
      ensures rows == [] && nextId == 1 && Valid()
    {
      rows := [];
      nextId := 1;
    }

    /** Inserts a non-current row at a position above every existing one. */
    method InsertRow(fileId: string, path: string, position: int, now: int)
      requires Valid()
      requires forall i :: 0 <= i < |rows| ==> rows[i].position < position
      modifies this
      ensures rows == old(rows) + [Schedule(old(nextId), fileId, path, position, 0, now)]
      ensures nextId == old(nextId) + 1
      ensures Valid()
    {
      rows := rows + [Schedule(nextId, fileId, path, position, 0, now)];
      nextId := nextId + 1;
    }

    /**
     * Adds an existing file at the end of the ring, cataloguing it first when needed; a file
     * already in the ring is left where it is.
     */
    method AddToSchedule(catalog: Catalog.CatalogTable, filePath: string, host: Host)
      returns (r: Outcome<ScheduleError>)
      requires Valid() && catalog.Valid()
      modifies this, catalog
      ensures var p := Catalog.NormalizeFilePath(filePath, host.cwd); var id := host.md5Hex(p);
        && (!host.Exists(p) ==>
              r == Fail(FileDoesNotExist) && rows == old(rows) && catalog.rows == old(catalog.rows))
        && (host.Exists(p) ==> (r == Pass &&
              catalog.rows == (if Catalog.Has(old(catalog.rows), id) then old(catalog.rows)
                               else old(catalog.rows) + [Catalog.NewRow(id, p, host)]) &&
              rows == (if InSchedule(old(rows), id) then old(rows)
                       else Appended(old(rows), old(nextId), id, p, host.now))))
      ensures Valid() && catalog.Valid()
    {
      var p := Catalog.NormalizeFilePath(filePath, host.cwd);
      if !host.Exists(p) {
        return Fail(FileDoesNotExist);
      }
      var id := host.md5Hex(p);
      if !catalog.Contains(id) {
        catalog.Insert(Catalog.NewRow(id, p, host));
      }
      r := Pass;
      if InSchedule(rows, id) {
        return;
      }
      InsertRow(id, p, MaxPositionOrMinusOne(rows) + 1, host.now);
    }

    method GetNextFromSchedule() returns (next: Option<Schedule>)
      requires Valid()
      modifies this
      ensures (next, rows) == Advance(old(rows)) && nextId == old(nextId)
      ensures Valid()
    {
      AdvanceWellFormed(rows);
      var out := Advance(rows);
      next, rows := out.0, out.1;
    }

    /** GetSchedule: every row in position order. */
    method GetSchedule() returns (schedule: seq<Schedule>)
      ensures multiset(schedule) == multiset(rows)
      ensures forall i, j :: 0 <= i < j < |schedule| ==> schedule[i].position <= schedule[j].position
    {
      schedule := SortBy(rows, (s: Schedule) => Key(s.position, 0));
    }

    method ResetSchedulePosition()
      requires Valid()
      modifies this
      ensures rows == Reset(old(rows)) && nextId == old(nextId)
      ensures Valid()
    {
      rows := Reset(rows);
    }

    /** Deletes every row of the file; an unknown file is an error. */
    method RemoveFromSchedule(fileId: string) returns (r: Outcome<ScheduleError>)
      requires Valid()
      modifies this
      ensures rows == WithoutFile(old(rows), fileId) && nextId == old(nextId)
      ensures r == Fail(NotInSchedule) <==> !InSchedule(old(rows), fileId)
      ensures r.Pass? <==> InSchedule(old(rows), fileId)
      ensures Valid()
    {
      var before := |rows|;
      WithoutFileWellFormed(rows, fileId);
      rows := WithoutFile(rows, fileId);
      r := if |rows| == before then Fail(NotInSchedule) else Pass;
    }

    /** Deletes every row and returns how many there were. */
    method ClearSchedule() returns (deleted: nat)
      requires Valid()
      modifies this
      ensures rows == [] && deleted == |old(rows)| && nextId == old(nextId)
      ensures Valid()
    {
      deleted := |rows|;
      rows := [];
    }
  }
}
