/** Runs of an attribute table: what the row flags and the index lists say about each
    other after any sequence of calls. */
module AttrTracking {
  import opened Wrappers
  import opened AttrLayout
  import opened AttrImage
  import opened AttrModel

  datatype Op =
    | SetOp(r: nat, c: nat, value: Value)
    | SetVariantOp(r: nat, c: nat, value: Value)
    | AddRowOp
    | CopyRowOp(r: nat)
    | CopyExtRowOp(ids: seq<AttrId>, row: seq<Cell>, create: bool)
    | DeleteRowOp(r: nat)
    | DeleteAllRowsOp
    | AddColumnOp(id: AttrId, record: bool)
    | BeginAddColumnsOp(record: bool)
    | EndAddColumnsOp
    | ReserveRowsOp(num: nat)
    | SetModifiedTrackingOp(on: bool)
    | ResetModifiedStateOp
    | ClearNewRowFlagsOp
    | ClearDeletedRowsFlagsOp
    | ClearOp

  /** What the operations demand of their callers. */
  ghost predicate Enabled(t: Table, op: Op)
    requires t.Ok()
  {
    match op
    case SetOp(r, c, v) => t.CanSet(r, c, v)
    case SetVariantOp(r, c, v) => t.CanSet(r, c, v)
    case AddRowOp => !t.inBeginAddColumns
    case CopyRowOp(r) => !t.inBeginAddColumns && r < |t.rows| && Readable(t.rows[r])
    case CopyExtRowOp(ids, row, create) => !t.inBeginAddColumns && (create ==> NoneDeleted(t)) && RowOf(ids, row)
    case DeleteRowOp(r) => !t.inBeginAddColumns && r < |t.rows| && !t.deleted[r]
    case DeleteAllRowsOp => !t.inBeginAddColumns && NoneDeleted(t)
    case AddColumnOp(id, record) =>
      && !t.HasColumn(id) && id.defaultValue.InRange()
      && (!t.inBeginAddColumns ==> CanAddColumns(t))
    case BeginAddColumnsOp(record) => !t.inBeginAddColumns
    case EndAddColumnsOp => t.inBeginAddColumns && CanAddColumns(t)
    case ReserveRowsOp(num) => num > 0
    case SetModifiedTrackingOp(on) => true
    case ResetModifiedStateOp => true
    case ClearNewRowFlagsOp => true
    case ClearDeletedRowsFlagsOp => true
    case ClearOp => !t.inBeginAddColumns
  }

  function Step(t: Table, op: Op): (u: Table)
    requires t.Ok() && Enabled(t, op)
    ensures u.Ok()
  {
    hide Table.OkAt, Set, SetVariant, AddRow, CopyRow, CopyExtRow, DeleteRow, DeleteRows, AddColumn, BeginAddColumns,
         EndAddColumns, ReserveRows, ResetModifiedState, ClearNewRowFlags, ClearDeletedRowsFlags, Clear;
    match op
    case SetOp(r, c, v) => Set(t, r, c, v)
    case SetVariantOp(r, c, v) => SetVariant(t, r, c, v)
    case AddRowOp => AddRow(t)
    case CopyRowOp(r) => CopyRow(t, r)
    case CopyExtRowOp(ids, row, create) => CopyExtRow(t, ids, row, create)
    case DeleteRowOp(r) => DeleteRow(t, r)
    case DeleteAllRowsOp => DeleteRows(t, |t.rows|)
    case AddColumnOp(id, record) => AddColumn(t, id, record)
    case BeginAddColumnsOp(record) => BeginAddColumns(t, record)
    case EndAddColumnsOp => EndAddColumns(t)
    case ReserveRowsOp(num) => ReserveRows(t, num)
    case SetModifiedTrackingOp(on) => TrackingSet(t, on)
    case ResetModifiedStateOp => ResetModifiedState(t)
    case ClearNewRowFlagsOp => ClearNewRowFlags(t)
    case ClearDeletedRowsFlagsOp => ClearDeletedRowsFlags(t)
    case ClearOp => Clear(t)
  }

  function TrackingSet(t: Table, on: bool): (u: Table)
    requires t.Ok()
    ensures u.Ok()
  {
    t.(trackModifications := on)
  }

  // ----- the invariant

  predicate NoDuplicates(s: seq<int>) {
    forall i, j :: 0 <= i < j < |s| ==> s[i] != s[j]
  }

  /** Every index in the list is the index of a flagged row. */
  predicate ListsFlagged(s: seq<int>, flags: seq<bool>) {
    forall i :: 0 <= i < |s| ==> 0 <= s[i] < |flags| && flags[s[i]]
  }

  predicate FlaggedAreListed(s: seq<int>, flags: seq<bool>) {
    forall r :: 0 <= r < |flags| && flags[r] ==> r in s
  }

  predicate NewRowsOk(t: Table) {
    NoDuplicates(t.newRows) && ListsFlagged(t.newRows, t.isNew) && FlaggedAreListed(t.newRows, t.isNew)
  }

  predicate DeletedRowsOk(t: Table) {
    NoDuplicates(t.deletedRows) && ListsFlagged(t.deletedRows, t.deleted)
  }

  /** Nothing is recorded as changed. */
  predicate NothingRecorded(t: Table) {
    t.newRows == [] && t.deletedRows == [] && t.newColumns == []
  }

  /** The new rows are exactly the rows flagged new, the list of deleted rows holds flagged
      rows only, each once; whatever is recorded or flagged, the table counts as modified;
      and it says that rows were modified only if one is flagged. */
  predicate Tracked(t: Table) {
    && NewRowsOk(t) && DeletedRowsOk(t)
    && (!NothingRecorded(t) || true in t.modified ==> t.isModified)
    && (t.rowsModified ==> true in t.modified)
  }

  // ----- writes to cells

  /** u is t after some cells were written: flags have only been added, and the summary
      flags know about it. */
  predicate Touched(t: Table, u: Table) {
    && CellsOnly(t, u)
    && (t.isModified ==> u.isModified)
    && (true in t.modified ==> true in u.modified)
    && (true in u.modified ==> true in t.modified || u.isModified)
    && (u.rowsModified ==> t.rowsModified || true in u.modified)
  }

  lemma TouchedOnce(t: Table, u: Table, r: nat)
    requires r < |t.modified| && CellsOnly(t, u)
    requires u.modified == t.modified || (u.modified == t.modified[r := true] && u.isModified)
    requires t.isModified ==> u.isModified
    requires u.rowsModified == t.rowsModified || u.modified == t.modified[r := true]
    ensures Touched(t, u)
  {
    if true in t.modified && u.modified != t.modified {
      assert u.modified[r];
    }
    if u.modified == t.modified[r := true] {
      assert u.modified[r];
    }
  }

  lemma TouchedTwice(t: Table, u: Table, w: Table)
    requires Touched(t, u) && Touched(u, w)
    ensures Touched(t, w)
  {
  }

  lemma SetTouches(t: Table, r: nat, c: nat, v: Value)
    requires t.Ok() && t.CanSet(r, c, v)
    ensures Touched(t, Set(t, r, c, v)) && Touched(t, SetVariant(t, r, c, v))
  {
    SetIs(t, r, c, v);
    SetVariantIs(t, r, c, v);
    TouchedOnce(t, Set(t, r, c, v), r);
    TouchedOnce(t, SetVariant(t, r, c, v), r);
  }

  lemma {:induction false} FillRowTouches(t: Table, r: nat, n: nat)
    requires t.Ok() && r < |t.rows| && !t.deleted[r] && n <= t.Width()
    ensures Touched(t, FillRow(t, r, n))
  {
    hide Set, Table.OkAt, Touched;
    if n == 0 {
      TouchedNot(t);
    } else {
      FillRowTouches(t, r, n - 1);
      SetTouches(FillRow(t, r, n - 1), r, n - 1, t.cols[n - 1].defaultValue);
      TouchedTwice(t, FillRow(t, r, n - 1), FillRow(t, r, n));
    }
  }

  lemma TouchedNot(t: Table)
    ensures Touched(t, t)
  {
  }

  lemma {:induction false} FillColumnTouches(t: Table, c: nat, n: nat)
    requires t.Ok() && c < t.Width() && n <= |t.rows| && NoneDeleted(t)
    ensures Touched(t, FillColumn(t, c, n))
  {
    hide Set, Table.OkAt, Touched;
    if n == 0 {
      TouchedNot(t);
    } else {
      FillColumnTouches(t, c, n - 1);
      SetTouches(FillColumn(t, c, n - 1), n - 1, c, t.cols[c].defaultValue);
      TouchedTwice(t, FillColumn(t, c, n - 1), FillColumn(t, c, n));
    }
  }

  lemma {:induction false} FillColumnsTouch(t: Table, lo: nat, hi: nat)
    requires t.Ok() && lo <= hi <= t.Width() && NoneDeleted(t)
    ensures Touched(t, FillColumns(t, lo, hi))
    decreases hi
  {
    hide FillColumn, Table.OkAt, Touched;
    if lo == hi {
      TouchedNot(t);
    } else {
      FillColumnsTouch(t, lo, hi - 1);
      FillColumnTouches(FillColumns(t, lo, hi - 1), hi - 1, |t.rows|);
      TouchedTwice(t, FillColumns(t, lo, hi - 1), FillColumns(t, lo, hi));
    }
  }

  lemma {:induction false} CopyCellsTouch(t: Table, from: nat, to: nat, n: nat)
    requires t.Ok() && !t.inBeginAddColumns && from < |t.rows| && to < |t.rows| && n <= |t.cols|
    requires from != to && Readable(t.rows[from]) && !t.deleted[to]
    ensures Touched(t, CopyCells(t, from, to, n))
  {
    hide Set, Table.OkAt, Touched;
    if n == 0 {
      TouchedNot(t);
    } else {
      CopyCellsTouch(t, from, to, n - 1);
      CopiedCanBeSet(t, from, to, n);
      SetTouches(CopyCells(t, from, to, n - 1), to, n - 1, t.rows[from][n - 1].value);
      TouchedTwice(t, CopyCells(t, from, to, n - 1), CopyCells(t, from, to, n));
    }
  }

  lemma CopiedCanBeSet(t: Table, from: nat, to: nat, n: nat)
    requires t.Ok() && !t.inBeginAddColumns && from < |t.rows| && to < |t.rows| && 0 < n <= |t.cols|
    requires from != to && Readable(t.rows[from]) && !t.deleted[to]
    ensures CopyCells(t, from, to, n - 1).CanSet(to, n - 1, t.rows[from][n - 1].value)
    ensures CopyCells(t, from, to, n) == Set(CopyCells(t, from, to, n - 1), to, n - 1, t.rows[from][n - 1].value)
  {
    hide Set, Table.OkAt;
    CellCanBeSet(t, CopyCells(t, from, to, n - 1), from, to, n - 1);
  }

  // ----- what each step keeps

  lemma TouchedTracked(t: Table, u: Table)
    requires Tracked(t) && Touched(t, u)
    ensures Tracked(u)
  {
  }

  lemma ExtendRowTracked(t: Table)
    requires t.Ok() && !t.inBeginAddColumns && Tracked(t)
    ensures Tracked(ExtendRow(t))
  {
    hide ZeroCells, Table.OkAt;
    var u := ExtendRow(t);
    assert forall i :: 0 <= i < |t.newRows| ==> u.newRows[i] == t.newRows[i] < |t.rows|;
    if t.trackModifications {
      assert u.newRows[|t.newRows|] == |t.rows|;
    }
    if t.rowsModified {
      var r :| 0 <= r < |t.modified| && t.modified[r];
      assert u.modified[r];
    }
  }

  lemma AddRowTracked(t: Table)
    requires t.Ok() && !t.inBeginAddColumns && Tracked(t)
    ensures Tracked(AddRow(t))
  {
    hide Table.OkAt, Tracked, Touched, FillRow;
    ExtendRowTracked(t);
    FillRowTouches(ExtendRow(t), |t.rows|, t.Width());
    TouchedTracked(ExtendRow(t), AddRow(t));
  }

  lemma CopyRowTracked(t: Table, from: nat)
    requires t.Ok() && !t.inBeginAddColumns && from < |t.rows| && Readable(t.rows[from]) && Tracked(t)
    ensures Tracked(CopyRow(t, from))
  {
    hide Table.OkAt, Tracked, Touched, AddRow, CopyCells;
    AddRowIs(t);
    AddRowTracked(t);
    CopyCellsTouch(AddRow(t), from, |t.rows|, |t.cols|);
    TouchedTracked(AddRow(t), CopyRow(t, from));
  }

  lemma AppendColumnTracked(t: Table, id: AttrId, record: bool)
    requires Tracked(t)
    ensures Tracked(AppendColumn(t, id, record))
  {
  }

  lemma AddColumnTracked(t: Table, id: AttrId, record: bool)
    requires t.Ok() && !t.HasColumn(id) && id.defaultValue.InRange() && Tracked(t)
    requires !t.inBeginAddColumns ==> CanAddColumns(t)
    ensures Tracked(AddColumn(t, id, record))
  {
    hide Table.OkAt, Touched, FillColumn;
    AppendColumnTracked(t, id, record);
    if !t.inBeginAddColumns {
      AppendedOk(t, id, record, |t.cols|);
      var room := WidenTable(AppendColumn(t, id, record), |t.cols|);
      WidenedOk(AppendColumn(t, id, record), |t.cols|, room);
      FillColumnTouches(room, |t.cols|, |t.rows|);
      TouchedTracked(room, AddColumn(t, id, record));
    }
  }

  lemma EndAddColumnsTracked(t: Table)
    requires t.Ok() && t.inBeginAddColumns && CanAddColumns(t) && Tracked(t)
    ensures Tracked(EndAddColumns(t))
  {
    hide Table.OkAt, Touched, FillColumns;
    LeftOk(t);
    if t.firstNewColumn < |t.cols| {
      var room := WidenTable(t.(inBeginAddColumns := false), t.firstNewColumn);
      WidenedOk(t.(inBeginAddColumns := false), t.firstNewColumn, room);
      FillColumnsTouch(room, t.firstNewColumn, |t.cols|);
      TouchedTracked(room, EndAddColumns(t));
    }
  }

  lemma CopyExtCellTracked(t: Table, to: nat, id: AttrId, v: Value, create: bool)
    requires t.Ok() && !t.inBeginAddColumns && to < |t.rows| && !t.deleted[to] && Tracked(t)
    requires create ==> NoneDeleted(t)
    requires id.defaultValue.InRange() && v.InRange() && v.Type() == id.ValueType()
    ensures Tracked(CopyExtCell(t, to, id, v, create))
  {
    hide Table.OkAt, Tracked, Touched, AddColumn, Set;
    var u := EnsureColumn(t, id, create);
    if create && !t.HasColumn(id) {
      AddColumnTracked(t, id, true);
    }
    if u.HasColumn(id) {
      SetTouches(u, to, IndexOf(u.cols, id), v);
      TouchedTracked(u, Set(u, to, IndexOf(u.cols, id), v));
    }
  }

  lemma {:induction false} CopyExtCellsTracked(t: Table, to: nat, ids: seq<AttrId>, row: seq<Cell>, create: bool,
                                               n: nat)
    requires t.Ok() && !t.inBeginAddColumns && to < |t.rows| && !t.deleted[to] && Tracked(t)
    requires create ==> NoneDeleted(t)
    requires RowOf(ids, row) && n <= |ids|
    ensures Tracked(CopyExtCells(t, to, ids, row, create, n))
  {
    hide Table.OkAt, Tracked, CopyExtCell;
    if n > 0 {
      CopyExtCellsTracked(t, to, ids, row, create, n - 1);
      CopyExtCellTracked(CopyExtCells(t, to, ids, row, create, n - 1), to, ids[n - 1], row[n - 1].value, create);
    }
  }

  lemma CopyExtRowTracked(t: Table, ids: seq<AttrId>, row: seq<Cell>, create: bool)
    requires t.Ok() && !t.inBeginAddColumns && (create ==> NoneDeleted(t)) && RowOf(ids, row) && Tracked(t)
    ensures Tracked(CopyExtRow(t, ids, row, create))
  {
    hide Table.OkAt, Tracked, CopyExtCells, AddRow;
    AddRowIs(t);
    AddRowTracked(t);
    CopyExtCellsTracked(AddRow(t), |t.rows|, ids, row, create, |ids|);
  }

  lemma DeleteRowTracked(t: Table, r: nat)
    requires t.Ok() && !t.inBeginAddColumns && r < |t.rows| && !t.deleted[r] && Tracked(t)
    ensures Tracked(DeleteRow(t, r))
  {
    var u := DeleteRow(t, r);
    if t.trackModifications {
      assert forall i :: 0 <= i < |t.deletedRows| ==> u.deletedRows[i] == t.deletedRows[i] && t.deletedRows[i] != r;
    }
  }

  lemma {:induction false} DeleteRowsTracked(t: Table, n: nat)
    requires t.Ok() && !t.inBeginAddColumns && n <= |t.rows| && NoneDeleted(t) && Tracked(t)
    ensures Tracked(DeleteRows(t, n))
  {
    hide Table.OkAt, Tracked, DeleteRow;
    if n > 0 {
      DeleteRowsTracked(t, n - 1);
      DeleteRowTracked(DeleteRows(t, n - 1), n - 1);
    }
  }

  lemma ResetTracked(t: Table)
    requires t.Ok()
    ensures Tracked(ResetModifiedState(t))
  {
  }

  lemma ClearNewRowFlagsTracked(t: Table)
    requires t.Ok() && Tracked(t)
    ensures Tracked(ClearNewRowFlags(t))
  {
  }

  lemma ClearDeletedRowsFlagsTracked(t: Table)
    requires t.Ok() && Tracked(t)
    ensures Tracked(ClearDeletedRowsFlags(t))
  {
  }

  /** Clear drops the rows and their flags but keeps the index lists, so the lists must be
      empty before. */
  lemma ClearTracked(t: Table)
    requires t.Ok() && !t.inBeginAddColumns && Tracked(t)
    ensures Tracked(Clear(t)) <==> NothingRecorded(t)
  {
    if t.newRows != [] {
      assert t.newRows[0] in t.newRows;
    }
    if t.deletedRows != [] {
      assert t.deletedRows[0] in t.deletedRows;
    }
  }

  /** Every operation keeps the index lists and flags in agreement, except Clear while
      something is recorded. */
  lemma StepTracked(t: Table, op: Op)
    requires t.Ok() && Enabled(t, op) && Tracked(t)
    ensures Tracked(Step(t, op)) <==> (op.ClearOp? ==> NothingRecorded(t))
  {
    hide Table.OkAt, Tracked, Touched, Set, SetVariant, AddRow, CopyRow, CopyExtRow, DeleteRow, DeleteRows, AddColumn,
         BeginAddColumns, EndAddColumns, ReserveRows, ResetModifiedState, ClearNewRowFlags, ClearDeletedRowsFlags,
         Clear;
    match op {
      case SetOp(r, c, v) =>
        SetTouches(t, r, c, v);
        TouchedTracked(t, Set(t, r, c, v));
      case SetVariantOp(r, c, v) =>
        SetTouches(t, r, c, v);
        TouchedTracked(t, SetVariant(t, r, c, v));
      case AddRowOp => AddRowTracked(t);
      case CopyRowOp(r) => CopyRowTracked(t, r);
      case CopyExtRowOp(ids, row, create) => CopyExtRowTracked(t, ids, row, create);
      case DeleteRowOp(r) => DeleteRowTracked(t, r);
      case DeleteAllRowsOp => DeleteRowsTracked(t, |t.rows|);
      case AddColumnOp(id, record) => AddColumnTracked(t, id, record);
      case EndAddColumnsOp => EndAddColumnsTracked(t);
      case ResetModifiedStateOp => ResetTracked(t);
      case ClearNewRowFlagsOp => ClearNewRowFlagsTracked(t);
      case ClearDeletedRowsFlagsOp => ClearDeletedRowsFlagsTracked(t);
      case ClearOp => ClearTracked(t);
      case BeginAddColumnsOp(record) => MarksOnly(t, op);
      case ReserveRowsOp(num) => MarksOnly(t, op);
      case SetModifiedTrackingOp(on) => MarksOnly(t, op);
    }
  }

  lemma MarksOnly(t: Table, op: Op)
    requires t.Ok() && Enabled(t, op) && Tracked(t)
    requires op.BeginAddColumnsOp? || op.ReserveRowsOp? || op.SetModifiedTrackingOp?
    ensures Tracked(Step(t, op))
  {
  }

  // ----- runs

  /** The table after a run of calls from the empty table; None if a call was not allowed,
      or if Clear was called while changes were recorded. */
  ghost function Run(ops: seq<Op>): (t: Option<Table>)
    ensures t.Some? ==> t.value.Ok()
    decreases |ops|
  {
    hide Step, Enabled;
    if ops == [] then Some(EMPTY) else
    var op := ops[|ops| - 1];
    match Run(ops[..|ops| - 1])
    case None => None
    case Some(t) => if Enabled(t, op) && (op.ClearOp? ==> NothingRecorded(t)) then Some(Step(t, op)) else None
  }

  lemma {:induction false} RunTracked(ops: seq<Op>)
    requires Run(ops).Some?
    ensures Tracked(Run(ops).value)
    decreases |ops|
  {
    hide Step, Enabled, Tracked;
    if ops == [] {
      EmptyTracked();
    } else {
      RunTracked(ops[..|ops| - 1]);
      StepTracked(Run(ops[..|ops| - 1]).value, ops[|ops| - 1]);
    }
  }

  lemma EmptyTracked()
    ensures Tracked(EMPTY)
  {
  }

  // ----- what the lists mean for the caller

  /** GetModifiedRowsExcludeNewAndDeletedRows returns, in ascending order, exactly the rows
      whose only flag is the modified flag. */
  lemma {:induction false} OnlyModifiedIs(t: Table, n: nat)
    requires n <= |t.rows| == |t.modified| == |t.isNew| == |t.deleted|
    ensures var found := OnlyModified(t, n);
            && (forall i, j :: 0 <= i < j < |found| ==> found[i] < found[j])
            && forall r :: r in found <==> 0 <= r < n && t.modified[r] && !t.isNew[r] && !t.deleted[r]
  {
    if n > 0 {
      OnlyModifiedIs(t, n - 1);
      var before := OnlyModified(t, n - 1);
      assert forall i :: 0 <= i < |before| ==> before[i] in before;
    }
  }

  /** After a run, the three lists a database update works through have no row in common. */
  lemma ListsDisjoint(ops: seq<Op>, r: int)
    requires Run(ops).Some?
    ensures var t := Run(ops).value;
            && |t.rows| == |t.modified| == |t.isNew| == |t.deleted|
            && !(r in OnlyModified(t, |t.rows|) && r in t.newRows)
            && !(r in OnlyModified(t, |t.rows|) && r in t.deletedRows)
  {
    hide Run;
    RunTracked(ops);
    var t := Run(ops).value;
    OnlyModifiedIs(t, |t.rows|);
  }
}
