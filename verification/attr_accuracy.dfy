/** HasModifiedRows: when rowsModified tells the truth about the row flags. The setters for
    ints and bools flag a row without setting rowsModified, and they are also what fills
    new rows and columns and copies rows. */
module AttrAccuracy {
  import opened Wrappers
  import opened AttrLayout
  import opened AttrImage
  import opened AttrModel
  import opened AttrCopy
  import opened AttrTracking

  /** HasModifiedRows gives the right answer. */
  predicate Accurate(t: Table) {
    t.rowsModified <==> true in t.modified
  }

  /** u is t after cells were written: whether a row was flagged by that, and whether
      rowsModified was set. */
  predicate Wrote(t: Table, u: Table, touched: bool, raised: bool) {
    && u.rowsModified == (t.rowsModified || raised)
    && ((true in u.modified) <==> (true in t.modified || touched))
    && u.trackModifications == t.trackModifications
  }

  lemma WroteTwice(t: Table, u: Table, w: Table, touched: bool, raised: bool, touched': bool, raised': bool)
    requires Wrote(t, u, touched, raised) && Wrote(u, w, touched', raised')
    ensures Wrote(t, w, touched || touched', raised || raised')
  {
  }

  lemma RaisingTouches(t: Table, cols: seq<AttrId>)
    ensures AnyRaises(t, cols) ==> AnyTouches(t, cols)
  {
    if AnyRaises(t, cols) {
      var c :| 0 <= c < |cols| && Raises(t, cols[c].defaultValue);
      assert Touches(t, cols[c].defaultValue);
    }
  }

  lemma SetWrote(t: Table, r: nat, c: nat, v: Value)
    requires t.Ok() && t.CanSet(r, c, v)
    ensures Wrote(t, Set(t, r, c, v), Touches(t, v), Raises(t, v))
    ensures Wrote(t, SetVariant(t, r, c, v), t.trackModifications, t.trackModifications)
  {
    SetIs(t, r, c, v);
    SetVariantIs(t, r, c, v);
    FlagOne(t.modified, r);
  }

  lemma FlagOne(flags: seq<bool>, r: nat)
    requires r < |flags|
    ensures true in flags[r := true]
  {
    assert flags[r := true][r];
  }

  lemma AddRowWrote(t: Table)
    requires t.Ok() && !t.inBeginAddColumns
    ensures Wrote(t, AddRow(t), AnyTouches(t, t.cols), AnyRaises(t, t.cols))
    ensures AddRow(t).cols == t.cols
  {
    hide AddRow, AnyTouches, AnyRaises;
    AddRowIs(t);
  }

  lemma FillColumnWrote(t: Table, c: nat)
    requires t.Ok() && c < t.Width() && NoneDeleted(t)
    ensures var v := t.cols[c].defaultValue;
            Wrote(t, FillColumn(t, c, |t.rows|), t.rows != [] && Touches(t, v), t.rows != [] && Raises(t, v))
  {
    hide FillColumn;
    FillColumnIs(t, c, |t.rows|);
    if t.rows != [] {
      assert SetFlags(t.modified, |t.rows|)[0];
    } else {
      assert SetFlags(t.modified, 0) == t.modified;
    }
  }

  lemma {:induction false} FillColumnsWrote(t: Table, lo: nat, hi: nat)
    requires t.Ok() && lo <= hi <= t.Width() && NoneDeleted(t)
    ensures Wrote(t, FillColumns(t, lo, hi),
                  t.rows != [] && AnyTouches(t, t.cols[lo..hi]), t.rows != [] && AnyRaises(t, t.cols[lo..hi]))
    decreases hi
  {
    hide FillColumn, Table.OkAt, AnyTouches, AnyRaises, Wrote;
    if lo == hi {
      NothingWrote(t, t.cols[lo..hi]);
    } else {
      var u := FillColumns(t, lo, hi - 1);
      FillColumnsWrote(t, lo, hi - 1);
      FillColumnWrote(u, hi - 1);
      WroteTwice(t, u, FillColumns(t, lo, hi),
                 t.rows != [] && AnyTouches(t, t.cols[lo..hi - 1]), t.rows != [] && AnyRaises(t, t.cols[lo..hi - 1]),
                 t.rows != [] && Touches(u, t.cols[hi - 1].defaultValue),
                 t.rows != [] && Raises(u, t.cols[hi - 1].defaultValue));
      AnyOfLast(t, t.cols[lo..hi - 1], t.cols[hi - 1]);
      assert t.cols[lo..hi] == t.cols[lo..hi - 1] + [t.cols[hi - 1]];
    }
  }

  lemma NothingWrote(t: Table, cols: seq<AttrId>)
    requires cols == []
    ensures Wrote(t, t, false, false) && !AnyTouches(t, cols) && !AnyRaises(t, cols)
  {
  }

  lemma OneMoreWrote(t: Table, u: Table, w: Table, cols: seq<AttrId>, id: AttrId)
    requires Wrote(t, u, AnyTouches(t, cols), AnyRaises(t, cols))
    requires Wrote(u, w, Touches(u, id.defaultValue), Raises(u, id.defaultValue))
    ensures Wrote(t, w, AnyTouches(t, cols + [id]), AnyRaises(t, cols + [id]))
  {
    hide AnyTouches, AnyRaises;
    AnyOfLast(t, cols, id);
  }

  /** Only the type of a value matters for the flags. */
  lemma SameType(t: Table, v: Value, w: Value)
    requires v.Type() == w.Type()
    ensures Touches(t, v) == Touches(t, w) && Raises(t, v) == Raises(t, w)
  {
  }

  lemma {:induction false} CopyCellsWrote(t: Table, from: nat, to: nat, n: nat)
    requires t.Ok() && !t.inBeginAddColumns && from < |t.rows| && to < |t.rows| && n <= |t.cols|
    requires from != to && Readable(t.rows[from]) && !t.deleted[to]
    ensures Wrote(t, CopyCells(t, from, to, n), AnyTouches(t, t.cols[..n]), AnyRaises(t, t.cols[..n]))
  {
    hide Set, Table.OkAt, Table.CanSet, CellsOnly, AnyTouches, AnyRaises, Wrote, Touches, Raises;
    if n == 0 {
      NothingWrote(t, t.cols[..0]);
    } else {
      var u, v := CopyCells(t, from, to, n - 1), t.rows[from][n - 1].value;
      CopyCellsWrote(t, from, to, n - 1);
      CopiedCanBeSet(t, from, to, n);
      SetWrote(u, to, n - 1, v);
      ValueHasType(t, from, n - 1);
      SameType(u, v, t.cols[n - 1].defaultValue);
      OneMoreWrote(t, u, CopyCells(t, from, to, n), t.cols[..n - 1], t.cols[n - 1]);
      assert t.cols[..n] == t.cols[..n - 1] + [t.cols[n - 1]];
    }
  }

  lemma ValueHasType(t: Table, r: nat, c: nat)
    requires t.Ok() && t.InTable(r, c) && Readable(t.rows[r])
    ensures t.rows[r][c].value.Type() == t.cols[c].defaultValue.Type()
  {
    assert t.rows[r][c].Fits(t.cols[c].ValueType());
  }

  lemma CopyRowWrote(t: Table, from: nat)
    requires t.Ok() && !t.inBeginAddColumns && from < |t.rows| && Readable(t.rows[from])
    ensures Wrote(t, CopyRow(t, from), AnyTouches(t, t.cols), AnyRaises(t, t.cols))
  {
    hide Table.OkAt, AddRow, CopyCells, AnyTouches, AnyRaises, Wrote;
    AddRowIs(t);
    AddRowWrote(t);
    var u := AddRow(t);
    CopyCellsWrote(u, from, |t.rows|, |t.cols|);
    assert t.cols[..|t.cols|] == t.cols;
    SameTracking(t, u, t.cols);
    WroteTwice(t, u, CopyRow(t, from), AnyTouches(t, t.cols), AnyRaises(t, t.cols),
               AnyTouches(t, t.cols), AnyRaises(t, t.cols));
  }

  /** What sets flags depends on the table only through the tracking flag. */
  lemma SameTracking(t: Table, u: Table, cols: seq<AttrId>)
    requires Wrote(t, u, AnyTouches(t, t.cols), AnyRaises(t, t.cols)) || u.trackModifications == t.trackModifications
    ensures AnyTouches(u, cols) == AnyTouches(t, cols) && AnyRaises(u, cols) == AnyRaises(t, cols)
  {
    assert forall v :: Touches(u, v) == Touches(t, v) && Raises(u, v) == Raises(t, v);
  }

  lemma AddColumnWrote(t: Table, id: AttrId, record: bool)
    requires t.Ok() && !t.HasColumn(id) && id.defaultValue.InRange() && (!t.inBeginAddColumns ==> CanAddColumns(t))
    ensures var filled := !t.inBeginAddColumns && t.rows != [];
            Wrote(t, AddColumn(t, id, record),
                  filled && Touches(t, id.defaultValue), filled && Raises(t, id.defaultValue))
  {
    hide Table.OkAt, FillColumn;
    if !t.inBeginAddColumns {
      AppendedOk(t, id, record, |t.cols|);
      var room := WidenTable(AppendColumn(t, id, record), |t.cols|);
      WidenedOk(AppendColumn(t, id, record), |t.cols|, room);
      FillColumnWrote(room, |t.cols|);
    }
  }

  lemma EndAddColumnsWrote(t: Table)
    requires t.Ok() && t.inBeginAddColumns && CanAddColumns(t)
    ensures var added := t.cols[t.firstNewColumn..];
            Wrote(t, EndAddColumns(t), t.rows != [] && AnyTouches(t, added), t.rows != [] && AnyRaises(t, added))
  {
    hide Table.OkAt, FillColumns, AnyTouches, AnyRaises;
    LeftOk(t);
    if t.firstNewColumn < |t.cols| {
      var room := WidenTable(t.(inBeginAddColumns := false), t.firstNewColumn);
      WidenedOk(t.(inBeginAddColumns := false), t.firstNewColumn, room);
      FillColumnsWrote(room, t.firstNewColumn, |t.cols|);
      assert t.cols[t.firstNewColumn..|t.cols|] == t.cols[t.firstNewColumn..];
      SameTracking(t, room, t.cols[t.firstNewColumn..]);
    } else {
      NothingWrote(t, t.cols[t.firstNewColumn..]);
    }
  }

  /** The flags that writing any of the columns sets. */
  ghost predicate WroteColumns(t: Table, u: Table) {
    Wrote(t, u, AnyTouches(t, u.cols), AnyRaises(t, u.cols))
  }

  lemma ColumnIncluded(t: Table, cols: seq<AttrId>, id: AttrId)
    requires id in cols
    ensures Touches(t, id.defaultValue) ==> AnyTouches(t, cols)
    ensures Raises(t, id.defaultValue) ==> AnyRaises(t, cols)
  {
    var c :| 0 <= c < |cols| && cols[c] == id;
  }

  lemma EnsureColumnWrote(t: Table, u: Table, id: AttrId, create: bool)
    requires u.Ok() && !u.inBeginAddColumns && WroteColumns(t, u) && u.rows != []
    requires create ==> NoneDeleted(u)
    requires id.defaultValue.InRange()
    ensures WroteColumns(t, EnsureColumn(u, id, create))
  {
    hide Table.OkAt, AnyTouches, AnyRaises;
    if create && !u.HasColumn(id) {
      AddColumnWrote(u, id, true);
      AnyOfLast(t, u.cols, id);
    }
  }

  lemma SetIfPresentWrote(t: Table, u: Table, r: nat, id: AttrId, v: Value)
    requires u.Ok() && !u.inBeginAddColumns && r < |u.rows| && !u.deleted[r] && WroteColumns(t, u)
    requires v.InRange() && v.Type() == id.ValueType()
    ensures WroteColumns(t, SetIfPresent(u, r, id, v))
  {
    hide Table.OkAt, Set, AnyTouches, AnyRaises;
    if u.HasColumn(id) {
      SetWrote(u, r, IndexOf(u.cols, id), v);
      SameType(u, v, id.defaultValue);
      ColumnIncluded(t, u.cols, id);
    }
  }

  lemma CopyExtCellWrote(t: Table, u: Table, to: nat, id: AttrId, v: Value, create: bool)
    requires u.Ok() && !u.inBeginAddColumns && to < |u.rows| && !u.deleted[to] && WroteColumns(t, u)
    requires create ==> NoneDeleted(u)
    requires id.defaultValue.InRange() && v.InRange() && v.Type() == id.ValueType()
    ensures WroteColumns(t, CopyExtCell(u, to, id, v, create))
  {
    hide Table.OkAt, EnsureColumn, SetIfPresent, WroteColumns;
    EnsureColumnWrote(t, u, id, create);
    SetIfPresentWrote(t, EnsureColumn(u, id, create), to, id, v);
  }

  lemma {:induction false} CopyExtCellsWrote(t: Table, u: Table, to: nat, ids: seq<AttrId>, row: seq<Cell>,
                                             create: bool, n: nat)
    requires u.Ok() && !u.inBeginAddColumns && to < |u.rows| && !u.deleted[to] && WroteColumns(t, u)
    requires create ==> NoneDeleted(u)
    requires RowOf(ids, row) && n <= |ids|
    ensures WroteColumns(t, CopyExtCells(u, to, ids, row, create, n))
  {
    hide Table.OkAt, CopyExtCell, WroteColumns;
    if n > 0 {
      CopyExtCellsWrote(t, u, to, ids, row, create, n - 1);
      CopyExtCellWrote(t, CopyExtCells(u, to, ids, row, create, n - 1), to, ids[n - 1], row[n - 1].value, create);
    }
  }

  lemma CopyExtRowWrote(t: Table, ids: seq<AttrId>, row: seq<Cell>, create: bool)
    requires t.Ok() && !t.inBeginAddColumns && (create ==> NoneDeleted(t)) && RowOf(ids, row)
    ensures WroteColumns(t, CopyExtRow(t, ids, row, create))
  {
    hide Table.OkAt, AddRow, CopyExtCells, AnyTouches, AnyRaises;
    AddRowIs(t);
    AddRowWrote(t);
    CopyExtCellsWrote(t, AddRow(t), |t.rows|, ids, row, create, |ids|);
  }

  lemma {:induction false} DeleteRowsWrote(t: Table, n: nat)
    requires t.Ok() && !t.inBeginAddColumns && n <= |t.rows| && NoneDeleted(t)
    ensures DeleteRows(t, n).modified == t.modified && DeleteRows(t, n).rowsModified == t.rowsModified
  {
    hide DeleteRow, Table.OkAt;
    if n > 0 {
      DeleteRowsWrote(t, n - 1);
      DeleteRowKeeps(DeleteRows(t, n - 1), n - 1);
    }
  }

  // ----- every operation

  /** If a write flags a row, some write also sets rowsModified. */
  ghost predicate AllRaise(t: Table, cols: seq<AttrId>) {
    AnyTouches(t, cols) ==> AnyRaises(t, cols)
  }

  /** Whether this operation leaves HasModifiedRows right: either it is true already, or a
      write of an int or bool does not come alone. The guards are the columns that the
      operation fills or copies. */
  ghost predicate KeepsAccurate(t: Table, op: Op)
    requires t.Ok() && Enabled(t, op)
  {
    match op
    case SetOp(r, c, v) => t.rowsModified || !Inline(v)
    case AddRowOp => t.rowsModified || AllRaise(t, t.cols)
    case CopyRowOp(r) => t.rowsModified || AllRaise(t, t.cols)
    case CopyExtRowOp(ids, row, create) => t.rowsModified || AllRaise(t, ColumnsAfter(t.cols, ids, create, |ids|))
    case AddColumnOp(id, record) => t.rowsModified || t.inBeginAddColumns || t.rows == [] || AllRaise(t, [id])
    case EndAddColumnsOp => t.rowsModified || t.rows == [] || AllRaise(t, t.cols[t.firstNewColumn..])
    case _ => true
  }

  /** The typed setter for ints and bools flags the row but does not set rowsModified, so
      HasModifiedRows goes wrong exactly when such a write is the first one. */
  lemma SetAccurate(t: Table, r: nat, c: nat, v: Value)
    requires t.Ok() && t.CanSet(r, c, v) && Accurate(t)
    ensures Accurate(Set(t, r, c, v)) <==> (Inline(v) ==> t.rowsModified)
    ensures Accurate(SetVariant(t, r, c, v))
  {
    SetWrote(t, r, c, v);
  }

  /** Main result on HasModifiedRows: the exact condition for every operation. */
  lemma StepAccurate(t: Table, op: Op)
    requires t.Ok() && Enabled(t, op) && Accurate(t)
    ensures Accurate(Step(t, op)) <==> KeepsAccurate(t, op)
  {
    hide Table.OkAt, Set, SetVariant, AddRow, CopyRow, CopyExtRow, DeleteRow, DeleteRows, AddColumn, EndAddColumns,
         AnyTouches, AnyRaises, ColumnsAfter;
    match op {
      case SetOp(r, c, v) => SetAccurate(t, r, c, v);
      case SetVariantOp(r, c, v) => SetAccurate(t, r, c, v);
      case AddRowOp =>
        AddRowWrote(t);
        RaisingTouches(t, t.cols);
      case CopyRowOp(r) =>
        CopyRowWrote(t, r);
        RaisingTouches(t, t.cols);
      case CopyExtRowOp(ids, row, create) =>
        CopyExtRowWrote(t, ids, row, create);
        CopyExtRowColumns(t, ids, row, create);
        RaisingTouches(t, ColumnsAfter(t.cols, ids, create, |ids|));
      case DeleteRowOp(r) => DeleteRowKeeps(t, r);
      case DeleteAllRowsOp => DeleteRowsWrote(t, |t.rows|);
      case AddColumnOp(id, record) =>
        AddColumnWrote(t, id, record);
        OneColumn(t, id);
      case EndAddColumnsOp =>
        EndAddColumnsWrote(t);
        RaisingTouches(t, t.cols[t.firstNewColumn..]);
      case _ =>
    }
  }

  lemma OneColumn(t: Table, id: AttrId)
    ensures AnyTouches(t, [id]) <==> Touches(t, id.defaultValue)
    ensures AnyRaises(t, [id]) <==> Raises(t, id.defaultValue)
  {
    assert [id][0] == id;
  }

  lemma {:induction false} CopyExtCellsColumns(u: Table, to: nat, ids: seq<AttrId>, row: seq<Cell>, create: bool,
                                               n: nat)
    requires u.Ok() && !u.inBeginAddColumns && to < |u.rows| && !u.deleted[to]
    requires create ==> NoneDeleted(u)
    requires RowOf(ids, row) && n <= |ids|
    ensures CopyExtCells(u, to, ids, row, create, n).cols == ColumnsAfter(u.cols, ids, create, n)
  {
    hide Table.OkAt, Set;
    if n > 0 {
      CopyExtCellsColumns(u, to, ids, row, create, n - 1);
    }
  }

  lemma CopyExtRowColumns(t: Table, ids: seq<AttrId>, row: seq<Cell>, create: bool)
    requires t.Ok() && !t.inBeginAddColumns && (create ==> NoneDeleted(t)) && RowOf(ids, row)
    ensures CopyExtRow(t, ids, row, create).cols == ColumnsAfter(t.cols, ids, create, |ids|)
  {
    hide Table.OkAt, AddRow, CopyExtCells, ColumnsAfter;
    AddRowIs(t);
    AddRowWrote(t);
    CopyExtCellsColumns(AddRow(t), |t.rows|, ids, row, create, |ids|);
  }

  // ----- runs

  /** Every step of the run keeps HasModifiedRows right. */
  ghost predicate RunKeepsAccurate(ops: seq<Op>)
    decreases |ops|
  {
    ops == [] ||
    (RunKeepsAccurate(ops[..|ops| - 1])
     && (Run(ops[..|ops| - 1]).Some? && Enabled(Run(ops[..|ops| - 1]).value, ops[|ops| - 1]) ==>
          KeepsAccurate(Run(ops[..|ops| - 1]).value, ops[|ops| - 1])))
  }

  /** After such a run HasModifiedRows is right. */
  lemma {:induction false} RunAccurate(ops: seq<Op>)
    requires Run(ops).Some? && RunKeepsAccurate(ops)
    ensures Accurate(Run(ops).value)
    decreases |ops|
  {
    hide Step, Enabled, KeepsAccurate;
    if ops == [] {
      assert Accurate(EMPTY);
    } else {
      RunAccurate(ops[..|ops| - 1]);
      StepAccurate(Run(ops[..|ops| - 1]).value, ops[|ops| - 1]);
    }
  }
}
