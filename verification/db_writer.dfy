/** Db::Writer::OpenFromValueTable: what table of values a writer starts from. */
module DbWriterModel {
  import opened AttrLayout
  import opened AttrModel
  import opened AttrCopy

  /** A new value table with the first n columns. */
  function TableWith(cols: seq<AttrId>, n: nat): (t: Table)
    requires n <= |cols| && Distinct(cols) && forall c :: 0 <= c < |cols| ==> cols[c].defaultValue.InRange()
    ensures t.Ok() && !t.inBeginAddColumns && CanAddColumns(t) && t.trackModifications
    ensures t.cols == cols[..n] && t.rows == [] && t.newRows == [] && t.allocatedRows == 0
    ensures t.newColumns == [] && t.deletedRows == []
  {
    if n == 0 then EMPTY else
    var t := TableWith(cols, n - 1);
    var u := AddColumn(t, cols[n - 1], false);
    assert FillColumn(WidenTable(AppendColumn(t, cols[n - 1], false), n - 1), n - 1, 0)
        == WidenTable(AppendColumn(t, cols[n - 1], false), n - 1);
    u
  }

  lemma TableWithNext(cols: seq<AttrId>, n: nat)
    requires n < |cols| && Distinct(cols) && forall c :: 0 <= c < |cols| ==> cols[c].defaultValue.InRange()
    ensures var t := TableWith(cols, n);
            && !t.HasColumn(cols[n]) && cols[n].defaultValue.InRange() && CanAddColumns(t)
            && TableWith(cols, n + 1) == AddColumn(t, cols[n], false)
  {
    hide AddColumn, Table.OkAt;
  }

  ghost predicate CanCopyFrom(ids: seq<AttrId>, rows: seq<seq<Cell>>) {
    Distinct(ids) && forall r :: 0 <= r < |rows| ==> RowOf(ids, rows[r])
  }

  /** Only columns that the table has are copied, and the columns stay. */
  lemma {:induction false} NothingCreated(t: Table, to: nat, ids: seq<AttrId>, row: seq<Cell>, n: nat)
    requires t.Ok() && !t.inBeginAddColumns && to < |t.rows| && !t.deleted[to] && RowOf(ids, row) && n <= |ids|
    ensures CellsOnly(t, CopyExtCells(t, to, ids, row, false, n))
  {
    if n > 0 {
      NothingCreated(t, to, ids, row, n - 1);
    }
  }

  /** Appending the first n rows of another table. */
  function CopyRows(t: Table, ids: seq<AttrId>, rows: seq<seq<Cell>>, n: nat): (u: Table)
    requires t.Ok() && !t.inBeginAddColumns && CanCopyFrom(ids, rows) && n <= |rows|
    ensures u.Ok() && !u.inBeginAddColumns && u.cols == t.cols && |u.rows| == |t.rows| + n
    ensures u.trackModifications == t.trackModifications
    ensures u.newColumns == t.newColumns && u.deletedRows == t.deletedRows
  {
    if n == 0 then t else
    var before := CopyRows(t, ids, rows, n - 1);
    NothingCreated(AddRow(before), |before.rows|, ids, rows[n - 1], |ids|);
    CopyExtRow(before, ids, rows[n - 1], false)
  }

  lemma CopyRowsNext(t: Table, ids: seq<AttrId>, rows: seq<seq<Cell>>, n: nat)
    requires t.Ok() && !t.inBeginAddColumns && CanCopyFrom(ids, rows) && n < |rows|
    ensures CopyRows(t, ids, rows, n + 1) == CopyExtRow(CopyRows(t, ids, rows, n), ids, rows[n], false)
    ensures RowOf(ids, rows[n]) && !CopyRows(t, ids, rows, n).inBeginAddColumns
  {
    hide CopyExtRow, Table.OkAt;
  }

  /** The writer's own columns first, then those of the source that it does not have. */
  function OpenedColumns(own: seq<AttrId>, ids: seq<AttrId>): seq<AttrId> {
    ColumnsAfter(own, ids, true, |ids|)
  }

  function Opened(cols: seq<AttrId>, ids: seq<AttrId>, rows: seq<seq<Cell>>): Table
    requires Distinct(cols) && (forall c :: 0 <= c < |cols| ==> cols[c].defaultValue.InRange())
    requires CanCopyFrom(ids, rows)
  {
    CopyRows(TableWith(cols, |cols|), ids, rows, |rows|)
  }

  /** A source row under the columns of the writer. */
  function Projected(cols: seq<AttrId>, ids: seq<AttrId>, row: seq<Cell>): (cells: seq<Cell>)
    requires |row| == |ids|
    ensures |cells| == |cols|
  {
    seq(|cols|, c requires 0 <= c < |cols| => CopiedCell(ids, row, cols[c]))
  }

  function UpTo(n: nat): (s: seq<int>) {
    seq(n, i => i)
  }

  lemma {:induction false} MergedColumns(own: seq<AttrId>, ids: seq<AttrId>, n: nat)
    requires Distinct(own) && n <= |ids|
    requires forall c :: 0 <= c < |own| ==> own[c].defaultValue.InRange()
    requires forall c :: 0 <= c < |ids| ==> ids[c].defaultValue.InRange()
    ensures var cols := ColumnsAfter(own, ids, true, n);
            Distinct(cols) && forall c :: 0 <= c < |cols| ==> cols[c].defaultValue.InRange()
  {
    if n > 0 {
      MergedColumns(own, ids, n - 1);
    }
  }

  /** Copying one row without creating columns. */
  lemma CopyOneRow(t: Table, ids: seq<AttrId>, row: seq<Cell>)
    requires t.Ok() && !t.inBeginAddColumns && RowOf(ids, row) && Distinct(ids) && Distinct(t.cols)
    ensures var u := CopyExtRow(t, ids, row, false);
            && u.cols == t.cols && |u.rows| == |t.rows| + 1 && u.rows[|t.rows|] == Projected(t.cols, ids, row)
            && u.trackModifications == t.trackModifications
            && (t.trackModifications ==> u.newRows == t.newRows + [|t.rows|])
            && forall r :: 0 <= r < |t.rows| ==> u.rows[r] == t.rows[r]
  {
    hide Table.OkAt, CopyExtCells, Projected;
    CopyExtRowIs(t, ids, row, false);
    CreatedColumns(t.cols, ids, false, |ids|);
    AddRowIs(t);
    NothingCreated(AddRow(t), |t.rows|, ids, row, |ids|);
    var u := CopyExtRow(t, ids, row, false);
    ProjectedIs(t.cols, ids, row, u.rows[|t.rows|]);
    forall r | 0 <= r < |t.rows|
      ensures u.rows[r] == t.rows[r]
    {
      assert t.rows[r] + DefaultsFrom(t.cols, |t.cols|) == t.rows[r];
    }
  }

  lemma {:induction false} CopyRowsIs(t: Table, ids: seq<AttrId>, rows: seq<seq<Cell>>, n: nat)
    requires t.Ok() && !t.inBeginAddColumns && CanCopyFrom(ids, rows) && n <= |rows| && Distinct(t.cols)
    requires t.rows == [] && t.newRows == [] && t.trackModifications
    ensures CopyRows(t, ids, rows, n).newRows == UpTo(n)
    ensures forall r :: 0 <= r < n ==> CopyRows(t, ids, rows, n).rows[r] == Projected(t.cols, ids, rows[r])
  {
    hide Table.OkAt, CopyExtRow, Projected;
    if n > 0 {
      CopyRowsIs(t, ids, rows, n - 1);
      CopyOneRow(CopyRows(t, ids, rows, n - 1), ids, rows[n - 1]);
      assert UpTo(n) == UpTo(n - 1) + [n - 1];
    }
  }

  lemma ProjectedIs(cols: seq<AttrId>, ids: seq<AttrId>, row: seq<Cell>, cells: seq<Cell>)
    requires |row| == |ids| && |cells| == |cols|
    requires forall c :: 0 <= c < |cols| ==> cells[c] == CopiedCell(ids, row, cols[c])
    ensures cells == Projected(cols, ids, row)
  {
  }

  /** The writer's table holds the source rows in order, whatever its own columns are: a
      column of the source keeps its value, any other column is at its default. All rows
      count as new. */
  lemma OpenedIs(own: seq<AttrId>, ids: seq<AttrId>, rows: seq<seq<Cell>>)
    requires Distinct(own) && (forall c :: 0 <= c < |own| ==> own[c].defaultValue.InRange())
    requires CanCopyFrom(ids, rows) && (forall c :: 0 <= c < |ids| ==> ids[c].defaultValue.InRange())
    ensures var cols := OpenedColumns(own, ids);
            && Distinct(cols) && (forall c :: 0 <= c < |cols| ==> cols[c].defaultValue.InRange())
            && var t := Opened(cols, ids, rows);
            && t.cols == cols && (forall i :: 0 <= i < |ids| ==> ids[i] in cols)
            && |t.rows| == |rows| && (forall r :: 0 <= r < |rows| ==> t.rows[r] == Projected(cols, ids, rows[r]))
            && t.newRows == UpTo(|rows|) && t.newColumns == [] && t.deletedRows == []
  {
    hide CopyRows, Table.OkAt, TableWith, Projected, UpTo;
    MergedColumns(own, ids, |ids|);
    CreatedColumns(own, ids, true, |ids|);
    var cols := OpenedColumns(own, ids);
    CopyRowsIs(TableWith(cols, |cols|), ids, rows, |rows|);
    assert cols[..|cols|] == cols;
  }
}

module DbWriter {
  import opened AttrLayout
  import opened AttrCells
  import opened AttrTable
  import opened DbWriterModel
  import M = AttrModel
  import C = AttrCopy

  class Writer {
    var columns: seq<AttrId>
    var columnMap: map<AttrId, int>
    var valueTable: AttributeTable?
    var isOpen: bool
    var inBeginRow: bool

    ghost predicate Valid()
      reads this
      ensures Valid() ==> M.Distinct(columns)
    {
      LookupOk(columns, columnMap) && forall c :: 0 <= c < |columns| ==> columns[c].defaultValue.InRange()
    }

    constructor ()
      ensures Valid() && columns == [] && !isOpen && !inBeginRow
    {
      columns, columnMap, valueTable, isOpen, inBeginRow := [], map[], null, false, false;
    }

    method AddColumn(id: AttrId)
      requires Valid() && id !in columns && id.defaultValue.InRange()
      modifies this`columns, this`columnMap
      ensures Valid() && columns == old(columns) + [id]
    {
      columns := columns + [id];
      columnMap := columnMap[id := |columns| - 1];
    }

    /** Columns of the source that the writer does not have. */
    method MergeColumns(src: seq<ColumnInfo>)
      requires Valid() && forall c :: 0 <= c < |src| ==> src[c].attrId.defaultValue.InRange()
      modifies this`columns, this`columnMap
      ensures Valid() && columns == OpenedColumns(old(columns), Ids(src))
    {
      for i := 0 to |src|
        invariant Valid() && columns == C.ColumnsAfter(old(columns), Ids(src), true, i)
      {
        if src[i].attrId !in columnMap {
          AddColumn(src[i].attrId);
        }
      }
    }

    /** The value table gets a column for each of the writer's. */
    method FillColumns(t: AttributeTable)
      requires Valid() && t.Valid() && t.Table() == M.EMPTY
      modifies t.heap, t.store, t.store.storage, t.store.storage.data, t.flags.rowModified, t.flags.rowModified.data,
               t.flags.rowDeleted`data, t.flags.rowNew`data, t`newColumnIndices, t`isModified,
               t`rowsModified, t`readWriteColumnIndices, t`indexMap
      ensures t.Valid() && t.Table() == TableWith(columns, |columns|) && t.FreshBuffers()
      ensures HeapStep(old(t.heap.objects), old(t.store.owner), t.heap.objects, t.store.owner)
    {
      hide AttributeTable.Valid, AttributeTable.ValidAt, AttributeTable.Table, M.Table.OkAt, M.Table.HasColumn,
           M.AddColumn, M.CanAddColumns, M.Distinct, HeapStep, LookupOk;
      t.ColumnsAreCols();
      for i := 0 to |columns|
        invariant t.Valid() && t.Table() == TableWith(columns, i) && t.FreshBuffers()
        invariant HeapStep(old(t.heap.objects), old(t.store.owner), t.heap.objects, t.store.owner)
      {
        ghost var h, o := t.heap.objects, t.store.owner;
        TableWithNext(columns, i);
        t.AddColumn(columns[i], false);
        OwnTwice(old(t.heap.objects), old(t.store.owner), h, o, t.heap.objects, t.store.owner);
      }
    }

    method CopyRows(t: AttributeTable, srcValues: AttributeTable)
      requires t.Valid() && !t.Table().inBeginAddColumns
      requires srcValues != t && srcValues.Readable() && t.Apart(srcValues.store)
      requires CanCopyFrom(Ids(srcValues.store.columns), srcValues.store.cells)
      modifies t.heap, t.store, t.store.storage, t.store.storage.data, t.flags.rowModified, t.flags.rowModified.data,
               t.flags.rowDeleted, t.flags.rowDeleted.data, t.flags.rowNew, t.flags.rowNew.data, t
      ensures t.Valid() && srcValues.Readable() && t.Apart(srcValues.store) && t.FreshBuffers()
      ensures t.Table() == DbWriterModel.CopyRows(old(t.Table()), Ids(srcValues.store.columns), srcValues.store.cells,
                                                  |srcValues.store.cells|)
      ensures HeapStep(old(t.heap.objects), old(t.store.owner), t.heap.objects, t.store.owner)
    {
      hide AttributeTable.Valid, AttributeTable.ValidAt, AttributeTable.Table, AttributeTable.Apart, M.Table.OkAt,
           M.CopyExtRow, HeapStep, CellStore.Valid, Ids, CanCopyFrom, M.RowOf, AttributeTable.Readable, LookupOk;
      ghost var t0, ids, rows := t.Table(), Ids(srcValues.store.columns), srcValues.store.cells;
      t.ColumnsAreCols();
      RowsOf(srcValues);
      for srcRowIndex := 0 to srcValues.store.storage.numRows
        invariant t.Valid() && srcValues.Readable() && t.Apart(srcValues.store) && t.FreshBuffers()
        invariant t.Same(srcValues.store)
        invariant t.Table() == DbWriterModel.CopyRows(t0, ids, rows, srcRowIndex)
        invariant HeapStep(old(t.heap.objects), old(t.store.owner), t.heap.objects, t.store.owner)
      {
        ghost var h, o := t.heap.objects, t.store.owner;
        CopyRowsNext(t0, ids, rows, srcRowIndex);
        var row := t.CopyExtRow(srcValues, srcRowIndex, false);
        OwnTwice(old(t.heap.objects), old(t.store.owner), h, o, t.heap.objects, t.store.owner);
      }
    }

    /** An empty table gets the columns, and then the rows. */
    method FillFrom(t: AttributeTable, srcValues: AttributeTable)
      requires Valid() && t.Valid() && t.Table() == M.EMPTY && t.store.owner == map[]
      requires srcValues != t && srcValues.Readable() && t.Apart(srcValues.store)
      requires CanCopyFrom(Ids(srcValues.store.columns), srcValues.store.cells)
      modifies t.heap, t.store, t.store.storage, t.store.storage.data, t.flags.rowModified, t.flags.rowModified.data,
               t.flags.rowDeleted, t.flags.rowDeleted.data, t.flags.rowNew, t.flags.rowNew.data, t
      ensures t.Valid() && srcValues.Readable() && t.Apart(srcValues.store)
      ensures t.Table() == Opened(columns, Ids(srcValues.store.columns), srcValues.store.cells)
      ensures HeapStep(old(t.heap.objects), map[], t.heap.objects, t.store.owner)
    {
      hide M.Table.OkAt, HeapStep, CellStore.Valid, LookupOk, Ids, TableWith, DbWriterModel.CopyRows, Heap.Valid,
           AttributeTable.Valid, AttributeTable.ValidAt, AttributeTable.Table, CanCopyFrom, Valid;
      FillColumns(t);
      t.OtherSurvives(srcValues.store);
      ghost var h, o := t.heap.objects, t.store.owner;
      CopyRows(t, srcValues);
      OwnTwice(old(t.heap.objects), map[], h, o, t.heap.objects, t.store.owner);
    }

    method MakeTable(srcValues: AttributeTable) returns (t: AttributeTable)
      requires Valid() && srcValues.Readable() && srcValues.heap.Valid()
      requires srcValues.store.owner.Keys <= srcValues.heap.objects.Keys
      requires CanCopyFrom(Ids(srcValues.store.columns), srcValues.store.cells)
      modifies srcValues.heap
      ensures fresh(t) && t.Valid() && srcValues.Readable() && t.Apart(srcValues.store)
      ensures t.Table() == Opened(columns, Ids(srcValues.store.columns), srcValues.store.cells)
      ensures HeapStep(old(srcValues.heap.objects), map[], srcValues.heap.objects, t.store.owner)
    {
      hide M.Table.OkAt, HeapStep, CellStore.Valid, LookupOk, Ids, Opened, CanCopyFrom, Heap.Valid,
           AttributeTable.Valid, AttributeTable.ValidAt, AttributeTable.Table;
      t := new AttributeTable(srcValues.heap);
      FillFrom(t, srcValues);
    }

    /** The writer starts from the rows of another table, in order. The source keeps its
        rows; nothing it holds changes, and no string object is shared with it. */
    method OpenFromValueTable(srcValues: AttributeTable)
      requires Valid() && !isOpen && !inBeginRow
      requires srcValues.Valid() && !srcValues.Table().inBeginAddColumns
      requires forall r :: 0 <= r < |srcValues.Table().rows| ==> M.Readable(srcValues.Table().rows[r])
      modifies this, srcValues.heap
      ensures Valid() && isOpen && !inBeginRow
      ensures columns == OpenedColumns(old(columns), srcValues.Table().cols)
      ensures valueTable != null && fresh(valueTable) && valueTable.Valid()
      ensures CanCopyFrom(srcValues.Table().cols, srcValues.Table().rows)
      ensures valueTable.Table() == Opened(columns, srcValues.Table().cols, srcValues.Table().rows)
      ensures srcValues.Table() == old(srcValues.Table()) && srcValues.Readable() && valueTable.Apart(srcValues.store)
      ensures HeapStep(old(srcValues.heap.objects), map[], srcValues.heap.objects, valueTable.store.owner)
    {
      hide M.Table.OkAt, HeapStep, CellStore.Valid, LookupOk, Ids, OpenedColumns, Opened, CanCopyFrom, Heap.Valid,
           AttributeTable.Valid, AttributeTable.ValidAt, AttributeTable.Table;
      CanCopy(srcValues);
      MergeColumns(srcValues.store.columns);
      var t := MakeTable(srcValues);
      valueTable, isOpen := t, true;
    }
  }

  lemma RowsOf(t: AttributeTable)
    requires t.Readable()
    ensures t.store.storage.numRows == |t.store.cells|
  {
  }

  lemma CanCopy(t: AttributeTable)
    requires t.Valid() && !t.Table().inBeginAddColumns
    requires forall r :: 0 <= r < |t.Table().rows| ==> M.Readable(t.Table().rows[r])
    ensures CanCopyFrom(t.Table().cols, t.Table().rows) && t.Readable()
    ensures t.Table().cols == Ids(t.store.columns) && t.Table().rows == t.store.cells && t.store.heap == t.heap
    ensures t.heap.Valid() && t.store.owner.Keys <= t.heap.objects.Keys
    ensures forall c :: 0 <= c < |t.store.columns| ==> t.store.columns[c].attrId.defaultValue.InRange()
  {
    forall r | 0 <= r < |t.Table().rows|
      ensures M.RowOf(t.Table().cols, t.Table().rows[r])
    {
      M.ReadableFits(t.Table(), r);
    }
    forall c | 0 <= c < |t.store.columns|
      ensures t.store.columns[c].attrId.defaultValue.InRange()
    {
      assert t.Table().cols[c].defaultValue.InRange();
    }
  }
}
