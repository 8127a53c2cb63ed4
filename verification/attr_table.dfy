/** Attr::AttributeTable: every operation does to the table of values exactly what the
    functions of AttrModel say, and exchanges string objects with a shared heap only
    within what it owns. */
module AttrTable {
  import opened AttrLayout
  import opened AttrImage
  import opened AttrStorage
  import opened AttrCells
  import M = AttrModel

  /** The lookup table is the inverse of the column list. */
  ghost predicate LookupOk(cols: seq<AttrId>, indexMap: map<AttrId, int>) {
    && (forall c :: 0 <= c < |cols| ==> cols[c] in indexMap && indexMap[cols[c]] == c)
    && (forall id :: id in indexMap ==> 0 <= indexMap[id] < |cols| && cols[indexMap[id]] == id)
  }

  class AttributeTable {
    const heap: Heap
    const store: CellStore
    const flags: RowFlags
    var indexMap: map<AttrId, int>
    var readWriteColumnIndices: seq<int>
    var newColumnIndices: seq<int>
    var newRowIndices: seq<int>
    var deletedRowIndices: seq<int>
    var userData: seq<int>
    var trackModifications: bool
    var isModified: bool
    var rowsModified: bool
    var inBeginAddColumns: bool
    var addColumnsRecordAsNewColumns: bool
    var firstNewColumnIndex: nat

    ghost predicate Valid()
      reads this, heap, store, store.storage, store.storage.data,
            flags.rowModified, flags.rowModified.data, flags.rowDeleted, flags.rowDeleted.data,
            flags.rowNew, flags.rowNew.data
      ensures Valid() ==> Table().Ok() && heap.Valid()
    {
      (inBeginAddColumns ==> firstNewColumnIndex <= |store.columns|) && ValidAt(Table().Width())
    }

    /** Everything is in order, and the first w columns have cells. */
    ghost predicate ValidAt(w: nat)
      reads this, heap, store, store.storage, store.storage.data,
            flags.rowModified, flags.rowModified.data, flags.rowDeleted, flags.rowDeleted.data,
            flags.rowNew, flags.rowNew.data
      ensures ValidAt(w) ==> Table().OkAt(w)
    {
      Consistent(w) && Table().OkAt(w)
    }

    /** The parts of this object agree with each other. */
    ghost predicate Consistent(w: nat)
      reads this, heap, store, store.storage, store.storage.data,
            flags.rowModified, flags.rowModified.data, flags.rowDeleted, flags.rowDeleted.data,
            flags.rowNew, flags.rowNew.data
    {
      && store.heap == heap
      && store.Valid() && flags.Valid() && flags.Capacity() == store.storage.allocatedRows
      && LookupOk(Ids(store.columns), indexMap)
      && store.settled == w
    }

    /** The table of values this object stands for. */
    ghost function Table(): M.Table
      reads this, store, store.storage, flags.rowModified, flags.rowDeleted, flags.rowNew
    {
      M.Table(Ids(store.columns), store.cells,
              readWriteColumnIndices, newColumnIndices, newRowIndices, deletedRowIndices, userData,
              flags.rowModified.bits, flags.rowDeleted.bits, flags.rowNew.bits,
              store.storage.allocatedRows, trackModifications, isModified, rowsModified,
              inBeginAddColumns, addColumnsRecordAsNewColumns, firstNewColumnIndex)
    }

    lemma Opened()
      requires Valid()
      ensures Table().Ok() && Consistent(Table().Width())
      ensures store.storage.numRows == |Table().rows| && store.storage.allocatedRows == Table().allocatedRows
    {
    }

    lemma Closed()
      requires Table().Ok() && Consistent(Table().Width())
      ensures Valid()
    {
    }

    lemma ColumnsAreCols()
      requires Valid()
      ensures Ids(store.columns) == Table().cols && |store.columns| == |Table().cols|
      ensures store.storage.numRows == |Table().rows|
      ensures HeapStep(heap.objects, store.owner, heap.objects, store.owner)
    {
    }

    constructor (heap: Heap)
      requires heap.Valid()
      ensures this.heap == heap && Valid() && fresh(store) && fresh(store.storage)
      ensures fresh(flags.rowModified) && fresh(flags.rowDeleted) && fresh(flags.rowNew)
      ensures store.storage.data == null && flags.rowModified.data == null
      ensures flags.rowDeleted.data == null && flags.rowNew.data == null
      ensures Table() == M.EMPTY && store.owner == map[]
    {
      hide CellStore.Valid, RowFlags.Valid;
      this.heap := heap;
      store := new CellStore(heap);
      flags := new RowFlags();
      indexMap := map[];
      readWriteColumnIndices, newColumnIndices, newRowIndices, deletedRowIndices := [], [], [], [];
      userData := [];
      trackModifications, isModified, rowsModified := true, false, false;
      inBeginAddColumns, addColumnsRecordAsNewColumns, firstNewColumnIndex := false, false, 0;
    }

    // ----- typed access by column index

    method MarkUntracked(rowIndex: nat)
      requires Valid() && rowIndex < |Table().rows|
      modifies flags.rowModified.data, flags.rowModified`bits, this`isModified
      ensures Valid() && Table() == M.MarkUntracked(old(Table()), rowIndex)
    {
      hide Valid, ValidAt, CellStore.Valid, RowFlags.Valid, LookupOk, Ids, Heap.Valid, M.Table.OkAt;
      Opened();
      ghost var t := M.MarkUntracked(Table(), rowIndex);
      M.MarkedOk(Table(), rowIndex);
      flags.FlagModified(rowIndex);
      isModified := true;
      assert Table() == t;
      Closed();
    }

    method MarkTracked(rowIndex: nat)
      requires Valid() && rowIndex < |Table().rows|
      modifies flags.rowModified.data, flags.rowModified`bits, this`isModified, this`rowsModified
      ensures Valid() && Table() == M.MarkTracked(old(Table()), rowIndex)
    {
      hide Valid, ValidAt, CellStore.Valid, RowFlags.Valid, LookupOk, Ids, Heap.Valid, M.Table.OkAt;
      Opened();
      ghost var t := M.MarkTracked(Table(), rowIndex);
      M.MarkedOk(Table(), rowIndex);
      if trackModifications {
        flags.FlagModified(rowIndex);
        isModified, rowsModified := true, true;
      }
      assert Table() == t;
      Closed();
    }

    /** A cell that can be set is there, and has the type of the value. */
    lemma Settable(rowIndex: nat, colIndex: nat, val: Value)
      requires Valid() && Table().CanSet(rowIndex, colIndex, val)
      ensures Table().Ok() && Consistent(Table().Width())
      ensures colIndex < store.settled && rowIndex < store.storage.numRows == |Table().rows|
      ensures store.columns[colIndex].attrId.ValueType() == val.Type() && val.InRange()
      ensures HeapStep(heap.objects, store.owner, heap.objects, store.owner)
    {
    }

    /** Only the cells have changed, and the value is stored in its cell. */
    lemma Stored(t: M.Table, rowIndex: nat, colIndex: nat, val: Value)
      requires t.Ok() && t.CanSet(rowIndex, colIndex, val) && Consistent(t.Width())
               && Table() == t.(rows := store.cells)
      requires store.cells == SetCell(t.rows, rowIndex, colIndex, Holds(val))
      ensures Valid() && Table() == M.Put(t, rowIndex, colIndex, val)
      ensures |Table().rows| == |t.rows|
      ensures val.StringValue? || val.Float4Value? ==>
              M.Set(t, rowIndex, colIndex, val) == M.MarkTracked(Table(), rowIndex)
      ensures val.IntValue? || val.BoolValue? ==>
              M.Set(t, rowIndex, colIndex, val) == M.MarkUntracked(Table(), rowIndex)
      ensures M.SetVariant(t, rowIndex, colIndex, val) == M.MarkTracked(Table(), rowIndex)
    {
      hide CellStore.Valid, RowFlags.Valid, LookupOk, Ids, Heap.Valid, M.Table.OkAt, M.MarkTracked, M.MarkUntracked;
      M.PutOk(t, rowIndex, colIndex, val);
    }

    method SetInt(colIndex: nat, rowIndex: nat, val: int)
      requires Valid() && Table().CanSet(rowIndex, colIndex, IntValue(val))
      modifies heap, store.storage.data, store.storage`rows, store`cells, store`owner,
               flags.rowModified.data, flags.rowModified`bits, this`isModified, this`rowsModified
      ensures Valid() && HeapStep(old(heap.objects), old(store.owner), heap.objects, store.owner)
      ensures Table() == M.Set(old(Table()), rowIndex, colIndex, IntValue(val))
    {
      hide Valid, ValidAt, CellStore.Valid, RowFlags.Valid, RowFlags.Capacity, M.Table.OkAt, M.Table.CanSet, M.Put,
           M.Set, M.SetVariant, M.CellsOnly, SetCell, HeapStep, StringPlaced, CellStore.Settled, PointerAt,
           LookupOk, Ids, Heap.Valid, Value.InRange, M.MarkTracked, M.MarkUntracked;
      ghost var t := Table();
      Settable(rowIndex, colIndex, IntValue(val));
      store.WriteInt(colIndex, rowIndex, val);
      Stored(t, rowIndex, colIndex, IntValue(val));
      MarkUntracked(rowIndex);
    }

    method SetBool(colIndex: nat, rowIndex: nat, val: bool)
      requires Valid() && Table().CanSet(rowIndex, colIndex, BoolValue(val))
      modifies heap, store.storage.data, store.storage`rows, store`cells, store`owner,
               flags.rowModified.data, flags.rowModified`bits, this`isModified, this`rowsModified
      ensures Valid() && HeapStep(old(heap.objects), old(store.owner), heap.objects, store.owner)
      ensures Table() == M.Set(old(Table()), rowIndex, colIndex, BoolValue(val))
    {
      hide Valid, ValidAt, CellStore.Valid, RowFlags.Valid, RowFlags.Capacity, M.Table.OkAt, M.Table.CanSet, M.Put,
           M.Set, M.SetVariant, M.CellsOnly, SetCell, HeapStep, StringPlaced, CellStore.Settled, PointerAt,
           LookupOk, Ids, Heap.Valid, Value.InRange, M.MarkTracked, M.MarkUntracked;
      ghost var t := Table();
      Settable(rowIndex, colIndex, BoolValue(val));
      store.WriteBool(colIndex, rowIndex, val);
      Stored(t, rowIndex, colIndex, BoolValue(val));
      MarkUntracked(rowIndex);
    }

    method SetFloat4(colIndex: nat, rowIndex: nat, val: seq<int>)
      requires Valid() && Table().CanSet(rowIndex, colIndex, Float4Value(val))
      modifies heap, store.storage.data, store.storage`rows, store`cells, store`owner,
               flags.rowModified.data, flags.rowModified`bits, this`isModified, this`rowsModified
      ensures Valid() && HeapStep(old(heap.objects), old(store.owner), heap.objects, store.owner)
      ensures Table() == M.Set(old(Table()), rowIndex, colIndex, Float4Value(val))
    {
      hide Valid, ValidAt, CellStore.Valid, RowFlags.Valid, RowFlags.Capacity, M.Table.OkAt, M.Table.CanSet, M.Put,
           M.Set, M.SetVariant, M.CellsOnly, SetCell, HeapStep, StringPlaced, CellStore.Settled, PointerAt,
           LookupOk, Ids, Heap.Valid, Value.InRange, M.MarkTracked, M.MarkUntracked;
      ghost var t := Table();
      Settable(rowIndex, colIndex, Float4Value(val));
      store.WriteFloat4(colIndex, rowIndex, val);
      Stored(t, rowIndex, colIndex, Float4Value(val));
      MarkTracked(rowIndex);
    }

    method SetString(colIndex: nat, rowIndex: nat, val: string)
      requires Valid() && Table().CanSet(rowIndex, colIndex, StringValue(val))
      modifies heap, store.storage.data, store.storage`rows, store`cells, store`owner,
               flags.rowModified.data, flags.rowModified`bits, this`isModified, this`rowsModified
      ensures Valid() && HeapStep(old(heap.objects), old(store.owner), heap.objects, store.owner)
      ensures Table() == M.Set(old(Table()), rowIndex, colIndex, StringValue(val))
    {
      hide Valid, ValidAt, CellStore.Valid, RowFlags.Valid, RowFlags.Capacity, M.Table.OkAt, M.Table.CanSet, M.Put,
           M.Set, M.SetVariant, M.CellsOnly, SetCell, HeapStep, StringPlaced, CellStore.Settled, PointerAt,
           LookupOk, Ids, Heap.Valid, Value.InRange, M.MarkTracked, M.MarkUntracked;
      ghost var t := Table();
      Settable(rowIndex, colIndex, StringValue(val));
      store.CopyString(colIndex, rowIndex, val);
      Stored(t, rowIndex, colIndex, StringValue(val));
      MarkTracked(rowIndex);
    }

    /** SetAttr: the typed setter for the value's type. */
    method SetValue(colIndex: nat, rowIndex: nat, val: Value)
      requires Valid() && Table().CanSet(rowIndex, colIndex, val)
      modifies heap, store.storage.data, store.storage`rows, store`cells, store`owner,
               flags.rowModified.data, flags.rowModified`bits, this`isModified, this`rowsModified
      ensures Valid() && HeapStep(old(heap.objects), old(store.owner), heap.objects, store.owner)
      ensures Table() == M.Set(old(Table()), rowIndex, colIndex, val)
    {
      hide CellStore.Valid, RowFlags.Valid, M.Table.OkAt, M.Set, LookupOk, HeapStep, M.Table.CanSet, Valid, ValidAt;
      match val
      case IntValue(i) => SetInt(colIndex, rowIndex, i);
      case BoolValue(b) => SetBool(colIndex, rowIndex, b);
      case Float4Value(f) => SetFloat4(colIndex, rowIndex, f);
      case StringValue(s) => SetString(colIndex, rowIndex, s);
    }

    /** SetVariant writes inline values itself, a bool only one byte wide. */
    method SetVariant(colIndex: nat, rowIndex: nat, val: Value)
      requires Valid() && Table().CanSet(rowIndex, colIndex, val)
      modifies heap, store.storage.data, store.storage`rows, store`cells, store`owner,
               flags.rowModified.data, flags.rowModified`bits, this`isModified, this`rowsModified
      ensures Valid() && HeapStep(old(heap.objects), old(store.owner), heap.objects, store.owner)
      ensures Table() == M.SetVariant(old(Table()), rowIndex, colIndex, val)
    {
      hide Valid, ValidAt, CellStore.Valid, RowFlags.Valid, RowFlags.Capacity, M.Table.OkAt, M.Table.CanSet, M.Put,
           M.Set, M.SetVariant, M.CellsOnly, SetCell, HeapStep, StringPlaced, CellStore.Settled, PointerAt,
           LookupOk, Ids, Heap.Valid, Value.InRange, M.MarkTracked, M.MarkUntracked;
      ghost var t := Table();
      Settable(rowIndex, colIndex, val);
      store.WriteVariant(colIndex, rowIndex, val);
      Stored(t, rowIndex, colIndex, val);
      MarkTracked(rowIndex);
    }

    /** The typed getter for the column's type; a string cell must not hold null. */
    method GetValue(colIndex: nat, rowIndex: nat) returns (val: Value)
      requires Valid() && Table().InTable(rowIndex, colIndex) && Table().rows[rowIndex][colIndex] != NullString
      ensures Table().rows[rowIndex][colIndex] == Holds(val)
      ensures val.Type() == Table().cols[colIndex].ValueType() && val.InRange()
    {
      hide CellStore.Valid, RowFlags.Valid, LookupOk, Heap.Valid, Ids;
      val := store.ReadValue(colIndex, rowIndex);
      assert Table().rows[rowIndex][colIndex].Fits(Table().cols[colIndex].ValueType());
    }

    // ----- rows

    method SetRowToDefaultValues(rowIndex: nat)
      requires Valid() && !Table().inBeginAddColumns && rowIndex < |Table().rows| && !Table().deleted[rowIndex]
      modifies heap, store.storage.data, store.storage`rows, store`cells, store`owner,
               flags.rowModified.data, flags.rowModified`bits, this`isModified, this`rowsModified
      ensures Valid() && HeapStep(old(heap.objects), old(store.owner), heap.objects, store.owner)
      ensures Table() == M.FillRow(old(Table()), rowIndex, old(Table()).Width())
    {
      hide Valid, ValidAt, Table, M.Table.OkAt, M.Set, HeapStep;
      ghost var t := Table();
      ColumnsAreCols();
      for colIndex := 0 to |store.columns|
        invariant Valid() && Table() == M.FillRow(t, rowIndex, colIndex)
        invariant HeapStep(old(heap.objects), old(store.owner), heap.objects, store.owner)
      {
        ghost var h, o := heap.objects, store.owner;
        SetValue(colIndex, rowIndex, store.columns[colIndex].attrId.defaultValue);
        OwnTwice(old(heap.objects), old(store.owner), h, o, heap.objects, store.owner);
      }
    }

    /** Growing to the given number of rows reallocates all four buffers. */
    method Grow(newRows: nat)
      requires Valid() && newRows >= |Table().rows|
      modifies store.storage, flags.rowModified`data, flags.rowDeleted`data, flags.rowNew`data
      ensures Valid() && Table() == old(Table()).(allocatedRows := newRows) && FreshBuffers()
    {
      hide CellStore.Valid, RowFlags.Valid, LookupOk, Ids, Heap.Valid;
      ghost var t := M.WithRoom(Table(), newRows);
      store.Reserve(newRows);
      flags.Realloc(newRows, store.storage.numRows);
    }

    /** Every buffer is as it was, gone, or new. */
    twostate predicate FreshBuffers()
      reads store.storage`data, flags.rowModified`data, flags.rowDeleted`data, flags.rowNew`data
    {
      && (store.storage.data == null || store.storage.data == old(store.storage.data) || fresh(store.storage.data))
      && flags.FreshBuffers()
    }

    method ReserveRows(num: nat)
      requires Valid() && num > 0
      modifies store.storage, flags.rowModified`data, flags.rowDeleted`data, flags.rowNew`data
      ensures Valid() && Table() == M.ReserveRows(old(Table()), num) && FreshBuffers()
    {
      Grow(store.storage.allocatedRows + num);
    }

    /** The part of AddRow before the default fill. */
    method ExtendRow() returns (rowIndex: nat)
      requires Valid() && !Table().inBeginAddColumns && |Table().rows| < Table().allocatedRows
      modifies store.storage`numRows, store.storage`rows, store`cells,
               flags.rowModified.data, flags.rowModified`bits, flags.rowDeleted.data, flags.rowDeleted`bits,
               flags.rowNew.data, flags.rowNew`bits, this`newRowIndices, this`isModified, this`userData
      ensures Valid() && Table() == M.ExtendRow(old(Table())) && rowIndex == |old(Table().rows)|
    {
      hide Valid, ValidAt, Table, Consistent, M.Table.OkAt, M.ExtendRow, M.UseRow, M.RecordNewRow;
      M.ExtendRowInPlace(Table());
      Opened();
      rowIndex := store.storage.numRows;
      UseRow(rowIndex);
      RecordNewRow(rowIndex);
      Closed();
    }

    method UseRow(n: nat)
      requires Consistent(Table().Width()) && !Table().inBeginAddColumns
      requires n == store.storage.numRows == |Table().modified| < Table().allocatedRows
      modifies store.storage`numRows, store.storage`rows, store`cells,
               flags.rowModified.data, flags.rowModified`bits, flags.rowDeleted.data, flags.rowDeleted`bits,
               flags.rowNew.data, flags.rowNew`bits
      ensures Consistent(Table().Width()) && Table() == M.UseRow(old(Table()))
    {
      hide CellStore.Valid, RowFlags.Valid, RowFlags.Capacity, ZeroCells, Heap.Valid, Ids, LookupOk;
      ExtendBuffers(n);
    }

    method ExtendBuffers(n: nat)
      requires store.Valid() && flags.Valid() && flags.Capacity() == store.storage.allocatedRows
      requires n == store.storage.numRows == |flags.rowModified.bits| < store.storage.allocatedRows
      requires store.settled == |store.columns|
      modifies store.storage`numRows, store.storage`rows, store`cells,
               flags.rowModified.data, flags.rowModified`bits, flags.rowDeleted.data, flags.rowDeleted`bits,
               flags.rowNew.data, flags.rowNew`bits
      ensures store.Valid() && flags.Valid() && flags.Capacity() == store.storage.allocatedRows
      ensures store.cells == old(store.cells) + [ZeroCells(Ids(store.columns))]
      ensures flags.rowModified.bits == old(flags.rowModified.bits) + [false]
      ensures flags.rowDeleted.bits == old(flags.rowDeleted.bits) + [false]
      ensures flags.rowNew.bits == old(flags.rowNew.bits) + [trackModifications]
    {
      hide CellStore.Valid, RowFlags.Valid, ZeroCells, Heap.Valid, Ids;
      flags.UseNextRow(n, trackModifications);
      store.UseNextRow();
    }

    method RecordNewRow(rowIndex: nat)
      requires Consistent(Table().Width())
      modifies this`newRowIndices, this`isModified, this`userData
      ensures Consistent(Table().Width()) && Table() == M.RecordNewRow(old(Table()), rowIndex)
    {
      hide CellStore.Valid, RowFlags.Valid, Heap.Valid, Ids, LookupOk;
      if trackModifications {
        newRowIndices := newRowIndices + [rowIndex];
        isModified := true;
      }
      userData := userData + [0];
    }

    /** The buffers double when they are full. */
    method GrowIfFull()
      requires Valid() && !Table().inBeginAddColumns
      modifies store.storage, flags.rowModified`data, flags.rowDeleted`data, flags.rowNew`data
      ensures Valid() && FreshBuffers()
      ensures Table() == M.WithRoom(old(Table()), M.GrownRows(old(Table())))
    {
      hide CellStore.Valid, RowFlags.Valid, LookupOk, Ids, Heap.Valid;
      var allocatedRows := store.storage.allocatedRows;
      if store.storage.numRows >= allocatedRows {
        var newNumRows := allocatedRows + allocatedRows;
        if newNumRows == 0 {
          newNumRows := 10;
        }
        Grow(newNumRows);
      }
    }

    method AddRow() returns (rowIndex: nat)
      requires Valid() && !Table().inBeginAddColumns
      modifies heap, store.storage, store.storage.data, store`cells, store`owner,
               flags.rowModified, flags.rowModified.data, flags.rowDeleted, flags.rowDeleted.data,
               flags.rowNew, flags.rowNew.data,
               this`newRowIndices, this`isModified, this`rowsModified, this`userData
      ensures Valid() && HeapStep(old(heap.objects), old(store.owner), heap.objects, store.owner)
      ensures rowIndex == |old(Table().rows)| && Table() == M.AddRow(old(Table())) && FreshBuffers()
    {
      hide Valid, ValidAt, Table, HeapStep, M.Table.OkAt, M.FillRow, M.ExtendRow, M.AddRow, M.GrownRows;
      M.AddRowAfterGrowing(Table());
      GrowIfFull();
      rowIndex := UseNextRow();
    }

    /** The next row of the buffer comes into use, at its default values. */
    method UseNextRow() returns (rowIndex: nat)
      requires Valid() && !Table().inBeginAddColumns && |Table().rows| < Table().allocatedRows
      modifies heap, store.storage`numRows, store.storage`rows, store.storage.data, store`cells, store`owner,
               flags.rowModified.data, flags.rowModified`bits, flags.rowDeleted.data, flags.rowDeleted`bits,
               flags.rowNew.data, flags.rowNew`bits,
               this`newRowIndices, this`isModified, this`rowsModified, this`userData
      ensures Valid() && HeapStep(old(heap.objects), old(store.owner), heap.objects, store.owner)
      ensures rowIndex == |old(Table().rows)|
      ensures Table() == M.FillRow(M.ExtendRow(old(Table())), rowIndex, old(Table()).Width())
    {
      hide Valid, ValidAt, Table, HeapStep, M.Table.OkAt, M.FillRow, M.ExtendRow, M.AddRow, M.GrownRows;
      rowIndex := ExtendRow();
      SetRowToDefaultValues(rowIndex);
    }

    /** DeleteRowData: the strings of the row are deleted, column by column. */
    method DeleteRowData(rowIndex: nat)
      requires Valid() && !Table().inBeginAddColumns && rowIndex < |Table().rows|
      modifies heap, store.storage.data, store.storage`rows, store`cells, store`owner
      ensures Valid() && HeapStep(old(heap.objects), old(store.owner), heap.objects, store.owner)
      ensures Table() == M.FreeRow(old(Table()), rowIndex, |old(Table()).cols|)
    {
      hide Valid, ValidAt, Table, M.Table.OkAt, M.FreedRow, M.FreedCell, HeapStep;
      ghost var t := Table();
      ColumnsAreCols();
      M.FreeNothing(t, rowIndex);
      for colIndex := 0 to |store.columns|
        invariant Valid() && Table() == M.FreeRow(t, rowIndex, colIndex)
        invariant HeapStep(old(heap.objects), old(store.owner), heap.objects, store.owner)
      {
        ghost var h, o := heap.objects, store.owner;
        DeleteCellData(colIndex, rowIndex);
        M.FreeNext(t, rowIndex, colIndex);
        OwnTwice(old(heap.objects), old(store.owner), h, o, heap.objects, store.owner);
      }
    }

    method DeleteCellData(colIndex: nat, rowIndex: nat)
      requires Valid() && Table().InTable(rowIndex, colIndex)
      modifies heap, store.storage.data, store.storage`rows, store`cells, store`owner
      ensures Valid() && HeapStep(old(heap.objects), old(store.owner), heap.objects, store.owner)
      ensures Table() == M.FreeCell(old(Table()), rowIndex, colIndex)
    {
      hide Valid, ValidAt, CellStore.Valid, RowFlags.Valid, LookupOk, Ids, Heap.Valid, M.Table.OkAt, HeapStep, SetCell;
      Opened();
      ghost var t := M.FreeCell(Table(), rowIndex, colIndex);
      M.FreeCellIs(Table(), rowIndex, colIndex);
      ColumnsAreCols();
      match store.columns[colIndex].attrId.ValueType() {
        case IntType =>
        case BoolType =>
        case Float4Type =>
        case StringType => store.DeleteString(colIndex, rowIndex);
      }
      assert Table() == t;
      Closed();
    }

    method DeleteRow(rowIndex: nat)
      requires Valid() && !Table().inBeginAddColumns && rowIndex < |Table().rows| && !Table().deleted[rowIndex]
      modifies heap, store.storage.data, store.storage`rows, store`cells, store`owner,
               flags.rowDeleted.data, flags.rowDeleted`bits, this`deletedRowIndices, this`isModified, this`userData
      ensures Valid() && HeapStep(old(heap.objects), old(store.owner), heap.objects, store.owner)
      ensures Table() == M.DeleteRow(old(Table()), rowIndex)
    {
      hide Valid, ValidAt, Table, M.Table.OkAt, HeapStep, M.FreedRow;
      FlagRowDeleted(rowIndex);
      DeleteRowData(rowIndex);
    }

    method FlagRowDeleted(rowIndex: nat)
      requires Valid() && !Table().inBeginAddColumns && rowIndex < |Table().rows| && !Table().deleted[rowIndex]
      modifies flags.rowDeleted.data, flags.rowDeleted`bits, this`deletedRowIndices, this`isModified, this`userData
      ensures Valid() && Table() == M.FlagDeleted(old(Table()), rowIndex)
    {
      hide Valid, ValidAt, Table, Consistent, M.Table.OkAt;
      Opened();
      RecordDeletedRow(rowIndex);
      ForgetUserData(rowIndex);
      assert Table() == M.FlagDeleted(old(Table()), rowIndex);
      Closed();
    }

    method RecordDeletedRow(rowIndex: nat)
      requires Consistent(Table().Width()) && rowIndex < |Table().deleted|
      modifies flags.rowDeleted.data, flags.rowDeleted`bits, this`deletedRowIndices, this`isModified
      ensures Consistent(Table().Width()) && Table() == M.RecordDeletedRow(old(Table()), rowIndex)
    {
      hide CellStore.Valid, RowFlags.Valid, Heap.Valid, Ids, LookupOk;
      if trackModifications {
        deletedRowIndices := deletedRowIndices + [rowIndex];
        flags.FlagDeleted(rowIndex);
        isModified := true;
      }
    }

    method ForgetUserData(rowIndex: nat)
      requires Consistent(Table().Width()) && rowIndex < |Table().userData|
      modifies this`userData
      ensures Consistent(Table().Width()) && Table() == old(Table()).(userData := old(Table()).userData[rowIndex := 0])
    {
      hide CellStore.Valid, RowFlags.Valid, Heap.Valid, Ids, LookupOk;
      userData := userData[rowIndex := 0];
    }

    /** Marks every row as deleted; no row may be deleted already. */
    method DeleteAllRows()
      requires Valid() && !Table().inBeginAddColumns && M.NoneDeleted(Table())
      modifies heap, store.storage.data, store.storage`rows, store`cells, store`owner,
               flags.rowDeleted.data, flags.rowDeleted`bits, this`deletedRowIndices, this`isModified, this`userData
      ensures Valid() && HeapStep(old(heap.objects), old(store.owner), heap.objects, store.owner)
      ensures Table() == M.DeleteRows(old(Table()), |old(Table()).rows|)
    {
      hide Valid, ValidAt, Table, M.Table.OkAt, HeapStep, M.FreedRow, M.DeleteRow;
      ghost var t := Table();
      ColumnsAreCols();
      for rowIndex := 0 to store.storage.numRows
        invariant Valid() && Table() == M.DeleteRows(t, rowIndex)
        invariant HeapStep(old(heap.objects), old(store.owner), heap.objects, store.owner)
      {
        ghost var h, o := heap.objects, store.owner;
        DeleteRow(rowIndex);
        OwnTwice(old(heap.objects), old(store.owner), h, o, heap.objects, store.owner);
      }
    }

    method CopyRow(fromRowIndex: nat) returns (toRowIndex: nat)
      requires Valid() && !Table().inBeginAddColumns && fromRowIndex < |Table().rows|
      requires M.Readable(Table().rows[fromRowIndex])
      modifies heap, store.storage, store.storage.data, store`cells, store`owner,
               flags.rowModified, flags.rowModified.data, flags.rowDeleted, flags.rowDeleted.data,
               flags.rowNew, flags.rowNew.data,
               this`newRowIndices, this`isModified, this`rowsModified, this`userData
      ensures Valid() && HeapStep(old(heap.objects), old(store.owner), heap.objects, store.owner)
      ensures toRowIndex == |old(Table().rows)| && Table() == M.CopyRow(old(Table()), fromRowIndex) && FreshBuffers()
    {
      hide Valid, ValidAt, Table, M.Table.OkAt, M.AddRow, M.CopyCells, HeapStep;
      M.AddRowShape(Table());
      toRowIndex := AddRow();
      ghost var h, o := heap.objects, store.owner;
      CopyCells(fromRowIndex, toRowIndex);
      OwnTwice(old(heap.objects), old(store.owner), h, o, heap.objects, store.owner);
    }

    /** The column loop of CopyRow. */
    method CopyCells(fromRowIndex: nat, toRowIndex: nat)
      requires Valid() && !Table().inBeginAddColumns && fromRowIndex < |Table().rows| && toRowIndex < |Table().rows|
      requires fromRowIndex != toRowIndex && M.Readable(Table().rows[fromRowIndex]) && !Table().deleted[toRowIndex]
      modifies heap, store.storage.data, store.storage`rows, store`cells, store`owner,
               flags.rowModified.data, flags.rowModified`bits, this`isModified, this`rowsModified
      ensures Valid() && HeapStep(old(heap.objects), old(store.owner), heap.objects, store.owner)
      ensures Table() == M.CopyCells(old(Table()), fromRowIndex, toRowIndex, |old(Table()).cols|)
    {
      hide Valid, ValidAt, Table, M.Table.OkAt, M.Set, HeapStep;
      ghost var t := Table();
      ColumnsAreCols();
      for colIndex := 0 to |store.columns|
        invariant Valid() && Table() == M.CopyCells(t, fromRowIndex, toRowIndex, colIndex)
        invariant HeapStep(old(heap.objects), old(store.owner), heap.objects, store.owner)
      {
        ghost var h, o := heap.objects, store.owner;
        CopyCell(colIndex, fromRowIndex, toRowIndex);
        OwnTwice(old(heap.objects), old(store.owner), h, o, heap.objects, store.owner);
      }
    }

    method CopyCell(colIndex: nat, fromRowIndex: nat, toRowIndex: nat)
      requires Valid() && !Table().inBeginAddColumns && colIndex < |Table().cols|
      requires fromRowIndex < |Table().rows| && M.Readable(Table().rows[fromRowIndex])
      requires toRowIndex < |Table().rows| && !Table().deleted[toRowIndex]
      modifies heap, store.storage.data, store.storage`rows, store`cells, store`owner,
               flags.rowModified.data, flags.rowModified`bits, this`isModified, this`rowsModified
      ensures Valid() && HeapStep(old(heap.objects), old(store.owner), heap.objects, store.owner)
      ensures old(Table()).rows[fromRowIndex][colIndex].Holds?
      ensures Table() == M.Set(old(Table()), toRowIndex, colIndex, old(Table()).rows[fromRowIndex][colIndex].value)
    {
      hide Valid, ValidAt, Table, M.Table.OkAt, M.Set, HeapStep;
      ColumnsAreCols();
      var val := GetValue(colIndex, fromRowIndex);
      SetValue(colIndex, toRowIndex, val);
    }

    // ----- columns

    method BeginAddColumns(recordAsNewColumns: bool)
      requires Valid() && !Table().inBeginAddColumns
      modifies this`inBeginAddColumns, this`addColumnsRecordAsNewColumns, this`firstNewColumnIndex
      ensures Valid() && Table() == M.BeginAddColumns(old(Table()), recordAsNewColumns)
    {
      hide Valid, ValidAt, CellStore.Valid, RowFlags.Valid, LookupOk, Heap.Valid, M.Table.OkAt;
      Opened();
      ghost var t := M.BeginAddColumns(Table(), recordAsNewColumns);
      inBeginAddColumns, addColumnsRecordAsNewColumns := true, recordAsNewColumns;
      firstNewColumnIndex := |store.columns|;
      assert Table() == t;
      Closed();
    }

    /** InternalAddColumnHelper: the column is known, but has no cells yet. */
    method AppendColumn(id: AttrId, recordAsNewColumn: bool)
      requires Valid() && !Table().HasColumn(id) && id.defaultValue.InRange()
      modifies store`columns, this`newColumnIndices, this`isModified, this`readWriteColumnIndices, this`indexMap
      ensures ValidAt(old(Table()).Width()) && Table() == M.AppendColumn(old(Table()), id, recordAsNewColumn)
    {
      hide Valid, Table, Consistent, M.Table.OkAt;
      Opened();
      M.AppendedOk(Table(), id, recordAsNewColumn, Table().Width());
      ListColumn(id, recordAsNewColumn, Table().Width());
    }

    method ListColumn(id: AttrId, recordAsNewColumn: bool, ghost w: nat)
      requires Consistent(w) && Table().Ok() && !Table().HasColumn(id) && id.defaultValue.InRange()
      modifies store`columns, this`newColumnIndices, this`isModified, this`readWriteColumnIndices, this`indexMap
      ensures Consistent(w) && Table() == M.AppendColumn(old(Table()), id, recordAsNewColumn)
    {
      hide CellStore.Valid, RowFlags.Valid, RowFlags.Capacity, LookupOk, Heap.Valid, M.Table.OkAt, Ids;
      AppendLookup(store.columns, indexMap, id);
      RecordColumn(|store.columns|, id, recordAsNewColumn);
    }

    method RecordColumn(c: int, id: AttrId, recordAsNewColumn: bool)
      requires store.Valid() && c == |store.columns|
      modifies store`columns, this`newColumnIndices, this`isModified, this`readWriteColumnIndices, this`indexMap
      ensures store.Valid() && store.columns == old(store.columns) + [ColumnInfo(id, 0)]
      ensures newColumnIndices
              == if trackModifications && recordAsNewColumn then old(newColumnIndices) + [c] else old(newColumnIndices)
      ensures isModified == (old(isModified) || trackModifications)
      ensures readWriteColumnIndices
              == if id.readWrite then old(readWriteColumnIndices) + [c] else old(readWriteColumnIndices)
      ensures indexMap == old(indexMap)[id := c]
    {
      hide CellStore.Valid;
      store.AppendColumn(id);
      if trackModifications {
        if recordAsNewColumn {
          newColumnIndices := newColumnIndices + [c];
        }
        isModified := true;
      }
      if id.readWrite {
        readWriteColumnIndices := readWriteColumnIndices + [c];
      }
      indexMap := indexMap[id := c];
    }

    /** The columns without cells get zeroed ones. */
    method Relayout(ghost w: nat)
      requires ValidAt(w)
      requires |Table().rows| > 0 || Table().allocatedRows == 0
      modifies store`columns, store`settled, store`cells, store.storage,
               flags.rowModified`data, flags.rowDeleted`data, flags.rowNew`data
      ensures ValidAt(|old(Table()).cols|) && FreshBuffers()
      ensures Table() == M.WidenTable(old(Table()), w)
    {
      hide CellStore.Valid, RowFlags.Valid, LookupOk, Heap.Valid, M.Table.OkAt, Ids, ZeroCells, AppendCells;
      M.WidenedOkAt(Table(), w);
      store.Relayout();
      if store.storage.numRows > 0 {
        flags.Realloc(store.storage.numRows, store.storage.numRows);
      }
    }

    method SetColumnToDefaultValues(colIndex: nat)
      requires Valid() && colIndex < Table().Width() && M.NoneDeleted(Table())
      modifies heap, store.storage.data, store.storage`rows, store`cells, store`owner,
               flags.rowModified.data, flags.rowModified`bits, this`isModified, this`rowsModified
      ensures Valid() && HeapStep(old(heap.objects), old(store.owner), heap.objects, store.owner)
      ensures Table() == M.FillColumn(old(Table()), colIndex, |old(Table()).rows|)
    {
      hide Valid, ValidAt, Table, M.Table.OkAt, M.Set, HeapStep;
      ghost var t := Table();
      ColumnsAreCols();
      var def := store.columns[colIndex].attrId.defaultValue;
      for rowIndex := 0 to store.storage.numRows
        invariant Valid() && Table() == M.FillColumn(t, colIndex, rowIndex)
        invariant HeapStep(old(heap.objects), old(store.owner), heap.objects, store.owner)
      {
        ghost var h, o := heap.objects, store.owner;
        SetValue(colIndex, rowIndex, def);
        OwnTwice(old(heap.objects), old(store.owner), h, o, heap.objects, store.owner);
      }
    }

    method AddColumn(id: AttrId, recordAsNewColumn: bool)
      requires Valid() && !Table().HasColumn(id) && id.defaultValue.InRange()
      requires !Table().inBeginAddColumns ==> M.CanAddColumns(Table())
      modifies heap, store, store.storage, store.storage.data, flags.rowModified, flags.rowModified.data,
               flags.rowDeleted`data, flags.rowNew`data, this`newColumnIndices, this`isModified,
               this`rowsModified, this`readWriteColumnIndices, this`indexMap
      ensures Valid() && HeapStep(old(heap.objects), old(store.owner), heap.objects, store.owner)
      ensures Table() == M.AddColumn(old(Table()), id, recordAsNewColumn) && FreshBuffers()
    {
      hide ValidAt, M.Table.OkAt, M.FillColumn, M.WidenTable, HeapStep, Ids;
      ColumnsAreCols();
      AppendColumn(id, recordAsNewColumn);
      assert |store.columns| == |Table().cols|;
      if !inBeginAddColumns {
        CompleteColumn(|store.columns| - 1);
      }
    }

    lemma WholeWidth()
      requires !Table().inBeginAddColumns && ValidAt(|Table().cols|)
      ensures Valid()
    {
    }

    /** The last column gets its cells, with the default value in every row. */
    method CompleteColumn(colIndex: nat)
      requires !Table().inBeginAddColumns && colIndex + 1 == |Table().cols| && ValidAt(colIndex)
      requires M.CanAddColumns(Table())
      modifies heap, store, store.storage, store.storage.data, flags.rowModified, flags.rowModified.data,
               flags.rowDeleted`data, flags.rowNew`data, this`isModified, this`rowsModified
      ensures Valid() && HeapStep(old(heap.objects), old(store.owner), heap.objects, store.owner)
      ensures var t := M.WidenTable(old(Table()), colIndex);
              t.Ok() && Table() == M.FillColumn(t, colIndex, |t.rows|)
      ensures FreshBuffers()
    {
      hide Valid, ValidAt, Table, M.Table.OkAt, M.FillColumn, HeapStep, Ids, ZeroCells, AppendCells;
      M.WidenedOk(Table(), colIndex, M.WidenTable(Table(), colIndex));
      Relayout(colIndex);
      WholeWidth();
      SetColumnToDefaultValues(colIndex);
    }

    method EndAddColumns()
      requires Valid() && Table().inBeginAddColumns && M.CanAddColumns(Table())
      modifies heap, store, store.storage, store.storage.data, flags.rowModified, flags.rowModified.data,
               flags.rowDeleted`data, flags.rowNew`data, this`isModified, this`rowsModified, this`inBeginAddColumns
      ensures Valid() && HeapStep(old(heap.objects), old(store.owner), heap.objects, store.owner)
      ensures Table() == M.EndAddColumns(old(Table())) && FreshBuffers()
    {
      hide ValidAt, M.Table.OkAt, M.FillColumns, M.WidenTable, HeapStep, Ids;
      ColumnsAreCols();
      LeaveBeginAddColumns();
      if firstNewColumnIndex < |store.columns| {
        CompleteColumns();
      }
    }

    method LeaveBeginAddColumns()
      requires Valid() && Table().inBeginAddColumns
      modifies this`inBeginAddColumns
      ensures ValidAt(old(Table()).firstNewColumn) && Table() == old(Table()).(inBeginAddColumns := false)
    {
      hide CellStore.Valid, RowFlags.Valid, LookupOk, Heap.Valid, M.Table.OkAt, Ids;
      M.LeftOk(Table());
      inBeginAddColumns := false;
    }

    /** The columns added since BeginAddColumns get their cells, with the default values. */
    method CompleteColumns()
      requires !Table().inBeginAddColumns && Table().firstNewColumn < |Table().cols| && ValidAt(Table().firstNewColumn)
      requires M.CanAddColumns(Table())
      modifies heap, store, store.storage, store.storage.data, flags.rowModified, flags.rowModified.data,
               flags.rowDeleted`data, flags.rowNew`data, this`isModified, this`rowsModified
      ensures Valid() && HeapStep(old(heap.objects), old(store.owner), heap.objects, store.owner)
      ensures var t := M.WidenTable(old(Table()), old(Table()).firstNewColumn);
              && t.Ok()
              && Table() == M.FillColumns(t, t.firstNewColumn, |t.cols|)
      ensures FreshBuffers()
    {
      hide Valid, ValidAt, Table, M.Table.OkAt, M.FillColumns, HeapStep, Ids, ZeroCells, AppendCells;
      ghost var first := Table().firstNewColumn;
      M.WidenedOk(Table(), first, M.WidenTable(Table(), first));
      Relayout(first);
      WholeWidth();
      FillNewColumns();
    }

    method FillNewColumns()
      requires Valid() && !Table().inBeginAddColumns && M.NoneDeleted(Table())
      requires Table().firstNewColumn <= |Table().cols|
      modifies heap, store.storage.data, store.storage`rows, store`cells, store`owner,
               flags.rowModified.data, flags.rowModified`bits, this`isModified, this`rowsModified
      ensures Valid() && HeapStep(old(heap.objects), old(store.owner), heap.objects, store.owner)
      ensures Table() == M.FillColumns(old(Table()), old(Table()).firstNewColumn, |old(Table()).cols|)
    {
      hide CellStore.Valid, Valid, ValidAt, M.Table.OkAt, M.FillColumn, HeapStep, Ids;
      ghost var t := Table();
      ColumnsAreCols();
      for colIndex := firstNewColumnIndex to |store.columns|
        invariant Valid() && Table() == M.FillColumns(t, t.firstNewColumn, colIndex)
        invariant HeapStep(old(heap.objects), old(store.owner), heap.objects, store.owner)
      {
        ghost var h, o := heap.objects, store.owner;
        SetColumnToDefaultValues(colIndex);
        OwnTwice(old(heap.objects), old(store.owner), h, o, heap.objects, store.owner);
      }
    }

    // ----- copying from another table

    /** The cells of the other table are kept elsewhere, on the same heap, and no string
        object belongs to both. */
    ghost predicate Apart(other: CellStore)
      reads store, store.storage, other, other.storage
    {
      && other.heap == heap
      && store != other && store.storage != other.storage
      && (store.storage.data == null || store.storage.data != other.storage.data)
      && store.owner.Keys !! other.owner.Keys
    }

    /** The other table has not changed. */
    twostate predicate Untouched(other: CellStore)
      reads other, other.storage, other.storage.data
    {
      unchanged(other) && unchanged(other.storage) && (other.storage.data == null || unchanged(other.storage.data))
    }

    /** The other table has the same columns and cells as before. */
    twostate predicate Same(other: CellStore)
      reads other
    {
      other.columns == old(other.columns) && other.settled == old(other.settled) && other.cells == old(other.cells)
    }

    /** Whatever this table does with its own string objects, the other one stays valid. */
    twostate lemma OtherSurvives(other: CellStore)
      requires old(Valid()) && old(other.Valid()) && old(Apart(other)) && Valid() && Untouched(other)
      requires HeapStep(old(heap.objects), old(store.owner), heap.objects, store.owner)
      ensures other.Valid() && store.owner.Keys !! other.owner.Keys
    {
      forall p | p in other.owner
        ensures p in heap.objects && heap.objects[p] == old(heap.objects)[p] && p !in store.owner
      {
        assert p in old(heap.objects) && p !in old(store.owner);
      }
      other.Survives();
    }

    method EnsureColumn(id: AttrId, createMissingRows: bool)
      requires Valid() && !Table().inBeginAddColumns && id.defaultValue.InRange()
      requires createMissingRows ==> M.NoneDeleted(Table()) && |Table().rows| > 0
      modifies heap, store, store.storage, store.storage.data, flags.rowModified, flags.rowModified.data,
               flags.rowDeleted`data, flags.rowNew`data, this`newColumnIndices, this`isModified,
               this`rowsModified, this`readWriteColumnIndices, this`indexMap
      ensures Valid() && HeapStep(old(heap.objects), old(store.owner), heap.objects, store.owner)
      ensures Table() == M.EnsureColumn(old(Table()), id, createMissingRows) && FreshBuffers()
    {
      hide Valid, ValidAt, Table, M.Table.OkAt, M.AddColumn, HeapStep;
      ColumnsAreCols();
      Lookup(id);
      if createMissingRows && id !in indexMap {
        AddColumn(id, true);
      }
    }

    method SetIfPresent(id: AttrId, rowIndex: nat, val: Value)
      requires Valid() && !Table().inBeginAddColumns && rowIndex < |Table().rows| && !Table().deleted[rowIndex]
      requires val.InRange() && val.Type() == id.ValueType()
      modifies heap, store.storage.data, store.storage`rows, store`cells, store`owner,
               flags.rowModified.data, flags.rowModified`bits, this`isModified, this`rowsModified
      ensures Valid() && HeapStep(old(heap.objects), old(store.owner), heap.objects, store.owner)
      ensures Table() == M.SetIfPresent(old(Table()), rowIndex, id, val)
    {
      hide Valid, ValidAt, Table, M.Table.OkAt, M.Set, HeapStep;
      ColumnsAreCols();
      Lookup(id);
      if id in indexMap {
        SetValue(indexMap[id], rowIndex, val);
      }
    }

    /** One round of the loop of CopyExtRow. */
    method CopyExtCell(rowIndex: nat, id: AttrId, val: Value, createMissingRows: bool)
      requires Valid() && !Table().inBeginAddColumns && rowIndex < |Table().rows| && !Table().deleted[rowIndex]
      requires createMissingRows ==> M.NoneDeleted(Table())
      requires id.defaultValue.InRange() && val.InRange() && val.Type() == id.ValueType()
      modifies heap, store, store.storage, store.storage.data, flags.rowModified, flags.rowModified.data,
               flags.rowDeleted`data, flags.rowNew`data, this`newColumnIndices, this`isModified,
               this`rowsModified, this`readWriteColumnIndices, this`indexMap
      ensures Valid() && HeapStep(old(heap.objects), old(store.owner), heap.objects, store.owner)
      ensures Table() == M.CopyExtCell(old(Table()), rowIndex, id, val, createMissingRows) && FreshBuffers()
    {
      hide Valid, ValidAt, Table, M.Table.OkAt, M.EnsureColumn, M.SetIfPresent, HeapStep;
      EnsureColumn(id, createMissingRows);
      ghost var h, o := heap.objects, store.owner;
      SetIfPresent(id, rowIndex, val);
      OwnTwice(old(heap.objects), old(store.owner), h, o, heap.objects, store.owner);
    }

    /** The cells of the other table can be read: it is valid, or at least its cells are. */
    ghost predicate Readable()
      reads this, heap, store, store.storage, store.storage.data
    {
      store.heap == heap && store.Valid() && store.settled == |store.columns|
    }

    /** The other table can still be read, and has the columns and cells it had. */
    twostate lemma OtherReadable(other: AttributeTable)
      requires old(Valid()) && old(other.Readable()) && old(Apart(other.store)) && Valid() && Untouched(other.store)
      requires HeapStep(old(heap.objects), old(store.owner), heap.objects, store.owner)
      requires store.storage.data == null || store.storage.data != other.store.storage.data
      ensures other.Readable() && Apart(other.store) && Same(other.store)
    {
      hide Valid, HeapStep, CellStore.Valid;
      OtherSurvives(other.store);
    }

    /** The same, with the value read from the other table, which stays as it is. */
    method CopyExtCellFrom(other: AttributeTable, colIndex: nat, otherRowIndex: nat, rowIndex: nat,
                            createMissingRows: bool, ghost id: AttrId, ghost v: Value)
      requires Valid() && !Table().inBeginAddColumns && rowIndex < |Table().rows| && !Table().deleted[rowIndex]
      requires createMissingRows ==> M.NoneDeleted(Table())
      requires other != this && other.Readable() && Apart(other.store)
      requires colIndex < |other.store.columns| && otherRowIndex < |other.store.cells|
      requires other.store.columns[colIndex].attrId == id && id.defaultValue.InRange()
      requires other.store.cells[otherRowIndex][colIndex] == Holds(v) && v.InRange() && v.Type() == id.ValueType()
      modifies heap, store, store.storage, store.storage.data, flags.rowModified, flags.rowModified.data,
               flags.rowDeleted`data, flags.rowNew`data, this`newColumnIndices, this`isModified,
               this`rowsModified, this`readWriteColumnIndices, this`indexMap
      ensures Valid() && HeapStep(old(heap.objects), old(store.owner), heap.objects, store.owner)
      ensures Table() == M.CopyExtCell(old(Table()), rowIndex, id, v, createMissingRows)
      ensures FreshBuffers() && other.Readable() && Apart(other.store) && Same(other.store)
    {
      hide Valid, ValidAt, Table, M.Table.OkAt, M.CopyExtCell, HeapStep, CellStore.Valid;
      var val := other.store.ReadValue(colIndex, otherRowIndex);
      CopyExtCell(rowIndex, other.store.columns[colIndex].attrId, val, createMissingRows);
      OtherReadable(other);
    }

    /** The column loop of CopyExtRow. */
    method CopyExtCells(other: AttributeTable, otherRowIndex: nat, rowIndex: nat, createMissingRows: bool,
                         ghost ids: seq<AttrId>, ghost row: seq<Cell>)
      requires Valid() && !Table().inBeginAddColumns && rowIndex < |Table().rows| && !Table().deleted[rowIndex]
      requires createMissingRows ==> M.NoneDeleted(Table())
      requires other != this && other.Readable() && Apart(other.store) && otherRowIndex < |other.store.cells|
      requires ids == Ids(other.store.columns) && row == other.store.cells[otherRowIndex] && M.RowOf(ids, row)
      modifies heap, store, store.storage, store.storage.data, flags.rowModified, flags.rowModified.data,
               flags.rowDeleted`data, flags.rowNew`data, this`newColumnIndices, this`isModified,
               this`rowsModified, this`readWriteColumnIndices, this`indexMap
      ensures Valid() && HeapStep(old(heap.objects), old(store.owner), heap.objects, store.owner)
      ensures Table() == M.CopyExtCells(old(Table()), rowIndex, ids, row, createMissingRows, |ids|)
      ensures FreshBuffers() && other.Readable() && Apart(other.store) && Same(other.store)
    {
      hide Valid, ValidAt, Table, Apart, Readable, M.Table.OkAt, M.CopyExtCell, M.NoneDeleted, M.RowOf, LookupOk,
           HeapStep, CellStore.Valid, Ids, Value.InRange, AttrId.ValueType, Value.Type;
      ghost var t := Table();
      ColumnsAreCols();
      for colIndex := 0 to |other.store.columns|
        invariant Valid() && Table() == M.CopyExtCells(t, rowIndex, ids, row, createMissingRows, colIndex)
        invariant HeapStep(old(heap.objects), old(store.owner), heap.objects, store.owner)
        invariant FreshBuffers() && other.Readable() && Apart(other.store) && Same(other.store)
      {
        M.CopyExtCellsNext(t, rowIndex, ids, row, createMissingRows, colIndex);
        ghost var h, o := heap.objects, store.owner;
        CopyExtCellFrom(other, colIndex, otherRowIndex, rowIndex, createMissingRows,
                        ids[colIndex], row[colIndex].value);
        OwnTwice(old(heap.objects), old(store.owner), h, o, heap.objects, store.owner);
      }
    }

    /** The row that CopyExtRow appends, while the other table stays as it is. */
    method AddRowBeside(other: AttributeTable) returns (rowIndex: nat)
      requires Valid() && !Table().inBeginAddColumns && other != this && other.Readable() && Apart(other.store)
      modifies heap, store.storage, store.storage.data, store`cells, store`owner,
               flags.rowModified, flags.rowModified.data, flags.rowDeleted, flags.rowDeleted.data,
               flags.rowNew, flags.rowNew.data,
               this`newRowIndices, this`isModified, this`rowsModified, this`userData
      ensures Valid() && HeapStep(old(heap.objects), old(store.owner), heap.objects, store.owner)
      ensures rowIndex == |old(Table()).rows| && Table() == M.AddRow(old(Table())) && FreshBuffers()
      ensures !Table().inBeginAddColumns && rowIndex < |Table().rows| && !Table().deleted[rowIndex]
      ensures M.NoneDeleted(old(Table())) ==> M.NoneDeleted(Table())
      ensures other.Readable() && Apart(other.store) && Same(other.store)
    {
      hide Valid, ValidAt, Table, M.Table.OkAt, M.AddRow, M.NoneDeleted, HeapStep, CellStore.Valid;
      M.AddRowShape(Table());
      rowIndex := AddRow();
      OtherReadable(other);
    }

    method CopyExtRow(other: AttributeTable, otherRowIndex: nat, createMissingRows: bool) returns (rowIndex: nat)
      requires Valid() && !Table().inBeginAddColumns && (createMissingRows ==> M.NoneDeleted(Table()))
      requires other != this && other.Readable() && Apart(other.store) && otherRowIndex < |other.store.cells|
      requires M.RowOf(Ids(other.store.columns), other.store.cells[otherRowIndex])
      modifies heap, store, store.storage, store.storage.data, flags.rowModified, flags.rowModified.data,
               flags.rowDeleted, flags.rowDeleted.data, flags.rowNew, flags.rowNew.data, this
      ensures Valid() && HeapStep(old(heap.objects), old(store.owner), heap.objects, store.owner)
      ensures rowIndex == |old(Table()).rows|
      ensures Table() == M.CopyExtRow(old(Table()), Ids(other.store.columns), other.store.cells[otherRowIndex],
                                       createMissingRows)
      ensures FreshBuffers() && other.Readable() && Apart(other.store) && Same(other.store)
    {
      hide Valid, ValidAt, Table, Apart, Readable, M.Table.OkAt, M.AddRow, M.CopyExtCells, M.NoneDeleted, M.RowOf,
           LookupOk, HeapStep, CellStore.Valid, Ids;
      ghost var ids, row := Ids(other.store.columns), other.store.cells[otherRowIndex];
      rowIndex := AddRowBeside(other);
      ghost var h, o := heap.objects, store.owner;
      CopyExtCells(other, otherRowIndex, rowIndex, createMissingRows, ids, row);
      OwnTwice(old(heap.objects), old(store.owner), h, o, heap.objects, store.owner);
    }

    /** The lookup table answers HasColumn and GetColumnIndex. */
    lemma Lookup(id: AttrId)
      requires Valid()
      ensures id in indexMap <==> Table().HasColumn(id)
      ensures id in indexMap ==> indexMap[id] == M.IndexOf(Table().cols, id)
    {
    }

    // ----- searching

    /** One comparison of a search: does the row hold this value in this column? */
    method CellEquals(colIndex: nat, rowIndex: nat, val: Value) returns (equal: bool)
      requires Valid() && Table().InTable(rowIndex, colIndex) && Table().rows[rowIndex][colIndex] != NullString
      ensures equal <==> Table().rows[rowIndex][colIndex] == Holds(val)
    {
      hide Valid, ValidAt, Table;
      var v := GetValue(colIndex, rowIndex);
      equal := v == val;
    }

    method IsRowDeleted(rowIndex: nat) returns (deleted: bool)
      requires Valid() && rowIndex < |Table().rows|
      ensures deleted == Table().deleted[rowIndex]
    {
      deleted := flags.rowDeleted.IsFlagged(rowIndex);
    }

    /** InternalFindRowIndicesByAttr. */
    method FindRowIndicesByAttr(attr: M.Attribute, firstMatchOnly: bool) returns (result: seq<int>)
      requires Valid() && !Table().inBeginAddColumns
      requires M.Known(Table(), attr) && M.SearchableIn(Table(), attr.id)
      ensures result == M.FirstOnly(M.Matches(Table(), [attr], |Table().rows|), firstMatchOnly)
    {
      hide Valid, ValidAt, Table, M.Table.OkAt, M.RowMatches, M.SearchableIn;
      result := [];
      ColumnsAreCols();
      Lookup(attr.id);
      var colIndex := indexMap[attr.id];
      for rowIndex := 0 to store.storage.numRows
        invariant result == M.Matches(Table(), [attr], rowIndex)
        invariant firstMatchOnly ==> result == []
      {
        var found := RowHas(attr, colIndex, rowIndex);
        if found {
          result := result + [rowIndex];
          if firstMatchOnly {
            M.FirstMatch(Table(), [attr], rowIndex);
            return;
          }
        }
      }
    }

    /** The body of its loop. */
    method RowHas(attr: M.Attribute, colIndex: nat, rowIndex: nat) returns (found: bool)
      requires Valid() && !Table().inBeginAddColumns
      requires M.Known(Table(), attr) && M.SearchableIn(Table(), attr.id)
      requires rowIndex < |Table().rows| && colIndex == M.IndexOf(Table().cols, attr.id)
      ensures found <==> !Table().deleted[rowIndex] && M.RowMatches(Table(), [attr], rowIndex)
    {
      hide Valid, ValidAt, Table, M.Table.OkAt;
      M.MatchesOne(Table(), attr, rowIndex);
      var deleted := IsRowDeleted(rowIndex);
      if deleted {
        return false;
      }
      assert M.Filled(Table(), rowIndex, colIndex);
      found := CellEquals(colIndex, rowIndex, attr.value);
    }

    /** The attribute loop of InternalFindRowIndicesByAttrs. */
    method RowEquals(attrs: seq<M.Attribute>, attrColIndices: seq<int>, rowIndex: nat) returns (isEqual: bool)
      requires Valid() && !Table().inBeginAddColumns && CanFind(attrs)
      requires rowIndex < |Table().rows| && !Table().deleted[rowIndex]
      requires |attrColIndices| == |attrs|
      requires forall k :: 0 <= k < |attrs| ==> attrColIndices[k] == M.IndexOf(Table().cols, attrs[k].id)
      ensures isEqual <==> M.RowMatches(Table(), attrs, rowIndex)
    {
      hide Valid, ValidAt, Table, M.Table.OkAt;
      isEqual := true;
      var attrIndex := 0;
      while isEqual && attrIndex < |attrs|
        invariant 0 <= attrIndex <= |attrs|
        invariant isEqual <==> forall k :: 0 <= k < attrIndex ==> M.HasValue(Table(), attrs[k], rowIndex)
      {
        assert M.Filled(Table(), rowIndex, attrColIndices[attrIndex]);
        isEqual := CellEquals(attrColIndices[attrIndex], rowIndex, attrs[attrIndex].value);
        assert isEqual <==> M.HasValue(Table(), attrs[attrIndex], rowIndex);
        attrIndex := attrIndex + 1;
      }
    }

    /** The attributes have columns, and these columns can be searched. */
    ghost predicate CanFind(attrs: seq<M.Attribute>)
      reads this, store, store.storage, flags.rowModified, flags.rowDeleted, flags.rowNew
    {
      forall k :: 0 <= k < |attrs| ==> M.Known(Table(), attrs[k]) && M.SearchableIn(Table(), attrs[k].id)
    }

    /** The body of the row loop of InternalFindRowIndicesByAttrs. */
    method RowFound(attrs: seq<M.Attribute>, attrColIndices: seq<int>, rowIndex: nat) returns (found: bool)
      requires Valid() && !Table().inBeginAddColumns && CanFind(attrs)
      requires rowIndex < |Table().rows| && |attrColIndices| == |attrs|
      requires forall k :: 0 <= k < |attrs| ==> attrColIndices[k] == M.IndexOf(Table().cols, attrs[k].id)
      ensures found <==> !Table().deleted[rowIndex] && M.RowMatches(Table(), attrs, rowIndex)
    {
      hide Valid, ValidAt, Table, CanFind, M.Table.OkAt, M.RowMatches;
      var deleted := IsRowDeleted(rowIndex);
      if deleted {
        return false;
      }
      found := RowEquals(attrs, attrColIndices, rowIndex);
    }

    /** InternalFindRowIndicesByAttrs. */
    method FindRowIndicesByAttrs(attrs: seq<M.Attribute>, firstMatchOnly: bool) returns (result: seq<int>)
      requires Valid() && !Table().inBeginAddColumns && CanFind(attrs)
      ensures result == M.FirstOnly(M.Matches(Table(), attrs, |Table().rows|), firstMatchOnly)
    {
      hide Valid, ValidAt, Table, M.Table.OkAt, M.RowMatches, M.Known, M.SearchableIn;
      result := [];
      ColumnsAreCols();
      var attrColIndices := ColumnIndices(attrs);
      for rowIndex := 0 to store.storage.numRows
        invariant result == M.Matches(Table(), attrs, rowIndex)
        invariant firstMatchOnly ==> result == []
      {
        var found := RowFound(attrs, attrColIndices, rowIndex);
        if found {
          result := result + [rowIndex];
          if firstMatchOnly {
            M.FirstMatch(Table(), attrs, rowIndex);
            return;
          }
        }
      }
    }

    method ColumnIndices(attrs: seq<M.Attribute>) returns (attrColIndices: seq<int>)
      requires Valid() && forall k :: 0 <= k < |attrs| ==> M.Known(Table(), attrs[k])
      ensures |attrColIndices| == |attrs|
      ensures forall k :: 0 <= k < |attrs| ==> attrColIndices[k] == M.IndexOf(Table().cols, attrs[k].id)
    {
      hide Valid, ValidAt, Table, M.Table.OkAt;
      attrColIndices := [];
      for attrIndex := 0 to |attrs|
        invariant |attrColIndices| == attrIndex
        invariant forall k :: 0 <= k < attrIndex ==> attrColIndices[k] == M.IndexOf(Table().cols, attrs[k].id)
      {
        Lookup(attrs[attrIndex].id);
        attrColIndices := attrColIndices + [indexMap[attrs[attrIndex].id]];
      }
    }

    method GetModifiedRowsExcludeNewAndDeletedRows() returns (result: seq<int>)
      requires Valid()
      ensures result == M.OnlyModified(Table(), |Table().rows|)
    {
      hide ValidAt, M.Table.OkAt;
      result := [];
      ColumnsAreCols();
      FlagsAreValid();
      for rowIndex := 0 to store.storage.numRows
        invariant result == M.OnlyModified(Table(), rowIndex)
      {
        var m := flags.rowModified.IsFlagged(rowIndex);
        var n := flags.rowNew.IsFlagged(rowIndex);
        var d := flags.rowDeleted.IsFlagged(rowIndex);
        if m && !n && !d {
          result := result + [rowIndex];
        }
      }
    }

    lemma FlagsAreValid()
      requires Valid()
      ensures flags.Valid() && |flags.rowModified.bits| == store.storage.numRows
    {
    }

    // ----- tracking and release

    method SetModifiedTracking(b: bool)
      requires Valid()
      modifies this`trackModifications
      ensures Valid() && Table() == old(Table()).(trackModifications := b)
    {
      hide CellStore.Valid, RowFlags.Valid, LookupOk, Ids, Heap.Valid;
      trackModifications := b;
    }

    method ResetModifiedState()
      requires Valid()
      modifies flags.rowModified.data, flags.rowModified`bits, flags.rowDeleted.data, flags.rowDeleted`bits,
               flags.rowNew.data, flags.rowNew`bits, this`newColumnIndices, this`newRowIndices,
               this`deletedRowIndices, this`isModified, this`rowsModified
      ensures Valid() && Table() == M.ResetModifiedState(old(Table()))
    {
      hide Valid, ValidAt, Table, Consistent, M.Table.OkAt;
      Opened();
      ResetRecords();
      Closed();
    }

    method ResetRecords()
      requires Consistent(Table().Width()) && Table().Ok()
      modifies flags.rowModified.data, flags.rowModified`bits, flags.rowDeleted.data, flags.rowDeleted`bits,
               flags.rowNew.data, flags.rowNew`bits, this`newColumnIndices, this`newRowIndices,
               this`deletedRowIndices, this`isModified, this`rowsModified
      ensures Consistent(Table().Width()) && Table() == M.ResetModifiedState(old(Table()))
    {
      hide CellStore.Valid, RowFlags.Valid, RowFlags.Capacity, LookupOk, Ids, Heap.Valid, M.Table.OkAt;
      ForgetChanges(store.storage.numRows);
    }

    method ForgetChanges(n: nat)
      requires flags.Valid() && n == |flags.rowModified.bits|
      modifies flags.rowModified.data, flags.rowModified`bits, flags.rowDeleted.data, flags.rowDeleted`bits,
               flags.rowNew.data, flags.rowNew`bits, this`newColumnIndices, this`newRowIndices,
               this`deletedRowIndices, this`isModified, this`rowsModified
      ensures flags.Valid() && flags.Capacity() == old(flags.Capacity())
      ensures flags.rowModified.bits == flags.rowDeleted.bits == flags.rowNew.bits == M.AllFalse(n)
      ensures newColumnIndices == [] && newRowIndices == [] && deletedRowIndices == [] && !isModified && !rowsModified
    {
      hide RowFlags.Valid, RowFlags.Capacity;
      flags.ClearAll(n);
      newColumnIndices, newRowIndices, deletedRowIndices := [], [], [];
      isModified, rowsModified := false, false;
    }

    method ClearNewRowFlags()
      requires Valid()
      modifies flags.rowNew.data, flags.rowNew`bits, this`newRowIndices
      ensures Valid() && Table() == M.ClearNewRowFlags(old(Table()))
    {
      hide Valid, ValidAt, CellStore.Valid, RowFlags.Valid, LookupOk, Ids, Heap.Valid, M.Table.OkAt;
      Opened();
      ghost var t := M.ClearNewRowFlags(Table());
      newRowIndices := [];
      flags.ClearNew(store.storage.numRows);
      assert Table() == t;
      Closed();
    }

    method ClearDeletedRowsFlags()
      requires Valid()
      modifies this`deletedRowIndices
      ensures Valid() && Table() == M.ClearDeletedRowsFlags(old(Table()))
    {
      hide CellStore.Valid, RowFlags.Valid, LookupOk, Ids, Heap.Valid, M.Table.OkAt;
      ghost var t := M.ClearDeletedRowsFlags(Table());
      deletedRowIndices := [];
    }

    /** The string objects of a column are deleted, row by row. */
    method DeleteColumnData(colIndex: nat, ghost t: M.Table)
      requires Valid() && t.Ok() && !t.inBeginAddColumns && colIndex < t.Width()
      requires Table() == M.FreeUpTo(t, colIndex, 0)
      modifies heap, store.storage.data, store.storage`rows, store`cells, store`owner
      ensures Valid() && HeapStep(old(heap.objects), old(store.owner), heap.objects, store.owner)
      ensures Table() == M.FreeUpTo(t, colIndex, |t.rows|)
    {
      hide Valid, ValidAt, Table, M.Table.OkAt, M.FreedRows, M.FreeCell, HeapStep;
      ColumnsAreCols();
      for rowIndex := 0 to store.storage.numRows
        invariant Valid() && Table() == M.FreeUpTo(t, colIndex, rowIndex)
        invariant HeapStep(old(heap.objects), old(store.owner), heap.objects, store.owner)
      {
        ghost var h, o := heap.objects, store.owner;
        DeleteCellData(colIndex, rowIndex);
        M.FreeUpToNext(t, colIndex, rowIndex);
        OwnTwice(old(heap.objects), old(store.owner), h, o, heap.objects, store.owner);
      }
    }

    /** The first half of Delete: every string object of the table is deleted. */
    method DeleteAllData()
      requires Valid() && !Table().inBeginAddColumns
      modifies heap, store.storage.data, store.storage`rows, store`cells, store`owner
      ensures Valid() && HeapStep(old(heap.objects), old(store.owner), heap.objects, store.owner)
      ensures Table() == M.FreeUpTo(old(Table()), old(Table()).Width(), 0)
    {
      hide Valid, ValidAt, Table, M.Table.OkAt, M.FreedRows, HeapStep;
      ghost var t := Table();
      ColumnsAreCols();
      M.FreeNothingYet(t);
      for colIndex := 0 to |store.columns|
        invariant Valid() && Table() == M.FreeUpTo(t, colIndex, 0)
        invariant HeapStep(old(heap.objects), old(store.owner), heap.objects, store.owner)
      {
        ghost var h, o := heap.objects, store.owner;
        match store.columns[colIndex].attrId.ValueType() {
          case StringType =>
            DeleteColumnData(colIndex, t);
            M.FreeUpToNextColumn(t, colIndex);
            OwnTwice(old(heap.objects), old(store.owner), h, o, heap.objects, store.owner);
          case _ =>
            M.FreeUpToInline(t, colIndex);
        }
      }
    }

    /** Delete, also called Clear: no string object of this table survives, and those of
        other tables are untouched. */
    method Clear()
      requires Valid() && !Table().inBeginAddColumns
      modifies heap, store.storage, store.storage.data, store`cells, store`owner,
               flags.rowModified, flags.rowDeleted, flags.rowNew, this`isModified, this`rowsModified, this`userData
      ensures Valid() && store.owner == map[]
      ensures HeapStep(old(heap.objects), old(store.owner), heap.objects, map[])
      ensures Table() == M.Clear(old(Table())) && FreshBuffers()
    {
      hide ValidAt, M.Table.OkAt, M.FreedRows, M.FreeUpTo, HeapStep, Ids;
      DeleteAllData();
      M.AllFreed(old(Table()));
      Release();
    }

    method Release()
      requires Valid() && !Table().inBeginAddColumns
      requires forall r, c :: Table().InTable(r, c) && Table().cols[c].ValueType() == StringType ==>
                 Table().rows[r][c] == NullString
      modifies store.storage, store`cells, flags.rowModified, flags.rowDeleted, flags.rowNew,
               this`isModified, this`rowsModified, this`userData
      ensures Valid() && store.owner == map[] && Table() == M.Clear(old(Table())) && FreshBuffers()
    {
      hide Valid, ValidAt, CellStore.Valid, RowFlags.Valid, RowFlags.Capacity, LookupOk, Ids, Heap.Valid, M.Table.OkAt;
      Opened();
      NothingOwned();
      ForgetRows();
      Closed();
    }

    lemma NothingOwned()
      requires Valid() && !Table().inBeginAddColumns
      requires forall r, c :: Table().InTable(r, c) && Table().cols[c].ValueType() == StringType ==>
                 Table().rows[r][c] == NullString
      ensures store.owner == map[]
    {
      hide CellStore.Valid, RowFlags.Valid, LookupOk, Heap.Valid;
      store.NothingOwned();
    }

    method ForgetRows()
      requires store.Valid() && flags.Valid() && store.owner == map[]
      modifies store.storage, store`cells, flags.rowModified, flags.rowDeleted, flags.rowNew,
               this`isModified, this`rowsModified, this`userData
      ensures store.Valid() && flags.Valid() && flags.Capacity() == 0 == store.storage.allocatedRows
      ensures store.cells == [] && flags.rowModified.bits == flags.rowDeleted.bits == flags.rowNew.bits == []
      ensures !isModified && !rowsModified && userData == [] && FreshBuffers()
    {
      hide CellStore.Valid, RowFlags.Valid, RowFlags.Capacity;
      store.Free();
      flags.Free();
      isModified, rowsModified, userData := false, false, [];
    }
  }

  lemma AppendLookup(columns: seq<ColumnInfo>, indexMap: map<AttrId, int>, id: AttrId)
    requires LookupOk(Ids(columns), indexMap) && id !in Ids(columns)
    ensures LookupOk(Ids(columns + [ColumnInfo(id, 0)]), indexMap[id := |columns|])
    ensures Ids(columns + [ColumnInfo(id, 0)]) == Ids(columns) + [id]
  {
  }
}
