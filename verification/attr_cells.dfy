/** The cells of an attribute table: columns with their byte offsets, the raw storage, and
    the string objects its pointer cells own. */
module AttrCells {
  import opened AttrLayout
  import opened AttrImage
  import opened AttrStorage

  /** The heap that string objects live on; it may be shared by several tables. */
  class Heap {
    var objects: Objects
    var next: int

    ghost predicate Valid()
      reads this
    {
      0 !in objects && next > 0 && forall p :: p in objects ==> p < next
    }

    constructor ()
      ensures Valid() && objects == map[]
    {
      objects, next := map[], 1;
    }

    method New(s: string) returns (p: int)
      requires Valid()
      modifies this
      ensures Valid()
      ensures p != 0 && p !in old(objects) && objects == old(objects)[p := s]
    {
      p := next;
      objects, next := objects[p := s], next + 1;
    }

    method Assign(p: int, s: string)
      requires Valid() && p in objects
      modifies this
      ensures Valid() && objects == old(objects)[p := s]
    {
      objects := objects[p := s];
    }

    /** Deleting an object that is not alive is an error: every call proves it is. */
    method Delete(p: int)
      requires Valid() && p in objects
      modifies this
      ensures Valid() && objects == old(objects) - {p}
    {
      objects := objects - {p};
    }
  }

  datatype ColumnInfo = ColumnInfo(attrId: AttrId, byteOffset: nat)

  function Ids(columns: seq<ColumnInfo>): (ids: seq<AttrId>)
    ensures |ids| == |columns|
    ensures forall i :: 0 <= i < |columns| ==> ids[i] == columns[i].attrId
  {
    seq(|columns|, i requires 0 <= i < |columns| => columns[i].attrId)
  }

  /** Every settled column knows its byte offset. */
  ghost predicate OffsetsOk(columns: seq<ColumnInfo>, settled: seq<AttrId>) {
    |settled| <= |columns| && forall c :: 0 <= c < |settled| ==> columns[c].byteOffset == Offset(settled, c)
  }

  /** What a table operation may do to a shared heap: it exchanges the objects it owns,
      and everybody else's objects stay as they are. */
  ghost predicate HeapStep(h0: Objects, o0: Owner, h1: Objects, o1: Owner) {
    && h1.Keys == (h0.Keys - o0.Keys) + o1.Keys
    && o1.Keys !! (h0.Keys - o0.Keys)
    && forall p :: p in h0 && p !in o0 ==> p in h1 && h1[p] == h0[p]
  }

  /** One new string object, owned by the cell x. */
  ghost predicate OneNew(h0: Objects, o0: Owner, h1: Objects, o1: Owner, s: string, x: (int, int)) {
    exists p :: p !in h0 && h1 == h0[p := s] && o1 == o0[p := x]
  }

  /** The string goes to one new object if the cell held none, whose pointer p is null, and
      into the object it had otherwise. */
  ghost predicate StringPlaced(p: int, h0: Objects, o0: Owner, h1: Objects, o1: Owner, s: string, x: (int, int)) {
    if p == 0 then OneNew(h0, o0, h1, o1, s, x) else o1 == o0 && h1 == h0[p := s]
  }

  class CellStore {
    const heap: Heap
    const storage: ValueBuffer
    var columns: seq<ColumnInfo>

    /** How many columns have cells; columns just added do not have them yet. */
    ghost var settled: nat
    /** Which cell owns which string object. */
    ghost var owner: Owner
    /** The values of the cells. */
    ghost var cells: seq<seq<Cell>>

    ghost function Settled(): seq<AttrId>
      reads this`columns, this`settled
    {
      if settled <= |columns| then Ids(columns)[..settled] else []
    }

    ghost predicate Valid()
      reads this, heap, storage, storage.data
      ensures Valid() ==>
        && heap.Valid() && storage.Valid() && settled <= |columns|
        && owner.Keys <= heap.objects.Keys
        && |cells| == storage.numRows && forall r :: 0 <= r < |cells| ==> |cells[r]| == settled
    {
      && heap.Valid()
      && storage.Valid()
      && settled <= |columns|
      && OffsetsOk(columns, Settled())
      && storage.rowPitch == Pitch(Settled())
      && ImageOk(Settled(), storage.rows, heap.objects, owner)
      && cells == DecodeRows(Settled(), storage.rows, heap.objects)
    }

    constructor (heap: Heap)
      requires heap.Valid()
      ensures this.heap == heap && fresh(storage) && storage.data == null
      ensures Valid() && columns == [] && settled == 0 && cells == [] && owner == map[]
      ensures storage.allocatedRows == 0
    {
      this.heap := heap;
      storage := new ValueBuffer();
      columns, settled, owner, cells := [], 0, map[], [];
    }

    /** A store through GetValuePtr. */
    method StoreBytes(colIndex: nat, rowIndex: nat, bs: seq<Byte>)
      requires storage.Valid() && OffsetsOk(columns, Settled()) && colIndex < |Settled()|
      requires storage.rowPitch == Pitch(Settled()) && Shaped(Settled(), storage.rows) && rowIndex < storage.numRows
      requires |bs| <= ValueTypeSize(columns[colIndex].attrId.ValueType())
      modifies storage.data, storage`rows
      ensures storage.Valid()
      ensures storage.rows == Store(Settled(), old(storage.rows), rowIndex, colIndex, bs)
    {
      ColumnFits(Settled(), colIndex);
      storage.Store(rowIndex, columns[colIndex].byteOffset, bs);
    }

    /** A load through GetValuePtr. */
    method LoadBytes(colIndex: nat, rowIndex: nat) returns (bs: seq<Byte>)
      requires Valid() && colIndex < settled && rowIndex < storage.numRows
      ensures bs == BytesAt(Settled(), storage.rows, rowIndex, colIndex)
    {
      ColumnFits(Settled(), colIndex);
      bs := storage.Load(rowIndex, columns[colIndex].byteOffset, ValueTypeSize(columns[colIndex].attrId.ValueType()));
    }

    /** A store of an inline value, possibly only of its first bytes. */
    method StoreValue(colIndex: nat, rowIndex: nat, bs: seq<Byte>, ghost v: Value)
      requires Valid() && colIndex < settled && rowIndex < storage.numRows
      requires columns[colIndex].attrId.ValueType() != StringType
      requires |bs| <= ValueTypeSize(columns[colIndex].attrId.ValueType())
      requires var t := columns[colIndex].attrId.ValueType();
               var after := bs + BytesAt(Settled(), storage.rows, rowIndex, colIndex)[|bs|..];
               CellOk(t, after) && DecodeCell(t, after, heap.objects) == Holds(v)
      modifies storage.data, storage`rows, this`cells
      ensures Valid()
      ensures cells == SetCell(old(cells), rowIndex, colIndex, Holds(v))
    {
      hide ImageOk, DecodeRows, ValueBuffer.Valid, OffsetsOk;
      StoreInline(Settled(), storage.rows, heap.objects, owner, rowIndex, colIndex, bs);
      StoreBytes(colIndex, rowIndex, bs);
      cells := SetCell(cells, rowIndex, colIndex, Holds(v));
    }

    // ----- values

    method WriteInt(colIndex: nat, rowIndex: nat, val: int)
      requires Valid() && colIndex < settled && rowIndex < storage.numRows
      requires columns[colIndex].attrId.ValueType() == IntType && IntValue(val).InRange()
      modifies storage.data, storage`rows, this`cells
      ensures Valid()
      ensures cells == SetCell(old(cells), rowIndex, colIndex, Holds(IntValue(val)))
    {
      IntRoundTrip(val);
      WholeCell(EncodeInt(val), BytesAt(Settled(), storage.rows, rowIndex, colIndex));
      StoreValue(colIndex, rowIndex, EncodeInt(val), IntValue(val));
    }

    /** A bool is stored as the int 0 or 1. */
    method WriteBool(colIndex: nat, rowIndex: nat, val: bool)
      requires Valid() && colIndex < settled && rowIndex < storage.numRows
      requires columns[colIndex].attrId.ValueType() == BoolType
      modifies storage.data, storage`rows, this`cells
      ensures Valid()
      ensures cells == SetCell(old(cells), rowIndex, colIndex, Holds(BoolValue(val)))
    {
      var i := if val then 1 else 0;
      IntRoundTrip(i);
      WholeCell(EncodeInt(i), BytesAt(Settled(), storage.rows, rowIndex, colIndex));
      StoreValue(colIndex, rowIndex, EncodeInt(i), BoolValue(val));
    }

    /** SetVariant writes a bool one byte wide. The other three bytes of a bool cell are
        always zero, so reading the whole int gives the same answer. */
    method WriteBoolByte(colIndex: nat, rowIndex: nat, val: bool)
      requires Valid() && colIndex < settled && rowIndex < storage.numRows
      requires columns[colIndex].attrId.ValueType() == BoolType
      modifies storage.data, storage`rows, this`cells
      ensures Valid()
      ensures cells == SetCell(old(cells), rowIndex, colIndex, Holds(BoolValue(val)))
    {
      BoolByte(BytesAt(Settled(), storage.rows, rowIndex, colIndex), val);
      StoreValue(colIndex, rowIndex, [Raw(if val then 1 else 0)], BoolValue(val));
    }

    method WriteFloat4(colIndex: nat, rowIndex: nat, val: seq<int>)
      requires Valid() && colIndex < settled && rowIndex < storage.numRows
      requires columns[colIndex].attrId.ValueType() == Float4Type && |val| == 16
      modifies storage.data, storage`rows, this`cells
      ensures Valid()
      ensures cells == SetCell(old(cells), rowIndex, colIndex, Holds(Float4Value(val)))
    {
      assert DecodeFloat4(EncodeFloat4(val)) == val;
      WholeCell(EncodeFloat4(val), BytesAt(Settled(), storage.rows, rowIndex, colIndex));
      StoreValue(colIndex, rowIndex, EncodeFloat4(val), Float4Value(val));
    }

    /** CopyString: a new object for a null cell, otherwise the object is overwritten. */
    method CopyString(colIndex: nat, rowIndex: nat, val: string)
      requires Valid() && colIndex < settled && rowIndex < storage.numRows
      requires columns[colIndex].attrId.ValueType() == StringType
      modifies heap, storage.data, storage`rows, this`cells, this`owner
      ensures Valid()
      ensures cells == SetCell(old(cells), rowIndex, colIndex, Holds(StringValue(val)))
      ensures HeapStep(old(heap.objects), old(owner), heap.objects, owner)
      ensures StringPlaced(old(PointerAt(Settled(), storage.rows, rowIndex, colIndex)),
                           old(heap.objects), old(owner), heap.objects, owner, val, (rowIndex, colIndex))
    {
      var p := ReadPointer(colIndex, rowIndex);
      if p == 0 {
        NewString(colIndex, rowIndex, val);
      } else {
        OverwriteString(colIndex, rowIndex, p, val);
      }
    }

    method NewString(colIndex: nat, rowIndex: nat, val: string)
      requires Valid() && colIndex < settled && rowIndex < storage.numRows
      requires columns[colIndex].attrId.ValueType() == StringType
      requires PointerAt(Settled(), storage.rows, rowIndex, colIndex) == 0
      modifies heap, storage.data, storage`rows, this`cells, this`owner
      ensures Valid()
      ensures cells == SetCell(old(cells), rowIndex, colIndex, Holds(StringValue(val)))
      ensures HeapStep(old(heap.objects), old(owner), heap.objects, owner)
      ensures OneNew(old(heap.objects), old(owner), heap.objects, owner, val, (rowIndex, colIndex))
    {
      hide ImageOk, DecodeRows, ValueBuffer.Valid, OffsetsOk, Heap.Valid, HeapStep, SetCell, Store, BytesAt,
           PointerAt, EncodePointer, Ids, Pitch, Zeros;
      var p := heap.New(val);
      OwnNew(old(heap.objects), owner, p, val, (rowIndex, colIndex));
      StoreNewObject(Settled(), storage.rows, old(heap.objects), owner, rowIndex, colIndex, p, val);
      StoreBytes(colIndex, rowIndex, EncodePointer(p));
      owner := owner[p := (rowIndex, colIndex)];
      cells := SetCell(cells, rowIndex, colIndex, Holds(StringValue(val)));
    }

    method OverwriteString(colIndex: nat, rowIndex: nat, p: int, val: string)
      requires Valid() && colIndex < settled && rowIndex < storage.numRows
      requires columns[colIndex].attrId.ValueType() == StringType
      requires p != 0 && p == PointerAt(Settled(), storage.rows, rowIndex, colIndex) && p in owner && p in heap.objects
      modifies heap, this`cells
      ensures Valid()
      ensures cells == SetCell(old(cells), rowIndex, colIndex, Holds(StringValue(val)))
      ensures HeapStep(old(heap.objects), owner, heap.objects, owner)
      ensures heap.objects == old(heap.objects)[p := val]
    {
      hide ImageOk, DecodeRows, ValueBuffer.Valid, OffsetsOk, Heap.Valid, HeapStep, SetCell, Store, BytesAt,
           PointerAt, EncodePointer, Ids, Pitch, Zeros;
      OwnUpdate(heap.objects, owner, p, val);
      OverwriteObject(Settled(), storage.rows, heap.objects, owner, rowIndex, colIndex, val);
      heap.Assign(p, val);
      cells := SetCell(cells, rowIndex, colIndex, Holds(StringValue(val)));
    }

    /** The pointer in a string cell: null exactly when the cell holds no string, and
        otherwise the address of a live object this table owns. */
    method ReadPointer(colIndex: nat, rowIndex: nat) returns (p: int)
      requires Valid() && colIndex < settled && rowIndex < storage.numRows
      requires columns[colIndex].attrId.ValueType() == StringType
      ensures InTable(Settled(), storage.rows, rowIndex, colIndex)
              && p == PointerAt(Settled(), storage.rows, rowIndex, colIndex)
      ensures if p == 0 then cells[rowIndex][colIndex] == NullString
              else p in owner && p in heap.objects && cells[rowIndex][colIndex] == Holds(StringValue(heap.objects[p]))
    {
      var bs := LoadBytes(colIndex, rowIndex);
      p := DecodePointer(bs);
    }

    /** DeleteString: the object of a cell that has one is deleted, exactly once. */
    method DeleteString(colIndex: nat, rowIndex: nat)
      requires Valid() && colIndex < settled && rowIndex < storage.numRows
      requires columns[colIndex].attrId.ValueType() == StringType
      modifies heap, storage.data, storage`rows, this`cells, this`owner
      ensures Valid()
      ensures cells == SetCell(old(cells), rowIndex, colIndex, NullString)
      ensures HeapStep(old(heap.objects), old(owner), heap.objects, owner)
    {
      var p := ReadPointer(colIndex, rowIndex);
      if p != 0 {
        FreeString(colIndex, rowIndex, p);
      } else {
        assert cells[rowIndex][colIndex := NullString] == cells[rowIndex];
      }
    }

    method FreeString(colIndex: nat, rowIndex: nat, p: int)
      requires Valid() && colIndex < settled && rowIndex < storage.numRows
      requires columns[colIndex].attrId.ValueType() == StringType
      requires p != 0 && p == PointerAt(Settled(), storage.rows, rowIndex, colIndex) && p in owner && p in heap.objects
      modifies heap, storage.data, storage`rows, this`cells, this`owner
      ensures Valid()
      ensures cells == SetCell(old(cells), rowIndex, colIndex, NullString)
      ensures HeapStep(old(heap.objects), old(owner), heap.objects, owner)
    {
      hide ImageOk, DecodeRows, ValueBuffer.Valid, OffsetsOk, Heap.Valid, HeapStep, SetCell, Store, BytesAt,
           PointerAt, EncodePointer, Ids, Pitch, Zeros;
      OwnDrop(heap.objects, owner, p);
      FreeObject(Settled(), storage.rows, heap.objects, owner, rowIndex, colIndex);
      heap.Delete(p);
      StoreBytes(colIndex, rowIndex, EncodePointer(0));
      owner := owner - {p};
      cells := SetCell(cells, rowIndex, colIndex, NullString);
    }

    /** What SetVariant writes for a value. */
    method WriteVariant(colIndex: nat, rowIndex: nat, val: Value)
      requires Valid() && colIndex < settled && rowIndex < storage.numRows
      requires columns[colIndex].attrId.ValueType() == val.Type() && val.InRange()
      modifies heap, storage.data, storage`rows, this`cells, this`owner
      ensures Valid()
      ensures cells == SetCell(old(cells), rowIndex, colIndex, Holds(val))
      ensures HeapStep(old(heap.objects), old(owner), heap.objects, owner)
    {
      hide Valid, HeapStep, SetCell;
      OwnNothing(heap.objects, owner);
      match val
      case IntValue(i) => WriteInt(colIndex, rowIndex, i);
      case BoolValue(b) => WriteBoolByte(colIndex, rowIndex, b);
      case Float4Value(f) => WriteFloat4(colIndex, rowIndex, f);
      case StringValue(s) => CopyString(colIndex, rowIndex, s);
    }

    // ----- reading

    method ReadInt(colIndex: nat, rowIndex: nat) returns (val: int)
      requires Valid() && colIndex < settled && rowIndex < storage.numRows
      requires columns[colIndex].attrId.ValueType() == IntType
      ensures cells[rowIndex][colIndex] == Holds(IntValue(val))
    {
      var bs := LoadBytes(colIndex, rowIndex);
      val := DecodeInt(bs);
    }

    /** GetBool reads the whole int. */
    method ReadBool(colIndex: nat, rowIndex: nat) returns (val: bool)
      requires Valid() && colIndex < settled && rowIndex < storage.numRows
      requires columns[colIndex].attrId.ValueType() == BoolType
      ensures cells[rowIndex][colIndex] == Holds(BoolValue(val))
    {
      var bs := LoadBytes(colIndex, rowIndex);
      val := DecodeInt(bs) != 0;
    }

    method ReadFloat4(colIndex: nat, rowIndex: nat) returns (val: seq<int>)
      requires Valid() && colIndex < settled && rowIndex < storage.numRows
      requires columns[colIndex].attrId.ValueType() == Float4Type
      ensures cells[rowIndex][colIndex] == Holds(Float4Value(val))
    {
      var bs := LoadBytes(colIndex, rowIndex);
      val := DecodeFloat4(bs);
    }

    /** GetString follows the pointer, which must not be null. */
    method ReadString(colIndex: nat, rowIndex: nat) returns (val: string)
      requires Valid() && colIndex < settled && rowIndex < storage.numRows
      requires columns[colIndex].attrId.ValueType() == StringType
      requires cells[rowIndex][colIndex] != NullString
      ensures cells[rowIndex][colIndex] == Holds(StringValue(val))
    {
      var p := ReadPointer(colIndex, rowIndex);
      val := heap.objects[p];
    }

    /** The typed getter for the column's type. */
    method ReadValue(colIndex: nat, rowIndex: nat) returns (val: Value)
      requires Valid() && colIndex < settled && rowIndex < storage.numRows
      requires cells[rowIndex][colIndex] != NullString
      ensures cells[rowIndex][colIndex] == Holds(val)
    {
      hide Valid;
      match columns[colIndex].attrId.ValueType()
      case IntType => var i := ReadInt(colIndex, rowIndex); val := IntValue(i);
      case BoolType => var b := ReadBool(colIndex, rowIndex); val := BoolValue(b);
      case Float4Type => var f := ReadFloat4(colIndex, rowIndex); val := Float4Value(f);
      case StringType => var s := ReadString(colIndex, rowIndex); val := StringValue(s);
    }

    /** What others do to their own objects on the shared heap does not concern this table. */
    twostate lemma Survives()
      requires old(Valid()) && heap.Valid()
      requires unchanged(this) && unchanged(storage)
      requires storage.data != null ==> unchanged(storage.data)
      requires forall p :: p in owner ==> p in heap.objects && heap.objects[p] == old(heap.objects)[p]
      ensures Valid()
    {
      HeapFrame(Settled(), storage.rows, old(heap.objects), heap.objects, owner);
    }

    // ----- shape

    /** A new column, with no cells yet. */
    method AppendColumn(id: AttrId)
      requires Valid()
      modifies this`columns
      ensures Valid() && Settled() == old(Settled())
      ensures columns == old(columns) + [ColumnInfo(id, 0)]
    {
      hide ImageOk, DecodeRows, ValueBuffer.Valid;
      columns := columns + [ColumnInfo(id, 0)];
      assert Settled() == old(Settled());
    }

    /** UpdateColumnOffsets. */
    method UpdateColumnOffsets() returns (newPitch: nat)
      modifies this`columns
      ensures OffsetsOk(columns, Ids(columns)) && Ids(columns) == old(Ids(columns))
      ensures newPitch == Pitch(Ids(columns))
    {
      var curOffset;
      columns, curOffset := WithOffsets(columns);
      newPitch := AlignUp(curOffset);
    }

    /** The layout part of AddColumn and EndAddColumns: the new columns get zeroed cells.
        With rows in the table the buffer is reallocated to exactly the rows in use;
        without rows only the pitch changes, which needs an empty buffer. */
    method Relayout()
      requires Valid() && (storage.numRows > 0 || storage.allocatedRows == 0)
      modifies this`columns, this`settled, this`cells, storage
      ensures Valid() && settled == |columns|
      ensures storage.data == null || fresh(storage.data)
      ensures Ids(columns) == old(Ids(columns)) && owner == old(owner) && storage.numRows == old(storage.numRows)
      ensures cells == AppendCells(old(cells), ZeroCells(Ids(columns)[old(settled)..]))
      ensures storage.allocatedRows == if storage.numRows > 0 then storage.numRows else old(storage.allocatedRows)
    {
      hide ImageOk, DecodeRows, ValueBuffer.Valid, OffsetsOk, Pitch, ZeroCells, AppendCells, WidenRows, Heap.Valid;
      ghost var ids, before, more := Ids(columns), Settled(), Ids(columns)[settled..];
      assert ids == before + more;
      PitchGrows(before, more);
      Widen(before, more, storage.rows, heap.objects, owner, Pitch(ids) - storage.rowPitch);
      var newPitch := UpdateColumnOffsets();
      if storage.numRows > 0 {
        storage.Realloc(newPitch, storage.numRows);
      } else {
        WidenNothing(storage.rows, newPitch - storage.rowPitch);
        storage.SetPitch(newPitch);
      }
      cells := AppendCells(cells, ZeroCells(more));
      settled := |columns|;
      assert Settled() == ids;
    }

    /** Realloc for more rows of the same pitch. */
    method Reserve(newAllocRows: nat)
      requires Valid() && newAllocRows >= storage.numRows
      modifies storage
      ensures Valid() && storage.data != null && fresh(storage.data) && storage.allocatedRows == newAllocRows
      ensures storage.numRows == old(storage.numRows)
    {
      hide ImageOk, DecodeRows, ValueBuffer.Valid, OffsetsOk, Pitch, WidenRows, Heap.Valid;
      WidenByZero(storage.rows);
      storage.Realloc(storage.rowPitch, newAllocRows);
    }

    /** The next allocated row comes into use: a row of zeroed cells. */
    method UseNextRow()
      requires Valid() && settled == |columns| && storage.numRows < storage.allocatedRows
      modifies storage`numRows, storage`rows, this`cells
      ensures Valid() && storage.numRows == old(storage.numRows) + 1
      ensures cells == old(cells) + [ZeroCells(Ids(columns))]
    {
      hide ImageOk, DecodeRows, ValueBuffer.Valid, OffsetsOk, Pitch, ZeroCells, Heap.Valid;
      assert Settled() == Ids(columns);
      AppendZeroRow(Settled(), storage.rows, heap.objects, owner);
      storage.UseNextRow();
      cells := cells + [ZeroCells(Ids(columns))];
    }

    /** When no string cell holds a string, this table owns no object. */
    lemma NothingOwned()
      requires Valid()
      requires forall r, c :: 0 <= r < |cells| && 0 <= c < settled && columns[c].attrId.ValueType() == StringType ==>
                 cells[r][c] == NullString
      ensures owner == map[]
    {
      forall p | p in owner
        ensures false
      {
        OwnedIsHeld(p);
      }
    }

    lemma OwnedIsHeld(p: int)
      requires Valid() && p in owner
      ensures InTable(Settled(), storage.rows, owner[p].0, owner[p].1)
      ensures columns[owner[p].1].attrId.ValueType() == StringType
      ensures cells[owner[p].0][owner[p].1] != NullString
    {
      CellsHoldOwned(Settled(), storage.rows, heap.objects, owner);
    }

    /** The buffer is released. Every string object must be gone by now: nothing is leaked. */
    method Free()
      requires Valid() && owner == map[]
      modifies storage`data, storage`numRows, storage`allocatedRows, storage`rows, this`cells
      ensures Valid() && cells == [] && storage.numRows == 0 && storage.allocatedRows == 0
      ensures storage.data == null
    {
      hide DecodeRows, ValueBuffer.Valid, OffsetsOk, Pitch, Heap.Valid;
      storage.Free();
      cells := [];
    }
  }

  lemma WidenNothing(rows: seq<seq<Byte>>, pad: nat)
    requires rows == []
    ensures WidenRows(rows, pad) == rows
  {
  }

  /** Every column gets the sum of the sizes before it. */
  method WithOffsets(columns: seq<ColumnInfo>) returns (cs: seq<ColumnInfo>, curOffset: nat)
    ensures Ids(cs) == Ids(columns) && OffsetsOk(cs, Ids(cs)) && curOffset == Offset(Ids(cs), |cs|)
  {
    hide Ids, Offset, ValueTypeSize;
    cs, curOffset := columns, 0;
    ghost var ids := Ids(columns);
    OffsetSums(ids, 0);
    for i := 0 to |columns|
      invariant |cs| == |ids| && Ids(cs) == ids && curOffset == Offset(ids, i)
      invariant forall c :: 0 <= c < i ==> cs[c].byteOffset == Offset(ids, c)
    {
      SetOffset(cs, i, curOffset);
      OffsetSums(ids, i);
      cs := cs[i := cs[i].(byteOffset := curOffset)];
      curOffset := curOffset + ValueTypeSize(cs[i].attrId.ValueType());
    }
  }

  lemma SetOffset(cs: seq<ColumnInfo>, i: nat, o: nat)
    requires i < |cs|
    ensures Ids(cs[i := cs[i].(byteOffset := o)]) == Ids(cs)
  {
  }

  lemma OwnNothing(h: Objects, o: Owner)
    requires o.Keys <= h.Keys
    ensures HeapStep(h, o, h, o)
  {
  }

  /** Steps of the same table compose. */
  lemma OwnTwice(h0: Objects, o0: Owner, h1: Objects, o1: Owner, h2: Objects, o2: Owner)
    requires HeapStep(h0, o0, h1, o1) && HeapStep(h1, o1, h2, o2)
    ensures HeapStep(h0, o0, h2, o2)
  {
  }

  lemma OwnNew(h: Objects, o: Owner, p: int, s: string, cell: (int, int))
    requires o.Keys <= h.Keys && p !in h
    ensures HeapStep(h, o, h[p := s], o[p := cell])
  {
  }

  lemma OwnUpdate(h: Objects, o: Owner, p: int, s: string)
    requires o.Keys <= h.Keys && p in o
    ensures HeapStep(h, o, h[p := s], o)
  {
  }

  lemma OwnDrop(h: Objects, o: Owner, p: int)
    requires o.Keys <= h.Keys && p in o
    ensures HeapStep(h, o, h - {p}, o - {p})
  {
  }

  lemma WholeCell(bs: seq<Byte>, before: seq<Byte>)
    requires |bs| == |before|
    ensures bs + before[|bs|..] == bs
  {
  }

  lemma BoolByte(before: seq<Byte>, val: bool)
    requires before == EncodeInt(0) || before == EncodeInt(1)
    ensures [Raw(if val then 1 else 0)] + before[1..] == EncodeInt(if val then 1 else 0)
    ensures DecodeInt(EncodeInt(0)) == 0 && DecodeInt(EncodeInt(1)) == 1
  {
    IntRoundTrip(0);
    IntRoundTrip(1);
  }
}
