/** The value buffer of a table seen as a list of rows of bytes, together with the heap
    of string objects its cells point to. The lemmas say how each primitive update of
    memory changes the table of values the bytes stand for. */
module AttrImage {
  import opened AttrLayout

  /** The live string objects, by address. */
  type Objects = map<int, string>

  /** Which cell owns which string object. */
  type Owner = map<int, (int, int)>

  ghost predicate Shaped(cols: seq<AttrId>, rows: seq<seq<Byte>>) {
    forall r :: 0 <= r < |rows| ==> |rows[r]| == Pitch(cols)
  }

  predicate InTable(cols: seq<AttrId>, rows: seq<seq<Byte>>, r: int, c: int) {
    0 <= r < |rows| && 0 <= c < |cols|
  }

  /** The raw bytes of a cell. */
  function BytesAt(cols: seq<AttrId>, rows: seq<seq<Byte>>, r: int, c: int): (bs: seq<Byte>)
    requires Shaped(cols, rows) && InTable(cols, rows, r, c)
    ensures |bs| == ValueTypeSize(cols[c].ValueType())
  {
    CellBytes(cols, rows[r], c)
  }

  /** The pointer stored in a cell; 0 for the null pointer and for inline cells. */
  function PointerAt(cols: seq<AttrId>, rows: seq<seq<Byte>>, r: int, c: int): int
    requires Shaped(cols, rows) && InTable(cols, rows, r, c)
  {
    if cols[c].ValueType() == StringType then DecodePointer(BytesAt(cols, rows, r, c)) else 0
  }

  function DecodeCell(t: ValueType, bs: seq<Byte>, heap: Objects): Cell
    requires |bs| == ValueTypeSize(t)
  {
    match t
    case IntType => Holds(IntValue(DecodeInt(bs)))
    case BoolType => Holds(BoolValue(DecodeInt(bs) != 0))
    case Float4Type => Holds(Float4Value(DecodeFloat4(bs)))
    case StringType =>
      var p := DecodePointer(bs);
      if p in heap then Holds(StringValue(heap[p])) else NullString
  }

  /** A bool cell holds the int 0 or 1; a string cell holds a whole pointer. */
  ghost predicate CellOk(t: ValueType, bs: seq<Byte>)
    requires |bs| == ValueTypeSize(t)
  {
    match t
    case IntType => IntValue(DecodeInt(bs)).InRange()
    case BoolType => bs == EncodeInt(0) || bs == EncodeInt(1)
    case Float4Type => true
    case StringType => bs == EncodePointer(DecodePointer(bs))
  }

  ghost predicate CellsOk(cols: seq<AttrId>, rows: seq<seq<Byte>>)
    requires Shaped(cols, rows)
  {
    forall r, c :: InTable(cols, rows, r, c) ==> CellOk(cols[c].ValueType(), BytesAt(cols, rows, r, c))
  }

  /** Every non-null pointer belongs to exactly the cell that holds it. */
  ghost predicate PointersOwned(cols: seq<AttrId>, rows: seq<seq<Byte>>, owner: Owner)
    requires Shaped(cols, rows)
  {
    forall r, c :: InTable(cols, rows, r, c) && PointerAt(cols, rows, r, c) != 0 ==>
      PointerAt(cols, rows, r, c) in owner && owner[PointerAt(cols, rows, r, c)] == (r, c)
  }

  /** Every owned object is held by its owner. */
  ghost predicate OwnersHold(cols: seq<AttrId>, rows: seq<seq<Byte>>, owner: Owner)
    requires Shaped(cols, rows)
  {
    forall p :: p in owner ==>
      && p != 0
      && InTable(cols, rows, owner[p].0, owner[p].1)
      && PointerAt(cols, rows, owner[p].0, owner[p].1) == p
  }

  /** The buffer is well-formed, and pointers, owners and live objects agree. */
  ghost predicate ImageOk(cols: seq<AttrId>, rows: seq<seq<Byte>>, heap: Objects, owner: Owner) {
    && Shaped(cols, rows)
    && CellsOk(cols, rows)
    && PointersOwned(cols, rows, owner)
    && OwnersHold(cols, rows, owner)
    && owner.Keys <= heap.Keys
    && 0 !in heap
  }

  function CellAt(cols: seq<AttrId>, rows: seq<seq<Byte>>, heap: Objects, r: int, c: int): Cell
    requires Shaped(cols, rows) && InTable(cols, rows, r, c)
  {
    DecodeCell(cols[c].ValueType(), BytesAt(cols, rows, r, c), heap)
  }

  /** The table of values the bytes stand for. */
  function DecodeRows(cols: seq<AttrId>, rows: seq<seq<Byte>>, heap: Objects): (cells: seq<seq<Cell>>)
    requires Shaped(cols, rows)
    ensures |cells| == |rows|
    ensures forall r :: 0 <= r < |rows| ==> |cells[r]| == |cols|
    ensures forall r, c :: InTable(cols, rows, r, c) ==> cells[r][c] == CellAt(cols, rows, heap, r, c)
  {
    seq(|rows|, (r: nat) requires r < |rows| && Shaped(cols, rows) =>
      seq(|cols|, (c: nat) requires c < |cols| && r < |rows| && Shaped(cols, rows) =>
        CellAt(cols, rows, heap, r, c)))
  }

  /** Two tables of values are equal when they agree cell by cell. */
  lemma SameCells(a: seq<seq<Cell>>, b: seq<seq<Cell>>, width: nat)
    requires |a| == |b|
    requires forall r :: 0 <= r < |a| ==> |a[r]| == |b[r]| == width
    requires forall r, c :: 0 <= r < |a| && 0 <= c < width ==> a[r][c] == b[r][c]
    ensures a == b
  {
    forall r | 0 <= r < |a|
      ensures a[r] == b[r]
    {
    }
  }

  function SetCell(cells: seq<seq<Cell>>, r: nat, c: nat, v: Cell): seq<seq<Cell>>
    requires r < |cells| && c < |cells[r]|
  {
    cells[r := cells[r][c := v]]
  }

  // ----- one cell is written

  /** Storing bytes at the start of cell (r, c). */
  function Store(cols: seq<AttrId>, rows: seq<seq<Byte>>, r: nat, c: nat, bs: seq<Byte>): (rows': seq<seq<Byte>>)
    requires Shaped(cols, rows) && InTable(cols, rows, r, c)
    requires |bs| <= ValueTypeSize(cols[c].ValueType())
    ensures |rows'| == |rows| && Shaped(cols, rows')
  {
    ColumnFits(cols, c);
    rows[r := WriteAt(rows[r], Offset(cols, c), bs)]
  }

  /** A store reaches its own cell and no other. */
  lemma StoreReaches(cols: seq<AttrId>, rows: seq<seq<Byte>>, r: nat, c: nat, bs: seq<Byte>)
    requires Shaped(cols, rows) && InTable(cols, rows, r, c)
    requires |bs| <= ValueTypeSize(cols[c].ValueType())
    ensures var rows' := Store(cols, rows, r, c, bs);
            && BytesAt(cols, rows', r, c) == bs + BytesAt(cols, rows, r, c)[|bs|..]
            && forall i, j :: InTable(cols, rows, i, j) && (i, j) != (r, c) ==>
                 BytesAt(cols, rows', i, j) == BytesAt(cols, rows, i, j)
  {
    ColumnFits(cols, c);
    WriteCellInRow(cols, rows[r], c, bs, c);
    forall j | 0 <= j < |cols| && j != c
      ensures CellBytes(cols, Store(cols, rows, r, c, bs)[r], j) == CellBytes(cols, rows[r], j)
    {
      WriteCellInRow(cols, rows[r], c, bs, j);
    }
  }

  /** Storing a value that is kept inline changes exactly one cell of the table. */
  lemma StoreInline(cols: seq<AttrId>, rows: seq<seq<Byte>>, heap: Objects, owner: Owner,
                    r: nat, c: nat, bs: seq<Byte>)
    requires ImageOk(cols, rows, heap, owner) && InTable(cols, rows, r, c)
    requires cols[c].ValueType() != StringType
    requires |bs| <= ValueTypeSize(cols[c].ValueType())
    requires CellOk(cols[c].ValueType(), bs + BytesAt(cols, rows, r, c)[|bs|..])
    ensures ImageOk(cols, Store(cols, rows, r, c, bs), heap, owner)
    ensures DecodeRows(cols, Store(cols, rows, r, c, bs), heap)
            == SetCell(DecodeRows(cols, rows, heap), r, c,
                       DecodeCell(cols[c].ValueType(), bs + BytesAt(cols, rows, r, c)[|bs|..], heap))
  {
    var rows' := Store(cols, rows, r, c, bs);
    StoreReaches(cols, rows, r, c, bs);
    forall i, j | InTable(cols, rows, i, j)
      ensures PointerAt(cols, rows', i, j) == PointerAt(cols, rows, i, j)
    {
    }
    SameCells(DecodeRows(cols, rows', heap),
              SetCell(DecodeRows(cols, rows, heap), r, c,
                      DecodeCell(cols[c].ValueType(), bs + BytesAt(cols, rows, r, c)[|bs|..], heap)), |cols|);
  }

  /** A pointer cell holds either null or a live object. */
  lemma CellsHoldOwned(cols: seq<AttrId>, rows: seq<seq<Byte>>, heap: Objects, owner: Owner)
    requires ImageOk(cols, rows, heap, owner)
    ensures forall r, c :: InTable(cols, rows, r, c) ==>
              PointerAt(cols, rows, r, c) == 0 || PointerAt(cols, rows, r, c) in heap
    ensures forall r, c :: InTable(cols, rows, r, c) && cols[c].ValueType() == StringType ==>
              (CellAt(cols, rows, heap, r, c) == NullString <==> PointerAt(cols, rows, r, c) == 0)
  {
  }

  /** What a pointer store does to the pointers of the table. */
  lemma StorePointer(cols: seq<AttrId>, rows: seq<seq<Byte>>, r: nat, c: nat, p: int)
    requires Shaped(cols, rows) && InTable(cols, rows, r, c) && CellsOk(cols, rows)
    requires cols[c].ValueType() == StringType
    ensures var rows' := Store(cols, rows, r, c, EncodePointer(p));
            && CellsOk(cols, rows')
            && BytesAt(cols, rows', r, c) == EncodePointer(p)
            && (forall i, j :: InTable(cols, rows, i, j) ==>
                  PointerAt(cols, rows', i, j) == if (i, j) == (r, c) then p else PointerAt(cols, rows, i, j))
            && (forall i, j :: InTable(cols, rows, i, j) && (i, j) != (r, c) ==>
                  BytesAt(cols, rows', i, j) == BytesAt(cols, rows, i, j))
  {
    var rows' := Store(cols, rows, r, c, EncodePointer(p));
    StoreReaches(cols, rows, r, c, EncodePointer(p));
    assert BytesAt(cols, rows', r, c) == EncodePointer(p);
    assert DecodePointer(EncodePointer(p)) == p;
  }

  lemma NewOwner(cols: seq<AttrId>, rows: seq<seq<Byte>>, owner: Owner, r: nat, c: nat, p: int)
    requires Shaped(cols, rows) && InTable(cols, rows, r, c) && CellsOk(cols, rows)
    requires PointersOwned(cols, rows, owner) && OwnersHold(cols, rows, owner)
    requires cols[c].ValueType() == StringType && PointerAt(cols, rows, r, c) == 0
    requires p != 0 && p !in owner
    ensures var rows' := Store(cols, rows, r, c, EncodePointer(p));
            PointersOwned(cols, rows', owner[p := (r, c)]) && OwnersHold(cols, rows', owner[p := (r, c)])
  {
    StorePointer(cols, rows, r, c, p);
  }

  /** A string cell that held null receives a new object. */
  lemma StoreNewObject(cols: seq<AttrId>, rows: seq<seq<Byte>>, heap: Objects, owner: Owner,
                       r: nat, c: nat, p: int, s: string)
    requires ImageOk(cols, rows, heap, owner) && InTable(cols, rows, r, c)
    requires cols[c].ValueType() == StringType && PointerAt(cols, rows, r, c) == 0
    requires p != 0 && p !in heap
    ensures ImageOk(cols, Store(cols, rows, r, c, EncodePointer(p)), heap[p := s], owner[p := (r, c)])
    ensures DecodeRows(cols, Store(cols, rows, r, c, EncodePointer(p)), heap[p := s])
            == SetCell(DecodeRows(cols, rows, heap), r, c, Holds(StringValue(s)))
  {
    var rows' := Store(cols, rows, r, c, EncodePointer(p));
    StorePointer(cols, rows, r, c, p);
    NewOwner(cols, rows, owner, r, c, p);
    forall i, j | InTable(cols, rows, i, j)
      ensures CellAt(cols, rows', heap[p := s], i, j)
              == if (i, j) == (r, c) then Holds(StringValue(s)) else CellAt(cols, rows, heap, i, j)
    {
      assert PointerAt(cols, rows, i, j) != 0 ==> PointerAt(cols, rows, i, j) in owner;
    }
    SameCells(DecodeRows(cols, rows', heap[p := s]),
              SetCell(DecodeRows(cols, rows, heap), r, c, Holds(StringValue(s))), |cols|);
  }

  /** No two cells share an object. */
  lemma PointersDiffer(cols: seq<AttrId>, rows: seq<seq<Byte>>, heap: Objects, owner: Owner,
                       r: int, c: int, i: int, j: int)
    requires ImageOk(cols, rows, heap, owner)
    requires InTable(cols, rows, r, c) && InTable(cols, rows, i, j) && (i, j) != (r, c)
    requires PointerAt(cols, rows, r, c) != 0
    ensures PointerAt(cols, rows, i, j) != PointerAt(cols, rows, r, c)
  {
  }

  /** A string cell that already has an object keeps it; the object is overwritten. */
  lemma OverwriteObject(cols: seq<AttrId>, rows: seq<seq<Byte>>, heap: Objects, owner: Owner,
                        r: nat, c: nat, s: string)
    requires ImageOk(cols, rows, heap, owner) && InTable(cols, rows, r, c)
    requires cols[c].ValueType() == StringType && PointerAt(cols, rows, r, c) != 0
    ensures ImageOk(cols, rows, heap[PointerAt(cols, rows, r, c) := s], owner)
    ensures DecodeRows(cols, rows, heap[PointerAt(cols, rows, r, c) := s])
            == SetCell(DecodeRows(cols, rows, heap), r, c, Holds(StringValue(s)))
  {
    var p := PointerAt(cols, rows, r, c);
    forall i, j | InTable(cols, rows, i, j)
      ensures CellAt(cols, rows, heap[p := s], i, j)
              == if (i, j) == (r, c) then Holds(StringValue(s)) else CellAt(cols, rows, heap, i, j)
    {
      if (i, j) != (r, c) {
        PointersDiffer(cols, rows, heap, owner, r, c, i, j);
      }
    }
    SameCells(DecodeRows(cols, rows, heap[p := s]),
              SetCell(DecodeRows(cols, rows, heap), r, c, Holds(StringValue(s))), |cols|);
  }

  lemma DropOwner(cols: seq<AttrId>, rows: seq<seq<Byte>>, owner: Owner, r: nat, c: nat)
    requires Shaped(cols, rows) && InTable(cols, rows, r, c) && CellsOk(cols, rows)
    requires PointersOwned(cols, rows, owner) && OwnersHold(cols, rows, owner)
    requires cols[c].ValueType() == StringType && PointerAt(cols, rows, r, c) != 0
    ensures var p := PointerAt(cols, rows, r, c);
            var rows' := Store(cols, rows, r, c, EncodePointer(0));
            PointersOwned(cols, rows', owner - {p}) && OwnersHold(cols, rows', owner - {p})
  {
    StorePointer(cols, rows, r, c, 0);
  }

  /** Deleting the object of a string cell and storing null. */
  lemma FreeObject(cols: seq<AttrId>, rows: seq<seq<Byte>>, heap: Objects, owner: Owner, r: nat, c: nat)
    requires ImageOk(cols, rows, heap, owner) && InTable(cols, rows, r, c)
    requires cols[c].ValueType() == StringType && PointerAt(cols, rows, r, c) != 0
    ensures var p := PointerAt(cols, rows, r, c);
            var rows' := Store(cols, rows, r, c, EncodePointer(0));
            && ImageOk(cols, rows', heap - {p}, owner - {p})
            && DecodeRows(cols, rows', heap - {p}) == SetCell(DecodeRows(cols, rows, heap), r, c, NullString)
  {
    var p := PointerAt(cols, rows, r, c);
    var rows' := Store(cols, rows, r, c, EncodePointer(0));
    StorePointer(cols, rows, r, c, 0);
    DropOwner(cols, rows, owner, r, c);
    forall i, j | InTable(cols, rows, i, j)
      ensures CellAt(cols, rows', heap - {p}, i, j)
              == if (i, j) == (r, c) then NullString else CellAt(cols, rows, heap, i, j)
    {
      if (i, j) != (r, c) {
        PointersDiffer(cols, rows, heap, owner, r, c, i, j);
      }
    }
    SameCells(DecodeRows(cols, rows', heap - {p}),
              SetCell(DecodeRows(cols, rows, heap), r, c, NullString), |cols|);
  }

  // ----- the shape changes

  /** The cell that four (or sixteen) zero bytes stand for. */
  function ZeroCell(t: ValueType): Cell {
    match t
    case IntType => Holds(IntValue(0))
    case BoolType => Holds(BoolValue(false))
    case Float4Type => Holds(Float4Value(seq(16, _ => 0)))
    case StringType => NullString
  }

  lemma ZeroBytes(t: ValueType, heap: Objects)
    requires 0 !in heap
    ensures CellOk(t, Zeros(ValueTypeSize(t)))
    ensures DecodeCell(t, Zeros(ValueTypeSize(t)), heap) == ZeroCell(t)
    ensures t == StringType ==> DecodePointer(Zeros(4)) == 0
  {
    assert Zeros(4) == EncodeInt(0);
    assert DecodeFloat4(Zeros(16)) == seq(16, _ => 0);
  }

  function WidenRows(rows: seq<seq<Byte>>, pad: nat): (rows': seq<seq<Byte>>)
    ensures |rows'| == |rows|
    ensures forall r :: 0 <= r < |rows| ==> rows'[r] == rows[r] + Zeros(pad)
  {
    seq(|rows|, r requires 0 <= r < |rows| => rows[r] + Zeros(pad))
  }

  lemma WidenByZero(rows: seq<seq<Byte>>)
    ensures WidenRows(rows, 0) == rows
  {
    assert forall row: seq<Byte> :: row + Zeros(0) == row;
  }

  function ZeroCells(cols: seq<AttrId>): (cells: seq<Cell>)
    ensures |cells| == |cols|
  {
    seq(|cols|, c requires 0 <= c < |cols| => ZeroCell(cols[c].ValueType()))
  }

  function AppendCells(cells: seq<seq<Cell>>, more: seq<Cell>): (cells': seq<seq<Cell>>)
    ensures |cells'| == |cells|
  {
    seq(|cells|, r requires 0 <= r < |cells| => cells[r] + more)
  }

  lemma WidenBytes(cols: seq<AttrId>, more: seq<AttrId>, rows: seq<seq<Byte>>, pad: nat)
    requires Shaped(cols, rows) && Pitch(cols) + pad == Pitch(cols + more)
    ensures Shaped(cols + more, WidenRows(rows, pad))
    ensures forall r, c :: InTable(cols + more, WidenRows(rows, pad), r, c) ==>
              BytesAt(cols + more, WidenRows(rows, pad), r, c)
              == if c < |cols| then BytesAt(cols, rows, r, c) else Zeros(ValueTypeSize((cols + more)[c].ValueType()))
  {
    hide BytesAt, ValueTypeSize, Pitch, Zeros;
    forall r, c | InTable(cols + more, WidenRows(rows, pad), r, c)
      ensures BytesAt(cols + more, WidenRows(rows, pad), r, c)
              == if c < |cols| then BytesAt(cols, rows, r, c) else Zeros(ValueTypeSize((cols + more)[c].ValueType()))
    {
      WidenCellBytes(cols, more, rows, pad, r, c);
    }
  }

  lemma WidenCellBytes(cols: seq<AttrId>, more: seq<AttrId>, rows: seq<seq<Byte>>, pad: nat, r: int, c: int)
    requires Shaped(cols, rows) && Pitch(cols) + pad == Pitch(cols + more)
    requires Shaped(cols + more, WidenRows(rows, pad)) && InTable(cols + more, WidenRows(rows, pad), r, c)
    ensures BytesAt(cols + more, WidenRows(rows, pad), r, c)
            == if c < |cols| then BytesAt(cols, rows, r, c) else Zeros(ValueTypeSize((cols + more)[c].ValueType()))
  {
    hide CellBytes, ValueTypeSize, Pitch, Zeros;
    WidenRow(cols, more, rows[r], c);
  }

  /** Re-pitching for more columns keeps every old cell; the new cells are zeroed and own
      nothing. */
  lemma Widen(cols: seq<AttrId>, more: seq<AttrId>, rows: seq<seq<Byte>>, heap: Objects, owner: Owner, pad: nat)
    requires ImageOk(cols, rows, heap, owner)
    requires Pitch(cols) + pad == Pitch(cols + more)
    ensures ImageOk(cols + more, WidenRows(rows, pad), heap, owner)
    ensures DecodeRows(cols + more, WidenRows(rows, pad), heap)
            == AppendCells(DecodeRows(cols, rows, heap), ZeroCells(more))
  {
    var all, rows' := cols + more, WidenRows(rows, pad);
    WidenBytes(cols, more, rows, pad);
    forall r, c | InTable(all, rows', r, c)
      ensures c < |cols| ==> PointerAt(all, rows', r, c) == PointerAt(cols, rows, r, c)
      ensures c >= |cols| ==> PointerAt(all, rows', r, c) == 0
      ensures CellOk(all[c].ValueType(), BytesAt(all, rows', r, c))
      ensures CellAt(all, rows', heap, r, c)
              == if c < |cols| then CellAt(cols, rows, heap, r, c) else ZeroCell(all[c].ValueType())
    {
      ZeroBytes(all[c].ValueType(), heap);
      assert c < |cols| ==> InTable(cols, rows, r, c);
    }
    SameCells(DecodeRows(all, rows', heap), AppendCells(DecodeRows(cols, rows, heap), ZeroCells(more)), |all|);
  }

  /** A row of zero bytes at the end is a row of zeroed cells that own nothing. */
  lemma AppendZeroRow(cols: seq<AttrId>, rows: seq<seq<Byte>>, heap: Objects, owner: Owner)
    requires ImageOk(cols, rows, heap, owner)
    ensures ImageOk(cols, rows + [Zeros(Pitch(cols))], heap, owner)
    ensures DecodeRows(cols, rows + [Zeros(Pitch(cols))], heap)
            == DecodeRows(cols, rows, heap) + [ZeroCells(cols)]
  {
    var rows' := rows + [Zeros(Pitch(cols))];
    forall r, c | InTable(cols, rows', r, c)
      ensures r < |rows| ==> BytesAt(cols, rows', r, c) == BytesAt(cols, rows, r, c)
      ensures r == |rows| ==> BytesAt(cols, rows', r, c) == Zeros(ValueTypeSize(cols[c].ValueType()))
      ensures r == |rows| ==> PointerAt(cols, rows', r, c) == 0
      ensures CellOk(cols[c].ValueType(), BytesAt(cols, rows', r, c))
      ensures r == |rows| ==> CellAt(cols, rows', heap, r, c) == ZeroCell(cols[c].ValueType())
    {
      ZeroBytes(cols[c].ValueType(), heap);
      if r == |rows| {
        ZeroRow(cols, c);
      } else {
        assert InTable(cols, rows, r, c);
      }
    }
    forall r, c | InTable(cols, rows, r, c)
      ensures PointerAt(cols, rows', r, c) == PointerAt(cols, rows, r, c)
    {
      assert InTable(cols, rows', r, c);
    }
    SameCells(DecodeRows(cols, rows', heap), DecodeRows(cols, rows, heap) + [ZeroCells(cols)], |cols|);
  }

  /** What happens to objects a table does not own does not concern it. */
  lemma HeapFrame(cols: seq<AttrId>, rows: seq<seq<Byte>>, heap: Objects, heap': Objects, owner: Owner)
    requires ImageOk(cols, rows, heap, owner)
    requires 0 !in heap' && forall p :: p in owner ==> p in heap' && heap'[p] == heap[p]
    ensures ImageOk(cols, rows, heap', owner)
    ensures DecodeRows(cols, rows, heap') == DecodeRows(cols, rows, heap)
  {
    forall p | p in owner.Keys
      ensures p in heap'.Keys
    {
    }
    forall r, c | InTable(cols, rows, r, c)
      ensures CellAt(cols, rows, heap', r, c) == CellAt(cols, rows, heap, r, c)
    {
      assert PointerAt(cols, rows, r, c) != 0 ==> PointerAt(cols, rows, r, c) in owner;
    }
    SameCells(DecodeRows(cols, rows, heap'), DecodeRows(cols, rows, heap), |cols|);
  }
}
