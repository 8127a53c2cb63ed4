/** Counting string objects: a table owns exactly as many as it has non-null string cells,
    and no operation creates or destroys any other. */
module AttrOwnership {
  import opened AttrLayout
  import opened AttrImage
  import opened AttrCells
  import opened AttrTable

  /** The cells that hold a string. */
  function StringCells(rows: seq<seq<Cell>>, width: nat): set<(int, int)>
    requires forall r :: 0 <= r < |rows| ==> |rows[r]| == width
  {
    set r, c | 0 <= r < |rows| && 0 <= c < width && rows[r][c].Holds? && rows[r][c].value.StringValue? :: (r, c)
  }

  lemma {:induction false} OneOwnerEach(owner: Owner, cells: set<(int, int)>)
    requires forall p :: p in owner ==> owner[p] in cells
    requires forall p, q :: p in owner && q in owner && owner[p] == owner[q] ==> p == q
    requires forall x :: x in cells ==> exists p :: p in owner && owner[p] == x
    ensures |owner| == |cells|
    decreases |cells|
  {
    if cells == {} {
      assert forall p :: p in owner.Keys ==> owner[p] in cells;
      assert owner.Keys == {};
    } else {
      var x :| x in cells;
      var p :| p in owner && owner[p] == x;
      var rest := owner - {p};
      forall y | y in cells - {x}
        ensures exists q :: q in rest && rest[q] == y
      {
        var q :| q in owner && owner[q] == y;
        assert q in rest && rest[q] == y;
      }
      OneOwnerEach(rest, cells - {x});
      assert rest.Keys == owner.Keys - {p};
    }
  }

  /** Every string cell holds the pointer to an object of its own, and every object a table
      owns is in such a cell. */
  lemma OwnedAreHeld(cols: seq<AttrId>, rows: seq<seq<Byte>>, heap: Objects, owner: Owner)
    requires ImageOk(cols, rows, heap, owner)
    ensures |owner| == |StringCells(DecodeRows(cols, rows, heap), |cols|)|
  {
    var values: seq<seq<Cell>> := DecodeRows(cols, rows, heap);
    forall r: int, c: int | InTable(cols, rows, r, c)
      ensures values[r][c].Holds? && values[r][c].value.StringValue? <==>
                PointerAt(cols, rows, r, c) in owner && owner[PointerAt(cols, rows, r, c)] == (r, c)
    {
      assert values[r][c] == CellAt(cols, rows, heap, r, c);
      if PointerAt(cols, rows, r, c) != 0 {
        assert PointerAt(cols, rows, r, c) in owner;
      }
    }
    forall p | p in owner
      ensures owner[p] in StringCells(values, |cols|)
    {
      assert InTable(cols, rows, owner[p].0, owner[p].1);
      assert PointerAt(cols, rows, owner[p].0, owner[p].1) == p;
    }
    forall p, q | p in owner && q in owner && owner[p] == owner[q]
      ensures p == q
    {
      assert PointerAt(cols, rows, owner[p].0, owner[p].1) == p;
    }
    OneOwnerEach(owner, StringCells(values, |cols|));
  }

  /** The number of live string objects that are not this table's own never changes. */
  lemma OthersConserved(h0: Objects, o0: Owner, h1: Objects, o1: Owner)
    requires HeapStep(h0, o0, h1, o1) && o0.Keys <= h0.Keys
    ensures |h1| - |o1| == |h0| - |o0|
  {
    var others := h0.Keys - o0.Keys;
    assert h0.Keys == others + o0.Keys;
    assert h1.Keys == others + o1.Keys;
  }

  /** At any time, a table owns one live string object for each of its string cells. */
  lemma TableOwnsItsStrings(t: AttributeTable)
    requires t.Valid()
    ensures |t.store.owner| == |StringCells(t.Table().rows, t.store.settled)|
    ensures t.store.owner.Keys <= t.heap.objects.Keys
  {
    OwnedAreHeld(t.store.Settled(), t.store.storage.rows, t.heap.objects, t.store.owner);
  }
}
