/** Adding columns in a batch, between BeginAddColumns and EndAddColumns, reaches the same
    table as adding them one by one. */
module AttrColumns {
  import opened AttrLayout
  import opened AttrImage
  import opened AttrModel

  /** One AddColumn call after the other, outside a batch; each says for itself whether the
      column is recorded as new. */
  function AddEach(t: Table, ids: seq<AttrId>, records: seq<bool>): (u: Table)
    requires t.Ok() && !t.inBeginAddColumns && CanAddColumns(t) && Addable(t, ids) && |records| == |ids|
    ensures u.Ok() && !u.inBeginAddColumns && CanAddColumns(u)
    ensures u.cols == t.cols + ids && |u.rows| == |t.rows|
    decreases |ids|
  {
    hide AddColumn, Table.OkAt;
    if ids == [] then t else
    var n := |ids| - 1;
    AddableButLast(t, ids);
    AddedStillAddable(AddEach(t, ids[..n], records[..n]), ids[n], records[n]);
    AddColumn(AddEach(t, ids[..n], records[..n]), ids[n], records[n])
  }

  /** The same calls inside a batch. */
  function AddInBatch(t: Table, ids: seq<AttrId>, records: seq<bool>): (u: Table)
    requires t.Ok() && t.inBeginAddColumns && Addable(t, ids) && |records| == |ids|
    ensures u == t.(cols := t.cols + ids, newColumns := u.newColumns, isModified := u.isModified,
                    readWriteColumns := u.readWriteColumns)
    ensures u.Ok()
    decreases |ids|
  {
    if ids == [] then t else
    var n := |ids| - 1;
    AddableButLast(t, ids);
    AddColumn(AddInBatch(t, ids[..n], records[..n]), ids[n], records[n])
  }

  /** The ids are distinct, none has a column yet, and their defaults are values of the
      source's integer width. */
  ghost predicate Addable(t: Table, ids: seq<AttrId>) {
    && Distinct(ids)
    && forall i :: 0 <= i < |ids| ==> ids[i] !in t.cols && ids[i].defaultValue.InRange()
  }

  lemma AddableButLast(t: Table, ids: seq<AttrId>)
    requires Addable(t, ids) && ids != []
    ensures Addable(t, ids[..|ids| - 1]) && ids[|ids| - 1] !in t.cols + ids[..|ids| - 1]
    ensures ids == ids[..|ids| - 1] + [ids[|ids| - 1]]
  {
  }

  lemma AddedStillAddable(t: Table, id: AttrId, record: bool)
    requires t.Ok() && !t.inBeginAddColumns && CanAddColumns(t) && !t.HasColumn(id) && id.defaultValue.InRange()
    ensures CanAddColumns(AddColumn(t, id, record))
  {
  }

  /** The first half of AddColumn outside a batch: the column and its zeroed cells. */
  function MakeRoom(t: Table, id: AttrId, record: bool): (u: Table)
    requires t.Ok() && !t.inBeginAddColumns && id.defaultValue.InRange()
    ensures u.Ok() && !u.inBeginAddColumns && |u.rows| == |t.rows| && u.deleted == t.deleted && u.cols == t.cols + [id]
  {
    WidenedOk(AppendColumn(t, id, record), |t.cols|, WidenTable(AppendColumn(t, id, record), |t.cols|));
    WidenTable(AppendColumn(t, id, record), |t.cols|)
  }

  lemma RoomThenSet(t: Table, id: AttrId, record: bool, r: nat, c: nat, v: Value)
    requires t.Ok() && !t.inBeginAddColumns && id.defaultValue.InRange() && t.CanSet(r, c, v)
    ensures MakeRoom(t, id, record).CanSet(r, c, v)
    ensures Set(MakeRoom(t, id, record), r, c, v) == MakeRoom(Set(t, r, c, v), id, record)
  {
    SetIs(t, r, c, v);
    SetIs(MakeRoom(t, id, record), r, c, v);
    var zeros := ZeroCells([id]);
    assert (t.cols + [id])[|t.cols|..] == [id];
    assert (t.rows[r] + zeros)[c := Holds(v)] == t.rows[r][c := Holds(v)] + zeros;
    assert AppendCells(t.rows, zeros)[r := t.rows[r][c := Holds(v)] + zeros]
        == AppendCells(t.rows[r := t.rows[r][c := Holds(v)]], zeros);
  }

  lemma {:induction false} RoomThenFillColumn(t: Table, id: AttrId, record: bool, c: nat, n: nat)
    requires t.Ok() && !t.inBeginAddColumns && id.defaultValue.InRange()
    requires c < t.Width() && n <= |t.rows| && NoneDeleted(t)
    ensures FillColumn(MakeRoom(t, id, record), c, n) == MakeRoom(FillColumn(t, c, n), id, record)
  {
    hide MakeRoom, Set, Table.OkAt;
    if n > 0 {
      RoomThenFillColumn(t, id, record, c, n - 1);
      RoomThenSet(FillColumn(t, c, n - 1), id, record, n - 1, c, t.cols[c].defaultValue);
    }
  }

  lemma {:induction false} RoomThenFillColumns(t: Table, id: AttrId, record: bool, lo: nat, hi: nat)
    requires t.Ok() && !t.inBeginAddColumns && id.defaultValue.InRange()
    requires lo <= hi <= t.Width() && NoneDeleted(t)
    ensures FillColumns(MakeRoom(t, id, record), lo, hi) == MakeRoom(FillColumns(t, lo, hi), id, record)
    decreases hi
  {
    hide MakeRoom, FillColumn, Table.OkAt;
    if lo < hi {
      RoomThenFillColumns(t, id, record, lo, hi - 1);
      RoomThenFillColumn(FillColumns(t, lo, hi - 1), id, record, hi - 1, |t.rows|);
    }
  }

  lemma AddIsRoomThenFill(t: Table, id: AttrId, record: bool)
    requires t.Ok() && !t.inBeginAddColumns && CanAddColumns(t) && !t.HasColumn(id) && id.defaultValue.InRange()
    ensures AddColumn(t, id, record) == FillColumn(MakeRoom(t, id, record), |t.cols|, |t.rows|)
  {
    hide FillColumn, Table.OkAt, WidenTable;
  }

  /** A batch with columns: room for all of them at once, then the default fill. */
  lemma ClosedBatch(t: Table)
    requires t.Ok() && t.inBeginAddColumns && CanAddColumns(t) && t.firstNewColumn < |t.cols|
    ensures var room := WidenTable(t.(inBeginAddColumns := false), t.firstNewColumn);
            && room.Ok() && NoneDeleted(room) && !room.inBeginAddColumns
            && room.cols == t.cols && |room.rows| == |t.rows|
            && EndAddColumns(t) == FillColumns(room, t.firstNewColumn, |t.cols|)
  {
    hide FillColumns, Table.OkAt;
    LeftOk(t);
    WidenedOk(t.(inBeginAddColumns := false), t.firstNewColumn,
              WidenTable(t.(inBeginAddColumns := false), t.firstNewColumn));
  }

  lemma OneMoreAfterOthers(t: Table, id: AttrId, record: bool)
    requires t.Ok() && t.inBeginAddColumns && CanAddColumns(t) && !t.HasColumn(id) && id.defaultValue.InRange()
    requires t.firstNewColumn < |t.cols| && CanAddColumns(EndAddColumns(t))
    ensures EndAddColumns(AddColumn(t, id, record)) == AddColumn(EndAddColumns(t), id, record)
  {
    hide FillColumns, FillColumn, Table.OkAt, WidenTable, EndAddColumns, MakeRoom;
    var lo, n, t1 := t.firstNewColumn, |t.cols|, t.(inBeginAddColumns := false);
    LeftOk(t);
    ClosedBatch(t);
    ClosedBatch(AddColumn(t, id, record));
    var t2 := WidenTable(t1, lo);
    RoomAtOnce(t1, id, record, lo);
    RoomThenFillColumns(t2, id, record, lo, n);
    OneFill(MakeRoom(t2, id, record), lo, n);
    AddIsRoomThenFill(EndAddColumns(t), id, record);
  }

  lemma OneMoreIsFirst(t: Table, id: AttrId, record: bool)
    requires t.Ok() && t.inBeginAddColumns && CanAddColumns(t) && !t.HasColumn(id) && id.defaultValue.InRange()
    requires t.firstNewColumn == |t.cols| && CanAddColumns(EndAddColumns(t))
    ensures EndAddColumns(AddColumn(t, id, record)) == AddColumn(EndAddColumns(t), id, record)
  {
    hide FillColumns, FillColumn, Table.OkAt;
    LeftOk(t);
    ClosedBatch(AddColumn(t, id, record));
    OneFill(MakeRoom(t.(inBeginAddColumns := false), id, record), |t.cols|, |t.cols|);
    AddIsRoomThenFill(EndAddColumns(t), id, record);
  }

  lemma ClosedCanAdd(t: Table)
    requires t.Ok() && t.inBeginAddColumns && CanAddColumns(t)
    ensures CanAddColumns(EndAddColumns(t)) && !EndAddColumns(t).inBeginAddColumns
  {
    hide FillColumns, Table.OkAt;
  }

  /** Closing a batch after one more column is closing it and then adding the column. */
  lemma OneMore(t: Table, id: AttrId, record: bool)
    requires t.Ok() && t.inBeginAddColumns && CanAddColumns(t) && !t.HasColumn(id) && id.defaultValue.InRange()
    ensures CanAddColumns(EndAddColumns(t)) && !EndAddColumns(t).inBeginAddColumns
    ensures EndAddColumns(AddColumn(t, id, record)) == AddColumn(EndAddColumns(t), id, record)
  {
    hide EndAddColumns, AddColumn, Table.OkAt;
    ClosedCanAdd(t);
    if t.firstNewColumn < |t.cols| {
      OneMoreAfterOthers(t, id, record);
    } else {
      OneMoreIsFirst(t, id, record);
    }
  }

  lemma OneFill(t: Table, lo: nat, hi: nat)
    requires t.Ok() && lo <= hi < t.Width() && NoneDeleted(t)
    ensures FillColumns(t, lo, hi + 1) == FillColumn(FillColumns(t, lo, hi), hi, |t.rows|)
    ensures FillColumns(t, lo, lo) == t
  {
    hide FillColumn, Table.OkAt;
  }

  /** Cells for several columns are the same at once or with the last one later. */
  lemma RoomAtOnce(t: Table, id: AttrId, record: bool, lo: nat)
    requires t.OkAt(lo) && lo <= |t.cols| && id.defaultValue.InRange() && !t.inBeginAddColumns
    requires WidenTable(t, lo).Ok()
    ensures WidenTable(AppendColumn(t, id, record), lo) == MakeRoom(WidenTable(t, lo), id, record)
  {
    var all := t.cols + [id];
    assert all[lo..] == t.cols[lo..] + [id] && all[|t.cols|..] == [id];
    assert ZeroCells(all[lo..]) == ZeroCells(t.cols[lo..]) + ZeroCells([id]);
    forall r | 0 <= r < |t.rows|
      ensures t.rows[r] + ZeroCells(all[lo..]) == (t.rows[r] + ZeroCells(t.cols[lo..])) + ZeroCells([id])
    {
    }
  }

  /** What is left of a batch: the fields that describe it. */
  function Noted(t: Table, batch: bool): (u: Table)
    requires t.Ok() && !t.inBeginAddColumns && CanAddColumns(t)
    ensures u.Ok() && !u.inBeginAddColumns && CanAddColumns(u) && u.cols == t.cols
  {
    t.(recordAsNewColumns := batch, firstNewColumn := |t.cols|)
  }

  /** BeginAddColumns, any number of AddColumn calls and EndAddColumns reach the same table
      as the AddColumn calls alone: the same columns, cells, row flags, index lists and
      buffer size. Only the two fields that describe the last batch tell the difference;
      whether a column is recorded as new is up to its own AddColumn call, and what was said
      in BeginAddColumns has no effect. */
  lemma {:induction false} BatchIsOneByOne(t: Table, batch: bool, ids: seq<AttrId>, records: seq<bool>)
    requires t.Ok() && !t.inBeginAddColumns && CanAddColumns(t) && Addable(t, ids) && |records| == |ids|
    ensures var u := AddInBatch(BeginAddColumns(t, batch), ids, records);
            && CanAddColumns(u)
            && EndAddColumns(u) == AddEach(Noted(t, batch), ids, records)
    decreases |ids|
  {
    hide Table.OkAt, AddColumn, EndAddColumns;
    if ids == [] {
      EmptyBatch(t, batch);
      assert t.cols + ids == t.cols;
    } else {
      var n := |ids| - 1;
      AddableButLast(t, ids);
      BatchIsOneByOne(t, batch, ids[..n], records[..n]);
      OneMore(AddInBatch(BeginAddColumns(t, batch), ids[..n], records[..n]), ids[n], records[n]);
    }
  }

  lemma EmptyBatch(t: Table, record: bool)
    requires t.Ok() && !t.inBeginAddColumns && CanAddColumns(t)
    ensures EndAddColumns(BeginAddColumns(t, record)) == Noted(t, record)
  {
  }

  /** AddColumn with no rows changes the pitch without reallocating: any room that was
      reserved before is too small afterwards. */
  lemma ReservedRoom(cols: seq<AttrId>, id: AttrId, reserved: nat)
    ensures Start(Pitch(cols + [id]), reserved) <= Start(Pitch(cols), reserved) <==> reserved == 0
  {
    PitchIsRowEnd(cols);
    PitchIsRowEnd(cols + [id]);
    OffsetOfPrefix(cols, [id], |cols|);
    StartIsProduct(Pitch(cols + [id]), reserved);
    StartIsProduct(Pitch(cols), reserved);
  }
}
