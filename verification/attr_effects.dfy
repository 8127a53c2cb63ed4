/** What the operations change, written out field by field; what is not mentioned stays. */
module AttrEffects {
  import opened AttrLayout
  import opened AttrImage
  import opened AttrModel
  import opened AttrCopy
  import opened AttrSearch

  /** Only the cells, the flags of the rows and the summary flags may differ. */
  predicate SameColumnsAndLists(t: Table, u: Table) {
    && u.cols == t.cols && u.readWriteColumns == t.readWriteColumns && u.newColumns == t.newColumns
    && u.newRows == t.newRows && u.deletedRows == t.deletedRows && u.userData == t.userData
    && u.trackModifications == t.trackModifications && u.inBeginAddColumns == t.inBeginAddColumns
  }

  // ----- values

  /** One cell holds the value. Writing an int or a bool flags the row, and writing anything
      else does that only while tracking is on, but then for the whole table too. */
  lemma SetEffect(t: Table, r: nat, c: nat, v: Value)
    requires t.Ok() && t.CanSet(r, c, v)
    ensures var u, flags := Set(t, r, c, v), v.IntValue? || v.BoolValue? || t.trackModifications;
            && SameColumnsAndLists(t, u) && u.deleted == t.deleted && u.isNew == t.isNew && |u.rows| == |t.rows|
            && u.rows[r][c] == Holds(v)
            && (forall k, d :: t.InTable(k, d) && (k != r || d != c) ==> u.rows[k][d] == t.rows[k][d])
            && (forall k :: 0 <= k < |t.rows| ==> u.modified[k] == (t.modified[k] || (k == r && flags)))
            && u.isModified == (t.isModified || flags)
            && u.rowsModified == (t.rowsModified || (!v.IntValue? && !v.BoolValue? && t.trackModifications))
  {
  }

  // ----- rows

  /** A row of defaults, new if tracking is on; the buffers double, starting with ten rows. */
  lemma AddRowEffect(t: Table)
    requires t.Ok() && !t.inBeginAddColumns
    ensures var u := AddRow(t);
            && u.cols == t.cols && u.rows == t.rows + [Defaults(t.cols)] && !u.inBeginAddColumns
            && u.newRows == (if t.trackModifications then t.newRows + [|t.rows|] else t.newRows)
            && u.isNew == t.isNew + [t.trackModifications]
            && u.deleted == t.deleted + [false] && u.userData == t.userData + [0]
            && u.deletedRows == t.deletedRows && u.newColumns == t.newColumns
            && u.trackModifications == t.trackModifications
            && u.allocatedRows == (if |t.rows| < t.allocatedRows then t.allocatedRows
                                   else if t.allocatedRows == 0 then 10 else 2 * t.allocatedRows)
  {
    hide Table.OkAt;
    AddRowIs(t);
  }

  /** The cells of the new row after the first n columns were copied. */
  lemma {:induction false} CopyCellsEffect(t: Table, from: nat, to: nat, n: nat)
    requires t.Ok() && !t.inBeginAddColumns && from < |t.rows| && to < |t.rows| && n <= |t.cols|
    requires from != to && Readable(t.rows[from]) && !t.deleted[to]
    ensures var u := CopyCells(t, from, to, n);
            && SameColumnsAndLists(t, u) && u.deleted == t.deleted && u.isNew == t.isNew && |u.rows| == |t.rows|
            && (forall k :: 0 <= k < |t.rows| && k != to ==> u.rows[k] == t.rows[k])
            && |u.rows[to]| == |t.rows[from]| && u.rows[to][..n] == t.rows[from][..n]
  {
    hide Set, Table.OkAt, SameColumnsAndLists;
    if n == 0 {
      NothingChanged(t);
      assert t.rows[to][..0] == t.rows[from][..0];
    } else {
      CopyCellsEffect(t, from, to, n - 1);
      var u := CopyCells(t, from, to, n - 1);
      CellCanBeSet(t, u, from, to, n - 1);
      OneCellCopied(t, u, from, to, n - 1);
    }
  }

  lemma NothingChanged(t: Table)
    ensures SameColumnsAndLists(t, t)
  {
  }

  lemma OneCellCopied(t: Table, u: Table, from: nat, to: nat, c: nat)
    requires t.Ok() && u.Ok() && t.InTable(from, c) && to < |t.rows| && from != to && t.rows[from][c].Holds?
    requires u.CanSet(to, c, t.rows[from][c].value)
    requires SameColumnsAndLists(t, u) && |u.rows| == |t.rows|
    requires (forall k :: 0 <= k < |t.rows| && k != to ==> u.rows[k] == t.rows[k])
    requires |u.rows[to]| == |t.rows[from]| && u.rows[to][..c] == t.rows[from][..c]
    ensures var w := Set(u, to, c, t.rows[from][c].value);
            && SameColumnsAndLists(t, w) && w.deleted == u.deleted && w.isNew == u.isNew && |w.rows| == |t.rows|
            && (forall k :: 0 <= k < |t.rows| && k != to ==> w.rows[k] == t.rows[k])
            && |w.rows[to]| == |t.rows[from]| && w.rows[to][..c + 1] == t.rows[from][..c + 1]
  {
    hide Table.OkAt;
    var v := t.rows[from][c].value;
    SetIs(u, to, c, v);
    assert t.rows[from][..c + 1] == t.rows[from][..c] + [t.rows[from][c]];
    assert u.rows[to][c := Holds(v)][..c + 1] == u.rows[to][..c] + [Holds(v)];
  }

  /** CopyRow appends a row with the values of the row it copies. It is a new row like any
      other, and nothing else changes. */
  lemma CopyRowIs(t: Table, from: nat)
    requires t.Ok() && !t.inBeginAddColumns && from < |t.rows| && Readable(t.rows[from])
    ensures var u := CopyRow(t, from);
            && u.cols == t.cols && u.rows == t.rows + [t.rows[from]] && !u.inBeginAddColumns
            && u.newRows == (if t.trackModifications then t.newRows + [|t.rows|] else t.newRows)
            && u.isNew == t.isNew + [t.trackModifications]
            && u.deleted == t.deleted + [false] && u.userData == t.userData + [0]
            && u.deletedRows == t.deletedRows && u.newColumns == t.newColumns
            && u.trackModifications == t.trackModifications
  {
    hide Table.OkAt, AddRow, CopyCells;
    AddRowEffect(t);
    AddRowIs(t);
    var a, n := AddRow(t), |t.cols|;
    CopyCellsEffect(a, from, |t.rows|, n);
    var u := CopyRow(t, from);
    assert u.rows[|t.rows|][..n] == u.rows[|t.rows|] && t.rows[from][..n] == t.rows[from];
  }

  /** A deleted row has no strings any more. While tracking is on it is flagged and listed;
      otherwise nothing tells. */
  lemma DeleteRowEffect(t: Table, r: nat)
    requires t.Ok() && !t.inBeginAddColumns && r < |t.rows| && !t.deleted[r]
    ensures var u := DeleteRow(t, r);
            && u.cols == t.cols && u.newRows == t.newRows && u.newColumns == t.newColumns && u.isNew == t.isNew
            && u.modified == t.modified && u.userData == t.userData[r := 0] && |u.rows| == |t.rows|
            && u.deletedRows == (if t.trackModifications then t.deletedRows + [r] else t.deletedRows)
            && u.deleted == (if t.trackModifications then t.deleted[r := true] else t.deleted)
            && u.isModified == (t.isModified || t.trackModifications) && u.rowsModified == t.rowsModified
            && (forall k, c :: t.InTable(k, c) ==>
                 c < |u.rows[k]| &&
                 u.rows[k][c] == if k == r && t.cols[c].ValueType() == StringType then NullString else t.rows[k][c])
  {
    forall c | 0 <= c < |t.cols|
      ensures t.rows[r][c].Fits(t.cols[c].ValueType())
    {
    }
  }

  function FirstRows(n: nat): seq<int> {
    seq(n, r => r)
  }

  /** Deleting all rows, with tracking on: each of them is listed, in order. */
  lemma {:induction false} DeleteRowsEffect(t: Table, n: nat)
    requires t.Ok() && !t.inBeginAddColumns && n <= |t.rows| && NoneDeleted(t)
    ensures var u := DeleteRows(t, n);
            && u.cols == t.cols && u.trackModifications == t.trackModifications
            && u.deletedRows == (if t.trackModifications then t.deletedRows + FirstRows(n) else t.deletedRows)
            && forall k :: 0 <= k < n ==> u.deleted[k] == t.trackModifications
  {
    hide DeleteRow, Table.OkAt;
    if n > 0 {
      DeleteRowsEffect(t, n - 1);
      DeleteRowEffect(DeleteRows(t, n - 1), n - 1);
      DeleteRowKeeps(DeleteRows(t, n - 1), n - 1);
      assert FirstRows(n) == FirstRows(n - 1) + [n - 1];
    } else {
      assert t.deletedRows + FirstRows(0) == t.deletedRows;
    }
  }

  // ----- columns

  /** A column is recorded if tracking is on and the call says so, in a batch or not. */
  lemma AddColumnRecords(t: Table, id: AttrId, record: bool)
    requires t.Ok() && !t.HasColumn(id) && id.defaultValue.InRange() && (!t.inBeginAddColumns ==> CanAddColumns(t))
    ensures var u := AddColumn(t, id, record);
            && u.cols == t.cols + [id]
            && u.newColumns == (if t.trackModifications && record then t.newColumns + [|t.cols|] else t.newColumns)
            && u.readWriteColumns == (if id.readWrite then t.readWriteColumns + [|t.cols|] else t.readWriteColumns)
            && (t.trackModifications ==> u.isModified)
            && u.newRows == t.newRows && u.deletedRows == t.deletedRows && u.isNew == t.isNew && u.deleted == t.deleted
  {
    hide Table.OkAt, FillColumn;
    if !t.inBeginAddColumns {
      AppendedOk(t, id, record, |t.cols|);
      var room := WidenTable(AppendColumn(t, id, record), |t.cols|);
      WidenedOk(AppendColumn(t, id, record), |t.cols|, room);
      FillColumnIs(room, |t.cols|, |t.rows|);
    }
  }

  // ----- records

  lemma ClearNewRowFlagsEffect(t: Table)
    requires t.Ok()
    ensures var u := ClearNewRowFlags(t);
            && u.newRows == [] && (forall r :: 0 <= r < |t.rows| ==> !u.isNew[r])
            && u == t.(newRows := u.newRows, isNew := u.isNew)
  {
  }

  lemma ResetModifiedStateEffect(t: Table)
    requires t.Ok()
    ensures var u := ResetModifiedState(t);
            && u.newRows == [] && u.deletedRows == [] && u.newColumns == [] && !u.isModified && !u.rowsModified
            && (forall r :: 0 <= r < |t.rows| ==> !u.modified[r] && !u.deleted[r] && !u.isNew[r])
            && u.rows == t.rows && u.cols == t.cols && u.userData == t.userData
  {
  }

  /** The first match is the first row that matches. */
  lemma FirstMatchIs(t: Table, attrs: seq<Attribute>)
    requires |t.rows| == |t.deleted|
    ensures var found := FirstOnly(Matches(t, attrs, |t.rows|), true);
            && (found == [] <==> forall r :: 0 <= r < |t.rows| && !t.deleted[r] ==> !RowMatches(t, attrs, r))
            && (found != [] ==>
                 && |found| == 1 && 0 <= found[0] < |t.rows| && !t.deleted[found[0]] && RowMatches(t, attrs, found[0])
                 && forall r :: 0 <= r < found[0] && !t.deleted[r] ==> !RowMatches(t, attrs, r))
  {
    hide RowMatches;
    var all := Matches(t, attrs, |t.rows|);
    MatchesIs(t, attrs, |t.rows|);
    if all != [] {
      assert all[0] in all;
      FirstIsLeast(all);
    }
  }

  lemma FirstIsLeast(s: seq<int>)
    requires Ascending(s) && s != []
    ensures forall r :: r in s ==> s[0] <= r
  {
  }
}
