/** Attr::AttributeTable as a table of values: what each operation does to columns, cells,
    row flags and index lists, with no bytes in sight. attr_table.dfy proves that the
    byte-buffer implementation does exactly this; the lemmas here are about these
    functions. */
module AttrModel {
  import opened AttrLayout
  import opened AttrImage

  datatype Table = Table(
    cols: seq<AttrId>,
    rows: seq<seq<Cell>>,
    readWriteColumns: seq<int>,
    newColumns: seq<int>,
    newRows: seq<int>,
    deletedRows: seq<int>,
    userData: seq<int>,
    modified: seq<bool>,
    deleted: seq<bool>,
    isNew: seq<bool>,
    allocatedRows: nat,
    trackModifications: bool,
    isModified: bool,
    rowsModified: bool,
    inBeginAddColumns: bool,
    recordAsNewColumns: bool,
    firstNewColumn: nat)
  {
    /** The columns that have cells: between BeginAddColumns and EndAddColumns the new
        columns do not have them yet. */
    function Width(): nat {
      if inBeginAddColumns && firstNewColumn <= |cols| then firstNewColumn else |cols|
    }

    predicate HasColumn(id: AttrId) { id in cols }

    predicate InTable(r: int, c: int) { 0 <= r < |rows| && 0 <= c < Width() }

    /** The table is well-formed and its rows have cells for the first w columns. */
    ghost predicate OkAt(w: nat)
      ensures OkAt(w) ==>
        && w <= |cols|
        && |modified| == |deleted| == |isNew| == |userData| == |rows| <= allocatedRows
        && (forall r :: 0 <= r < |rows| ==> |rows[r]| == w)
        && forall c :: 0 <= c < |cols| ==> cols[c].defaultValue.InRange()
    {
      && w <= |cols|
      && |modified| == |deleted| == |isNew| == |userData| == |rows| <= allocatedRows
      && (forall r :: 0 <= r < |rows| ==> |rows[r]| == w)
      && (forall r, c :: 0 <= r < |rows| && 0 <= c < w ==> rows[r][c].Fits(cols[c].ValueType()))
      && (forall c :: 0 <= c < |cols| ==> cols[c].defaultValue.InRange())
    }

    ghost predicate Ok() {
      (inBeginAddColumns ==> firstNewColumn <= |cols|) && OkAt(Width())
    }

    /** What every typed setter checks before it writes. */
    predicate CanSet(r: int, c: int, v: Value) {
      && InTable(r, c)
      && r < |deleted| && !deleted[r]
      && v.Type() == cols[c].ValueType() && v.InRange()
    }
  }

  /** No attribute id has two columns. */
  ghost predicate Distinct(cols: seq<AttrId>) {
    forall i, j :: 0 <= i < j < |cols| ==> cols[i] != cols[j]
  }

  /** u is t with other values in its cells and other modification flags. */
  predicate CellsOnly(t: Table, u: Table) {
    && u == t.(rows := u.rows, modified := u.modified, isModified := u.isModified, rowsModified := u.rowsModified)
    && |u.rows| == |t.rows|
  }

  const EMPTY := Table([], [], [], [], [], [], [], [], [], [], 0, true, false, false, false, false, 0)

  predicate Inline(v: Value) { v.IntValue? || v.BoolValue? }

  function SetFlag(flags: seq<bool>, r: nat): (flags': seq<bool>)
    ensures |flags'| == |flags|
  {
    if r < |flags| then flags[r := true] else flags
  }

  /** A value is stored in its cell. */
  function Put(t: Table, r: nat, c: nat, v: Value): Table
    requires t.Ok() && t.InTable(r, c)
  {
    t.(rows := SetCell(t.rows, r, c, Holds(v)))
  }

  /** SetFloat4, SetString and SetVariant: the flags are kept only while tracking is on. */
  function MarkTracked(t: Table, r: nat): Table {
    if t.trackModifications then
      t.(modified := SetFlag(t.modified, r), isModified := true, rowsModified := true)
    else
      t
  }

  /** SetInt and SetBool: they set the row flag even when tracking is off, and they never
      set rowsModified. */
  function MarkUntracked(t: Table, r: nat): Table {
    t.(modified := SetFlag(t.modified, r), isModified := true)
  }

  lemma MarkedOk(t: Table, r: nat)
    requires t.Ok()
    ensures MarkTracked(t, r).Ok() && MarkUntracked(t, r).Ok()
  {
  }

  /** The typed setter for a value of this type. */
  function Set(t: Table, r: nat, c: nat, v: Value): (u: Table)
    requires t.Ok() && t.CanSet(r, c, v)
    ensures u.Ok() && CellsOnly(t, u)
  {
    if Inline(v) then MarkUntracked(Put(t, r, c, v), r) else MarkTracked(Put(t, r, c, v), r)
  }

  lemma PutOk(t: Table, r: nat, c: nat, v: Value)
    requires t.Ok() && t.CanSet(r, c, v)
    ensures Put(t, r, c, v).Ok()
  {
  }

  /** SetVariant, which follows the tracking flag for every type. */
  function SetVariant(t: Table, r: nat, c: nat, v: Value): (u: Table)
    requires t.Ok() && t.CanSet(r, c, v)
    ensures u.Ok() && CellsOnly(t, u)
  {
    MarkTracked(Put(t, r, c, v), r)
  }

  // ----- rows

  /** SetRowToDefaultValues, over the first n columns. */
  function FillRow(t: Table, r: nat, n: nat): (u: Table)
    requires t.Ok() && r < |t.rows| && !t.deleted[r] && n <= t.Width()
    ensures u.Ok() && CellsOnly(t, u)
  {
    if n == 0 then t else Set(FillRow(t, r, n - 1), r, n - 1, t.cols[n - 1].defaultValue)
  }

  /** The buffer doubles when it is full, starting with ten rows. */
  function GrownRows(t: Table): nat {
    if |t.rows| >= t.allocatedRows then
      if t.allocatedRows == 0 then 10 else 2 * t.allocatedRows
    else
      t.allocatedRows
  }

  /** The buffers have room for n rows. */
  function WithRoom(t: Table, n: nat): (u: Table)
    requires t.Ok() && |t.rows| <= n
    ensures u.Ok()
  {
    t.(allocatedRows := n)
  }

  /** The next allocated row is in use: a zeroed row has appeared at the end. */
  function UseRow(t: Table): Table {
    t.(rows := t.rows + [ZeroCells(t.cols)],
       isNew := t.isNew + [t.trackModifications],
       modified := t.modified + [false],
       deleted := t.deleted + [false])
  }

  function RecordNewRow(t: Table, r: nat): Table {
    t.(newRows := if t.trackModifications then t.newRows + [r] else t.newRows,
       userData := t.userData + [0],
       isModified := t.isModified || t.trackModifications)
  }

  /** AddRow before the default values are written. */
  function ExtendRow(t: Table): (u: Table)
    requires t.Ok() && !t.inBeginAddColumns
    ensures u.Ok() && |u.rows| == |t.rows| + 1 && u.deleted == t.deleted + [false]
    ensures u.cols == t.cols && u.Width() == t.Width() && !u.inBeginAddColumns
  {
    RecordNewRow(UseRow(t.(allocatedRows := GrownRows(t))), |t.rows|)
  }

  /** While there is room the buffers do not grow. */
  lemma ExtendRowInPlace(t: Table)
    requires t.Ok() && !t.inBeginAddColumns && |t.rows| < t.allocatedRows
    ensures RecordNewRow(UseRow(t), |t.rows|) == ExtendRow(t)
  {
  }

  function AddRow(t: Table): (u: Table)
    requires t.Ok() && !t.inBeginAddColumns
    ensures u.Ok() && CellsOnly(ExtendRow(t), u)
  {
    FillRow(ExtendRow(t), |t.rows|, t.Width())
  }

  /** Growing first and extending then is the same as extending. */
  lemma AddRowAfterGrowing(t: Table)
    requires t.Ok() && !t.inBeginAddColumns
    ensures |t.rows| < GrownRows(t)
    ensures AddRow(t) == FillRow(ExtendRow(WithRoom(t, GrownRows(t))), |t.rows|, t.Width())
  {
    assert ExtendRow(WithRoom(t, GrownRows(t))) == ExtendRow(t);
  }

  function FreedCell(v: Cell): Cell {
    if v.Type() == StringType then NullString else v
  }

  /** DeleteRowData, over the first n columns: the string objects of the row are gone. */
  function FreedRow(row: seq<Cell>, n: nat): (freed: seq<Cell>)
    ensures |freed| == |row|
  {
    seq(|row|, c requires 0 <= c < |row| => if c < n then FreedCell(row[c]) else row[c])
  }

  /** The cells of the table after the strings of row r have been deleted. */
  function FreeRow(t: Table, r: nat, n: nat): (u: Table)
    requires t.Ok() && r < |t.rows|
    ensures u.Ok()
  {
    t.(rows := t.rows[r := FreedRow(t.rows[r], n)])
  }

  function FreeCell(t: Table, r: nat, c: nat): (u: Table)
    requires t.Ok() && t.InTable(r, c)
    ensures u.Ok()
  {
    t.(rows := SetCell(t.rows, r, c, FreedCell(t.rows[r][c])))
  }

  lemma FreeCellIs(t: Table, r: nat, c: nat)
    requires t.Ok() && t.InTable(r, c)
    ensures FreeCell(t, r, c)
            == if t.cols[c].ValueType() == StringType then t.(rows := SetCell(t.rows, r, c, NullString)) else t
  {
    assert t.rows[r][c].Fits(t.cols[c].ValueType());
    assert t.rows[r][c := t.rows[r][c]] == t.rows[r];
  }

  lemma FreeNothing(t: Table, r: nat)
    requires t.Ok() && r < |t.rows|
    ensures FreeRow(t, r, 0) == t
  {
    assert FreedRow(t.rows[r], 0) == t.rows[r];
  }

  lemma FreeNext(t: Table, r: nat, n: nat)
    requires t.Ok() && t.InTable(r, n)
    ensures FreeRow(t, r, n).InTable(r, n)
    ensures FreeCell(FreeRow(t, r, n), r, n) == FreeRow(t, r, n + 1)
  {
    assert FreedRow(t.rows[r], n + 1) == FreedRow(t.rows[r], n)[n := FreedCell(t.rows[r][n])];
  }

  /** The nested loops of Delete: columns before c are done, and column c up to row n. */
  function FreeUpTo(t: Table, c: nat, n: nat): (u: Table)
    requires t.Ok()
    ensures u.Ok() && |u.rows| == |t.rows| && u.cols == t.cols && u.Width() == t.Width()
            && !u.inBeginAddColumns == !t.inBeginAddColumns
  {
    t.(rows := FreedRows(t.rows, c, n))
  }

  function FreedRows(rows: seq<seq<Cell>>, c: nat, n: nat): (freed: seq<seq<Cell>>)
    ensures |freed| == |rows|
    ensures forall r :: 0 <= r < |rows| ==> freed[r] == FreedRow(rows[r], if r < n then c + 1 else c)
  {
    seq(|rows|, r requires 0 <= r < |rows| => FreedRow(rows[r], if r < n then c + 1 else c))
  }

  lemma FreeUpToNext(t: Table, c: nat, n: nat)
    requires t.Ok() && t.InTable(n, c)
    ensures FreeCell(FreeUpTo(t, c, n), n, c) == FreeUpTo(t, c, n + 1)
  {
    assert FreedRow(t.rows[n], c + 1) == FreedRow(t.rows[n], c)[c := FreedCell(t.rows[n][c])];
    assert FreedRows(t.rows, c, n + 1) == FreedRows(t.rows, c, n)[n := FreedRow(t.rows[n], c + 1)];
  }

  lemma FreeUpToNextColumn(t: Table, c: nat)
    requires t.Ok()
    ensures FreeUpTo(t, c, |t.rows|) == FreeUpTo(t, c + 1, 0)
  {
    assert FreedRows(t.rows, c, |t.rows|) == FreedRows(t.rows, c + 1, 0);
  }

  /** A column of inline values has nothing to delete. */
  lemma FreeUpToInline(t: Table, c: nat)
    requires t.Ok() && c < t.Width() && t.cols[c].ValueType() != StringType
    ensures FreeUpTo(t, c, 0) == FreeUpTo(t, c + 1, 0)
  {
    forall r | 0 <= r < |t.rows|
      ensures FreedRow(t.rows[r], c) == FreedRow(t.rows[r], c + 1)
    {
      assert t.rows[r][c].Fits(t.cols[c].ValueType());
    }
    assert FreedRows(t.rows, c, 0) == FreedRows(t.rows, c + 1, 0);
  }

  lemma FreeNothingYet(t: Table)
    requires t.Ok()
    ensures FreeUpTo(t, 0, 0) == t
  {
    assert FreedRows(t.rows, 0, 0) == t.rows by {
      forall r | 0 <= r < |t.rows|
        ensures FreedRow(t.rows[r], 0) == t.rows[r]
      {
      }
    }
  }

  /** After the last column no string is left. */
  lemma AllFreed(t: Table)
    requires t.Ok()
    ensures forall r, c :: t.InTable(r, c) && t.cols[c].ValueType() == StringType ==>
              FreeUpTo(t, t.Width(), 0).rows[r][c] == NullString
  {
    forall r, c | t.InTable(r, c) && t.cols[c].ValueType() == StringType
      ensures FreeUpTo(t, t.Width(), 0).rows[r][c] == NullString
    {
      assert t.rows[r][c].Fits(t.cols[c].ValueType());
    }
  }

  function RecordDeletedRow(t: Table, r: nat): Table {
    if t.trackModifications then
      t.(deletedRows := t.deletedRows + [r], deleted := SetFlag(t.deleted, r), isModified := true)
    else
      t
  }

  function FlagDeleted(t: Table, r: nat): (u: Table)
    requires t.Ok() && !t.inBeginAddColumns && r < |t.rows| && !t.deleted[r]
    ensures u.Ok()
  {
    RecordDeletedRow(t, r).(userData := t.userData[r := 0])
  }

  /** With tracking off the row is not even flagged, but its strings are gone. */
  function DeleteRow(t: Table, r: nat): (u: Table)
    requires t.Ok() && !t.inBeginAddColumns && r < |t.rows| && !t.deleted[r]
    ensures u.Ok() && |u.rows| == |t.rows| && !u.inBeginAddColumns
    ensures forall k :: 0 <= k < |t.rows| && k != r ==> u.deleted[k] == t.deleted[k]
  {
    FreeRow(FlagDeleted(t, r), r, |t.cols|)
  }

  lemma DeleteRowKeeps(t: Table, r: nat)
    requires t.Ok() && !t.inBeginAddColumns && r < |t.rows| && !t.deleted[r]
    ensures var u := DeleteRow(t, r);
            && u.cols == t.cols && u.trackModifications == t.trackModifications
            && u.modified == t.modified && u.rowsModified == t.rowsModified
  {
    hide FreedRow, Table.OkAt;
  }

  /** DeleteAllRows, up to row n. */
  function DeleteRows(t: Table, n: nat): (u: Table)
    requires t.Ok() && !t.inBeginAddColumns && n <= |t.rows| && NoneDeleted(t)
    ensures u.Ok() && |u.rows| == |t.rows| && !u.inBeginAddColumns
    ensures forall k :: n <= k < |t.rows| ==> !u.deleted[k]
  {
    if n == 0 then t else DeleteRow(DeleteRows(t, n - 1), n - 1)
  }

  /** A row that can be read through the typed getters: no string object is missing. */
  predicate Readable(row: seq<Cell>) {
    forall c :: 0 <= c < |row| ==> row[c] != NullString
  }

  lemma SetKeepsRow(t: Table, r: nat, c: nat, v: Value, k: nat)
    requires t.Ok() && t.CanSet(r, c, v) && k < |t.rows| && k != r
    ensures Set(t, r, c, v).rows[k] == t.rows[k]
  {
  }

  lemma CellCanBeSet(t: Table, u: Table, from: nat, to: nat, c: nat)
    requires t.Ok() && t.InTable(from, c) && Readable(t.rows[from])
    requires u.Ok() && CellsOnly(t, u) && to < |t.rows| && !t.deleted[to]
    ensures t.rows[from][c].Holds? && u.CanSet(to, c, t.rows[from][c].value)
  {
    assert t.rows[from][c].Fits(t.cols[c].ValueType());
  }

  /** The cell loop of CopyRow, over the first n columns. */
  function CopyCells(t: Table, from: nat, to: nat, n: nat): (u: Table)
    requires t.Ok() && !t.inBeginAddColumns && from < |t.rows| && to < |t.rows| && n <= |t.cols|
    requires from != to && Readable(t.rows[from]) && !t.deleted[to]
    ensures u.Ok() && CellsOnly(t, u)
    ensures u.rows[from] == t.rows[from]
  {
    hide Set, Table.OkAt;
    if n == 0 then t else
    var u := CopyCells(t, from, to, n - 1);
    CellCanBeSet(t, u, from, to, n - 1);
    SetKeepsRow(u, to, n - 1, t.rows[from][n - 1].value, from);
    Set(u, to, n - 1, t.rows[from][n - 1].value)
  }

  function CopyRow(t: Table, from: nat): (u: Table)
    requires t.Ok() && !t.inBeginAddColumns && from < |t.rows| && Readable(t.rows[from])
    ensures u.Ok()
  {
    AddRowIs(t);
    CopyCells(AddRow(t), from, |t.rows|, |t.cols|)
  }

  lemma AddRowShape(t: Table)
    requires t.Ok() && !t.inBeginAddColumns
    ensures var u := AddRow(t);
            && u.cols == t.cols && !u.inBeginAddColumns && |u.rows| == |t.rows| + 1 && u.deleted == t.deleted + [false]
            && (forall r :: 0 <= r < |t.rows| ==> u.rows[r] == t.rows[r])
            && (NoneDeleted(t) ==> NoneDeleted(u))
  {
    AddRowIs(t);
  }

  // ----- columns

  /** InternalAddColumnHelper. */
  function AppendColumn(t: Table, id: AttrId, record: bool): Table {
    t.(cols := t.cols + [id],
       newColumns := if t.trackModifications && record then t.newColumns + [|t.cols|] else t.newColumns,
       isModified := t.isModified || t.trackModifications,
       readWriteColumns := if id.readWrite then t.readWriteColumns + [|t.cols|] else t.readWriteColumns)
  }

  lemma AppendedOk(t: Table, id: AttrId, record: bool, w: nat)
    requires t.OkAt(w) && id.defaultValue.InRange()
    ensures AppendColumn(t, id, record).OkAt(w)
  {
  }

  /** SetColumnToDefaultValues, over the first n rows. */
  function FillColumn(t: Table, c: nat, n: nat): (u: Table)
    requires t.Ok() && c < t.Width() && n <= |t.rows| && NoneDeleted(t)
    ensures u.Ok() && CellsOnly(t, u)
  {
    if n == 0 then t else Set(FillColumn(t, c, n - 1), n - 1, c, t.cols[c].defaultValue)
  }

  predicate NoneDeleted(t: Table) {
    forall r :: 0 <= r < |t.deleted| ==> !t.deleted[r]
  }

  /** The rows get zeroed cells for the columns that had none; with rows in the table the
      buffer is reallocated to exactly the rows in use. */
  function WidenTable(t: Table, settled: nat): Table
    requires settled <= |t.cols|
  {
    t.(rows := AppendCells(t.rows, ZeroCells(t.cols[settled..])),
       allocatedRows := if |t.rows| > 0 then |t.rows| else t.allocatedRows)
  }

  /** The buffer has room for the new pitch only if it was empty or gets reallocated. */
  predicate CanAddColumns(t: Table) {
    (|t.rows| > 0 || t.allocatedRows == 0) && NoneDeleted(t)
  }

  lemma WidenedOkAt(t: Table, settled: nat)
    requires t.OkAt(settled)
    ensures WidenTable(t, settled).OkAt(|t.cols|)
  {
    var u := WidenTable(t, settled);
    forall r, c | 0 <= r < |u.rows| && 0 <= c < |u.cols|
      ensures u.rows[r][c].Fits(u.cols[c].ValueType())
    {
      if c >= settled {
        assert u.rows[r][c] == ZeroCells(t.cols[settled..])[c - settled];
      }
    }
  }

  lemma WidenedOk(t: Table, settled: nat, u: Table)
    requires t.OkAt(settled)
    requires u == WidenTable(t, settled).(inBeginAddColumns := false)
    ensures u.Ok() && u.Width() == |t.cols|
  {
    WidenedOkAt(t, settled);
  }

  function AddColumn(t: Table, id: AttrId, record: bool): (u: Table)
    requires t.Ok() && !t.HasColumn(id) && id.defaultValue.InRange()
    requires !t.inBeginAddColumns ==> CanAddColumns(t)
    ensures u.Ok() && u.cols == t.cols + [id] && |u.rows| == |t.rows| && u.deleted == t.deleted
    ensures u.inBeginAddColumns == t.inBeginAddColumns
  {
    var t1 := AppendColumn(t, id, record);
    if t.inBeginAddColumns then t1 else
    var t2 := WidenTable(t1, |t.cols|);
    WidenedOk(t1, |t.cols|, t2);
    FillColumn(t2, |t.cols|, |t.rows|)
  }

  function BeginAddColumns(t: Table, record: bool): (u: Table)
    requires t.Ok() && !t.inBeginAddColumns
    ensures u.Ok()
  {
    t.(inBeginAddColumns := true, recordAsNewColumns := record, firstNewColumn := |t.cols|)
  }

  /** The default fill of EndAddColumns: columns lo up to hi, in order. */
  function FillColumns(t: Table, lo: nat, hi: nat): (u: Table)
    requires t.Ok() && lo <= hi <= t.Width() && NoneDeleted(t)
    ensures u.Ok() && CellsOnly(t, u)
  {
    if lo == hi then t else FillColumn(FillColumns(t, lo, hi - 1), hi - 1, |t.rows|)
  }

  lemma LeftOk(t: Table)
    requires t.Ok() && t.inBeginAddColumns
    ensures t.(inBeginAddColumns := false).OkAt(t.firstNewColumn)
  {
  }

  function EndAddColumns(t: Table): (u: Table)
    requires t.Ok() && t.inBeginAddColumns && CanAddColumns(t)
    ensures u.Ok() && u.cols == t.cols && |u.rows| == |t.rows|
  {
    var t1 := t.(inBeginAddColumns := false);
    if t.firstNewColumn < |t.cols| then
      var t2 := WidenTable(t1, t.firstNewColumn);
      WidenedOk(t1, t.firstNewColumn, t2);
      FillColumns(t2, t.firstNewColumn, |t.cols|)
    else
      t1
  }

  // ----- copying from another table

  /** The index of a column, or the number of columns. */
  function IndexOf(cols: seq<AttrId>, id: AttrId): (c: nat)
    ensures c <= |cols|
    ensures c < |cols| ==> cols[c] == id
    ensures id in cols ==> c < |cols|
    ensures forall d :: 0 <= d < c ==> cols[d] != id
  {
    if cols == [] then 0 else if cols[0] == id then 0 else 1 + IndexOf(cols[1..], id)
  }

  /** One round of CopyExtRow: the column is created if it is missing and that is wanted,
      and then the value is written if the column exists. */
  function CopyExtCell(t: Table, to: nat, id: AttrId, v: Value, create: bool): (u: Table)
    requires t.Ok() && !t.inBeginAddColumns && to < |t.rows| && !t.deleted[to]
    requires create ==> NoneDeleted(t)
    requires id.defaultValue.InRange() && v.InRange() && v.Type() == id.ValueType()
    ensures u.Ok() && !u.inBeginAddColumns && |u.rows| == |t.rows| && u.deleted == t.deleted
  {
    SetIfPresent(EnsureColumn(t, id, create), to, id, v)
  }

  function EnsureColumn(t: Table, id: AttrId, create: bool): (u: Table)
    requires t.Ok() && !t.inBeginAddColumns && id.defaultValue.InRange()
    requires create ==> NoneDeleted(t) && |t.rows| > 0
    ensures u.Ok() && !u.inBeginAddColumns && |u.rows| == |t.rows| && u.deleted == t.deleted
  {
    if create && !t.HasColumn(id) then AddColumn(t, id, true) else t
  }

  function SetIfPresent(t: Table, r: nat, id: AttrId, v: Value): (u: Table)
    requires t.Ok() && !t.inBeginAddColumns && r < |t.rows| && !t.deleted[r]
    requires v.InRange() && v.Type() == id.ValueType()
    ensures u.Ok() && CellsOnly(t, u)
  {
    if t.HasColumn(id) then Set(t, r, IndexOf(t.cols, id), v) else t
  }

  /** A row that belongs to the columns, and can be read. */
  predicate RowOf(cols: seq<AttrId>, row: seq<Cell>) {
    && |row| == |cols|
    && forall c :: 0 <= c < |cols| ==>
         row[c].Holds? && row[c].value.InRange() && row[c].value.Type() == cols[c].ValueType()
         && cols[c].defaultValue.InRange()
  }

  /** The loop of CopyExtRow, over the first n columns of the other table. */
  function CopyExtCells(t: Table, to: nat, ids: seq<AttrId>, row: seq<Cell>, create: bool, n: nat): (u: Table)
    requires t.Ok() && !t.inBeginAddColumns && to < |t.rows| && !t.deleted[to]
    requires create ==> NoneDeleted(t)
    requires RowOf(ids, row) && n <= |ids|
    ensures u.Ok() && !u.inBeginAddColumns && |u.rows| == |t.rows| && u.deleted == t.deleted
  {
    if n == 0 then t
    else CopyExtCell(CopyExtCells(t, to, ids, row, create, n - 1), to, ids[n - 1], row[n - 1].value, create)
  }

  lemma CopyExtCellsNext(t: Table, to: nat, ids: seq<AttrId>, row: seq<Cell>, create: bool, n: nat)
    requires t.Ok() && !t.inBeginAddColumns && to < |t.rows| && !t.deleted[to]
    requires create ==> NoneDeleted(t)
    requires RowOf(ids, row) && n < |ids|
    ensures var u := CopyExtCells(t, to, ids, row, create, n);
            && !u.inBeginAddColumns && to < |u.rows| && !u.deleted[to] && (create ==> NoneDeleted(u))
            && CopyExtCells(t, to, ids, row, create, n + 1) == CopyExtCell(u, to, ids[n], row[n].value, create)
    ensures ids[n].defaultValue.InRange() && row[n].value.InRange() && row[n].value.Type() == ids[n].ValueType()
    ensures n < |row| && row[n] == Holds(row[n].value)
  {
  }

  /** A new row at its defaults, then the given row of another table. */
  function CopyExtRow(t: Table, ids: seq<AttrId>, row: seq<Cell>, create: bool): (u: Table)
    requires t.Ok() && !t.inBeginAddColumns && (create ==> NoneDeleted(t)) && RowOf(ids, row)
    ensures u.Ok() && !u.inBeginAddColumns && |u.rows| == |t.rows| + 1 && u.deleted == t.deleted + [false]
  {
    AddRowIs(t);
    CopyExtCells(AddRow(t), |t.rows|, ids, row, create, |ids|)
  }

  lemma ReadableFits(t: Table, r: nat)
    requires t.Ok() && !t.inBeginAddColumns && r < |t.rows| && Readable(t.rows[r])
    ensures RowOf(t.cols, t.rows[r])
  {
    forall c | 0 <= c < |t.cols|
      ensures t.rows[r][c].Fits(t.cols[c].ValueType())
    {
    }
  }

  // ----- tracking and storage

  function AllFalse(n: nat): (flags: seq<bool>)
    ensures |flags| == n && forall r :: 0 <= r < n ==> !flags[r]
  {
    seq(n, _ => false)
  }

  function ResetModifiedState(t: Table): (u: Table)
    requires t.Ok()
    ensures u.Ok()
  {
    t.(newColumns := [], newRows := [], deletedRows := [],
       modified := AllFalse(|t.rows|), isNew := AllFalse(|t.rows|), deleted := AllFalse(|t.rows|),
       isModified := false, rowsModified := false)
  }

  function ClearNewRowFlags(t: Table): (u: Table)
    requires t.Ok()
    ensures u.Ok()
  {
    t.(newRows := [], isNew := AllFalse(|t.rows|))
  }

  /** Only the list is emptied; the rows stay flagged. */
  function ClearDeletedRowsFlags(t: Table): (u: Table)
    requires t.Ok()
    ensures u.Ok()
  {
    t.(deletedRows := [])
  }

  /** Delete, which is all that Clear does. The columns stay, and so do the index lists. */
  function Clear(t: Table): (u: Table)
    requires t.Ok() && !t.inBeginAddColumns
    ensures u.Ok()
  {
    t.(rows := [], userData := [], modified := [], deleted := [], isNew := [],
       allocatedRows := 0, isModified := false, rowsModified := false)
  }

  function ReserveRows(t: Table, num: nat): (u: Table)
    requires t.Ok()
    ensures u.Ok()
  {
    t.(allocatedRows := t.allocatedRows + num)
  }

  // ----- searching

  datatype Attribute = Attribute(id: AttrId, value: Value)

  /** The attribute has a column, and a value of the column's type. */
  predicate Known(t: Table, attr: Attribute) {
    t.HasColumn(attr.id) && attr.value.Type() == attr.id.ValueType()
  }

  /** Rows that are not flagged deleted have all their strings; the search dereferences
      them. */
  predicate Searchable(t: Table) {
    forall r :: 0 <= r < |t.rows| && r < |t.deleted| && !t.deleted[r] ==> Readable(t.rows[r])
  }

  /** The same for one column: a search on a column dereferences the strings of that
      column only. */
  predicate SearchableIn(t: Table, id: AttrId) {
    forall r :: 0 <= r < |t.rows| && r < |t.deleted| && !t.deleted[r] ==> Filled(t, r, IndexOf(t.cols, id))
  }

  predicate Filled(t: Table, r: nat, c: nat)
    requires r < |t.rows|
  {
    c < |t.rows[r]| ==> t.rows[r][c] != NullString
  }

  predicate HasValue(t: Table, attr: Attribute, r: int)
    requires 0 <= r < |t.rows|
  {
    var c := IndexOf(t.cols, attr.id);
    c < |t.rows[r]| && t.rows[r][c] == Holds(attr.value)
  }

  predicate RowMatches(t: Table, attrs: seq<Attribute>, r: int)
    requires 0 <= r < |t.rows|
  {
    forall k :: 0 <= k < |attrs| ==> HasValue(t, attrs[k], r)
  }

  /** The matching rows among the first n, in ascending order. */
  function Matches(t: Table, attrs: seq<Attribute>, n: nat): (found: seq<int>)
    requires n <= |t.rows| == |t.deleted|
  {
    if n == 0 then []
    else Matches(t, attrs, n - 1) + if !t.deleted[n - 1] && RowMatches(t, attrs, n - 1) then [n - 1] else []
  }

  function FirstOnly(found: seq<int>, firstMatchOnly: bool): seq<int> {
    if firstMatchOnly && found != [] then found[..1] else found
  }

  lemma MatchesOne(t: Table, attr: Attribute, r: nat)
    requires r < |t.rows|
    ensures RowMatches(t, [attr], r) <==> HasValue(t, attr, r)
  {
    assert [attr][0] == attr;
  }

  lemma {:induction false} MatchesGrow(t: Table, attrs: seq<Attribute>, m: nat, n: nat)
    requires m <= n <= |t.rows| == |t.deleted|
    ensures Matches(t, attrs, m) <= Matches(t, attrs, n)
  {
    if m < n {
      MatchesGrow(t, attrs, m, n - 1);
    }
  }

  /** A row that matches after none has matched is what a search for the first match
      finds. */
  lemma FirstMatch(t: Table, attrs: seq<Attribute>, r: nat)
    requires r < |t.rows| == |t.deleted|
    requires Matches(t, attrs, r) == [] && !t.deleted[r] && RowMatches(t, attrs, r)
    ensures FirstOnly(Matches(t, attrs, |t.rows|), true) == [r]
  {
    hide RowMatches;
    MatchesGrow(t, attrs, r + 1, |t.rows|);
    assert Matches(t, attrs, r + 1) == [r];
  }

  /** GetModifiedRowsExcludeNewAndDeletedRows, over the first n rows. */
  function OnlyModified(t: Table, n: nat): seq<int>
    requires n <= |t.rows| == |t.modified| == |t.isNew| == |t.deleted|
  {
    if n == 0 then []
    else OnlyModified(t, n - 1) + if t.modified[n - 1] && !t.isNew[n - 1] && !t.deleted[n - 1] then [n - 1] else []
  }

  // ----- what the fills amount to

  function Defaults(cols: seq<AttrId>): (cells: seq<Cell>)
    ensures |cells| == |cols|
  {
    seq(|cols|, c requires 0 <= c < |cols| => Holds(cols[c].defaultValue))
  }

  /** Whether writing this value sets the row's modified flag. */
  predicate Touches(t: Table, v: Value) { Inline(v) || t.trackModifications }

  /** Whether writing this value sets rowsModified. */
  predicate Raises(t: Table, v: Value) { !Inline(v) && t.trackModifications }

  ghost predicate AnyTouches(t: Table, cols: seq<AttrId>) {
    exists c :: 0 <= c < |cols| && Touches(t, cols[c].defaultValue)
  }

  ghost predicate AnyRaises(t: Table, cols: seq<AttrId>) {
    exists c :: 0 <= c < |cols| && Raises(t, cols[c].defaultValue)
  }

  /** Writing a cell: the flags that are set do not depend on the value, only on its type. */
  lemma SetIs(t: Table, r: nat, c: nat, v: Value)
    requires t.Ok() && t.CanSet(r, c, v)
    ensures Set(t, r, c, v) == t.(
              rows := SetCell(t.rows, r, c, Holds(v)),
              modified := if Touches(t, v) then t.modified[r := true] else t.modified,
              isModified := t.isModified || Touches(t, v),
              rowsModified := t.rowsModified || Raises(t, v))
  {
  }

  lemma SetVariantIs(t: Table, r: nat, c: nat, v: Value)
    requires t.Ok() && t.CanSet(r, c, v)
    ensures SetVariant(t, r, c, v) == t.(
              rows := SetCell(t.rows, r, c, Holds(v)),
              modified := if t.trackModifications then t.modified[r := true] else t.modified,
              isModified := t.isModified || t.trackModifications,
              rowsModified := t.rowsModified || t.trackModifications)
  {
  }

  function FilledTo(t: Table, row: seq<Cell>, n: nat): (cells: seq<Cell>)
    requires n <= |t.cols| && n <= |row|
    ensures |cells| == |row|
  {
    Defaults(t.cols[..n]) + row[n..]
  }

  lemma FilledToNext(t: Table, row: seq<Cell>, n: nat)
    requires n < |t.cols| && n < |row|
    ensures FilledTo(t, row, n)[n := Holds(t.cols[n].defaultValue)] == FilledTo(t, row, n + 1)
  {
    assert t.cols[..n + 1] == t.cols[..n] + [t.cols[n]];
  }

  /** Row r with its first n cells at their defaults. */
  ghost function FilledRow(t: Table, r: nat, n: nat): Table
    requires r < |t.rows| && r < |t.modified| && n <= |t.cols| && n <= |t.rows[r]|
  {
    var done := t.cols[..n];
    t.(rows := t.rows[r := FilledTo(t, t.rows[r], n)],
       modified := if AnyTouches(t, done) then t.modified[r := true] else t.modified,
       isModified := t.isModified || AnyTouches(t, done),
       rowsModified := t.rowsModified || AnyRaises(t, done))
  }

  lemma FilledRowNext(t: Table, u: Table, r: nat, n: nat)
    requires r < |t.rows| && r < |t.modified| && n < |t.cols| && n < |t.rows[r]|
    requires u == FilledRow(t, r, n) && u.Ok() && u.CanSet(r, n, t.cols[n].defaultValue)
    ensures Set(u, r, n, t.cols[n].defaultValue) == FilledRow(t, r, n + 1)
  {
    var id := t.cols[n];
    SetIs(u, r, n, id.defaultValue);
    FilledToNext(t, t.rows[r], n);
    AnyOfLast(t, t.cols[..n], id);
    assert t.cols[..n + 1] == t.cols[..n] + [id];
  }

  lemma NothingFilledInRow(t: Table, r: nat)
    requires r < |t.rows| && r < |t.modified|
    ensures FilledRow(t, r, 0) == t
  {
    assert FilledTo(t, t.rows[r], 0) == t.rows[r];
  }

  lemma {:induction false} FillRowIs(t: Table, r: nat, n: nat)
    requires t.Ok() && r < |t.rows| && !t.deleted[r] && n <= t.Width()
    ensures FillRow(t, r, n) == FilledRow(t, r, n)
  {
    hide Table.OkAt, Set, AnyTouches, AnyRaises;
    if n == 0 {
      NothingFilledInRow(t, r);
    } else {
      FillRowIs(t, r, n - 1);
      FilledRowNext(t, FillRow(t, r, n - 1), r, n - 1);
    }
  }

  lemma AnyOfLast(t: Table, cols: seq<AttrId>, id: AttrId)
    ensures AnyTouches(t, cols + [id]) <==> AnyTouches(t, cols) || Touches(t, id.defaultValue)
    ensures AnyRaises(t, cols + [id]) <==> AnyRaises(t, cols) || Raises(t, id.defaultValue)
  {
    var all := cols + [id];
    assert all[|cols|] == id;
    assert forall c :: 0 <= c < |cols| ==> all[c] == cols[c];
  }

  /** AddRow appends one row of the columns' default values and changes no other row. */
  lemma AddRowIs(t: Table)
    requires t.Ok() && !t.inBeginAddColumns
    ensures AddRow(t) == ExtendRow(t).(
              rows := t.rows + [Defaults(t.cols)],
              modified := t.modified + [AnyTouches(t, t.cols)],
              isModified := t.isModified || t.trackModifications || AnyTouches(t, t.cols),
              rowsModified := t.rowsModified || AnyRaises(t, t.cols))
  {
    var u := ExtendRow(t);
    FillRowIs(u, |t.rows|, |t.cols|);
    assert t.cols[..|t.cols|] == t.cols;
    assert AnyTouches(u, t.cols) == AnyTouches(t, t.cols) && AnyRaises(u, t.cols) == AnyRaises(t, t.cols);
    assert FilledTo(u, u.rows[|t.rows|], |t.cols|) == Defaults(t.cols);
    assert u.rows[|t.rows| := Defaults(t.cols)] == t.rows + [Defaults(t.cols)];
    assert AnyTouches(t, t.cols) ==> u.modified[|t.rows| := true] == t.modified + [true];
  }

  function FillCells(rows: seq<seq<Cell>>, c: nat, v: Cell, n: nat): (rows': seq<seq<Cell>>)
    requires forall r :: 0 <= r < |rows| ==> c < |rows[r]|
    requires n <= |rows|
    ensures |rows'| == |rows|
  {
    seq(|rows|, (r: nat) requires r < |rows| && c < |rows[r]| => if r < n then rows[r][c := v] else rows[r])
  }

  function SetFlags(flags: seq<bool>, n: nat): (flags': seq<bool>)
    ensures |flags'| == |flags|
  {
    seq(|flags|, r requires 0 <= r < |flags| => r < n || flags[r])
  }

  /** Column c with its first n cells at the default. */
  ghost function FilledColumn(t: Table, c: nat, n: nat): Table
    requires c < |t.cols| && n <= |t.rows| && forall r :: 0 <= r < |t.rows| ==> c < |t.rows[r]|
  {
    var v := t.cols[c].defaultValue;
    t.(rows := FillCells(t.rows, c, Holds(v), n),
       modified := if Touches(t, v) then SetFlags(t.modified, n) else t.modified,
       isModified := t.isModified || (n > 0 && Touches(t, v)),
       rowsModified := t.rowsModified || (n > 0 && Raises(t, v)))
  }

  lemma FilledColumnNext(t: Table, u: Table, c: nat, n: nat)
    requires c < |t.cols| && n < |t.rows| && forall r :: 0 <= r < |t.rows| ==> c < |t.rows[r]|
    requires u == FilledColumn(t, c, n) && u.Ok() && u.CanSet(n, c, t.cols[c].defaultValue)
    ensures Set(u, n, c, t.cols[c].defaultValue) == FilledColumn(t, c, n + 1)
  {
    var v := t.cols[c].defaultValue;
    SetIs(u, n, c, v);
    assert FillCells(t.rows, c, Holds(v), n)[n := t.rows[n][c := Holds(v)]] == FillCells(t.rows, c, Holds(v), n + 1);
    assert SetFlags(t.modified, n)[n := true] == SetFlags(t.modified, n + 1);
  }

  lemma NothingFilled(t: Table, c: nat)
    requires c < |t.cols| && forall r :: 0 <= r < |t.rows| ==> c < |t.rows[r]|
    ensures FilledColumn(t, c, 0) == t
  {
    assert FillCells(t.rows, c, Holds(t.cols[c].defaultValue), 0) == t.rows;
    assert SetFlags(t.modified, 0) == t.modified;
  }

  lemma {:induction false} FillColumnIs(t: Table, c: nat, n: nat)
    requires t.Ok() && c < t.Width() && n <= |t.rows| && NoneDeleted(t)
    ensures FillColumn(t, c, n) == FilledColumn(t, c, n)
  {
    hide Table.OkAt, Set, SetFlags, FillCells;
    if n == 0 {
      NothingFilled(t, c);
    } else {
      FillColumnIs(t, c, n - 1);
      FilledColumnNext(t, FillColumn(t, c, n - 1), c, n - 1);
    }
  }
}
