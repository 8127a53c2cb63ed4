/** Searching an attribute table: which rows are found, and when the table can be searched
    at all. */
module AttrSearch {
  import opened AttrLayout
  import opened AttrImage
  import opened AttrModel
  import opened AttrCopy
  import opened AttrTracking

  // ----- what is found

  predicate Ascending(s: seq<int>) {
    forall i, j :: 0 <= i < j < |s| ==> s[i] < s[j]
  }

  /** A search finds exactly the matching rows that are not flagged deleted, in ascending
      order. */
  lemma {:induction false} MatchesIs(t: Table, attrs: seq<Attribute>, n: nat)
    requires n <= |t.rows| == |t.deleted|
    ensures Ascending(Matches(t, attrs, n))
    ensures forall r :: r in Matches(t, attrs, n) <==> 0 <= r < n && !t.deleted[r] && RowMatches(t, attrs, r)
  {
    if n > 0 {
      MatchesIs(t, attrs, n - 1);
      var before := Matches(t, attrs, n - 1);
      assert forall i :: 0 <= i < |before| ==> before[i] in before;
    }
  }

  /** Two ascending lists of the same rows are the same list. */
  lemma {:induction false} SameAscending(a: seq<int>, b: seq<int>)
    requires Ascending(a) && Ascending(b) && forall r :: r in a <==> r in b
    ensures a == b
  {
    if a != [] && b != [] {
      var n, m := |a| - 1, |b| - 1;
      assert a[n] in b && b[m] in a;
      forall r | r in a[..n] || r in b[..m]
        ensures r in a[..n] && r in b[..m]
      {
        assert r < a[n] && r < b[m];
        assert r in a && r in b;
      }
      SameAscending(a[..n], b[..m]);
    } else {
      FirstIn(a);
      FirstIn(b);
    }
  }

  lemma FirstIn(s: seq<int>)
    ensures s != [] ==> s[0] in s
  {
  }

  function Both(a: seq<int>, b: seq<int>): (c: seq<int>)
    ensures forall r :: r in c <==> r in a && r in b
  {
    if a == [] then [] else
    var n := |a| - 1;
    if a[n] in b then Both(a[..n], b) + [a[n]] else Both(a[..n], b)
  }

  lemma {:induction false} BothAscending(a: seq<int>, b: seq<int>)
    requires Ascending(a)
    ensures Ascending(Both(a, b))
  {
    if a != [] {
      var n := |a| - 1;
      BothAscending(a[..n], b);
      forall i | 0 <= i < |Both(a[..n], b)|
        ensures Both(a[..n], b)[i] < a[n]
      {
        assert Both(a[..n], b)[i] in a[..n];
      }
    }
  }

  /** Searching for more attributes intersects the results. */
  lemma MatchesAll(t: Table, xs: seq<Attribute>, ys: seq<Attribute>, n: nat)
    requires n <= |t.rows| == |t.deleted|
    ensures Matches(t, xs + ys, n) == Both(Matches(t, xs, n), Matches(t, ys, n))
  {
    MatchesIs(t, xs, n);
    MatchesIs(t, ys, n);
    MatchesIs(t, xs + ys, n);
    forall r | 0 <= r < n
      ensures RowMatches(t, xs + ys, r) <==> RowMatches(t, xs, r) && RowMatches(t, ys, r)
    {
      MatchesBoth(t, xs, ys, r);
    }
    BothAscending(Matches(t, xs, n), Matches(t, ys, n));
    SameAscending(Matches(t, xs + ys, n), Both(Matches(t, xs, n), Matches(t, ys, n)));
  }

  lemma MatchesBoth(t: Table, xs: seq<Attribute>, ys: seq<Attribute>, r: nat)
    requires r < |t.rows|
    ensures RowMatches(t, xs + ys, r) <==> RowMatches(t, xs, r) && RowMatches(t, ys, r)
  {
    if RowMatches(t, xs + ys, r) {
      assert forall k :: 0 <= k < |xs| ==> (xs + ys)[k] == xs[k];
      forall k | 0 <= k < |ys|
        ensures HasValue(t, ys[k], r)
      {
        assert (xs + ys)[|xs| + k] == ys[k];
      }
    }
  }

  // ----- when a table can be searched

  /** In rows that are not flagged deleted, the first w cells can be read. */
  predicate ReadableTo(t: Table, w: nat) {
    forall r, c :: 0 <= r < |t.rows| && r < |t.deleted| && !t.deleted[r] && 0 <= c < w && c < |t.rows[r]| ==>
      t.rows[r][c] != NullString
  }

  lemma SearchableIs(t: Table)
    requires t.Ok()
    ensures Searchable(t) <==> ReadableTo(t, t.Width())
  {
    if Searchable(t) {
      forall r, c | 0 <= r < |t.rows| && !t.deleted[r] && 0 <= c < t.Width()
        ensures t.rows[r][c] != NullString
      {
        assert Readable(t.rows[r]);
      }
    }
    if ReadableTo(t, t.Width()) {
      forall r | 0 <= r < |t.rows| && !t.deleted[r]
        ensures Readable(t.rows[r])
      {
      }
    }
  }

  /** A table can be searched if and only if it can be searched on each of its columns. */
  lemma SearchableByColumn(t: Table)
    requires t.Ok() && Distinct(t.cols)
    ensures Searchable(t) <==> forall id :: id in t.cols ==> SearchableIn(t, id)
  {
    SearchableIs(t);
    if forall id :: id in t.cols ==> SearchableIn(t, id) {
      forall r, c | 0 <= r < |t.rows| && r < |t.deleted| && !t.deleted[r] && 0 <= c < t.Width() && c < |t.rows[r]|
        ensures t.rows[r][c] != NullString
      {
        assert SearchableIn(t, t.cols[c]) && IndexOf(t.cols, t.cols[c]) == c;
        assert Filled(t, r, c);
      }
    }
  }

  lemma SetReadable(t: Table, r: nat, c: nat, v: Value, w: nat)
    requires t.Ok() && t.CanSet(r, c, v) && ReadableTo(t, w)
    ensures ReadableTo(Set(t, r, c, v), w) && ReadableTo(SetVariant(t, r, c, v), w)
  {
    SetIs(t, r, c, v);
    SetVariantIs(t, r, c, v);
  }

  lemma FillColumnReadable(t: Table, c: nat)
    requires t.Ok() && c < t.Width() && NoneDeleted(t) && ReadableTo(t, c)
    ensures ReadableTo(FillColumn(t, c, |t.rows|), c + 1)
  {
    hide FillColumn;
    FillColumnIs(t, c, |t.rows|);
  }

  lemma {:induction false} FillColumnsReadable(t: Table, lo: nat, hi: nat)
    requires t.Ok() && lo <= hi <= t.Width() && NoneDeleted(t) && ReadableTo(t, lo)
    ensures ReadableTo(FillColumns(t, lo, hi), hi)
    decreases hi
  {
    hide FillColumn, Table.OkAt, ReadableTo;
    if lo < hi {
      FillColumnsReadable(t, lo, hi - 1);
      FillColumnReadable(FillColumns(t, lo, hi - 1), hi - 1);
    }
  }

  lemma AddRowReadable(t: Table)
    requires t.Ok() && !t.inBeginAddColumns && ReadableTo(t, |t.cols|)
    ensures ReadableTo(AddRow(t), |t.cols|)
  {
    hide AddRow;
    AddRowIs(t);
  }

  lemma {:induction false} CopyCellsReadable(t: Table, from: nat, to: nat, n: nat)
    requires t.Ok() && !t.inBeginAddColumns && from < |t.rows| && to < |t.rows| && n <= |t.cols|
    requires from != to && Readable(t.rows[from]) && !t.deleted[to] && ReadableTo(t, |t.cols|)
    ensures ReadableTo(CopyCells(t, from, to, n), |t.cols|)
  {
    hide Set, Table.OkAt, ReadableTo;
    if n > 0 {
      CopyCellsReadable(t, from, to, n - 1);
      CopiedCanBeSet(t, from, to, n);
      SetReadable(CopyCells(t, from, to, n - 1), to, n - 1, t.rows[from][n - 1].value, |t.cols|);
    }
  }

  lemma CopyRowReadable(t: Table, from: nat)
    requires t.Ok() && !t.inBeginAddColumns && from < |t.rows| && Readable(t.rows[from]) && ReadableTo(t, |t.cols|)
    ensures ReadableTo(CopyRow(t, from), |t.cols|)
  {
    hide Table.OkAt, ReadableTo, AddRow, CopyCells;
    AddRowIs(t);
    AddRowReadable(t);
    CopyCellsReadable(AddRow(t), from, |t.rows|, |t.cols|);
  }

  lemma WidenReadable(t: Table, lo: nat, u: Table)
    requires t.OkAt(lo) && ReadableTo(t, lo) && u == WidenTable(t, lo).(inBeginAddColumns := false)
    ensures u.Ok() && ReadableTo(u, lo)
  {
    WidenedOk(t, lo, u);
  }

  lemma AddColumnReadable(t: Table, id: AttrId, record: bool)
    requires t.Ok() && !t.HasColumn(id) && id.defaultValue.InRange() && ReadableTo(t, t.Width())
    requires !t.inBeginAddColumns ==> CanAddColumns(t)
    ensures ReadableTo(AddColumn(t, id, record), AddColumn(t, id, record).Width())
  {
    hide Table.OkAt, FillColumn;
    if !t.inBeginAddColumns {
      AppendedOk(t, id, record, |t.cols|);
      var room := WidenTable(AppendColumn(t, id, record), |t.cols|);
      WidenReadable(AppendColumn(t, id, record), |t.cols|, room);
      FillColumnReadable(room, |t.cols|);
    }
  }

  lemma EndAddColumnsReadable(t: Table)
    requires t.Ok() && t.inBeginAddColumns && CanAddColumns(t) && ReadableTo(t, t.Width())
    ensures ReadableTo(EndAddColumns(t), EndAddColumns(t).Width())
  {
    hide Table.OkAt, FillColumns;
    LeftOk(t);
    if t.firstNewColumn < |t.cols| {
      var room := WidenTable(t.(inBeginAddColumns := false), t.firstNewColumn);
      WidenReadable(t.(inBeginAddColumns := false), t.firstNewColumn, room);
      FillColumnsReadable(room, t.firstNewColumn, |t.cols|);
    }
  }

  lemma CopyExtCellReadable(t: Table, to: nat, id: AttrId, v: Value, create: bool)
    requires t.Ok() && !t.inBeginAddColumns && to < |t.rows| && !t.deleted[to] && ReadableTo(t, |t.cols|)
    requires create ==> NoneDeleted(t)
    requires id.defaultValue.InRange() && v.InRange() && v.Type() == id.ValueType()
    ensures ReadableTo(CopyExtCell(t, to, id, v, create), |CopyExtCell(t, to, id, v, create).cols|)
  {
    hide Table.OkAt, ReadableTo, AddColumn, Set;
    var u := EnsureColumn(t, id, create);
    if create && !t.HasColumn(id) {
      AddColumnReadable(t, id, true);
    }
    if u.HasColumn(id) {
      SetReadable(u, to, IndexOf(u.cols, id), v, |u.cols|);
    }
  }

  lemma {:induction false} CopyExtCellsReadable(t: Table, to: nat, ids: seq<AttrId>, row: seq<Cell>, create: bool,
                                                n: nat)
    requires t.Ok() && !t.inBeginAddColumns && to < |t.rows| && !t.deleted[to] && ReadableTo(t, |t.cols|)
    requires create ==> NoneDeleted(t)
    requires RowOf(ids, row) && n <= |ids|
    ensures ReadableTo(CopyExtCells(t, to, ids, row, create, n), |CopyExtCells(t, to, ids, row, create, n).cols|)
  {
    hide Table.OkAt, ReadableTo, CopyExtCell;
    if n > 0 {
      CopyExtCellsReadable(t, to, ids, row, create, n - 1);
      CopyExtCellReadable(CopyExtCells(t, to, ids, row, create, n - 1), to, ids[n - 1], row[n - 1].value, create);
    }
  }

  lemma CopyExtRowReadable(t: Table, ids: seq<AttrId>, row: seq<Cell>, create: bool)
    requires t.Ok() && !t.inBeginAddColumns && (create ==> NoneDeleted(t)) && RowOf(ids, row) && ReadableTo(t, |t.cols|)
    ensures ReadableTo(CopyExtRow(t, ids, row, create), |CopyExtRow(t, ids, row, create).cols|)
  {
    hide Table.OkAt, ReadableTo, CopyExtCells, AddRow;
    AddRowIs(t);
    AddRowReadable(t);
    CopyExtCellsReadable(AddRow(t), |t.rows|, ids, row, create, |ids|);
  }

  predicate HasStringColumn(t: Table) {
    exists c :: 0 <= c < |t.cols| && t.cols[c].ValueType() == StringType
  }

  /** Deleting a row with tracking off leaves it unflagged with its strings gone. */
  lemma DeleteRowReadable(t: Table, r: nat)
    requires t.Ok() && !t.inBeginAddColumns && r < |t.rows| && !t.deleted[r] && ReadableTo(t, |t.cols|)
    ensures ReadableTo(DeleteRow(t, r), |t.cols|) <==> t.trackModifications || !HasStringColumn(t)
  {
    var u := DeleteRow(t, r);
    forall c | 0 <= c < |t.cols|
      ensures u.rows[r][c] == NullString <==> t.cols[c].ValueType() == StringType
    {
      assert t.rows[r][c].Fits(t.cols[c].ValueType());
    }
    if !t.trackModifications && HasStringColumn(t) {
      var c :| 0 <= c < |t.cols| && t.cols[c].ValueType() == StringType;
      assert u.rows[r][c] == NullString;
    }
  }

  lemma SameStringColumns(t: Table, u: Table)
    requires u.cols == t.cols
    ensures HasStringColumn(u) == HasStringColumn(t)
  {
  }

  lemma {:induction false} DeleteRowsTrackedReadable(t: Table, n: nat)
    requires t.Ok() && !t.inBeginAddColumns && n <= |t.rows| && NoneDeleted(t) && ReadableTo(t, |t.cols|)
    requires t.trackModifications || !HasStringColumn(t)
    ensures ReadableTo(DeleteRows(t, n), |t.cols|)
    ensures DeleteRows(t, n).trackModifications == t.trackModifications && DeleteRows(t, n).cols == t.cols
  {
    hide Table.OkAt, ReadableTo, DeleteRow, HasStringColumn;
    if n > 0 {
      DeleteRowsTrackedReadable(t, n - 1);
      DeleteRowKeeps(DeleteRows(t, n - 1), n - 1);
      SameStringColumns(t, DeleteRows(t, n - 1));
      DeleteRowReadable(DeleteRows(t, n - 1), n - 1);
    }
  }

  lemma DeleteRowUntracked(t: Table, r: nat)
    requires t.Ok() && !t.inBeginAddColumns && r < |t.rows| && !t.deleted[r] && !t.trackModifications
    ensures var u := DeleteRow(t, r);
            && u.deleted == t.deleted && u.cols == t.cols && !u.trackModifications
            && (forall k :: 0 <= k < |t.rows| && k != r ==> u.rows[k] == t.rows[k])
            && forall c :: 0 <= c < |t.cols| && t.cols[c].ValueType() == StringType ==>
                 c < |u.rows[r]| && u.rows[r][c] == NullString
  {
    forall c | 0 <= c < |t.cols| && t.cols[c].ValueType() == StringType
      ensures DeleteRow(t, r).rows[r][c] == NullString
    {
      assert t.rows[r][c].Fits(t.cols[c].ValueType());
    }
  }

  lemma {:induction false} DeleteRowsUntracked(t: Table, n: nat, c: nat)
    requires t.Ok() && !t.inBeginAddColumns && n <= |t.rows| && NoneDeleted(t) && !t.trackModifications
    requires c < |t.cols| && t.cols[c].ValueType() == StringType
    ensures DeleteRows(t, n).deleted == t.deleted && DeleteRows(t, n).cols == t.cols
    ensures !DeleteRows(t, n).trackModifications
    ensures forall r :: 0 <= r < n ==> c < |DeleteRows(t, n).rows[r]| && DeleteRows(t, n).rows[r][c] == NullString
  {
    hide Table.OkAt, DeleteRow;
    if n > 0 {
      DeleteRowsUntracked(t, n - 1, c);
      DeleteRowUntracked(DeleteRows(t, n - 1), n - 1);
    }
  }

  lemma DeleteRowsReadable(t: Table)
    requires t.Ok() && !t.inBeginAddColumns && NoneDeleted(t) && ReadableTo(t, |t.cols|)
    ensures ReadableTo(DeleteRows(t, |t.rows|), |t.cols|)
            <==> t.trackModifications || !HasStringColumn(t) || t.rows == []
  {
    hide Table.OkAt, DeleteRows;
    if t.trackModifications || !HasStringColumn(t) || t.rows == [] {
      if t.rows != [] {
        DeleteRowsTrackedReadable(t, |t.rows|);
      }
    } else {
      var c :| 0 <= c < |t.cols| && t.cols[c].ValueType() == StringType;
      DeleteRowsUntracked(t, |t.rows|, c);
      assert DeleteRows(t, |t.rows|).rows[0][c] == NullString;
    }
  }

  /** ResetModifiedState takes the deleted flag off rows whose strings are gone. */
  lemma ResetReadable(t: Table)
    requires t.Ok()
    ensures ReadableTo(ResetModifiedState(t), t.Width()) <==> forall r :: 0 <= r < |t.rows| ==> Readable(t.rows[r])
  {
    var u := ResetModifiedState(t);
    if ReadableTo(u, t.Width()) {
      forall r | 0 <= r < |t.rows|
        ensures Readable(t.rows[r])
      {
        forall c | 0 <= c < |t.rows[r]|
          ensures t.rows[r][c] != NullString
        {
          assert u.rows[r][c] != NullString;
        }
      }
    }
  }

  /** Whether every row this operation leaves unflagged still has its strings. */
  predicate KeepsStrings(t: Table, op: Op) {
    match op
    case DeleteRowOp(r) => t.trackModifications || !HasStringColumn(t)
    case DeleteAllRowsOp => t.trackModifications || !HasStringColumn(t) || t.rows == []
    case ResetModifiedStateOp => forall r :: 0 <= r < |t.rows| ==> Readable(t.rows[r])
    case _ => true
  }

  /** A searchable table stays searchable under every operation except deleting with
      tracking off and resetting after a deletion, and under those exactly when no string
      was deleted. */
  lemma StepSearchable(t: Table, op: Op)
    requires t.Ok() && Enabled(t, op) && Searchable(t)
    ensures Searchable(Step(t, op)) <==> KeepsStrings(t, op)
  {
    hide Table.OkAt, Set, SetVariant, AddRow, CopyRow, CopyExtRow, DeleteRow, DeleteRows, AddColumn,
         BeginAddColumns, EndAddColumns, ReserveRows, ResetModifiedState, ClearNewRowFlags, ClearDeletedRowsFlags,
         Clear, Searchable, ReadableTo, HasStringColumn;
    SearchableIs(t);
    SearchableIs(Step(t, op));
    StepWidth(t, op);
    match op {
      case SetOp(r, c, v) => SetReadable(t, r, c, v, t.Width());
      case SetVariantOp(r, c, v) => SetReadable(t, r, c, v, t.Width());
      case AddRowOp => AddRowReadable(t);
      case CopyRowOp(r) => CopyRowReadable(t, r);
      case CopyExtRowOp(ids, row, create) => CopyExtRowReadable(t, ids, row, create);
      case DeleteRowOp(r) => DeleteRowReadable(t, r);
      case DeleteAllRowsOp => DeleteRowsReadable(t);
      case AddColumnOp(id, record) => AddColumnReadable(t, id, record);
      case EndAddColumnsOp => EndAddColumnsReadable(t);
      case ResetModifiedStateOp => ResetReadable(t);
      case ClearNewRowFlagsOp => SameCellsReadable(t, op);
      case ClearDeletedRowsFlagsOp => SameCellsReadable(t, op);
      case ClearOp => SameCellsReadable(t, op);
      case BeginAddColumnsOp(record) => SameCellsReadable(t, op);
      case ReserveRowsOp(num) => SameCellsReadable(t, op);
      case SetModifiedTrackingOp(on) => SameCellsReadable(t, op);
    }
  }

  lemma SameCellsReadable(t: Table, op: Op)
    requires t.Ok() && Enabled(t, op) && ReadableTo(t, t.Width())
    requires op.ClearNewRowFlagsOp? || op.ClearDeletedRowsFlagsOp? || op.ClearOp? || op.BeginAddColumnsOp?
             || op.ReserveRowsOp? || op.SetModifiedTrackingOp?
    ensures ReadableTo(Step(t, op), Step(t, op).Width())
  {
  }

  /** Columns are only added, and cells appear for them when a batch ends. */
  lemma StepWidth(t: Table, op: Op)
    requires t.Ok() && Enabled(t, op)
    ensures (op.SetOp? || op.SetVariantOp? || op.ResetModifiedStateOp?) ==> Step(t, op).Width() == t.Width()
    ensures (op.AddRowOp? || op.CopyRowOp? || op.DeleteRowOp? || op.DeleteAllRowsOp?) ==>
              Step(t, op).Width() == |t.cols| == t.Width()
    ensures op.CopyExtRowOp? ==> Step(t, op).Width() == |Step(t, op).cols|
  {
    hide Table.OkAt, DeleteRows;
    if op.DeleteAllRowsOp? {
      DeleteRowsWidth(t, |t.rows|);
    }
  }

  lemma {:induction false} DeleteRowsWidth(t: Table, n: nat)
    requires t.Ok() && !t.inBeginAddColumns && n <= |t.rows| && NoneDeleted(t)
    ensures DeleteRows(t, n).cols == t.cols
  {
    hide DeleteRow, Table.OkAt;
    if n > 0 {
      DeleteRowsWidth(t, n - 1);
      DeleteRowKeeps(DeleteRows(t, n - 1), n - 1);
    }
  }

  /** No step of the run leaves an unflagged row without its strings. */
  ghost predicate RunKeepsStrings(ops: seq<Op>)
    decreases |ops|
  {
    ops == [] ||
    (RunKeepsStrings(ops[..|ops| - 1])
     && (Run(ops[..|ops| - 1]).Some? ==> KeepsStrings(Run(ops[..|ops| - 1]).value, ops[|ops| - 1])))
  }

  /** After such a run the table can be searched. */
  lemma {:induction false} RunSearchable(ops: seq<Op>)
    requires Run(ops).Some? && RunKeepsStrings(ops)
    ensures Searchable(Run(ops).value)
    decreases |ops|
  {
    hide Step, Enabled, KeepsStrings;
    if ops != [] {
      RunSearchable(ops[..|ops| - 1]);
      StepSearchable(Run(ops[..|ops| - 1]).value, ops[|ops| - 1]);
    }
  }
}
