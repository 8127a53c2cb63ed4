/** What copying a row of one table into another amounts to. */
module AttrCopy {
  import opened AttrLayout
  import opened AttrImage
  import opened AttrModel

  /** Whether u is t with more columns behind the old ones; every old row keeps its cells
      and holds the default in the new columns. Row `to` is left open. */
  ghost predicate Extends(t: Table, u: Table, to: nat) {
    && t.cols <= u.cols
    && |u.rows| == |t.rows|
    && (forall r :: 0 <= r < |u.rows| ==> |u.rows[r]| == |u.cols|)
    && (forall r :: 0 <= r < |t.rows| ==> |t.rows[r]| == |t.cols|)
    && forall r :: 0 <= r < |u.rows| && r != to ==> u.rows[r] == t.rows[r] + DefaultsFrom(u.cols, |t.cols|)
  }

  /** The defaults of the columns from n on. */
  function DefaultsFrom(cols: seq<AttrId>, n: nat): seq<Cell>
    requires n <= |cols|
  {
    Defaults(cols[n..])
  }

  lemma DefaultsTwice(a: seq<AttrId>, b: seq<AttrId>, c: seq<AttrId>)
    requires a <= b <= c
    ensures DefaultsFrom(b, |a|) + DefaultsFrom(c, |b|) == DefaultsFrom(c, |a|)
  {
    forall k | 0 <= k < |b| - |a|
      ensures DefaultsFrom(b, |a|)[k] == DefaultsFrom(c, |a|)[k]
    {
      assert b[|a| + k] == c[|a| + k];
    }
  }

  /** AddColumn appends a column of defaults and leaves every other cell alone. */
  lemma AddColumnIs(t: Table, id: AttrId, record: bool)
    requires t.Ok() && !t.inBeginAddColumns && !t.HasColumn(id) && id.defaultValue.InRange() && CanAddColumns(t)
    ensures var u := AddColumn(t, id, record);
            && u.cols == t.cols + [id] && |u.rows| == |t.rows|
            && (forall r :: 0 <= r < |t.rows| ==> u.rows[r] == t.rows[r] + [Holds(id.defaultValue)])
            && u.deleted == t.deleted && u.isNew == t.isNew && u.userData == t.userData
            && u.newRows == t.newRows && u.deletedRows == t.deletedRows
            && u.trackModifications == t.trackModifications
  {
    hide FillColumn, Table.OkAt;
    var t1 := AppendColumn(t, id, record);
    AppendedOk(t, id, record, |t.cols|);
    var t2 := WidenTable(t1, |t.cols|);
    WidenedOk(t1, |t.cols|, t2);
    FillColumnIs(t2, |t.cols|, |t.rows|);
    assert t1.cols[|t.cols|..] == [id];
    forall r | 0 <= r < |t.rows|
      ensures t2.rows[r][|t.cols| := Holds(id.defaultValue)] == t.rows[r] + [Holds(id.defaultValue)]
    {
    }
  }

  lemma ExtendsTwice(t: Table, u: Table, w: Table, to: nat)
    requires Extends(t, u, to) && Extends(u, w, to)
    ensures Extends(t, w, to)
  {
    DefaultsTwice(t.cols, u.cols, w.cols);
    assert t.cols <= w.cols;
    forall r | 0 <= r < |w.rows| && r != to
      ensures w.rows[r] == t.rows[r] + DefaultsFrom(w.cols, |t.cols|)
    {
      assert w.rows[r] == t.rows[r] + (DefaultsFrom(u.cols, |t.cols|) + DefaultsFrom(w.cols, |u.cols|));
    }
  }

  /** Writing to row `to` does not matter. */
  lemma ExtendsSet(t: Table, w: Table, z: Table, to: nat)
    requires Extends(t, w, to) && z.cols == w.cols && |z.rows| == |w.rows|
    requires forall r :: 0 <= r < |w.rows| ==> |z.rows[r]| == |w.rows[r]| && (r != to ==> z.rows[r] == w.rows[r])
    ensures Extends(t, z, to)
  {
  }

  lemma SetIfPresentIs(t: Table, r: nat, id: AttrId, v: Value)
    requires t.Ok() && !t.inBeginAddColumns && r < |t.rows| && !t.deleted[r]
    requires v.InRange() && v.Type() == id.ValueType()
    ensures var u := SetIfPresent(t, r, id, v);
            && u.cols == t.cols && |u.rows| == |t.rows|
            && (forall k :: 0 <= k < |t.rows| && k != r ==> u.rows[k] == t.rows[k])
            && u.rows[r] == if id in t.cols then t.rows[r][IndexOf(t.cols, id) := Holds(v)] else t.rows[r]
  {
    if t.HasColumn(id) {
      SetIs(t, r, IndexOf(t.cols, id), v);
    }
  }

  lemma EnsureColumnExtends(t: Table, id: AttrId, create: bool, to: nat)
    requires t.Ok() && !t.inBeginAddColumns && id.defaultValue.InRange()
    requires create ==> NoneDeleted(t) && |t.rows| > 0
    ensures var u := EnsureColumn(t, id, create);
            && Extends(t, u, to)
            && u.cols == (if create && id !in t.cols then t.cols + [id] else t.cols)
            && (to < |t.rows| ==> u.rows[to][..|t.cols|] == t.rows[to])
  {
    if create && !t.HasColumn(id) {
      AddColumnIs(t, id, true);
    }
  }

  /** The cell of row `to` after the first n columns of the other row were copied. */
  function Copied(ids: seq<AttrId>, row: seq<Cell>, n: nat, id: AttrId, otherwise: Cell): Cell
    requires |row| == |ids| && n <= |ids|
  {
    var c := IndexOf(ids, id);
    if c < n then row[c] else otherwise
  }

  /** The columns after copying: the missing ones are appended in the other table's order. */
  function ColumnsAfter(cols: seq<AttrId>, ids: seq<AttrId>, create: bool, n: nat): (after: seq<AttrId>)
    requires n <= |ids|
    ensures |cols| <= |after| && after[..|cols|] == cols
  {
    if n == 0 then cols else
    var before := ColumnsAfter(cols, ids, create, n - 1);
    if create && ids[n - 1] !in before then before + [ids[n - 1]] else before
  }

  /** What CopyExtRow's loop achieves. On every column that both tables have, row `to`
      holds the value of the other row; on every other column it keeps what it had. All
      other rows keep their cells and hold the default in columns created on the way. */
  ghost predicate CopiedTo(t: Table, u: Table, to: nat, ids: seq<AttrId>, row: seq<Cell>, create: bool, n: nat)
    requires |row| == |ids| && n <= |ids| && to < |t.rows|
  {
    && u.cols == ColumnsAfter(t.cols, ids, create, n)
    && Extends(t, u, to)
    && forall c :: 0 <= c < |u.cols| ==>
         u.rows[to][c] == Copied(ids, row, n, u.cols[c], if c < |t.cols| then t.rows[to][c] else NullString)
  }

  lemma IndexOfDistinct(ids: seq<AttrId>, n: nat)
    requires Distinct(ids) && n < |ids|
    ensures IndexOf(ids, ids[n]) == n
  {
  }

  /** Row `to` after one round. */
  lemma CopiedNext(t: Table, u: Table, w: Table, to: nat, ids: seq<AttrId>, row: seq<Cell>, create: bool, n: nat,
                   z: seq<Cell>)
    requires |row| == |ids| && n < |ids| && to < |t.rows| && Distinct(ids) && Distinct(w.cols)
    requires CopiedTo(t, u, to, ids, row, create, n)
    requires |w.rows| == |u.rows| && |u.rows[to]| == |u.cols| && |w.rows[to]| == |w.cols|
    requires w.cols == (if create && ids[n] !in u.cols then u.cols + [ids[n]] else u.cols)
    requires w.rows[to][..|u.cols|] == u.rows[to]
    requires z == if ids[n] in w.cols then w.rows[to][IndexOf(w.cols, ids[n]) := row[n]] else w.rows[to]
    ensures |z| == |w.cols| && forall c :: 0 <= c < |w.cols| ==>
              z[c] == Copied(ids, row, n + 1, w.cols[c], if c < |t.cols| then t.rows[to][c] else NullString)
  {
    hide Distinct, IndexOf;
    IndexOfDistinct(ids, n);
    forall c | 0 <= c < |w.cols|
      ensures z[c] == Copied(ids, row, n + 1, w.cols[c], if c < |t.cols| then t.rows[to][c] else NullString)
    {
      IndexOfDistinct(w.cols, c);
      if w.cols[c] != ids[n] {
        assert w.cols[c] == u.cols[c] && w.rows[to][c] == w.rows[to][..|u.cols|][c] == u.rows[to][c];
        assert IndexOf(ids, w.cols[c]) != n;
      }
    }
  }

  lemma CopyExtCellStep(t: Table, u: Table, to: nat, ids: seq<AttrId>, row: seq<Cell>, create: bool, n: nat)
    requires u.Ok() && !u.inBeginAddColumns && to < |t.rows| && |u.rows| == |t.rows| && !u.deleted[to]
    requires create ==> NoneDeleted(u)
    requires RowOf(ids, row) && n < |ids| && Distinct(ids) && Distinct(u.cols)
    requires CopiedTo(t, u, to, ids, row, create, n)
    ensures CopiedTo(t, CopyExtCell(u, to, ids[n], row[n].value, create), to, ids, row, create, n + 1)
    ensures Distinct(CopyExtCell(u, to, ids[n], row[n].value, create).cols)
  {
    hide Value.InRange, AttrId.ValueType, Value.Type, IndexOf, NoneDeleted, CellsOnly, Table.OkAt,
         EnsureColumn, SetIfPresent, Extends, Copied;
    var id, v := ids[n], row[n].value;
    var w := EnsureColumn(u, id, create);
    EnsureColumnExtends(u, id, create, to);
    ExtendsTwice(t, u, w, to);
    var z := SetIfPresent(w, to, id, v);
    SetIfPresentIs(w, to, id, v);
    ExtendsSet(t, w, z, to);
    CopiedNext(t, u, w, to, ids, row, create, n, z.rows[to]);
  }

  lemma NothingCopied(t: Table, to: nat, ids: seq<AttrId>, row: seq<Cell>, create: bool)
    requires t.Ok() && !t.inBeginAddColumns && to < |t.rows| && RowOf(ids, row)
    ensures CopiedTo(t, t, to, ids, row, create, 0)
  {
  }

  lemma {:induction false} CopyExtCellsIs(t: Table, to: nat, ids: seq<AttrId>, row: seq<Cell>, create: bool, n: nat)
    requires t.Ok() && !t.inBeginAddColumns && to < |t.rows| && !t.deleted[to] && (create ==> NoneDeleted(t))
    requires RowOf(ids, row) && n <= |ids| && Distinct(ids) && Distinct(t.cols)
    ensures CopiedTo(t, CopyExtCells(t, to, ids, row, create, n), to, ids, row, create, n)
    ensures Distinct(CopyExtCells(t, to, ids, row, create, n).cols)
  {
    hide Table.OkAt, Extends, Copied, CopyExtCell, CopiedTo, RowOf, Distinct;
    if n == 0 {
      NothingCopied(t, to, ids, row, create);
    } else {
      CopyExtCellsIs(t, to, ids, row, create, n - 1);
      CopyExtCellStep(t, CopyExtCells(t, to, ids, row, create, n - 1), to, ids, row, create, n - 1);
    }
  }

  /** Columns that were created on the way come from the other table. */
  lemma {:induction false} CreatedColumns(cols: seq<AttrId>, ids: seq<AttrId>, create: bool, n: nat)
    requires n <= |ids|
    ensures var after := ColumnsAfter(cols, ids, create, n);
            && (forall c :: |cols| <= c < |after| ==> after[c] in ids[..n])
            && (create ==> forall i :: 0 <= i < n ==> ids[i] in after)
            && (!create ==> after == cols)
  {
    if n > 0 {
      CreatedColumns(cols, ids, create, n - 1);
      var before := ColumnsAfter(cols, ids, create, n - 1);
      CreatedStay(cols, before, before + [ids[n - 1]], ids, n);
      IncludedStay(before, ids, n);
    }
  }

  /** One more column behind those that were created. */
  lemma CreatedStay(cols: seq<AttrId>, before: seq<AttrId>, after: seq<AttrId>, ids: seq<AttrId>, n: nat)
    requires 0 < n <= |ids| && after == before + [ids[n - 1]]
    requires forall c :: |cols| <= c < |before| ==> before[c] in ids[..n - 1]
    ensures forall c :: |cols| <= c < |before| ==> before[c] in ids[..n]
    ensures forall c :: |cols| <= c < |after| ==> after[c] in ids[..n]
  {
    forall c | |cols| <= c < |after|
      ensures after[c] in ids[..n]
    {
      PrefixHas(ids, n, after[c]);
    }
    assert forall c :: 0 <= c < |before| ==> after[c] == before[c];
  }

  lemma IncludedStay(before: seq<AttrId>, ids: seq<AttrId>, n: nat)
    requires 0 < n <= |ids|
    ensures (forall i :: 0 <= i < n - 1 ==> ids[i] in before) ==>
              forall i :: 0 <= i < n ==> ids[i] in before + [ids[n - 1]]
  {
  }

  /** The columns of the source that are not there yet, in its order. */
  function Missing(cols: seq<AttrId>, ids: seq<AttrId>): seq<AttrId> {
    if ids == [] then []
    else if ids[0] in cols then Missing(cols, ids[1..]) else [ids[0]] + Missing(cols, ids[1..])
  }

  lemma {:induction false} MissingMore(cols: seq<AttrId>, ids: seq<AttrId>, id: AttrId)
    ensures Missing(cols, ids + [id]) == Missing(cols, ids) + if id in cols then [] else [id]
  {
    if ids == [] {
      assert ids + [id] == [id] && [id][1..] == [];
    } else {
      assert (ids + [id])[1..] == ids[1..] + [id];
      MissingMore(cols, ids[1..], id);
    }
  }

  lemma {:induction false} MissingAre(cols: seq<AttrId>, ids: seq<AttrId>, id: AttrId)
    ensures id in Missing(cols, ids) <==> id in ids && id !in cols
  {
    if ids != [] {
      MissingAre(cols, ids[1..], id);
      assert ids == [ids[0]] + ids[1..];
    }
  }

  /** They are appended as they come. */
  lemma {:induction false} ColumnsAfterIs(cols: seq<AttrId>, ids: seq<AttrId>, create: bool, n: nat)
    requires n <= |ids| && Distinct(ids)
    ensures ColumnsAfter(cols, ids, create, n) == if create then cols + Missing(cols, ids[..n]) else cols
  {
    if n > 0 {
      var id := ids[n - 1];
      ColumnsAfterIs(cols, ids, create, n - 1);
      MissingMore(cols, ids[..n - 1], id);
      MissingAre(cols, ids[..n - 1], id);
      NotBefore(ids, n);
      assert ids[..n] == ids[..n - 1] + [id];
    }
  }

  lemma NotBefore(ids: seq<AttrId>, n: nat)
    requires 0 < n <= |ids| && Distinct(ids)
    ensures ids[n - 1] !in ids[..n - 1]
  {
  }

  lemma PrefixHas(ids: seq<AttrId>, n: nat, id: AttrId)
    requires 0 < n <= |ids| && (id in ids[..n - 1] || id == ids[n - 1])
    ensures id in ids[..n]
  {
    assert ids[..n] == ids[..n - 1] + [ids[n - 1]];
  }

  /** The value of a column in the row that CopyExtRow appends. */
  function CopiedCell(ids: seq<AttrId>, row: seq<Cell>, id: AttrId): Cell
    requires |row| == |ids|
  {
    if id in ids then row[IndexOf(ids, id)] else Holds(id.defaultValue)
  }

  /** CopyExtRow appends one row that equals the other table's row on the columns both
      tables have and holds the defaults elsewhere. Every other row keeps its cells; in
      columns created on the way it holds the default. */
  lemma CopyExtRowIs(t: Table, ids: seq<AttrId>, row: seq<Cell>, create: bool)
    requires t.Ok() && !t.inBeginAddColumns && (create ==> NoneDeleted(t)) && RowOf(ids, row)
    requires Distinct(ids) && Distinct(t.cols)
    ensures var u := CopyExtRow(t, ids, row, create);
            && u.cols == ColumnsAfter(t.cols, ids, create, |ids|) && Distinct(u.cols)
            && |u.rows| == |t.rows| + 1
            && (forall r :: 0 <= r < |t.rows| ==> u.rows[r] == t.rows[r] + DefaultsFrom(u.cols, |t.cols|))
            && |u.rows[|t.rows|]| == |u.cols|
            && forall c :: 0 <= c < |u.cols| ==> u.rows[|t.rows|][c] == CopiedCell(ids, row, u.cols[c])
  {
    hide Table.OkAt, AddRow, CopyExtCells, CopiedTo;
    AddRowAppends(t);
    var a, to := AddRow(t), |t.rows|;
    CopyExtCellsIs(a, to, ids, row, create, |ids|);
    CopiedLast(t, a, CopyExtRow(t, ids, row, create), ids, row, create);
  }

  lemma AddRowAppends(t: Table)
    requires t.Ok() && !t.inBeginAddColumns
    ensures var a := AddRow(t);
            && a.cols == t.cols && a.rows == t.rows + [Defaults(t.cols)] && !a.inBeginAddColumns
            && !a.deleted[|t.rows|] && (NoneDeleted(t) ==> NoneDeleted(a))
  {
    hide Table.OkAt;
    AddRowIs(t);
  }

  /** Copying into a row of defaults that was appended. */
  lemma CopiedLast(t: Table, a: Table, u: Table, ids: seq<AttrId>, row: seq<Cell>, create: bool)
    requires |row| == |ids| && a.cols == t.cols && a.rows == t.rows + [Defaults(t.cols)]
    requires CopiedTo(a, u, |t.rows|, ids, row, create, |ids|)
    ensures u.cols == ColumnsAfter(t.cols, ids, create, |ids|)
    ensures |u.rows| == |t.rows| + 1
    ensures forall r :: 0 <= r < |t.rows| ==> u.rows[r] == t.rows[r] + DefaultsFrom(u.cols, |t.cols|)
    ensures |u.rows[|t.rows|]| == |u.cols|
    ensures forall c :: 0 <= c < |u.cols| ==> u.rows[|t.rows|][c] == CopiedCell(ids, row, u.cols[c])
  {
    var to := |t.rows|;
    CreatedColumns(t.cols, ids, create, |ids|);
    forall c | 0 <= c < |u.cols|
      ensures u.rows[to][c] == CopiedCell(ids, row, u.cols[c])
    {
      assert u.rows[to][c] == Copied(ids, row, |ids|, u.cols[c], if c < |t.cols| then a.rows[to][c] else NullString);
    }
    forall r | 0 <= r < to
      ensures u.rows[r] == t.rows[r] + DefaultsFrom(u.cols, |t.cols|)
    {
      assert a.rows[r] == t.rows[r];
    }
  }
}
