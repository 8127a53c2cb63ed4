/** Short runs of an attribute table that end where its flags and lists, or a search, go
    wrong. */
module AttrExamples {
  import opened Wrappers
  import opened AttrLayout
  import opened AttrImage
  import opened AttrModel
  import opened AttrCopy
  import opened AttrTracking
  import opened AttrAccuracy
  import opened AttrSearch

  const NUMBER := AttrId("Number", true, IntValue(0))
  const NAME := AttrId("Name", true, StringValue("none"))

  /** A column, and then a row that holds its default. */
  function ColumnAndRow(id: AttrId): seq<Op> {
    [AddColumnOp(id, true), AddRowOp]
  }

  /** One more operation of a run. */
  lemma Next(ops: seq<Op>, t: Table, op: Op)
    requires Run(ops) == Some(t) && Enabled(t, op) && (op.ClearOp? ==> NothingRecorded(t))
    ensures Run(ops + [op]) == Some(Step(t, op))
  {
    hide Step, Enabled;
    assert (ops + [op])[..|ops|] == ops;
  }

  lemma WithColumn(id: AttrId)
    requires id.defaultValue.InRange()
    ensures Run([]) == Some(EMPTY) && Run([AddColumnOp(id, true)]).Some?
    ensures var t := Run([AddColumnOp(id, true)]).value;
            && t.cols == [id] && t.rows == [] && t.deleted == [] && t.trackModifications
            && !t.inBeginAddColumns && !t.rowsModified && t.modified == []
  {
    hide Table.OkAt;
    Next([], EMPTY, AddColumnOp(id, true));
    assert [] + [AddColumnOp(id, true)] == [AddColumnOp(id, true)];
    AddColumnIs(EMPTY, id, true);
    AddColumnWrote(EMPTY, id, true);
    assert [] + [id] == [id];
  }

  lemma WithRow(id: AttrId)
    requires id.defaultValue.InRange()
    ensures Run(ColumnAndRow(id)).Some?
    ensures var t := Run(ColumnAndRow(id)).value;
            && t.cols == [id] && t.rows == [[Holds(id.defaultValue)]] && t.deleted == [false] && t.newRows != []
            && t.trackModifications && !t.inBeginAddColumns
    ensures Accurate(Run(ColumnAndRow(id)).value) <==> !Inline(id.defaultValue)
  {
    hide Table.OkAt, Step, AddRow, Run, Accurate;
    WithColumn(id);
    var t := Run([AddColumnOp(id, true)]).value;
    Next([AddColumnOp(id, true)], t, AddRowOp);
    assert [AddColumnOp(id, true)] + [AddRowOp] == ColumnAndRow(id);
    AddedRow(t, id);
  }

  lemma AddedRow(t: Table, id: AttrId)
    requires t.Ok() && t.cols == [id] && t.rows == [] && t.deleted == [] && t.trackModifications && !t.inBeginAddColumns
    requires !t.rowsModified && t.modified == []
    ensures Step(t, AddRowOp) == AddRow(t)
    ensures var u := AddRow(t);
            && u.cols == [id] && u.rows == [[Holds(id.defaultValue)]] && u.deleted == [false] && u.newRows != []
            && u.trackModifications && !u.inBeginAddColumns
    ensures Accurate(AddRow(t)) <==> !Inline(id.defaultValue)
  {
    hide Table.OkAt, AnyTouches, AnyRaises;
    AddRowIs(t);
    assert Defaults([id]) == [Holds(id.defaultValue)];
    StepAccurate(t, AddRowOp);
    OneColumn(t, id);
  }

  /** HasModifiedRows denies a row that was flagged: the row was filled by SetInt alone. */
  lemma FlaggedButNotModified()
    ensures Run(ColumnAndRow(NUMBER)).Some? && !Accurate(Run(ColumnAndRow(NUMBER)).value)
  {
    WithRow(NUMBER);
  }

  /** Clear keeps the index of a row that is gone. */
  lemma ClearedStillRecorded()
    ensures Run(ColumnAndRow(NAME)).Some? && !Run(ColumnAndRow(NAME)).value.inBeginAddColumns
    ensures !Tracked(Clear(Run(ColumnAndRow(NAME)).value))
  {
    hide Run, Table.OkAt, Clear;
    WithRow(NAME);
    RunTracked(ColumnAndRow(NAME));
    ClearTracked(Run(ColumnAndRow(NAME)).value);
  }

  /** A row that was deleted counts again after the changes were reset, without its string. */
  lemma ResetAfterDelete()
    ensures var ops := ColumnAndRow(NAME) + [DeleteRowOp(0)] + [ResetModifiedStateOp];
            Run(ops).Some? && !Searchable(Run(ops).value) && !SearchableIn(Run(ops).value, NAME)
  {
    hide Run, Table.OkAt, Searchable, SearchableIn;
    WithRow(NAME);
    var t := Run(ColumnAndRow(NAME)).value;
    Next(ColumnAndRow(NAME), t, DeleteRowOp(0));
    var u := DeleteRow(t, 0);
    StringIsGone(t);
    Next(ColumnAndRow(NAME) + [DeleteRowOp(0)], u, ResetModifiedStateOp);
    UnflaggedAndGone(ResetModifiedState(u));
  }

  /** So does a row that is deleted while tracking is off. */
  lemma UntrackedDelete()
    ensures var ops := ColumnAndRow(NAME) + [SetModifiedTrackingOp(false)] + [DeleteRowOp(0)];
            Run(ops).Some? && !Searchable(Run(ops).value) && !SearchableIn(Run(ops).value, NAME)
  {
    hide Run, Table.OkAt, Searchable, SearchableIn;
    WithRow(NAME);
    var t := Run(ColumnAndRow(NAME)).value;
    Next(ColumnAndRow(NAME), t, SetModifiedTrackingOp(false));
    var u := t.(trackModifications := false);
    Next(ColumnAndRow(NAME) + [SetModifiedTrackingOp(false)], u, DeleteRowOp(0));
    StringIsGone(u);
    UnflaggedAndGone(DeleteRow(u, 0));
  }

  lemma StringIsGone(t: Table)
    requires t.Ok() && t.cols == [NAME] && t.rows == [[Holds(NAME.defaultValue)]] && t.deleted == [false]
    requires !t.inBeginAddColumns
    ensures DeleteRow(t, 0).rows == [[NullString]] && DeleteRow(t, 0).deleted == [t.trackModifications]
    ensures DeleteRow(t, 0).cols == [NAME]
  {
    hide Table.OkAt;
    assert DeleteRow(t, 0).rows[0] == [NullString];
  }

  lemma UnflaggedAndGone(t: Table)
    requires t.cols == [NAME] && t.rows == [[NullString]] && t.deleted == [false]
    ensures !Searchable(t) && !SearchableIn(t, NAME)
  {
    assert t.rows[0][0] == NullString;
    assert !Readable(t.rows[0]);
    assert IndexOf(t.cols, NAME) == 0 && !Filled(t, 0, 0);
  }
}
