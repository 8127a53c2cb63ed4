# Nebula 3 add-ons: a model and its proofs

This Dafny project models six parts of the Nebula 3 code base in which several pieces of
state have to agree over whole runs, and proves that they do, or exactly when they do.

- `attr_*.dfy`, `db_writer.dfy`: `Attr::AttributeTable`, a typed table packed into one raw
  byte buffer, with string objects on a shared heap, three buffers of row flags and the
  index lists of change tracking; and `Db::Writer::OpenFromValueTable` on top of it. The
  classes work on arrays of bytes and addresses (`attr_layout`, `attr_image`,
  `attr_storage`, `attr_cells`, `attr_table`) and are proved to do what the functions of
  `attr_model` do to a table of values. The results about whole runs, batches of columns,
  searches and ownership are proved about those functions; `attr_effects.dfy` writes out
  what they change, and `attr_examples.dfy` has runs that end where its flags or a search go
  wrong.
- `chunk_*.dfy`: the quadtree of terrain chunks, from loading to splitting, residency of
  mesh data and drawing; `chunk_progress.dfy` says which nodes a frame splits, and
  `chunk_lods.dfy` which lods and which data it leaves.
- `audio2_*.dfy`: the audio client protocol between the main thread and the audio thread,
  for any number of emitters and any interleaving; `audio2_examples.dfy` has two runs that
  show what it does not promise, `audio2_undisturbed.dfy` is about runs in which FMOD does
  not interfere, and `audio2_state.dfy` about the bits between two answers.
- `locale_*.dfy`: the text templates of `LocaleServer`.
- `filter_*.dfy`: the condition trees of `Db::FilterSet`, the SQL they compile to, and the
  filter that `Db::Reader::Open` builds.
- `physics_trigger.dfy`: the fixed-step time keeping of `Physics::Level::Trigger`.

Run `dafny verify dfyconfig.toml` to check everything.

## What the proofs found

The code was modelled as it stands. Where it differs from what its comments promise, there
is a lemma with the exact condition.

- `ChunkLodNode::CanSplit` tests whether a child exists, where its comments speak of a child
  without data. `ChunkLodTree.testsData` selects the reading; all invariants hold for both.
  Asking a second time for a node that is not split succeeds exactly with the test for data
  (`AskedTwice`): with the test as written no node is ever split (`CanSplit`, `Update`).
  With the other one, a node that wants a finer lod in two frames, with its parent split in
  both, is split in the second exactly if what it asks for around its neighbours is loaded
  by then (`NodeSplitsNext`); the root always is (`RootSplitsNext`).
  The call that updates the geometry is commented out in `ChunkLodTree::Update`; `Frame`
  puts it back.
- `SetInt` and `SetBool` (and `SetFloat`) flag a row but never set `rowsModified`, on which
  the database update relies. They are also what fills rows and columns and copies rows;
  `StepAccurate` has the condition for every operation, and after a column of ints and a
  row have been added it is violated (`FlaggedButNotModified`).
- `ResetModifiedState` takes the deleted flag off rows whose strings are gone, and with
  tracking off `DeleteRow` does not set it: such rows cannot be searched
  (`StepSearchable`; `ResetAfterDelete` and `UntrackedDelete` are runs that get there).
- `Clear` keeps the index lists, so it may only follow when nothing is recorded
  (`ClearTracked`; `ClearedStillRecorded` is a run after which it may not).
- `AddColumn` on a table without rows leaves reserved room too small (`ReservedRoom`); the
  model requires `CanAddColumns`. Rows flagged deleted are excluded there too, because the
  default fill asserts that a row is not deleted.
- `Audio2Interface::Cancel` cannot find a message that travels in a batch
  (`CancelFindsNothing`), so a cancelled update stays on its way and two can be unanswered
  at once (`TwoQuestionsAtOnce`); there was a Play or Stop between them
  (`UnansweredQuestions`), and the emitter never reads the old one (`NoStaleReadBack`).
- Pause and Resume do not cancel, and an old answer can take the paused bit back
  (`PauseTakenBack`). What is read is what the last call before the question said
  (`PausedReadBack`); the call is known to the next answer exactly if no question is pending
  (`PauseIsKnownIff`). If no sound ends by itself and no voices are stolen, both bits are
  what the calls say, with no exception (`ReadBackAgrees`).
- A statement without a close bracket makes `BuildLocalizedText` run for ever, exactly if
  neither it nor a statement before it is in error (`TerminatesIff`; `UnclosedHangs` is an
  example). `GetLocaleTextArgs` treats a correct but empty text as an error
  (`TemplateCall`). An empty index counts as 0, and the character behind the type of a
  plural statement is not looked at.
- The asserts of `FilterSet::EndBlock` are necessary for a condition to have a meaning
  (`WellFormedIsClosable`), but not sufficient (`ClosableWithoutMeaning`); `MeaningfulIff`
  has the exact condition.
- `Sqlite3FilterSet::BindValuesToCommand` works for a start index of 0 only
  (`BindOnlyFromZero`), which is the only one it is called with
  (`code/addons/db/sqlite3/sqlite3dataset.cc:144`).

## Model

| member | source | states |
|---|---|---|
| AttrLayout.ColumnFits | code/addons/attr/attributetable.cc:371-386 | every column ends inside the row pitch that UpdateColumnOffsets returns |
| AttrLayout.PitchIsRowEnd | code/addons/attr/attributetable.cc:383-385 | the alignment of the pitch never adds a byte, because every cell is a multiple of four bytes wide |
| AttrLayout.StartIsProduct | code/addons/attr/attributetable.h:498-503 | the row starts used in the proofs are the products row * pitch the code computes |
| AttrLayout.RowsApart | code/addons/attr/attributetable.h:498-503 | two rows of the buffer do not overlap |
| AttrLayout.ColumnsApart | code/addons/attr/attributetable.h:498-503 | two cells of a row do not overlap |
| AttrLayout.WriteInRow | code/addons/attr/attributetable.h:498-503 | a store through GetValuePtr changes exactly one row of the buffer, and nothing behind the rows |
| AttrLayout.WriteCellInRow | code/addons/attr/attributetable.h:498-503 | and of that row exactly one cell |
| AttrLayout.WidenRow | code/addons/attr/attributetable.cc:288-296 | a row copied to a wider pitch keeps every old cell, and its new cells are zero |
| AttrLayout.AppendRow | code/addons/attr/attributetable.cc:288-296 | copying one more row to the end of the copied ones adds that row and changes no other |
| AttrLayout.ExposeRow | code/addons/attr/attributetable.cc:712-716 | using one more row of a buffer that is zero behind its rows adds a row of zeros and changes no other |
| AttrLayout.IntRoundTrip | code/addons/attr/attributetable.h:559-580 | an int of 32 bits stored in a cell is read back unchanged |
| AttrImage.StoreInline | code/addons/attr/attributetable.h:508-612 | storing an inline value changes one cell of the table of values and no owner |
| AttrImage.StoreNewObject | code/addons/attr/attributetable.cc:86-90 | a string put into an empty cell gets an object of its own; no other cell changes |
| AttrImage.OverwriteObject | code/addons/attr/attributetable.cc:91-95 | a string put into a used cell reuses its object; no other cell changes, although all cells share one heap |
| AttrImage.FreeObject | code/addons/attr/attributetable.cc:102-111 | deleting a string frees exactly the object of that cell and leaves a null pointer |
| AttrImage.Widen | code/addons/attr/attributetable.cc:265-339 | re-pitching the raw buffer keeps every old value and every owner; new cells are zero |
| AttrImage.AppendZeroRow | code/addons/attr/attributetable.cc:693-717 | a row of zeroed bytes is a row of zero values and null strings |
| AttrImage.HeapFrame | code/addons/attr/attributetable.cc:82-111 | objects that belong to others can come and go without any cell of the table changing |
| AttrCells.BoolByte | code/addons/attr/attributetable.cc:1270-1272 | a bool written one byte wide over a cell that held a bool reads back correctly as four bytes |
| AttrMemory.CopyRows | code/addons/attr/attributetable.cc:276-301 | both ways of copying in Realloc, one block or row by row, produce the same padded rows |
| AttrStorage.ValueBuffer.Realloc | code/addons/attr/attributetable.cc:265-302 | the value buffer after Realloc holds the old rows, widened |
| AttrStorage.RowFlags.Realloc | code/addons/attr/attributetable.cc:303-338 | the three flag buffers keep the flags of all rows |
| AttrCells.CellStore.CopyString | code/addons/attr/attributetable.cc:82-96 | one cell holds the string afterwards; the heap gains one object or reuses the one of the cell |
| AttrCells.CellStore.DeleteString | code/addons/attr/attributetable.cc:102-111 | the cell is null afterwards, and its object is gone from the heap |
| AttrCells.CellStore.WriteVariant | code/addons/attr/attributetable.cc:1262-1291 | the cell holds the variant, for every type, including the bool of one byte |
| AttrCells.CellStore.Relayout | code/addons/attr/attributetable.cc:453-460 | new offsets, new pitch and the reallocated buffer give the old cells plus zeroed new ones |
| AttrCells.WithOffsets | code/addons/attr/attributetable.cc:372-386 | the loop sets every offset to the sum of the sizes before it and returns the pitch |
| AttrCells.CellStore.Survives | code/addons/attr/attributetable.cc:82-111 | a table stays valid whatever happens to heap objects it does not own |
| AttrTable.AttributeTable.SetInt | code/addons/attr/attributetable.h:559-570 | the byte buffer does what Set does to the table of values: one cell, the row flag, and isModified |
| AttrTable.AttributeTable.SetBool | code/addons/attr/attributetable.h:509-520 | the same for bool, stored as the int 0 or 1 |
| AttrTable.AttributeTable.SetFloat4 | code/addons/attr/attributetable.h:584-599 | the same for a wide inline value, with the flags only while tracking is on |
| AttrTable.AttributeTable.SetString | code/addons/attr/attributetable.h:646-660 | the same for an owned string |
| AttrTable.AttributeTable.SetValue | code/addons/attr/attributetable.cc:1160-1177 | the setter for the type of the value |
| AttrTable.AttributeTable.SetVariant | code/addons/attr/attributetable.cc:1257-1298 | writes any value, and follows the tracking flag for every type |
| AttrTable.AttributeTable.GetValue | code/addons/attr/attributetable.h:523-672 | reads exactly the value of the table of values |
| AttrTable.AttributeTable.SetRowToDefaultValues | code/addons/attr/attributetable.cc:1035-1056 | all cells of the row are at their defaults afterwards; see FillRowIs |
| AttrTable.AttributeTable.AddRow | code/addons/attr/attributetable.cc:693-717 | one more row at the default values, through growth and copying if the buffers are full |
| AttrTable.AttributeTable.ReserveRows | code/addons/attr/attributetable.cc:676-680 | more room, and no value changes |
| AttrTable.AttributeTable.DeleteRowData | code/addons/attr/attributetable.cc:1305-1334 | the strings of one row are freed and its string cells are null |
| AttrTable.AttributeTable.DeleteRow | code/addons/attr/attributetable.cc:516-530 | the row is flagged and listed if tracking is on; its strings are freed in any case |
| AttrTable.AttributeTable.DeleteAllRows | code/addons/attr/attributetable.cc:537-544 | the same for every row |
| AttrTable.AttributeTable.CopyRow | code/addons/attr/attributetable.cc:553-600 | a new row with the values of another; strings are copied, not shared |
| AttrTable.AttributeTable.BeginAddColumns | code/addons/attr/attributetable.cc:395-401 | only the three fields of the batch change |
| AttrTable.AttributeTable.AppendColumn | code/addons/attr/attributetable.cc:409-437 | a column is listed and looked up, but has no cells yet |
| AttrTable.AttributeTable.AddColumn | code/addons/attr/attributetable.cc:481-503 | outside a batch the column gets its cells, at the default in every row |
| AttrTable.AttributeTable.EndAddColumns | code/addons/attr/attributetable.cc:443-470 | all columns of the batch get their cells at once |
| AttrTable.AttributeTable.SetColumnToDefaultValues | code/addons/attr/attributetable.cc:1063-1153 | all cells of the column are at the default; see FillColumnIs |
| AttrTable.AttributeTable.CopyExtRow | code/addons/attr/attributetable.cc:610-667 | a row of another table on the same heap is copied; that table stays valid and nothing is shared |
| AttrTable.AttributeTable.OtherSurvives | code/addons/attr/attributetable.cc:610-667 | while this table works on its own objects, another one stays valid |
| AttrTable.AttributeTable.Lookup | code/addons/attr/attributetable.h:416-430 | the index map answers which columns exist, and where |
| AttrTable.AttributeTable.FindRowIndicesByAttr | code/addons/attr/attributetable.cc:860-951 | the matching rows that are not deleted, in order; the first one only if that is wanted; only the strings of the searched column need to be there |
| AttrTable.AttributeTable.FindRowIndicesByAttrs | code/addons/attr/attributetable.cc:751-853 | the same for several attributes and their columns; on one attribute the two searches agree |
| AttrTable.AttributeTable.GetModifiedRowsExcludeNewAndDeletedRows | code/addons/attr/attributetable.cc:1184-1198 | the rows whose only flag is the modified flag; see OnlyModifiedIs |
| AttrTable.AttributeTable.SetModifiedTracking | code/addons/attr/attributetable.h:297-300 | tracking is switched, and nothing else |
| AttrTable.AttributeTable.ResetModifiedState | code/addons/attr/attributetable.cc:57-76 | all lists and flags are cleared, including the deleted flags |
| AttrTable.AttributeTable.ClearNewRowFlags | code/addons/attr/attributetable.cc:726-730 | the new rows are forgotten |
| AttrTable.AttributeTable.ClearDeletedRowsFlags | code/addons/attr/attributetable.cc:737-740 | only the list is emptied; the rows stay flagged |
| AttrTable.AttributeTable.Clear | code/addons/attr/attributetable.cc:188-257 | no string object of the table survives, no other object is touched, and the table owns nothing |
| AttrModel.FillRowIs | code/addons/attr/attributetable.cc:1035-1056 | filling a row sets every cell to its default and touches no other row |
| AttrModel.FillColumnIs | code/addons/attr/attributetable.cc:1063-1153 | filling a column sets that column in every row and no other cell |
| AttrModel.AddRowIs | code/addons/attr/attributetable.cc:693-717 | AddRow appends the defaults and changes no other row |
| AttrEffects.SetEffect | code/addons/attr/attributetable.h:508-725 | one cell holds the value; an int or a bool flags its row in any case, anything else flags row and table while tracking is on |
| AttrEffects.AddRowEffect | code/addons/attr/attributetable.cc:693-717 | a row of defaults is appended, flagged and listed as new while tracking is on; the buffers double, starting with ten rows |
| AttrEffects.CopyRowIs | code/addons/attr/attributetable.cc:553-600 | the new last row has the values of the row that is copied; it is new like any other row, and nothing else changes |
| AttrEffects.DeleteRowEffect | code/addons/attr/attributetable.cc:516-530 | the strings of the row are gone; while tracking is on it is flagged and listed, otherwise nothing tells |
| AttrEffects.DeleteRowsEffect | code/addons/attr/attributetable.cc:537-544 | while tracking is on, every row is flagged and listed, in order |
| AttrEffects.AddColumnRecords | code/addons/attr/attributetable.cc:409-437 | a column is recorded as new exactly if tracking is on and its call says so, and listed if it can be written |
| AttrEffects.ClearNewRowFlagsEffect | code/addons/attr/attributetable.cc:726-730 | no row is listed or flagged as new afterwards |
| AttrEffects.ResetModifiedStateEffect | code/addons/attr/attributetable.cc:57-76 | nothing is listed or flagged afterwards, and no value has changed |
| AttrEffects.FirstMatchIs | code/addons/attr/attributetable.cc:860-951 | a search for the first match finds the first row that matches, if there is one |
| AttrModel.AllFreed | code/addons/attr/attributetable.cc:188-221 | after the loops of Delete no string cell is left |
| AttrColumns.BatchIsOneByOne | code/addons/attr/attributetable.cc:394-503 | BeginAddColumns, any AddColumn calls and EndAddColumns reach the same table as the AddColumn calls alone; each column is recorded as its own call says, whatever BeginAddColumns was told |
| AttrColumns.RoomThenFillColumns | code/addons/attr/attributetable.cc:464-469 | making room for a column and filling others can be exchanged |
| AttrColumns.ReservedRoom | code/addons/attr/attributetable.cc:457-460 | with no rows, AddColumn leaves reserved room too small, unless nothing was reserved |
| AttrCopy.AddColumnIs | code/addons/attr/attributetable.cc:481-503 | AddColumn appends one column of defaults and leaves every old cell, flag and list of rows alone |
| AttrCopy.CopyExtRowIs | code/addons/attr/attributetable.cc:610-667 | the new row equals the source on shared columns and is default elsewhere; old rows only gain defaults in created columns |
| AttrTracking.ClearTracked | code/addons/attr/attributetable.cc:188-247 | Clear keeps lists and flags in agreement exactly if nothing is recorded |
| AttrTracking.StepTracked | code/addons/attr/attributetable.cc:57-740 | every operation keeps lists and flags in agreement, except Clear while something is recorded |
| AttrTracking.RunTracked | code/addons/attr/attributetable.cc:57-740 | after any run: new rows listed once each and exactly the flagged ones; deleted ones listed once; anything recorded implies isModified; rowsModified implies a flagged row |
| AttrTracking.OnlyModifiedIs | code/addons/attr/attributetable.cc:1184-1198 | ascending, and exactly the rows that are modified but neither new nor deleted |
| AttrTracking.ListsDisjoint | code/addons/attr/attributetable.cc:1184-1198 | after any run the modified rows are disjoint from the new and the deleted ones |
| AttrAccuracy.SetAccurate | code/addons/attr/attributetable.h:508-725 | HasModifiedRows stays right under a typed setter exactly unless an int or bool write comes first; SetVariant is always right |
| AttrAccuracy.StepAccurate | code/addons/attr/attributetable.h:337-340 | for every operation, the exact condition under which HasModifiedRows stays right, by the columns it fills or copies |
| AttrAccuracy.RunAccurate | code/addons/attr/attributetable.h:337-340 | after any run that meets these conditions, HasModifiedRows is right |
| AttrExamples.FlaggedButNotModified | code/addons/attr/attributetable.cc:1035-1056 | a run after which a row is flagged as modified and HasModifiedRows denies it |
| AttrExamples.ClearedStillRecorded | code/addons/attr/attributetable.cc:188-247 | a run after which Clear leaves the index of a row that is gone |
| AttrExamples.ResetAfterDelete | code/addons/attr/attributetable.cc:57-76 | a run that deletes a row and resets the state, after which a search would read the deleted string |
| AttrExamples.UntrackedDelete | code/addons/attr/attributetable.cc:516-530 | the same for a row deleted while tracking is off |
| AttrSearch.MatchesIs | code/addons/attr/attributetable.cc:751-951 | a search finds exactly the matching rows not flagged deleted, in ascending order |
| AttrSearch.MatchesAll | code/addons/attr/attributetable.cc:751-853 | searching for more attributes intersects the results |
| AttrSearch.SearchableByColumn | code/addons/attr/attributetable.cc:751-951 | a table can be searched exactly if it can be searched on each column |
| AttrSearch.DeleteRowReadable | code/addons/attr/attributetable.cc:516-530 | with tracking off, DeleteRow leaves a row that a search cannot read, exactly if the table has a string column |
| AttrSearch.ResetReadable | code/addons/attr/attributetable.cc:70-73 | ResetModifiedState leaves such rows exactly if some row has lost a string |
| AttrSearch.StepSearchable | code/addons/attr/attributetable.cc:751-951 | for every operation, the exact condition under which a searchable table stays searchable |
| AttrSearch.RunSearchable | code/addons/attr/attributetable.cc:751-951 | a table can be searched after any run that keeps the strings of its rows |
| AttrOwnership.OwnedAreHeld | code/addons/attr/attributetable.cc:82-111 | the number of owned objects is the number of non-null string cells of the raw buffer |
| AttrOwnership.TableOwnsItsStrings | code/addons/attr/attributetable.cc:82-247 | a valid table owns one live object for each of its string cells |
| AttrOwnership.OthersConserved | code/addons/attr/attributetable.cc:82-247 | across every operation, the number of live objects that are not the table's stays the same |
| DbWriterModel.OpenedIs | code/addons/db/writer.cc:65-98 | the source rows in order, source columns with their values, other columns at the default, every row and no column counted as new |
| DbWriterModel.MergedColumns | code/addons/db/writer.cc:73-81 | the merged columns have no duplicates, and their defaults are in range |
| AttrCopy.CreatedColumns | code/addons/db/writer.cc:73-81 | behind the columns that were there come only columns of the source, and none of the source is missing |
| AttrCopy.ColumnsAfterIs | code/addons/db/writer.cc:73-81 | and they come in the order of the source |
| DbWriter.Writer.AddColumn | code/addons/db/writer.h:108-113 | the column list and the map stay in step |
| DbWriter.Writer.OpenFromValueTable | code/addons/db/writer.cc:65-98 | the writer opens on a table of its own with these rows; the source keeps every value and shares no object |
| ChunkModel.ReqShrinks | code/addons/forest/chunklodnode.cc:286-342 | with more nodes split, CanSplit asks for less data |
| ChunkModel.ReqClosed | code/addons/forest/chunklodnode.cc:286-342 | whoever asks for the data of a node has data at its parent, or asks for that too |
| ChunkModel.RequestKeepsInv | code/addons/forest/chunklodnode.cc:173-181 | CanSplit keeps the data of the tree closed towards the root, whatever it answers |
| ChunkModel.AskedTwice | code/addons/forest/chunklodnode.cc:306-314 | once CanSplit has asked for data, asking again for an unsplit node succeeds exactly with the test for data |
| ChunkProgress.FrameSplits | code/addons/forest/chunklodnode.cc:183-238 | with the test for data, a frame gets to the root and the children of what it splits, and splits of these exactly the nodes that want a finer lod and have all they ask for at that point |
| ChunkProgress.UpdateKeeps | code/addons/forest/chunklodnode.cc:183-238 | an update changes no flag and no lod outside its subtree, and unloads nothing there |
| ChunkProgress.ChildrenPrepared | code/addons/forest/chunklodnode.cc:211-236 | after a frame that gets to a node wanting a finer lod, its children have data, split or not |
| ChunkProgress.NodeSplitsNext | code/addons/forest/chunklodnode.cc:183-238 | a node that wants a finer lod in two frames, with its parent split in both, is split in the second exactly if what it asks for around its neighbours is loaded when the update gets to it |
| ChunkProgress.NeighboursReady | code/addons/forest/chunklodnode.cc:326-340 | it asks for nothing there if the nodes two levels above its neighbours are split or leaves |
| ChunkProgress.RootSplitsNext | code/addons/forest/chunklodnode.cc:183-238 | a root that wants a finer lod in two frames in a row is split in the second |
| ChunkLods.LodAfterFrame | code/addons/forest/chunklodnode.cc:203-265 | after a frame, the root, if it is not split, and the children of split nodes have the lod of their level nearest to the desired one; no other lod has changed |
| ChunkLods.ClampIsNearest | code/addons/forest/chunklodnode.cc:265 | clamping gives the value of the level nearest to the desired one, and that one itself if it lies in the level |
| ChunkLods.DataBelowUnsplit | code/addons/forest/chunklodnode.cc:211-237 | when a node stays unsplit, then from half way to being split on its children have data, its grandchildren keep theirs and nothing further down has any; before that, nothing below it has |
| ChunkLods.AskedForIff | code/addons/forest/chunklodnode.cc:286-342 | what CanSplit loads are the children of the nodes its question is passed on to, through parents and the nodes two levels above neighbours, and nothing else |
| ChunkModel.UpdatedKeepsSplit | code/addons/forest/chunklodnode.cc:183-238 | an update takes no split flag back |
| ChunkModel.UnloadKeepsInv | code/addons/forest/chunklodnode.cc:395-412 | unloading below an unsplit node keeps all invariants |
| ChunkModel.SplitKeepsInv | code/addons/forest/chunklodnode.cc:246-276 | DoSplit keeps all invariants, also when it flags ancestors |
| ChunkModel.UpCloses | code/addons/forest/chunklodnode.cc:269-274 | flagging the node first and the unsplit ancestors afterwards closes the split flags again |
| ChunkModel.FlaggedFirst | code/addons/forest/chunklodnode.cc:250-254 | once the node is flagged, the asserts hold for its parent in turn |
| ChunkModel.ClampedOk | code/addons/forest/chunklodnode.cc:265 | clamping a lod keeps its high byte, the depth |
| ChunkModel.WarmKeepsInv | code/addons/forest/chunklodnode.cc:350-388 | WarmUpData keeps all invariants |
| ChunkModel.GrandSubtreesMean | code/addons/forest/chunklodnode.cc:373-386 | with high priority, WarmUpData unloads exactly what lies at least two levels below |
| ChunkModel.UnsplitBelow | code/addons/forest/chunklodnode.h:114-118 | nothing is split below an unsplit node, which is why ClearSplits may stop there |
| ChunkModel.NoDataBelow | code/addons/forest/chunklodnode.cc:395-412 | nothing below a node without data has data, which is why unloading may stop there |
| ChunkModel.DrawnHasData | code/addons/forest/chunklodnode.cc:433 | every node that Render reaches unsplit has data |
| ChunkModel.LeafIsCovered | code/addons/forest/chunklodnode.cc:453-468 | above every leaf some node is drawn |
| ChunkModel.LeafIsCoveredOnce | code/addons/forest/chunklodnode.cc:453-468 | and only one: no part of the terrain is drawn twice |
| ChunkModel.DrawnApart | code/addons/forest/chunklodnode.cc:453-463 | what is drawn below one child is not drawn below another |
| ChunkPlaces.TreeSizeIs | code/addons/forest/chunklodnode.cc:90-100 | with k levels to go, a subtree takes (4^(k+1) - 1) / 3 chunks |
| ChunkPlaces.PlacesAgree | code/addons/forest/chunklodnode.cc:90-100 | every loaded node hangs below its parent, one level deeper, and is one of its children |
| ChunkPlaces.ChildrenAgree | code/addons/forest/chunklodnode.cc:90-100 | the children of a node are distinct, lie in its interval of the pool, and have it as parent |
| ChunkPlaces.NextChild | code/addons/forest/chunklodnode.cc:93-99 | reading one more child fills one more interval and touches nothing else |
| ChunkPlaces.LoadedIsTree | code/addons/forest/chunklodnode.cc:63-103 | what is loaded is a complete quadtree |
| ChunkPlaces.NeighboursAre | code/addons/forest/chunklodnode.cc:32-43 | a neighbour is the chunk with the label it is given, or none without a label |
| ChunkPlaces.LoadedThenConverted | code/addons/forest/chunklodnode.cc:32-56 | loading and converting leaves each node with its place, its neighbours and its lod |
| ChunkTree.ChunkLodTree.RequestLoadData | code/addons/forest/chunklodnode.cc:110-139 | the node has a mesh afterwards, and the counter is the number of meshes |
| ChunkTree.ChunkLodTree.RequestUnloadData | code/addons/forest/chunklodnode.cc:419-425 | the mesh is gone, and the counter agrees |
| ChunkTree.ChunkLodTree.RequestUnloadSubtree | code/addons/forest/chunklodnode.cc:396-412 | no node of the subtree keeps data, and no other node loses any |
| ChunkTree.ChunkLodTree.ClearSplits | code/addons/forest/chunklodnode.h:122-136 | no node of the subtree stays split, and no other node changes |
| ChunkTree.ChunkLodTree.CanSplit | code/addons/forest/chunklodnode.cc:287-342 | terminates, requests exactly the data in Req, and says yes exactly if the node is split or all of it was there |
| ChunkTree.ChunkLodTree.RequestChildren | code/addons/forest/chunklodnode.cc:304-314 | requests the children; the answer depends on the test |
| ChunkTree.ChunkLodTree.AskAncestors | code/addons/forest/chunklodnode.cc:316-324 | asks every unsplit ancestor |
| ChunkTree.ChunkLodTree.AskNeighbours | code/addons/forest/chunklodnode.cc:326-340 | asks the nodes two levels above the neighbours |
| ChunkTree.ChunkLodTree.DoSplit | code/addons/forest/chunklodnode.cc:246-276 | flags exactly the node and its unsplit ancestors, clamps exactly their children, and its asserts hold |
| ChunkTree.ChunkLodTree.WarmUpData | code/addons/forest/chunklodnode.cc:350-388 | loads the node and unloads what lies below, by priority |
| ChunkTree.ChunkLodTree.Settle | code/addons/forest/chunklodnode.cc:201-237 | the branch for a node that stays unsplit has the outcome Settled and keeps all invariants |
| ChunkTree.ChunkLodTree.MorphRoot | code/addons/forest/chunklodnode.cc:204-209 | the root gets a clamped lod; the assert on its level holds |
| ChunkTree.ChunkLodTree.Update | code/addons/forest/chunklodnode.cc:183-238 | has the outcome Updated and keeps all invariants, for arbitrary desired lods; splits only nodes below n that want a finer lod; with the test as written, none |
| ChunkTree.ChunkLodTree.PrepareUpdate | code/addons/forest/chunklodtree.cc:105-127 | the root has data and no node is split |
| ChunkTree.ChunkLodTree.Frame | code/addons/forest/chunklodtree.cc:105-123 | whole frames can follow each other for ever |
| ChunkTree.ChunkLodTree.Render | code/addons/forest/chunklodnode.cc:431-469 | draws exactly the unsplit nodes that split nodes lead to, each once, and its asserts hold |
| ChunkTree.ChunkLodTree.LoadParams | code/addons/forest/chunklodnode.cc:64-103 | reads the records in order into one interval of the pool, and fills the label table |
| ChunkTree.ChunkLodTree.LookupNeighbours | code/addons/forest/chunklodnode.cc:33-56 | converts each link of the subtree once and none outside |
| ChunkTree.ChunkLodTree.Setup | code/addons/forest/chunklodtree.cc:32-84 | the assert on the chunk count holds exactly if the count fits the depth, and then the tree is valid |
| Audio2Order.SendBatchedKeeps | code/addons/audio2/audio2interface.cc:81-88 | a batched message is sent once, behind everything sent to its event before |
| Audio2Order.SendCreateKeeps | code/addons/audio2/audio2emitter.cc:105-109 | a create message overtakes the batch without disturbing any event |
| Audio2Order.FlushKeeps | code/addons/audio2/audio2interface.cc:96-108 | flushing changes neither what is on its way nor its order |
| Audio2Order.CancelFindsNothing | code/foundation/messaging/blockinghandlerthread.cc:33-38 | cancelling a control message has no effect, because it travels inside a batch |
| Audio2Order.DequeueKeeps | code/foundation/messaging/blockinghandlerthread.cc:81-86 | taking all packets from the queue keeps their order |
| Audio2Order.HandleNextKeeps | code/foundation/messaging/handlerthreadbase.cc:222-252 | handling one message keeps every event in order and answers every question truthfully |
| Audio2Order.AppliedOk | code/addons/audio2/fmodcoreaudio/fmodeventwrapper.cc:194-300 | the playing bit of an event is what the last decision said, unless the sound ended by itself since; the paused bit is what the last Pause or Resume said, unless it was ignored or undone |
| Audio2Order.SoundEndsKeeps | code/addons/audio2/fmodcoreaudio/fmodeventwrapper.cc:387-390 | so it is when a sound ends |
| Audio2Order.VoicesStolenKeeps | code/addons/audio2/fmodcoreaudio/fmodeventwrapper.cc:358-374 | and when the voices of an event are stolen |
| Audio2Order.CreateIsAhead | code/addons/audio2/audio2emitter.cc:159-163 | the thread reaches a create message without another flush, so waiting for it ends |
| Audio2Runs.ValidateKeeps | code/addons/audio2/audio2emitter.cc:142-185 | once the handle is there, all pending messages are sent in order, each once |
| Audio2Runs.SendEventKeeps | code/addons/audio2/audio2emitter.cc:191-211 | a control message is sent, or kept until the handle is there |
| Audio2Runs.CancelIs | code/addons/audio2/audio2emitter.cc:217-225 | cancelling the pending update only forgets it |
| Audio2Runs.DecideKeeps | code/addons/audio2/audio2emitter.cc:267-316 | Play, PlayProgrammerSound and Stop set the playing bit and no other; one message is issued and no answer waited for |
| Audio2Runs.AdjustKeeps | code/addons/audio2/audio2emitter.cc:322-389 | Pause and Resume set and clear the paused bit and the setters leave all bits alone; one message is issued |
| Audio2Runs.OnFrameKeeps | code/addons/audio2/audio2emitter.cc:116-136 | OnFrame asks for the state at most once more |
| Audio2Runs.ReadBackIsFresh | code/addons/audio2/audio2emitter.cc:127-131 | a playing bit that is copied agrees with the last decision issued, unless the sound ended by itself since; a paused bit agrees with the last call before the question |
| Audio2Runs.UnansweredQuestions | code/addons/audio2/audio2emitter.cc:116-136 | in any interleaving, between two questions of which the first is unanswered there was a Play or Stop; an unanswered question is the one waited for exactly if nothing was decided after it; without a handle there is none |
| Audio2Runs.OneUnanswered | code/addons/audio2/audio2emitter.cc:116-136 | so at most one question is unanswered since the last decision |
| Audio2Examples.TwoQuestionsAtOnce | code/addons/audio2/audio2emitter.cc:217-279 | a run in which Play between two frames leaves two questions unanswered at once |
| Audio2Runs.PausedReadBack | code/addons/audio2/audio2emitter.cc:322-344 | in any interleaving, the paused bit copied by OnFrame is that of the last Pause or Resume before the question, unless it was ignored or undone; exactly when it agrees with the last one issued |
| Audio2Runs.PauseIsKnownIff | code/addons/audio2/audio2emitter.cc:322-344 | the next answer knows about a Pause or Resume exactly if no question is pending at the call |
| Audio2Examples.PauseTakenBack | code/addons/audio2/audio2emitter.cc:322-330 | a run in which OnFrame takes back the paused bit that Pause has set |
| Audio2Runs.DiscardSendsAll | code/addons/audio2/audio2emitter.cc:58-90 | Discard sends everything issued and then EventDiscard |
| Audio2Runs.OthersKeep | code/addons/audio2/audio2emitter.cc:58-344 | what one emitter does leaves every other emitter and its messages alone |
| Audio2Runs.StepKeeps | code/addons/audio2/audio2emitter.cc:58-344 | every step of either thread keeps all of this, for any number of emitters |
| Audio2Runs.NothingLostOrReordered | code/addons/audio2/audio2emitter.cc:142-211 | in any interleaving, what was issued is what was handled, then what is on its way, in order and with the valid handle, each message once; before the handle is known, all of it is pending |
| Audio2Runs.DiscardComesLast | code/addons/audio2/audio2emitter.cc:58-90 | in any interleaving, a discarded event gets EventDiscard once, last, and nothing after it |
| Audio2Runs.NoStaleReadBack | code/addons/audio2/audio2emitter.cc:116-136 | in any interleaving, the playing bit copied by OnFrame is never older than the last Play or Stop |
| Audio2State.BitsOfCalls | code/addons/audio2/audio2emitter.cc:116-344 | in any interleaving, until an answer is copied, the playing bit is what the last Play or Stop said, and the paused bit what the last Pause or Resume said; if there was none, what it was before |
| Audio2State.BitsSinceSetup | code/addons/audio2/audio2emitter.cc:39-344 | so from setup to the first answer, the bits are those of all the calls |
| Audio2State.DecisionsSetBits | code/addons/audio2/audio2emitter.cc:267-316 | what Play, PlayProgrammerSound and Stop do to the bits at once |
| Audio2State.AdjustmentsSetBits | code/addons/audio2/audio2emitter.cc:322-389 | what Pause, Resume and the setters do to the bits at once |
| Audio2State.LastStartsIs | code/addons/audio2/fmodcoreaudio/fmodeventwrapper.cc:194-300 | which message decides whether an event is playing |
| Audio2State.LastPausesIs | code/addons/audio2/fmodcoreaudio/fmodeventwrapper.cc:194-300 | and whether it is paused |
| Audio2State.HandledEvent | code/addons/audio2/fmodcoreaudio/fmodeventwrapper.cc:194-300 | a message sets its bit unless the voices of the event were stolen; a question is answered with the bits of that moment |
| Audio2State.StolenStaysSilent | code/addons/audio2/fmodcoreaudio/fmodeventwrapper.cc:358-374 | an event whose voices were stolen stays silent whatever it is told, until a Play gets them back |
| Audio2Undisturbed.ReadBackAgrees | code/addons/audio2/audio2emitter.cc:116-136 | in any interleaving in which no sound ends and no voices are stolen, the copied playing bit is that of the last decision and the paused bit that of the last call before the question |
| Audio2Undisturbed.StepStaysUndisturbed | code/addons/audio2/fmodcoreaudio/fmodeventwrapper.cc:194-300 | apart from these two, no step of either thread makes an event or an answer deviate from the calls |
| Audio2Client.Audio2Interface.Cancel | code/foundation/messaging/blockinghandlerthread.cc:33-38 | erases the matching packets of the queue |
| Audio2Client.Audio2Interface.DequeueAll | code/foundation/messaging/blockinghandlerthread.cc:81-86 | moves all packets to the work of the thread |
| Audio2Client.Audio2Interface.HandleNext | code/addons/audio2/fmodcoreaudio/fmodaudiohandler.cc:382-515 | one message takes effect on its event and is marked as handled |
| Audio2Client.Audio2Interface.Wait | code/foundation/messaging/handlerthreadbase.cc:108-114 | ends with the create message handled |
| Audio2Client.Audio2Emitter.ValidateEventHandle | code/addons/audio2/audio2emitter.cc:142-185 | does what Validate says, after a wait if asked to |
| Audio2Client.Audio2Emitter.SendEventMessage | code/addons/audio2/audio2emitter.cc:191-211 | does what SendEventMessage says |
| Audio2Client.Audio2Emitter.Decide | code/addons/audio2/audio2emitter.cc:267-316 | Play, PlayProgrammerSound and Stop: the message, the state bit, and the cancelling, in this order |
| Audio2Client.Audio2Emitter.Adjust | code/addons/audio2/audio2emitter.cc:322-389 | Pause, Resume and the setters: the message and the state bit |
| Audio2Client.Audio2Emitter.OnFrame | code/addons/audio2/audio2emitter.cc:116-136 | does what OnFrame says |
| Audio2Client.Audio2Emitter.Setup | code/addons/audio2/audio2emitter.cc:39-110 | sends off the create message |
| Audio2Client.Audio2Emitter.Discard | code/addons/audio2/audio2emitter.cc:58-90 | does what Discard says, after a wait if the handle was missing |
| Audio2ServerFrame.Audio2Server.OnFrame | code/addons/audio2/audio2server.cc:73-91 | a frame is a step of every emitter, in order, and a flush |
| Audio2ServerFrame.Audio2Server.RegisterAudioEmitter | code/addons/audio2/audio2server.cc:97-101 | the emitter is inserted where it belongs in the sorted list |
| Audio2ServerFrame.Audio2Server.UnregisterAudioEmitter | code/addons/audio2/audio2server.cc:107-112 | exactly that emitter leaves the list |
| SortedArray.BinarySearchIndex | code/foundation/util/array.h:849-895 | finds the element exactly if it is there |
| SortedArray.InsertSorted | code/foundation/util/array.h:950-1032 | finds the place of a new element; the branches marked as impossible are |
| LocaleText.AnalysisIs | code/addons/locale/localeserver.cc:206-290 | the analysis succeeds exactly if every statement is well-formed and no index is of both kinds, and then it knows every index and its kind |
| LocaleText.AsIntOfFromInt | code/addons/locale/localeserver.cc:250 | printing a number and reading it back |
| LocaleText.TokenizeJoined | code/foundation/util/string.cc:160-172 | choices joined by bars are taken apart again |
| LocaleChoices.ChoiceOfTwo | code/addons/locale/localeserver.cc:477-515 | of two texts the first is for one |
| LocaleChoices.ChoiceOfThree | code/addons/locale/localeserver.cc:477-520 | of three texts the first is for none and the second for one |
| LocaleChoices.PluralRenders | code/addons/locale/localeserver.cc:450-515 | a text with a plural hole renders to the chosen text, with everything around it as it is |
| LocaleChoices.PluralRendersThree | code/addons/locale/localeserver.cc:450-520 | the same with three texts |
| LocaleChoices.Children | code/addons/locale/localeserver.cc:486-489 | the example of the comment |
| LocaleChoices.StringHole | code/addons/locale/localeserver.cc:411-436 | a string stands for itself, and where the type asks for it for the text it is the id of, or the text that says what is missing |
| LocaleChoices.NumberHole | code/addons/locale/localeserver.cc:437-449 | a number stands for its decimal form, with a sign if it is negative |
| LocaleChoices.OneHoleRenders | code/addons/locale/localeserver.cc:351-478 | a hole renders to what it stands for, and what is around it stays |
| LocaleText.TerminatesIff | code/addons/locale/localeserver.cc:365-475 | the renderer terminates exactly if the statements it comes across all have a close bracket, or one of them is in error |
| LocaleText.HangsIff | code/addons/locale/localeserver.cc:390 | it falls back to the start of the text exactly at a statement with a colon and no close bracket, if no statement up to it is in error |
| LocaleText.ClosedTerminates | code/addons/locale/localeserver.cc:365-475 | with a close bracket for each statement it terminates whatever the arguments are |
| LocaleText.CloseBehindLastColon | code/addons/locale/localeserver.cc:365-475 | one close bracket behind the last colon is enough for that |
| LocaleText.UnclosedHangs | code/addons/locale/localeserver.cc:390 | a text on which it does not terminate |
| LocaleSegments.RenderPrinted | code/addons/locale/localeserver.cc:351-478 | for every template, rendering its printed form terminates and gives the concatenation of its parts |
| LocaleSegments.StatementsOfPrinted | code/addons/locale/localeserver.cc:206-290 | the analysis of a printed template finds exactly its holes |
| LocaleSegments.FitsMeansText | code/addons/locale/localeserver.cc:409-474 | a hole stands for a text exactly if it fits the types of the arguments |
| LocaleSegments.TypedTemplatesRender | code/addons/locale/localeserver.cc:351-478 | a template renders without an error exactly if each of its holes fits |
| LocaleParse.PrintedIff | code/addons/locale/localeserver.cc:351-478 | the printed templates are exactly the texts whose statements are closed and not nested |
| LocaleParse.ParsePrints | code/addons/locale/localeserver.cc:365-475 | taking such a text apart and printing the parts gives it back |
| LocaleParse.BracketedRenders | code/addons/locale/localeserver.cc:206-478 | such a text renders to the value of its parts, without an error exactly if each of its holes fits, and the analysis finds exactly these holes |
| LocaleServerText.LocaleServer.AnalyzeArgumentStatements | code/addons/locale/localeserver.cc:206-290 | succeeds exactly on consistent strings, with exactly their types |
| LocaleServerText.LocaleServer.InterpretArguments | code/addons/locale/localeserver.cc:298-342 | every argument ends up in the dictionary of its kind, and nothing else does |
| LocaleServerText.LocaleServer.BuildLocalizedText | code/addons/locale/localeserver.cc:351-478 | gives the outcome of Render, and is called only where it terminates |
| LocaleServerText.LocaleServer.Replace | code/addons/locale/localeserver.cc:392-474 | the replacement of one statement, with all its errors |
| LocaleServerText.LocaleServer.GetLocaleTextArgs | code/addons/locale/localeserver.cc:154-193 | the text, or an error; an empty text counts as an error |
| LocaleServerText.ArgumentsCover | code/addons/locale/localeserver.cc:298-342 | with indices 0 to n-1 and no others, strings and ints are disjoint and cover them all |
| LocaleServerText.TemplateCall | code/addons/locale/localeserver.cc:154-193 | the whole call returns the value of the template exactly if it is well-typed and not empty |
| FilterModel.AppendedLast | code/addons/db/filterset.cc:87-192 | what is added at the cursor comes last in the SQL text and in the list of attributes |
| FilterModel.OpenedLast | code/addons/db/filterset.cc:51-57 | opening a block |
| FilterModel.ClosedLast | code/addons/db/filterset.cc:66-78 | closing a block |
| FilterModel.WildcardsAreAttrs | code/addons/db/sqlite3/sqlite3filterset.cc:50-105 | the k-th wildcard of the SQL text belongs to the k-th attribute to bind |
| FilterModel.CloseKeepsClosed | code/addons/db/filterset.cc:66-78 | every closed block is non-empty, begins with no And or Or and ends with no And, Or or Not |
| FilterModel.MeaningfulIff | code/addons/db/sqlite3/sqlite3filterset.cc:50-105 | a condition has a meaning exactly if its tokens follow each other properly, in every block |
| FilterModel.BlockMeaningful | code/addons/db/filterset.cc:66-78 | a block that is closed has a meaning exactly if its tokens follow each other properly |
| FilterModel.WellFormedIsClosable | code/addons/db/filterset.cc:71-75 | the asserts of EndBlock are necessary for that |
| FilterModel.ClosableWithoutMeaning | code/addons/db/filterset.cc:71-75 | and not sufficient: two comparisons with nothing between them pass |
| FilterModel.ConjunctionMeans | code/addons/db/reader.cc:58-67 | the filter of a reader is true of exactly the rows for which every check is |
| FilterModel.BindOnlyFromZero | code/addons/db/sqlite3/sqlite3filterset.cc:117-120 | binding stays within the attributes exactly if the wildcards start at 0 or there are none |
| FilterText.ClauseMeans | code/addons/db/sqlite3/sqlite3filterset.cc:35-105 | read by itself, with the precedence of SQL and the attributes bound in order, the clause says for every row what the condition means, and says nothing exactly if the condition means nothing |
| FilterText.ConjunctionSays | code/addons/db/reader.cc:58-67 | the clause of a reader is true of exactly the rows for which every check is |
| FilterSets.FilterSet.BeginBlock | code/addons/db/filterset.cc:51-57 | the SQL text so far gains an open bracket |
| FilterSets.FilterSet.EndBlock | code/addons/db/filterset.cc:66-78 | the SQL text so far gains a close bracket; the tree does not change |
| FilterSets.FilterSet.AddCheck | code/addons/db/filterset.cc:87-153 | the SQL text so far gains a comparison, and the attributes to bind gain its attribute |
| FilterSets.FilterSet.AddOperator | code/addons/db/filterset.cc:161-192 | the SQL text so far gains the operator |
| FilterSets.FilterSet.Clear | code/addons/db/filterset.cc:36-42 | back to the empty filter |
| FilterSets.FilterSet.AsSqlWhere | code/addons/db/sqlite3/sqlite3filterset.cc:35-105 | the text says for every row what the condition means; with all blocks closed it reads like the sequence of builder calls |
| FilterSets.FilterSet.BindValuesToCommand | code/addons/db/sqlite3/sqlite3filterset.cc:112-152 | binds each attribute from the start index on to the wildcard of its own position, and stays in bounds exactly if the start index is 0 or there is nothing to bind |
| FilterSets.Reader.Open | code/addons/db/reader.cc:58-67 | the loop builds the conjunction of all filter attributes |
| PhysicsTrigger.Level.Trigger | code/addons/physics/level.cc:514-596 | from its start the simulation takes the fewest steps that reach the time; their number is the announced one, or one more unless they come out even |
| PhysicsTrigger.ExceptionsAre | code/addons/physics/level.cc:518-528 | a call more than 0.5 behind, or ahead of the time, takes no step and ends at the time; any other goes on from where the simulation was |
| PhysicsTrigger.TriggeredOnce | code/addons/physics/level.cc:514-596 | this determines the result of a call |
| PhysicsTrigger.Balance | code/addons/physics/level.cc:520-596 | over a run, simulated time is stepped through, dropped, or set back, and nothing else |
| PhysicsTrigger.SetBackBounds | code/addons/physics/level.cc:521-524 | each time it is set back by at most one step; an initial time stamp further ahead of the first call comes on top |
| PhysicsTrigger.SimulatedAtLeast | code/addons/physics/level.cc:514-596 | over any run: elapsed - D <= steps * s |
| PhysicsTrigger.SimulatedTime | code/addons/physics/level.cc:514-596 | over any run: elapsed - D <= steps * s < elapsed - D + (R + 1) * s, plus what the initial time stamp is more than a step ahead of the first call |

## Left out

- AttributeTable.CopyExtRow: not called with the table itself as the source of the row, where
  it does what CopyRow does.
- ChunkLodTree.Setup: a chunk count smaller than the tree in the file, where the pool runs
  out while loading.
- ChunkLodTree.Frame: puts back a call that the program has commented out.
- ChunkLodTree.Render: does not clip against the view frustum.
- Audio2Emitter.Setup: registering with the server is Audio2Server.RegisterAudioEmitter.
- Audio2Emitter.Discard: leaving the server is Audio2Server.UnregisterAudioEmitter.
- Audio2Server.OnFrame: does not update the listener.
- LocaleServer.BuildLocalizedText: not called where the loop would not end, which
  TerminatesIff tells beforehand.
- LocaleServer.Replace: a plural statement whose choice text would have negative length stops
  the program; what the program copies then is not modelled.
- LocaleServer.GetLocaleTextArgs: not called where the renderer would not end, nor with
  arguments whose number or types do not match the id string, which is undefined behaviour
  in the program.
- Value types: int, bool, string and float4 stand for all. Floats are opaque; guid and blob
  cells are handled like strings, matrix44 like float4.
- A pointer is four opaque bytes that only mean something together, as in 32-bit builds of
  the program; `sizeof` of the other types is that of the program.
- Attribute ids are values; the registry of attributes, typed wrappers and `PrintDebug` are
  not modelled. Row user data is kept as a list of numbers.
- Setters of int and bool require values of 32 bits; memory is unlimited.
- Enabled: between BeginAddColumns and EndAddColumns, row operations are excluded, because
  the new columns have no offsets yet.
- AttributeTable.Clear: not called inside a batch of columns, for the same reason.
- Writer: opening without a source table, writing rows and closing, which talk to a database.
- Chunk files: the shape and the labels are records in memory; positions, extents and file
  offsets of chunks are not modelled. The levels in the file are assumed to be the depths,
  and neighbour labels to lead at most one level deeper (`FileOk`).
- ComputeLod and ComputeBoundingBox: a desired lod is an arbitrary 16-bit number for each
  node; loading a mesh always succeeds; view frustum culling does not happen.
- `split` and `numMeshesAllocated` are taken to be false and 0 initially; the constructors
  do not set them.
- A node of the quadtree refers to its parent, children and neighbours by index into the
  pool instead of by pointer.
- FMOD: an event has three state bits. Sounds that end, stolen voices and voices that are
  not given back are steps of the environment; the callback for a started sound is taken
  to come during the call that starts it. Payloads of messages are not modelled.
- Locks and memory ordering between the threads: a step of either thread is atomic.
- Audio messages that are not about one event, the listener, and deferred messages.
- AsInt: numbers are unbounded; what atoi does beyond 32 bits is not modelled.
- The dictionary of texts is not loaded from a database.
- The meaning of a comparison in SQL is a parameter; NULL is not modelled. A WHERE clause is
  a list of fragments, not of characters.
- Trigger: time is real-valued, so rounding is not modelled; entities, collision and the
  physics step itself are not modelled.
