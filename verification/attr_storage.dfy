/** Copying and storing bytes, as Memory::Copy and a store through a pointer do. */
module AttrMemory {
  import opened AttrLayout
  import opened AttrImage

  method Store(buffer: array<Byte>, at: nat, bs: seq<Byte>)
    requires at + |bs| <= buffer.Length
    modifies buffer
    ensures buffer[..] == WriteAt(old(buffer[..]), at, bs)
  {
    for k := 0 to |bs|
      invariant buffer[..] == WriteAt(old(buffer[..]), at, bs[..k])
    {
      buffer[at + k] := bs[k];
    }
    assert bs[..|bs|] == bs;
  }

  /** A store inside row r of a buffer of rows. */
  method StoreInRow(buffer: array<Byte>, pitch: nat, n: nat, r: nat, o: nat, bs: seq<Byte>)
    requires Start(pitch, n) <= buffer.Length && r < n && o + |bs| <= pitch
    modifies buffer
    ensures SplitRows(buffer[..], pitch, n)
            == old(SplitRows(buffer[..], pitch, n))[r := WriteAt(old(SplitRows(buffer[..], pitch, n))[r], o, bs)]
    ensures buffer[..][Start(pitch, n)..] == old(buffer[..][Start(pitch, n)..])
  {
    hide SplitRows, Start, WriteAt;
    WriteInRow(buffer[..], pitch, n, r, o, bs);
    StartIsProduct(pitch, r);
    Store(buffer, r * pitch + o, bs);
  }

  method Copy(from: array<Byte>, src: nat, to: array<Byte>, dst: nat, n: nat)
    requires from != to && src + n <= from.Length && dst + n <= to.Length
    modifies to
    ensures to[..] == WriteAt(old(to[..]), dst, from[src..src + n])
  {
    for k := 0 to n
      invariant to[..] == WriteAt(old(to[..]), dst, from[src..src + k])
    {
      to[dst + k] := from[src + k];
    }
  }

  /** The copying part of Realloc: one block when the pitch stays, row by row otherwise.
      The rows arrive padded with zeros up to the new pitch. */
  method CopyRows(from: array<Byte>, pitch: nat, to: array<Byte>, newPitch: nat, n: nat)
    requires from != to && pitch <= newPitch
    requires Start(pitch, n) <= from.Length && Start(newPitch, n) <= to.Length
    requires to[..] == Zeros(to.Length)
    modifies to
    ensures SplitRows(to[..], newPitch, n) == WidenRows(SplitRows(from[..], pitch, n), newPitch - pitch)
    ensures to[..][Start(newPitch, n)..] == Zeros(to.Length - Start(newPitch, n))
  {
    if newPitch == pitch {
      StartIsProduct(pitch, n);
      Copy(from, 0, to, 0, pitch * n);
      assert to[..][..Start(pitch, n)] == from[..][..Start(pitch, n)];
      SplitRowsPrefix(to[..], from[..], pitch, n);
      WidenByZero(SplitRows(from[..], pitch, n));
    } else {
      CopyRowByRow(from, pitch, to, newPitch, n);
    }
  }

  method CopyRowByRow(from: array<Byte>, pitch: nat, to: array<Byte>, newPitch: nat, n: nat)
    requires from != to && pitch <= newPitch
    requires Start(pitch, n) <= from.Length && Start(newPitch, n) <= to.Length
    requires to[..] == Zeros(to.Length)
    modifies to
    ensures SplitRows(to[..], newPitch, n) == WidenRows(SplitRows(from[..], pitch, n), newPitch - pitch)
    ensures to[..][Start(newPitch, n)..] == Zeros(to.Length - Start(newPitch, n))
  {
    hide SplitRows, Zeros, WidenRows;
    var fromPtr, toPtr := 0, 0;
    ghost var rows := SplitRows(from[..], pitch, n);
    for rowIndex := 0 to n
      invariant fromPtr == Start(pitch, rowIndex) && toPtr == Start(newPitch, rowIndex)
      invariant 0 <= Start(newPitch, rowIndex) <= to.Length
      invariant SplitRows(to[..], newPitch, rowIndex) == WidenRows(rows[..rowIndex], newPitch - pitch)
      invariant to[..][Start(newPitch, rowIndex)..] == Zeros(to.Length - Start(newPitch, rowIndex))
    {
      RowFits(pitch, n, rowIndex);
      RowFits(newPitch, n, rowIndex);
      ghost var s := to[..];
      Copy(from, fromPtr, to, toPtr, pitch);
      SplitRowsAt(from[..], pitch, n, rowIndex);
      AppendRow(s, newPitch, rowIndex, rows[rowIndex]);
      assert rows[..rowIndex + 1] == rows[..rowIndex] + [rows[rowIndex]];
      fromPtr, toPtr := fromPtr + pitch, toPtr + newPitch;
    }
    assert rows[..n] == rows;
  }

  method CopyFlags(from: array<bool>, to: array<bool>, n: nat)
    requires from != to && n <= from.Length && n <= to.Length
    modifies to
    ensures to[..n] == from[..n] && to[n..] == old(to[n..])
  {
    for k := 0 to n
      invariant to[..k] == from[..k] && to[k..] == old(to[k..])
    {
      to[k] := from[k];
      assert to[..k + 1] == to[..k] + [to[k]];
      assert to[k + 1..] == old(to[k..])[1..];
    }
  }

  /** A zeroed value buffer of the new size holding the first n rows of the previous one. */
  method GrowValues(from: array?<Byte>, pitch: nat, newPitch: nat, newRows: nat, n: nat) returns (to: array<Byte>)
    requires pitch <= newPitch && n <= newRows
    requires if from == null then n == 0 else Start(pitch, n) <= from.Length
    ensures fresh(to) && to.Length == Start(newPitch, newRows) && Start(newPitch, n) <= to.Length
    ensures SplitRows(to[..], newPitch, n)
            == if from == null then [] else WidenRows(SplitRows(from[..], pitch, n), newPitch - pitch)
    ensures to[..][Start(newPitch, n)..] == Zeros(to.Length - Start(newPitch, n))
  {
    StartIsProduct(newPitch, newRows);
    to := new Byte[newPitch * newRows](_ => ZERO);
    if n < newRows {
      RowFits(newPitch, newRows, n);
    }
    assert to[..] == Zeros(to.Length);
    if from != null {
      CopyRows(from, pitch, to, newPitch, n);
    }
  }

  /** A zeroed flag buffer of the new size holding the first n flags of the previous one. */
  method GrowFlags(from: array?<bool>, newRows: nat, n: nat) returns (to: array<bool>)
    requires n <= newRows
    requires if from == null then n == 0 else n <= from.Length
    ensures fresh(to) && to.Length == newRows
    ensures to[..n] == if from == null then [] else from[..n]
    ensures forall r :: n <= r < newRows ==> !to[r]
  {
    to := new bool[newRows](_ => false);
    if from != null {
      CopyFlags(from, to, n);
      assert forall r :: n <= r < newRows ==> to[r] == to[n..][r - n];
    }
  }

  method ClearFlags(buffer: array<bool>, n: nat)
    requires n <= buffer.Length
    modifies buffer
    ensures forall k :: 0 <= k < n ==> !buffer[k]
    ensures forall k :: n <= k < buffer.Length ==> buffer[k] == old(buffer[k])
  {
    for i := 0 to n
      invariant forall k :: 0 <= k < i ==> !buffer[k]
      invariant forall k :: i <= k < buffer.Length ==> buffer[k] == old(buffer[k])
    {
      buffer[i] := false;
    }
  }
}

/** The raw storage of an attribute table. Each buffer of the table is an object of its
    own, so that its bytes can be reasoned about apart from everything else. */
module AttrStorage {
  import opened AttrLayout
  import opened AttrImage
  import AttrMemory

  /** The value buffer, with the row pitch and the row counts. */
  class ValueBuffer {
    var rowPitch: nat
    var numRows: nat
    var allocatedRows: nat
    var data: array?<Byte>
    /** The rows in use. */
    ghost var rows: seq<seq<Byte>>

    /** There is room for every allocated row, and all bytes behind the rows in use are
        zero. */
    ghost predicate Valid()
      reads this, data
      ensures Valid() ==> |rows| == numRows <= allocatedRows && forall r :: 0 <= r < |rows| ==> |rows[r]| == rowPitch
    {
      && numRows <= allocatedRows
      && |rows| == numRows
      && (forall r :: 0 <= r < |rows| ==> |rows[r]| == rowPitch)
      && if data == null then
           allocatedRows == 0
         else
           && data.Length == Start(rowPitch, allocatedRows) && Start(rowPitch, numRows) <= data.Length
           && rows == SplitRows(data[..], rowPitch, numRows)
           && data[..][Start(rowPitch, numRows)..] == Zeros(data.Length - Start(rowPitch, numRows))
    }

    constructor ()
      ensures Valid()
      ensures rowPitch == 0 && numRows == 0 && allocatedRows == 0 && data == null
    {
      rowPitch, numRows, allocatedRows, data, rows := 0, 0, 0, null, [];
    }

    /** A larger buffer with a possibly wider pitch, holding the same rows. */
    method Realloc(newPitch: nat, newAllocRows: nat)
      requires Valid() && newAllocRows >= numRows && newPitch >= rowPitch
      modifies this`data, this`rowPitch, this`allocatedRows, this`rows
      ensures Valid() && data != null && fresh(data)
      ensures rowPitch == newPitch && allocatedRows == newAllocRows
      ensures rows == WidenRows(old(rows), newPitch - old(rowPitch))
    {
      var newData := AttrMemory.GrowValues(data, rowPitch, newPitch, newAllocRows, numRows);
      rows := WidenRows(rows, newPitch - rowPitch);
      assert rows == SplitRows(newData[..], newPitch, numRows);
      data, rowPitch, allocatedRows := newData, newPitch, newAllocRows;
    }

    /** Without a buffer the pitch can simply change. */
    method SetPitch(newPitch: nat)
      requires Valid() && allocatedRows == 0
      modifies this`rowPitch, this`data
      ensures Valid() && rowPitch == newPitch && data == null
    {
      data, rowPitch := null, newPitch;
    }

    /** A store inside a row. */
    method Store(r: nat, o: nat, bs: seq<Byte>)
      requires Valid() && r < numRows && o + |bs| <= rowPitch
      modifies data, this`rows
      ensures Valid() && rows == old(rows)[r := WriteAt(old(rows[r]), o, bs)]
    {
      AttrMemory.StoreInRow(data, rowPitch, numRows, r, o, bs);
      rows := rows[r := WriteAt(rows[r], o, bs)];
    }

    /** A load from inside a row. */
    method Load(r: nat, o: nat, n: nat) returns (bs: seq<Byte>)
      requires Valid() && r < numRows && o + n <= rowPitch
      ensures |rows[r]| == rowPitch && bs == rows[r][o..o + n]
    {
      hide SplitRows, Start, Zeros;
      SplitRowsAt(data[..], rowPitch, numRows, r);
      RowFits(rowPitch, numRows, r);
      StartIsProduct(rowPitch, r);
      var at := r * rowPitch + o;
      ghost var start := Start(rowPitch, r);
      bs := data[at..at + n];
      PartOfRow(data[..], start, start + rowPitch, o, n);
    }

    lemma PartOfRow(bytes: seq<Byte>, start: nat, end: nat, o: nat, n: nat)
      requires start + o + n <= end <= |bytes|
      ensures bytes[start..end][o..o + n] == bytes[start + o..start + o + n]
    {
      var part := bytes[start..end][o..o + n];
      assert forall k :: 0 <= k < |part| ==> part[k] == bytes[start + o + k];
      assert |part| == n;
    }

    /** The next allocated row comes into use; it is zeroed. */
    method UseNextRow()
      requires Valid() && numRows < allocatedRows
      modifies this`numRows, this`rows
      ensures Valid() && numRows == old(numRows) + 1 && rows == old(rows) + [Zeros(rowPitch)]
    {
      if numRows + 1 < allocatedRows {
        RowFits(rowPitch, allocatedRows, numRows + 1);
      }
      ExposeRow(data[..], rowPitch, numRows);
      numRows, rows := numRows + 1, rows + [Zeros(rowPitch)];
    }

    method Free()
      requires Valid()
      modifies this`data, this`numRows, this`allocatedRows, this`rows
      ensures Valid() && data == null && numRows == 0 && allocatedRows == 0
    {
      data, numRows, allocatedRows, rows := null, 0, 0, [];
    }
  }

  /** One of the three row flag buffers. */
  class FlagBuffer {
    var data: array?<bool>
    /** The bits of the rows in use. */
    ghost var bits: seq<bool>

    ghost function Capacity(): nat
      reads this
    {
      if data == null then 0 else data.Length
    }

    /** Behind the rows in use no flag is set. */
    ghost predicate Valid()
      reads this, data
      ensures Valid() ==> |bits| <= Capacity()
    {
      if data == null then
        bits == []
      else
        && |bits| <= data.Length
        && data[..|bits|] == bits
        && forall r :: |bits| <= r < data.Length ==> !data[r]
    }

    constructor ()
      ensures Valid() && data == null && bits == [] && Capacity() == 0
    {
      data, bits := null, [];
    }

    method Realloc(newRows: nat, n: nat)
      requires Valid() && |bits| == n <= newRows
      modifies this`data
      ensures Valid() && data != null && fresh(data) && Capacity() == newRows
    {
      data := AttrMemory.GrowFlags(data, newRows, n);
    }

    /** The next row comes into use, flagged or not. */
    method UseNextRow(n: nat, flag: bool)
      requires Valid() && |bits| == n < Capacity()
      modifies data, this`bits
      ensures Capacity() == old(Capacity())
      ensures Valid() && bits == old(bits) + [flag]
    {
      if flag {
        data[n] := true;
      }
      bits := bits + [flag];
    }

    method Flag(r: nat)
      requires Valid() && r < |bits|
      modifies data, this`bits
      ensures Capacity() == old(Capacity())
      ensures Valid() && bits == old(bits)[r := true]
    {
      data[r] := true;
      bits := bits[r := true];
    }

    method IsFlagged(r: nat) returns (flag: bool)
      requires Valid() && r < |bits|
      ensures flag == bits[r]
    {
      flag := data[r];
    }

    method Clear(n: nat)
      requires Valid() && |bits| == n
      modifies data, this`bits
      ensures Capacity() == old(Capacity())
      ensures Valid() && bits == seq(n, _ => false)
    {
      if data != null {
        AttrMemory.ClearFlags(data, n);
      }
      bits := seq(n, _ => false);
    }

    method Free()
      requires Valid()
      modifies this
      ensures Valid() && data == null && bits == [] && Capacity() == 0
    {
      data, bits := null, [];
    }
  }

  /** The three row flag buffers. */
  class RowFlags {
    const rowModified: FlagBuffer
    const rowDeleted: FlagBuffer
    const rowNew: FlagBuffer

    /** The buffers have the same rows and capacity and share no memory. */
    ghost predicate Valid()
      reads rowModified, rowModified.data, rowDeleted, rowDeleted.data, rowNew, rowNew.data
      ensures Valid() ==> |rowModified.bits| == |rowDeleted.bits| == |rowNew.bits| <= rowModified.Capacity()
    {
      && rowModified != rowDeleted && rowModified != rowNew && rowDeleted != rowNew
      && (rowModified.data == null || (rowModified.data != rowDeleted.data && rowModified.data != rowNew.data))
      && (rowDeleted.data == null || rowDeleted.data != rowNew.data)
      && rowModified.Valid() && rowDeleted.Valid() && rowNew.Valid()
      && |rowModified.bits| == |rowDeleted.bits| == |rowNew.bits|
      && rowModified.Capacity() == rowDeleted.Capacity() == rowNew.Capacity()
    }

    ghost function Capacity(): nat
      reads rowModified
    {
      rowModified.Capacity()
    }

    /** Every buffer is as it was, gone, or new. */
    twostate predicate FreshBuffers()
      reads rowModified`data, rowDeleted`data, rowNew`data
    {
      && (rowModified.data == null || rowModified.data == old(rowModified.data) || fresh(rowModified.data))
      && (rowDeleted.data == null || rowDeleted.data == old(rowDeleted.data) || fresh(rowDeleted.data))
      && (rowNew.data == null || rowNew.data == old(rowNew.data) || fresh(rowNew.data))
    }

    constructor ()
      ensures Valid() && fresh(rowModified) && fresh(rowDeleted) && fresh(rowNew)
      ensures rowModified.data == null && rowDeleted.data == null && rowNew.data == null
      ensures rowModified.bits == [] && Capacity() == 0
    {
      rowModified := new FlagBuffer();
      rowDeleted := new FlagBuffer();
      rowNew := new FlagBuffer();
    }

    method Realloc(newRows: nat, n: nat)
      requires Valid() && |rowModified.bits| == n <= newRows
      modifies rowModified`data, rowDeleted`data, rowNew`data
      ensures Valid() && Capacity() == newRows && FreshBuffers()
    {
      hide FlagBuffer.Valid;
      rowModified.Realloc(newRows, n);
      rowDeleted.Realloc(newRows, n);
      rowNew.Realloc(newRows, n);
    }

    /** The next row comes into use, possibly flagged new. */
    method UseNextRow(n: nat, flagNew: bool)
      requires Valid() && |rowModified.bits| == n < Capacity()
      modifies rowModified.data, rowModified`bits, rowDeleted.data, rowDeleted`bits, rowNew.data, rowNew`bits
      ensures Valid() && Capacity() == old(Capacity())
      ensures rowModified.bits == old(rowModified.bits) + [false]
      ensures rowDeleted.bits == old(rowDeleted.bits) + [false]
      ensures rowNew.bits == old(rowNew.bits) + [flagNew]
    {
      hide FlagBuffer.Valid;
      rowModified.UseNextRow(n, false);
      rowDeleted.UseNextRow(n, false);
      rowNew.UseNextRow(n, flagNew);
    }

    method FlagModified(r: nat)
      requires Valid() && r < |rowModified.bits|
      modifies rowModified.data, rowModified`bits
      ensures Valid() && Capacity() == old(Capacity()) && rowModified.bits == old(rowModified.bits)[r := true]
      ensures rowDeleted.bits == old(rowDeleted.bits) && rowNew.bits == old(rowNew.bits)
    {
      hide FlagBuffer.Valid;
      rowModified.Flag(r);
    }

    method FlagDeleted(r: nat)
      requires Valid() && r < |rowDeleted.bits|
      modifies rowDeleted.data, rowDeleted`bits
      ensures Valid() && Capacity() == old(Capacity()) && rowDeleted.bits == old(rowDeleted.bits)[r := true]
      ensures rowModified.bits == old(rowModified.bits) && rowNew.bits == old(rowNew.bits)
    {
      hide FlagBuffer.Valid;
      rowDeleted.Flag(r);
    }

    method ClearNew(n: nat)
      requires Valid() && |rowModified.bits| == n
      modifies rowNew.data, rowNew`bits
      ensures Valid() && Capacity() == old(Capacity()) && rowNew.bits == seq(n, _ => false)
      ensures rowModified.bits == old(rowModified.bits) && rowDeleted.bits == old(rowDeleted.bits)
    {
      hide FlagBuffer.Valid;
      rowNew.Clear(n);
    }

    method ClearAll(n: nat)
      requires Valid() && |rowModified.bits| == n
      modifies rowModified.data, rowModified`bits, rowDeleted.data, rowDeleted`bits, rowNew.data, rowNew`bits
      ensures Valid() && Capacity() == old(Capacity())
      ensures rowModified.bits == rowDeleted.bits == rowNew.bits == seq(n, _ => false)
    {
      hide FlagBuffer.Valid;
      rowModified.Clear(n);
      rowNew.Clear(n);
      rowDeleted.Clear(n);
    }

    method Free()
      requires Valid()
      modifies rowModified, rowDeleted, rowNew
      ensures Valid() && Capacity() == 0 && rowModified.bits == rowDeleted.bits == rowNew.bits == []
      ensures rowModified.data == null && rowDeleted.data == null && rowNew.data == null
    {
      hide FlagBuffer.Valid;
      rowModified.Free();
      rowDeleted.Free();
      rowNew.Free();
    }
  }
}
