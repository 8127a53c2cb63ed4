/** The byte-level vocabulary of Attr::AttributeTable: what a cell looks like in raw
    memory, where a cell lives in the value buffer, and how a write or a change of row
    pitch moves bytes around. Everything here is about sequences; the class that owns
    the buffers is in attr_table.dfy. */
module AttrLayout {

  /** One byte of memory. A pointer written to memory leaves four fragments of itself,
      so that addresses need not be numbers of a fixed width. */
  datatype Byte = Raw(value: int) | Frag(address: int, index: int)

  const ZERO: Byte := Raw(0)

  /** Four representative value types: a plain 4-byte number, a bool stored as an int,
      a wide value stored inline, and a value held through an owned pointer. */
  datatype ValueType = IntType | BoolType | Float4Type | StringType

  /** A value; the sixteen bytes of a Float4 are not interpreted. */
  datatype Value =
    | IntValue(i: int)
    | BoolValue(b: bool)
    | Float4Value(f: seq<int>)
    | StringValue(s: string)
  {
    function Type(): ValueType {
      match this
      case IntValue(_) => IntType
      case BoolValue(_) => BoolType
      case Float4Value(_) => Float4Type
      case StringValue(_) => StringType
    }

    /** Ints are 32 bits wide and Float4 values sixteen bytes long. */
    predicate InRange() {
      && (IntValue? ==> -0x8000_0000 <= i < 0x8000_0000)
      && (Float4Value? ==> |f| == 16)
    }
  }

  /** What a cell holds: a value, or the null pointer of a string cell that has no string. */
  datatype Cell = Holds(value: Value) | NullString {
    function Type(): ValueType {
      if NullString? then StringType else value.Type()
    }

    predicate Fits(t: ValueType) {
      Type() == t && (Holds? ==> value.InRange())
    }
  }

  /** The type of an attribute is the type of its default value. */
  datatype AttrId = AttrId(name: string, readWrite: bool, defaultValue: Value) {
    function ValueType(): ValueType { defaultValue.Type() }
  }

  // ----- sizes and offsets

  function ValueTypeSize(t: ValueType): (n: nat)
    ensures n > 0
  {
    match t
    case IntType => 4
    case BoolType => 4
    case Float4Type => 16
    case StringType => 4
  }

  /** Byte offset of column c in a row. */
  function Offset(cols: seq<AttrId>, c: nat): nat
    requires c <= |cols|
  {
    if c == 0 then 0 else Offset(cols, c - 1) + ValueTypeSize(cols[c - 1].ValueType())
  }

  function AlignUp(n: nat): nat {
    (n + 3) / 4 * 4
  }

  /** The row pitch: the end of the last column, rounded up to four bytes. */
  function Pitch(cols: seq<AttrId>): nat {
    AlignUp(Offset(cols, |cols|))
  }

  lemma OffsetSums(cols: seq<AttrId>, c: nat)
    requires c <= |cols|
    ensures Offset(cols, 0) == 0
    ensures c < |cols| ==> Offset(cols, c + 1) == Offset(cols, c) + ValueTypeSize(cols[c].ValueType())
  {
  }

  lemma {:induction false} OffsetMonotone(cols: seq<AttrId>, c: nat, d: nat)
    requires c < d <= |cols|
    ensures Offset(cols, c) + ValueTypeSize(cols[c].ValueType()) <= Offset(cols, d)
  {
    if c + 1 < d {
      OffsetMonotone(cols, c, d - 1);
    }
  }

  lemma {:induction false} OffsetAligned(cols: seq<AttrId>, c: nat)
    requires c <= |cols|
    ensures Offset(cols, c) % 4 == 0
  {
    if c > 0 {
      OffsetAligned(cols, c - 1);
    }
  }

  /** Every cell is a multiple of four bytes wide, so rounding up adds nothing. */
  lemma PitchIsRowEnd(cols: seq<AttrId>)
    ensures Pitch(cols) == Offset(cols, |cols|)
  {
    OffsetAligned(cols, |cols|);
  }

  /** Every column ends inside the row. */
  lemma ColumnFits(cols: seq<AttrId>, c: nat)
    requires c < |cols|
    ensures Offset(cols, c) + ValueTypeSize(cols[c].ValueType()) <= Pitch(cols)
  {
    OffsetMonotone(cols, c, |cols|);
    PitchIsRowEnd(cols);
  }

  lemma {:induction false} OffsetOfPrefix(cols: seq<AttrId>, more: seq<AttrId>, c: nat)
    requires c <= |cols|
    ensures Offset(cols + more, c) == Offset(cols, c)
  {
    if c > 0 {
      OffsetOfPrefix(cols, more, c - 1);
    }
  }

  // ----- writes

  function WriteAt(s: seq<Byte>, at: nat, bs: seq<Byte>): (t: seq<Byte>)
    requires at + |bs| <= |s|
    ensures |t| == |s|
    ensures forall i :: 0 <= i < |s| ==> t[i] == if at <= i < at + |bs| then bs[i - at] else s[i]
  {
    s[..at] + bs + s[at + |bs|..]
  }

  /** A write leaves every range it does not touch as it was. */
  lemma WriteElsewhere(s: seq<Byte>, at: nat, bs: seq<Byte>, lo: nat, hi: nat)
    requires at + |bs| <= |s|
    requires lo <= hi <= |s|
    requires hi <= at || at + |bs| <= lo
    ensures WriteAt(s, at, bs)[lo..hi] == s[lo..hi]
  {
  }

  // ----- rows

  /** Where row r starts. Written by recursion so that the solver sees sums only; it is
      the product the program computes. */
  function Start(pitch: nat, r: nat): nat {
    if r == 0 then 0 else Start(pitch, r - 1) + pitch
  }

  lemma {:induction false} StartIsProduct(pitch: nat, r: nat)
    ensures Start(pitch, r) == r * pitch
  {
    if r > 0 {
      StartIsProduct(pitch, r - 1);
    }
  }

  lemma {:induction false} RowFits(pitch: nat, rows: nat, r: nat)
    requires r < rows
    ensures Start(pitch, r) + pitch == Start(pitch, r + 1) <= Start(pitch, rows)
  {
    if r + 1 < rows {
      RowFits(pitch, rows - 1, r);
    }
  }

  /** The bytes of row r in a buffer of the given pitch. */
  function RowBytes(s: seq<Byte>, pitch: nat, r: nat): (row: seq<Byte>)
    requires Start(pitch, r + 1) <= |s|
    ensures |row| == pitch
  {
    s[Start(pitch, r)..Start(pitch, r + 1)]
  }

  /** The first n rows of a buffer. */
  function SplitRows(s: seq<Byte>, pitch: nat, n: nat): (rows: seq<seq<Byte>>)
    requires Start(pitch, n) <= |s|
    ensures |rows| == n && forall r :: 0 <= r < n ==> |rows[r]| == pitch
  {
    if n == 0 then [] else SplitRows(s, pitch, n - 1) + [RowBytes(s, pitch, n - 1)]
  }

  lemma {:induction false} SplitRowsAt(s: seq<Byte>, pitch: nat, n: nat, r: nat)
    requires Start(pitch, n) <= |s| && r < n
    ensures Start(pitch, r + 1) <= |s| && SplitRows(s, pitch, n)[r] == RowBytes(s, pitch, r)
  {
    RowFits(pitch, n, r);
    if r + 1 < n {
      SplitRowsAt(s, pitch, n - 1, r);
    }
  }

  /** Rows are disjoint: row k either is row r or ends before or starts after it. */
  lemma RowsApart(pitch: nat, r: nat, k: nat)
    requires k != r
    ensures Start(pitch, k + 1) <= Start(pitch, r) || Start(pitch, r + 1) <= Start(pitch, k)
  {
    if k < r {
      RowFits(pitch, r, k);
    } else {
      RowFits(pitch, k, r);
    }
  }

  lemma WriteInsideRow(s: seq<Byte>, pitch: nat, r: nat, o: nat, bs: seq<Byte>)
    requires Start(pitch, r + 1) <= |s| && o + |bs| <= pitch
    ensures 0 <= Start(pitch, r) + o && Start(pitch, r) + o + |bs| <= |s|
    ensures RowBytes(WriteAt(s, Start(pitch, r) + o, bs), pitch, r) == WriteAt(RowBytes(s, pitch, r), o, bs)
  {
    RowFits(pitch, r + 1, r);
    var a := Start(pitch, r);
    var t := WriteAt(s, a + o, bs);
    assert t[a..a + pitch] == WriteAt(s[a..a + pitch], o, bs);
  }

  lemma WriteOutsideRow(s: seq<Byte>, pitch: nat, k: nat, at: nat, bs: seq<Byte>)
    requires Start(pitch, k + 1) <= |s| && at + |bs| <= |s|
    requires Start(pitch, k + 1) <= at || at + |bs| <= Start(pitch, k)
    ensures RowBytes(WriteAt(s, at, bs), pitch, k) == RowBytes(s, pitch, k)
  {
    RowFits(pitch, k + 1, k);
    WriteElsewhere(s, at, bs, Start(pitch, k), Start(pitch, k + 1));
  }

  lemma WriteInRowAt(s: seq<Byte>, pitch: nat, n: nat, r: nat, o: nat, bs: seq<Byte>, k: nat)
    requires Start(pitch, n) <= |s| && r < n && o + |bs| <= pitch && k < n
    requires Start(pitch, r) + o + |bs| <= |s|
    ensures SplitRows(WriteAt(s, Start(pitch, r) + o, bs), pitch, n)[k]
            == if k == r then WriteAt(SplitRows(s, pitch, n)[r], o, bs) else SplitRows(s, pitch, n)[k]
  {
    var t := WriteAt(s, Start(pitch, r) + o, bs);
    SplitRowsAt(s, pitch, n, r);
    SplitRowsAt(s, pitch, n, k);
    SplitRowsAt(t, pitch, n, k);
    if k == r {
      WriteInsideRow(s, pitch, r, o, bs);
    } else {
      RowsApart(pitch, r, k);
      WriteOutsideRow(s, pitch, k, Start(pitch, r) + o, bs);
    }
  }

  /** A write inside row r is a write to that row and to nothing else. */
  lemma WriteInRow(s: seq<Byte>, pitch: nat, n: nat, r: nat, o: nat, bs: seq<Byte>)
    requires Start(pitch, n) <= |s| && r < n && o + |bs| <= pitch
    ensures 0 <= Start(pitch, r) + o && Start(pitch, r) + o + |bs| <= Start(pitch, n)
    ensures SplitRows(WriteAt(s, Start(pitch, r) + o, bs), pitch, n)
            == SplitRows(s, pitch, n)[r := WriteAt(SplitRows(s, pitch, n)[r], o, bs)]
    ensures WriteAt(s, Start(pitch, r) + o, bs)[Start(pitch, n)..] == s[Start(pitch, n)..]
  {
    RowFits(pitch, n, r);
    var t := WriteAt(s, Start(pitch, r) + o, bs);
    var rows, rows' := SplitRows(s, pitch, n), SplitRows(t, pitch, n);
    forall k | 0 <= k < n
      ensures rows'[k] == if k == r then WriteAt(rows[r], o, bs) else rows[k]
    {
      WriteInRowAt(s, pitch, n, r, o, bs, k);
    }
    WriteElsewhere(s, Start(pitch, r) + o, bs, Start(pitch, n), |s|);
  }

  function Zeros(n: nat): (z: seq<Byte>)
    ensures |z| == n
  {
    seq(n, _ => ZERO)
  }

  lemma {:induction false} SplitRowsPrefix(s: seq<Byte>, t: seq<Byte>, pitch: nat, n: nat)
    requires Start(pitch, n) <= |s| && Start(pitch, n) <= |t| && 0 <= Start(pitch, n)
    requires s[..Start(pitch, n)] == t[..Start(pitch, n)]
    ensures SplitRows(s, pitch, n) == SplitRows(t, pitch, n)
  {
    if n > 0 {
      var a, e := Start(pitch, n - 1), Start(pitch, n);
      assert s[..a] == s[..e][..a] == t[..e][..a] == t[..a];
      SplitRowsPrefix(s, t, pitch, n - 1);
      assert s[a..e] == s[..e][a..] == t[..e][a..] == t[a..e];
    }
  }

  /** Writing a whole row at the end of what has been copied so far, into a zeroed
      buffer: one more row arrives, padded with zeros up to the new pitch. */
  lemma AppendRow(s: seq<Byte>, pitch: nat, n: nat, row: seq<Byte>)
    requires Start(pitch, n + 1) <= |s| && |row| <= pitch
    requires Start(pitch, n) <= |s| && s[Start(pitch, n)..] == Zeros(|s| - Start(pitch, n))
    ensures Start(pitch, n) + |row| <= |s|
    ensures var t := WriteAt(s, Start(pitch, n), row);
            && SplitRows(t, pitch, n + 1) == SplitRows(s, pitch, n) + [row + Zeros(pitch - |row|)]
            && t[Start(pitch, n + 1)..] == Zeros(|s| - Start(pitch, n + 1))
  {
    RowFits(pitch, n + 1, n);
    var a := Start(pitch, n);
    var t := WriteAt(s, a, row);
    SplitRowsPrefix(s, t, pitch, n);
    assert t[a + |row|..] == s[a..][|row|..] == Zeros(|s| - a - |row|);
    assert t[a + |row|..][..pitch - |row|] == Zeros(pitch - |row|);
    assert RowBytes(t, pitch, n) == t[a..a + |row|] + t[a + |row|..][..pitch - |row|];
    assert t[a + pitch..] == t[a + |row|..][pitch - |row|..];
  }

  /** Growing the row count by one exposes a row of zeros. */
  lemma ExposeRow(s: seq<Byte>, pitch: nat, n: nat)
    requires Start(pitch, n + 1) <= |s|
    requires Start(pitch, n) <= |s| && s[Start(pitch, n)..] == Zeros(|s| - Start(pitch, n))
    ensures SplitRows(s, pitch, n + 1) == SplitRows(s, pitch, n) + [Zeros(pitch)]
    ensures s[Start(pitch, n + 1)..] == Zeros(|s| - Start(pitch, n + 1))
  {
    RowFits(pitch, n + 1, n);
    assert RowBytes(s, pitch, n) == s[Start(pitch, n)..][..pitch] == Zeros(pitch);
    assert s[Start(pitch, n + 1)..] == s[Start(pitch, n)..][pitch..];
  }

  // ----- cells in a row

  /** The bytes of column c within a row. */
  function CellBytes(cols: seq<AttrId>, row: seq<Byte>, c: nat): (bs: seq<Byte>)
    requires c < |cols| && Pitch(cols) <= |row|
    ensures |bs| == ValueTypeSize(cols[c].ValueType())
  {
    ColumnFits(cols, c);
    row[Offset(cols, c)..Offset(cols, c) + ValueTypeSize(cols[c].ValueType())]
  }

  lemma WriteOwnCell(row: seq<Byte>, o: nat, w: nat, bs: seq<Byte>)
    requires |bs| <= w && o + w <= |row|
    ensures WriteAt(row, o, bs)[o..o + w] == bs + row[o..o + w][|bs|..]
  {
  }

  lemma ColumnsApart(cols: seq<AttrId>, c: nat, d: nat)
    requires c < |cols| && d < |cols| && c != d
    ensures Offset(cols, c) + ValueTypeSize(cols[c].ValueType()) <= Offset(cols, d)
            || Offset(cols, d) + ValueTypeSize(cols[d].ValueType()) <= Offset(cols, c)
  {
    if d < c {
      OffsetMonotone(cols, d, c);
    } else {
      OffsetMonotone(cols, c, d);
    }
  }

  /** Cells do not overlap: writing at most the width of column c at its offset changes
      the bytes of column c and of no other column. */
  lemma WriteCellInRow(cols: seq<AttrId>, row: seq<Byte>, c: nat, bs: seq<Byte>, d: nat)
    requires c < |cols| && d < |cols| && Pitch(cols) <= |row|
    requires |bs| <= ValueTypeSize(cols[c].ValueType())
    ensures Offset(cols, c) + |bs| <= |row|
    ensures CellBytes(cols, WriteAt(row, Offset(cols, c), bs), d)
            == if d == c then bs + CellBytes(cols, row, c)[|bs|..] else CellBytes(cols, row, d)
  {
    hide Offset, Pitch, WriteAt;
    ColumnFits(cols, c);
    var o, w := Offset(cols, c), ValueTypeSize(cols[c].ValueType());
    if d == c {
      WriteOwnCell(row, o, w, bs);
    } else {
      ColumnFits(cols, d);
      ColumnsApart(cols, c, d);
      WriteElsewhere(row, o, bs, Offset(cols, d), Offset(cols, d) + ValueTypeSize(cols[d].ValueType()));
    }
  }

  lemma PitchGrows(cols: seq<AttrId>, more: seq<AttrId>)
    ensures Pitch(cols) <= Pitch(cols + more)
  {
    var all := cols + more;
    OffsetOfPrefix(cols, more, |cols|);
    if more == [] {
      assert all == cols;
    } else {
      OffsetMonotone(all, |cols|, |all|);
      PitchIsRowEnd(cols);
      PitchIsRowEnd(all);
    }
  }

  lemma WidenRowOldColumn(cols: seq<AttrId>, more: seq<AttrId>, row: seq<Byte>, pad: nat, c: nat)
    requires |row| == Pitch(cols) && |row| + pad == Pitch(cols + more)
    requires c < |cols|
    ensures CellBytes(cols + more, row + Zeros(pad), c) == CellBytes(cols, row, c)
  {
    ColumnFits(cols, c);
    OffsetOfPrefix(cols, more, c);
  }

  lemma WidenRowNewColumn(cols: seq<AttrId>, more: seq<AttrId>, row: seq<Byte>, pad: nat, c: nat)
    requires |row| == Pitch(cols) && |row| + pad == Pitch(cols + more)
    requires |cols| <= c < |cols + more|
    ensures CellBytes(cols + more, row + Zeros(pad), c) == Zeros(ValueTypeSize((cols + more)[c].ValueType()))
  {
    var all := cols + more;
    ColumnFits(all, c);
    PitchIsRowEnd(cols);
    OffsetOfPrefix(cols, more, |cols|);
    if c > |cols| {
      OffsetMonotone(all, |cols|, c);
    }
  }

  /** Padding a row with zeros to the pitch of a longer column list keeps every old cell
      and gives zeroed new cells. */
  lemma WidenRow(cols: seq<AttrId>, more: seq<AttrId>, row: seq<Byte>, c: nat)
    requires |row| == Pitch(cols) <= Pitch(cols + more)
    requires c < |cols + more|
    ensures CellBytes(cols + more, row + Zeros(Pitch(cols + more) - |row|), c)
            == if c < |cols| then CellBytes(cols, row, c) else Zeros(ValueTypeSize((cols + more)[c].ValueType()))
  {
    if c < |cols| {
      WidenRowOldColumn(cols, more, row, Pitch(cols + more) - |row|, c);
    } else {
      WidenRowNewColumn(cols, more, row, Pitch(cols + more) - |row|, c);
    }
  }

  lemma ZeroRow(cols: seq<AttrId>, c: nat)
    requires c < |cols|
    ensures CellBytes(cols, Zeros(Pitch(cols)), c) == Zeros(ValueTypeSize(cols[c].ValueType()))
  {
    ColumnFits(cols, c);
  }

  // ----- encodings

  /** Two's complement, little-endian. */
  function EncodeInt(v: int): (bs: seq<Byte>)
    ensures |bs| == 4
  {
    var u := if v < 0 then v + 0x1_0000_0000 else v;
    [Raw(u % 256), Raw(u / 256 % 256), Raw(u / 0x1_0000 % 256), Raw(u / 0x100_0000 % 256)]
  }

  function RawValue(b: Byte): int { if b.Raw? then b.value else 0 }

  function DecodeInt(bs: seq<Byte>): int
    requires |bs| == 4
  {
    var u := RawValue(bs[0]) + 256 * RawValue(bs[1]) + 0x1_0000 * RawValue(bs[2]) + 0x100_0000 * RawValue(bs[3]);
    if u < 0x8000_0000 then u else u - 0x1_0000_0000
  }

  lemma IntRoundTrip(v: int)
    requires IntValue(v).InRange()
    ensures DecodeInt(EncodeInt(v)) == v
  {
    var u: int := if v < 0 then v + 0x1_0000_0000 else v;
    assert u == u % 256 + 256 * (u / 256);
    assert u / 256 == u / 256 % 256 + 256 * (u / 0x1_0000) by { assert u / 256 / 256 == u / 0x1_0000; }
    assert u / 0x1_0000 == u / 0x1_0000 % 256 + 256 * (u / 0x100_0000) by {
      assert u / 0x1_0000 / 256 == u / 0x100_0000;
    }
    assert u / 0x100_0000 % 256 == u / 0x100_0000;
  }

  function EncodePointer(p: int): (bs: seq<Byte>)
    ensures |bs| == 4
  {
    if p == 0 then Zeros(4) else seq(4, i => Frag(p, i))
  }

  /** The address held by a string cell, 0 for the null pointer. */
  function DecodePointer(bs: seq<Byte>): int
    requires |bs| == 4
  {
    if bs[0].Frag? then bs[0].address else 0
  }

  function EncodeFloat4(f: seq<int>): (bs: seq<Byte>)
    requires |f| == 16
    ensures |bs| == 16
  {
    seq(16, i requires 0 <= i < 16 => Raw(f[i]))
  }

  function DecodeFloat4(bs: seq<Byte>): (f: seq<int>)
    requires |bs| == 16
    ensures |f| == 16
  {
    seq(16, i requires 0 <= i < 16 && |bs| == 16 => RawValue(bs[i]))
  }
}
