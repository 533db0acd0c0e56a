/**
  Column descriptors and the fixed-width half of the Arrow → KDS column
  transcoder (`kds_col_typlen`, `fixed_column_bytes`, `convert_fixed_column`
  in arrow_kds.c).
 */
module KdsColumn {
  import opened Wrappers
  import opened Bytes
  import opened Validity

  /** `KDSColumnType`. */
  datatype KdsColumnType = Int8 | Float8 | Float4 | Int4 | Int2 | Geometry

  /** `KDSColumnDesc`; the transcoder takes the width from `colType`, not from `typlen`. */
  datatype KdsColumnDesc = KdsColumnDesc(colType: KdsColumnType, attnum: int, typlen: int, typbyval: bool)

  /**
    An Arrow C Data Interface array as the transcoder reads it: `buffers[0]`
    (validity), `buffers[1]` (values, or `uint32` offsets for geometry) and
    `buffers[2]` (variable-length data), each possibly NULL.
   */
  datatype ArrowArray = ArrowArray(validity: Option<seq<byte>>, buffer1: Option<seq<byte>>, buffer2: Option<seq<byte>>)

  /** `kds_col_typlen`: bytes per value, or -1 for the variable-width geometry type. */
  function KdsColTyplen(t: KdsColumnType): (r: int)
    ensures r > 0 <==> !t.Geometry?
    ensures r > 0 ==> r == 2 || r == 4 || r == 8
    ensures r <= 0 ==> r == -1
    ensures t.Int8? || t.Float8? ==> r == 8
    ensures t.Float4? || t.Int4? ==> r == 4
    ensures t.Int2? ==> r == 2
  {
    match t
    case Int8 => 8
    case Float8 => 8
    case Float4 => 4
    case Int4 => 4
    case Int2 => 2
    case Geometry => -1
  }

  /** `fixed_column_bytes`: bitmap followed by the MAXALIGNed value area. */
  function FixedColumnBytes(n: nat, typlen: nat): (r: nat)
    ensures r % 8 == 0
    ensures ValidityBitmapBytes(n) + n * typlen <= r < ValidityBitmapBytes(n) + n * typlen + 8
  {
    var bitmap := ValidityBitmapBytes(n);
    var values := MaxAlign(n * typlen);
    AlignedSum(bitmap, values);
    bitmap + values
  }

  /** What the caller guarantees of a fixed-width source array: its buffers cover `n` rows. */
  predicate FixedSourceFits(col: ArrowArray, n: nat, typlen: nat)
  {
    && (col.validity.Some? ==> |col.validity.value| >= ValidityBitmapBytes(n))
    && (col.buffer1.Some? ==> |col.buffer1.value| >= n * typlen)
  }

  /**
    `convert_fixed_column`, as the bytes of the column's region: the validity
    bitmap, then `n * typlen` value bytes copied from `buffers[1]` (zero when it
    is absent), then the zero padding left by `palloc0`.
   */
  function ConvertFixedColumn(col: ArrowArray, n: nat, typlen: nat): (r: seq<byte>)
    requires typlen > 0 && FixedSourceFits(col, n, typlen)
    ensures |r| == FixedColumnBytes(n, typlen)
    ensures r[..ValidityBitmapBytes(n)] == CopyValidityBitmap(col.validity, n)
    ensures r[ValidityBitmapBytes(n) .. ValidityBitmapBytes(n) + n * typlen] == SourceValues(col, n, typlen)
    ensures forall k :: ValidityBitmapBytes(n) + n * typlen <= k < |r| ==> r[k] == 0
  {
    var bitmap := CopyValidityBitmap(col.validity, n);
    var values := SourceValues(col, n, typlen);
    FixedLayout(bitmap, values, FixedColumnBytes(n, typlen));
    bitmap + values + Zeros(FixedColumnBytes(n, typlen) - (|bitmap| + |values|))
  }

  /** Where the bitmap, the values and the zero tail of a fixed-width region sit. */
  lemma FixedLayout(bitmap: seq<byte>, values: seq<byte>, total: nat)
    requires |bitmap| + |values| <= total
    ensures var r := bitmap + values + Zeros(total - (|bitmap| + |values|));
      && |r| == total
      && r[..|bitmap|] == bitmap
      && r[|bitmap| .. |bitmap| + |values|] == values
      && (forall k :: |bitmap| + |values| <= k < total ==> r[k] == 0)
  {
    var r := bitmap + values + Zeros(total - (|bitmap| + |values|));
    assert r[..|bitmap|] == bitmap;
    assert r[|bitmap| .. |bitmap| + |values|] == values;
  }

  /** The first `n * typlen` bytes of `buffers[1]`, or zeros when it is absent. */
  function SourceValues(col: ArrowArray, n: nat, typlen: nat): (v: seq<byte>)
    requires FixedSourceFits(col, n, typlen)
    ensures |v| == n * typlen
    ensures col.buffer1.Some? ==> v == col.buffer1.value[..n * typlen]
    ensures col.buffer1.None? ==> v == Zeros(n * typlen)
  {
    if col.buffer1.Some? then col.buffer1.value[..n * typlen] else Zeros(n * typlen)
  }

  lemma {:induction false} RowSliceFits(n: nat, typlen: nat, row: nat)
    requires row < n
    ensures row * typlen + typlen <= n * typlen
    decreases n - row
  {
    assert (row + 1) * typlen == row * typlen + typlen;
    if row + 1 < n {
      RowSliceFits(n, typlen, row + 1);
    }
  }

  /** The `typlen` bytes a reader of the region finds for row `row`. */
  function FixedValueAt(region: seq<byte>, n: nat, typlen: nat, row: nat): (v: seq<byte>)
    requires row < n && ValidityBitmapBytes(n) + n * typlen <= |region|
    ensures |v| == typlen
  {
    RowSliceFits(n, typlen, row);
    var at := ValidityBitmapBytes(n) + row * typlen;
    region[at .. at + typlen]
  }

  /** The bytes of row `row` in the Arrow source: `buffers[1]`, or zeros when it is absent. */
  function SourceValueAt(col: ArrowArray, n: nat, typlen: nat, row: nat): (v: seq<byte>)
    requires FixedSourceFits(col, n, typlen) && row < n
    ensures |v| == typlen
  {
    RowSliceFits(n, typlen, row);
    if col.buffer1.Some? then col.buffer1.value[row * typlen .. row * typlen + typlen] else Zeros(typlen)
  }

  /**
    Reading a converted region back: every row's value bytes are the source's
    (zeros when `buffers[1]` is absent) and every row's validity bit is the
    source's (set when `buffers[0]` is absent).
   */
  lemma FixedColumnReadBack(col: ArrowArray, n: nat, typlen: nat, row: nat)
    requires typlen > 0 && FixedSourceFits(col, n, typlen) && row < n
    ensures FixedValueAt(ConvertFixedColumn(col, n, typlen), n, typlen, row) == SourceValueAt(col, n, typlen, row)
    ensures WordBytes * (row / WordBits) + WordBytes <= ValidityBitmapBytes(n)
    ensures ValidBit(ConvertFixedColumn(col, n, typlen), row)
      <==> (col.validity.None? || ValidBit(col.validity.value, row))
  {
    RowInBitmap(n, row);
    var r := ConvertFixedColumn(col, n, typlen);
    var bmb := ValidityBitmapBytes(n);
    ValidBitPrefix(r, bmb, row);
    if col.validity.Some? {
      ValidBitPrefix(col.validity.value, bmb, row);
    }
    FixedValuesAt(col, n, typlen, row);
  }

  lemma FixedValuesAt(col: ArrowArray, n: nat, typlen: nat, row: nat)
    requires typlen > 0 && FixedSourceFits(col, n, typlen) && row < n
    ensures FixedValueAt(ConvertFixedColumn(col, n, typlen), n, typlen, row) == SourceValueAt(col, n, typlen, row)
  {
    RowSliceFits(n, typlen, row);
    var r := ConvertFixedColumn(col, n, typlen);
    var bmb := ValidityBitmapBytes(n);
    var at := row * typlen;
    var values := SourceValues(col, n, typlen);
    SliceOfSlice(r, bmb, bmb + n * typlen, at, at + typlen);
    assert FixedValueAt(r, n, typlen, row) == values[at .. at + typlen];
    if col.buffer1.Some? {
      SliceOfSlice(col.buffer1.value, 0, n * typlen, at, at + typlen);
    } else {
      ZerosSlice(n * typlen, at, at + typlen);
    }
  }
}
