/**
  `arrow_batch_to_kds`: one flat KDS_FORMAT_COLUMN buffer holding a header and
  one MAXALIGNed region per column, in column order.

  Header (little-endian):
    uint32 length @ 0, uint16 format @ 4, uint16 ncols @ 6,
    uint32 nrooms @ 8, uint32 nitems @ 12, uint32 col_offset[ncols] @ 16,
  padded to MAXALIGN.
 */
module KdsBatch {
  import opened Wrappers
  import opened Bytes
  import opened Validity
  import opened KdsColumn
  import opened Geometry
  import opened Layout

  const KdsFormatColumn: nat := 4
  const KdsHdrLengthOff: nat := 0
  const KdsHdrFormatOff: nat := 4
  const KdsHdrNcolsOff: nat := 6
  const KdsHdrNroomsOff: nat := 8
  const KdsHdrNitemsOff: nat := 12
  const KdsHdrColOffsets: nat := 16

  /** `KDSBatch`: the buffer, its length, and the shape it was built for. */
  datatype KdsBatch = KdsBatch(buffer: seq<byte>, bufferLen: nat, ncols: int, nrows: int)

  /** `KDS_HEADER_SIZE(ncols)`. */
  function KdsHeaderSize(ncols: nat): (r: nat)
    ensures r % 8 == 0
    ensures KdsHdrColOffsets + 4 * ncols <= r < KdsHdrColOffsets + 4 * ncols + 8
  {
    MaxAlign(KdsHdrColOffsets + ncols * 4)
  }

  /** `col_sizes[i]`: fixed-width or geometry size, chosen by `kds_col_typlen`. */
  function ColumnSize(d: KdsColumnDesc, n: nat): (r: nat)
    ensures r % 8 == 0
  {
    var typlen := KdsColTyplen(d.colType);
    if typlen > 0 then FixedColumnBytes(n, typlen) else GeometryRegionSize(n)
  }

  /** What the caller guarantees of one source column. */
  predicate ColumnSourceFits(col: ArrowArray, d: KdsColumnDesc, n: nat)
  {
    var typlen := KdsColTyplen(d.colType);
    if typlen > 0 then FixedSourceFits(col, n, typlen)
    else GeometrySourceWellFormed(col, n) && GeometryRowsFit(n)
  }

  predicate BatchSourceFits(cols: seq<ArrowArray>, descs: seq<KdsColumnDesc>, n: nat)
  {
    |cols| == |descs| && forall i :: 0 <= i < |descs| ==> ColumnSourceFits(cols[i], descs[i], n)
  }

  /** The bytes of one column's region, as the matching converter writes them. */
  function ColumnRegion(col: ArrowArray, d: KdsColumnDesc, n: nat): (r: seq<byte>)
    requires ColumnSourceFits(col, d, n)
    ensures |r| == ColumnSize(d, n)
  {
    var typlen := KdsColTyplen(d.colType);
    if typlen > 0 then ConvertFixedColumn(col, n, typlen) else ConvertGeometryColumn(col, n)
  }

  /** `MAXALIGN(col_sizes[i])`, the space each region takes in the buffer. */
  function AlignedColumnSizes(descs: seq<KdsColumnDesc>, n: nat): (sizes: seq<nat>)
    ensures |sizes| == |descs|
  {
    seq(|descs|, i requires 0 <= i < |descs| => MaxAlign(ColumnSize(descs[i], n)))
  }

  /** Column `i`'s slot in the buffer: its region, then zeros up to the MAXALIGNed size. */
  function ColumnSlot(col: ArrowArray, d: KdsColumnDesc, n: nat): (r: seq<byte>)
    requires ColumnSourceFits(col, d, n)
    ensures |r| == MaxAlign(ColumnSize(d, n))
  {
    var region := ColumnRegion(col, d, n);
    region + Zeros(MaxAlign(|region|) - |region|)
  }

  /** The slots of all columns, in column order. */
  function RegionList(cols: seq<ArrowArray>, descs: seq<KdsColumnDesc>, n: nat): (rs: seq<seq<byte>>)
    requires BatchSourceFits(cols, descs, n)
    ensures SizesMatch(rs, AlignedColumnSizes(descs, n))
  {
    seq(|descs|, i requires 0 <= i < |descs| => ColumnSlot(cols[i], descs[i], n))
  }

  /** `(uint32) v` of every entry. */
  function U32All(vs: seq<nat>): (r: seq<nat>)
    ensures |r| == |vs|
    ensures forall i :: 0 <= i < |vs| ==> r[i] == U32(vs[i])
  {
    seq(|vs|, i requires 0 <= i < |vs| => U32(vs[i]))
  }

  /** The header fields as written, before the padding. */
  function HeaderFields(ncols: nat, nrows: nat, total: nat, offsets: seq<nat>): (f: seq<byte>)
    requires |offsets| == ncols
    ensures |f| == KdsHdrColOffsets + 4 * ncols
  {
    LeBytes(U32(total), 4) + LeBytes(KdsFormatColumn, 2) + LeBytes(U16(ncols), 2)
      + LeBytes(U32(nrows), 4) + LeBytes(U32(nrows), 4) + LeArray32(U32All(offsets))
  }

  /** The header bytes, including the zero padding up to `KDS_HEADER_SIZE`. */
  function KdsHeader(ncols: nat, nrows: nat, total: nat, offsets: seq<nat>): (h: seq<byte>)
    requires |offsets| == ncols
    ensures |h| == KdsHeaderSize(ncols)
    ensures h[..KdsHdrColOffsets + 4 * ncols] == HeaderFields(ncols, nrows, total, offsets)
  {
    var fields := HeaderFields(ncols, nrows, total, offsets);
    fields + Zeros(KdsHeaderSize(ncols) - |fields|)
  }

  /** The header as a reader of the buffer sees it. */
  datatype KdsHeaderView = KdsHeaderView(
    length: nat, format: nat, ncols: nat, nrooms: nat, nitems: nat, colOffsets: seq<nat>)

  function ReadU32(buf: seq<byte>, at: nat): nat
    requires at + 4 <= |buf|
  {
    LeValue(buf[at .. at + 4])
  }

  /** `k` consecutive `uint32` values starting at byte `at`. */
  function ReadArray32(buf: seq<byte>, at: nat, k: nat): (r: seq<nat>)
    requires at + 4 * k <= |buf|
    ensures |r| == k
  {
    seq(k, j requires 0 <= j < k => ReadU32(buf, at + 4 * j))
  }

  /**
    Decode the header of a KDS buffer; `None` when the buffer is too short
    for the fixed fields or for the `col_offset[]` table they announce.
   */
  function ParseKdsHeader(buf: seq<byte>): (r: Option<KdsHeaderView>)
    ensures r.Some? ==> |buf| >= KdsHdrColOffsets + 4 * r.value.ncols && |r.value.colOffsets| == r.value.ncols
  {
    if |buf| < KdsHdrColOffsets then None
    else
      var ncols := LeValue(buf[KdsHdrNcolsOff .. KdsHdrNcolsOff + 2]);
      if |buf| < KdsHdrColOffsets + 4 * ncols then None
      else Some(KdsHeaderView(
        ReadU32(buf, KdsHdrLengthOff),
        LeValue(buf[KdsHdrFormatOff .. KdsHdrFormatOff + 2]),
        ncols,
        ReadU32(buf, KdsHdrNroomsOff),
        ReadU32(buf, KdsHdrNitemsOff),
        ReadArray32(buf, KdsHdrColOffsets, ncols)))
  }

  /** `col_offset[]` of a batch: the regions follow the header in column order. */
  function ColumnOffsets(descs: seq<KdsColumnDesc>, n: nat): (offs: seq<nat>)
    ensures |offs| == |descs|
  {
    OffsetsFrom(AlignedColumnSizes(descs, n), KdsHeaderSize(|descs|))
  }

  /** `buffer_len`: the header plus every MAXALIGNed column region. */
  function KdsTotalSize(descs: seq<KdsColumnDesc>, n: nat): nat
  {
    KdsHeaderSize(|descs|) + Sum(AlignedColumnSizes(descs, n))
  }

  /**
    `arrow_batch_to_kds`: the zero-initialised buffer with the header written
    and every column converted into its region.
   */
  function ArrowBatchToKds(cols: seq<ArrowArray>, descs: seq<KdsColumnDesc>, nrows: nat): (b: KdsBatch)
    requires BatchSourceFits(cols, descs, nrows)
    ensures |b.buffer| == b.bufferLen == KdsTotalSize(descs, nrows)
    ensures b.ncols == |descs| && b.nrows == nrows
  {
    var rs := RegionList(cols, descs, nrows);
    ConcatLength(rs, AlignedColumnSizes(descs, nrows));
    var total := KdsTotalSize(descs, nrows);
    var buffer := KdsHeader(|descs|, nrows, total, ColumnOffsets(descs, nrows)) + Concat(rs);
    KdsBatch(buffer, total, |descs|, nrows)
  }

  /**
    The column offsets as `arrow_batch_to_kds` advances them: the first
    column starts right after the header, each next one `MAXALIGN(col_sizes[i])`
    further on, and the last one ends at `buffer_len`.
   */
  lemma ColumnOffsetsLayout(descs: seq<KdsColumnDesc>, n: nat, i: nat)
    requires i < |descs|
    ensures i == 0 ==> ColumnOffsets(descs, n)[i] == KdsHeaderSize(|descs|)
    ensures i + 1 < |descs| ==>
      ColumnOffsets(descs, n)[i + 1] == ColumnOffsets(descs, n)[i] + MaxAlign(ColumnSize(descs[i], n))
    ensures i + 1 == |descs| ==>
      ColumnOffsets(descs, n)[i] + MaxAlign(ColumnSize(descs[i], n)) == KdsTotalSize(descs, n)
  {
    var sizes := AlignedColumnSizes(descs, n);
    OffsetsLayout(sizes, KdsHeaderSize(|descs|), i);
    assert sizes[i] == MaxAlign(ColumnSize(descs[i], n));
  }

  /** The fixed header fields decode to what `arrow_batch_to_kds` stored. */
  lemma HeaderFixedFields(ncols: nat, nrows: nat, total: nat, offsets: seq<nat>)
    requires |offsets| == ncols
    ensures var f := HeaderFields(ncols, nrows, total, offsets);
      && LeValue(f[KdsHdrLengthOff .. KdsHdrLengthOff + 4]) == U32(total)
      && LeValue(f[KdsHdrFormatOff .. KdsHdrFormatOff + 2]) == KdsFormatColumn
      && LeValue(f[KdsHdrNcolsOff .. KdsHdrNcolsOff + 2]) == U16(ncols)
      && LeValue(f[KdsHdrNroomsOff .. KdsHdrNroomsOff + 4]) == U32(nrows)
      && LeValue(f[KdsHdrNitemsOff .. KdsHdrNitemsOff + 4]) == U32(nrows)
  {
    var a, b, c, d := LeBytes(U32(total), 4), LeBytes(KdsFormatColumn, 2), LeBytes(U16(ncols), 2), LeBytes(U32(nrows), 4);
    var f := HeaderFields(ncols, nrows, total, offsets);
    assert f == a + b + c + d + d + LeArray32(U32All(offsets));
    assert f[0..4] == a && f[4..6] == b && f[6..8] == c && f[8..12] == d && f[12..16] == d;
    LeRoundTrip32(U32(total));
    LeRoundTrip16(KdsFormatColumn);
    LeRoundTrip16(U16(ncols));
    LeRoundTrip32(U32(nrows));
  }

  /** Entry `j` of the `col_offset[]` table decodes to `(uint32) offsets[j]`. */
  lemma HeaderColOffset(ncols: nat, nrows: nat, total: nat, offsets: seq<nat>, j: nat)
    requires |offsets| == ncols && j < ncols
    ensures LeValue(HeaderFields(ncols, nrows, total, offsets)[KdsHdrColOffsets + 4 * j .. KdsHdrColOffsets + 4 * j + 4])
         == U32(offsets[j])
  {
    var f := HeaderFields(ncols, nrows, total, offsets);
    var prefix := LeBytes(U32(total), 4) + LeBytes(KdsFormatColumn, 2) + LeBytes(U16(ncols), 2)
      + LeBytes(U32(nrows), 4) + LeBytes(U32(nrows), 4);
    var table := LeArray32(U32All(offsets));
    assert f == prefix + table;
    assert f[16 + 4 * j .. 16 + 4 * j + 4] == table[4 * j .. 4 * j + 4];
    LeArray32Slice(U32All(offsets), j);
    LeRoundTrip32(U32(offsets[j]));
  }

  /**
    Round trip of the header: whatever follows it, a reader recovers the
    length, format, column count, row counts and column offsets, each cut to
    the width of its field, as long as the column count fits its `uint16`.
   */
  lemma KdsHeaderRoundTrip(ncols: nat, nrows: nat, total: nat, offsets: seq<nat>, rest: seq<byte>)
    requires |offsets| == ncols < U16Limit
    ensures ParseKdsHeader(KdsHeader(ncols, nrows, total, offsets) + rest)
         == Some(KdsHeaderView(U32(total), KdsFormatColumn, ncols, U32(nrows), U32(nrows), U32All(offsets)))
  {
    var buf := KdsHeader(ncols, nrows, total, offsets) + rest;
    var f := HeaderFields(ncols, nrows, total, offsets);
    HeaderFixedFields(ncols, nrows, total, offsets);
    SliceOfPrefix(buf, f, 0, 4);
    SliceOfPrefix(buf, f, 4, 6);
    SliceOfPrefix(buf, f, 6, 8);
    SliceOfPrefix(buf, f, 8, 12);
    SliceOfPrefix(buf, f, 12, 16);
    assert U16(ncols) == ncols;
    var table := ReadArray32(buf, KdsHdrColOffsets, ncols);
    forall j | 0 <= j < ncols
      ensures table[j] == U32All(offsets)[j]
    {
      HeaderColOffset(ncols, nrows, total, offsets, j);
      SliceOfPrefix(buf, f, 16 + 4 * j, 16 + 4 * j + 4);
    }
    assert table == U32All(offsets);
  }

  lemma SliceOfPrefix(buf: seq<byte>, f: seq<byte>, lo: nat, hi: nat)
    requires |f| <= |buf| && buf[..|f|] == f && lo <= hi <= |f|
    ensures buf[lo .. hi] == f[lo .. hi]
  {
    forall k | lo <= k < hi
      ensures buf[k] == f[k]
    {
      assert buf[..|f|][k] == buf[k];
    }
  }

  /** Region `i` of the list is column `i`'s converted bytes; the padding is empty. */
  lemma RegionListEntry(cols: seq<ArrowArray>, descs: seq<KdsColumnDesc>, n: nat, i: nat)
    requires BatchSourceFits(cols, descs, n) && i < |descs|
    ensures RegionList(cols, descs, n)[i] == ColumnRegion(cols[i], descs[i], n)
    ensures AlignedColumnSizes(descs, n)[i] == ColumnSize(descs[i], n)
  {
    var region := ColumnRegion(cols[i], descs[i], n);
    MaxAlignOfAligned(|region|);
    assert ColumnSlot(cols[i], descs[i], n) == region + Zeros(0) == region;
  }

  /** Column `i`'s region sits at `col_offset[i]`, inside the buffer. */
  lemma BatchColumnPlacement(cols: seq<ArrowArray>, descs: seq<KdsColumnDesc>, nrows: nat, i: nat)
    requires BatchSourceFits(cols, descs, nrows) && i < |descs|
    ensures KdsHeaderSize(|descs|) <= ColumnOffsets(descs, nrows)[i]
    ensures ColumnOffsets(descs, nrows)[i] + ColumnSize(descs[i], nrows) <= KdsTotalSize(descs, nrows)
    ensures PlacedAt(ArrowBatchToKds(cols, descs, nrows).buffer, ColumnOffsets(descs, nrows)[i],
                     ColumnRegion(cols[i], descs[i], nrows))
  {
    BatchBufferParts(cols, descs, nrows, i);
    PlacementIn(ArrowBatchToKds(cols, descs, nrows).buffer,
                KdsHeader(|descs|, nrows, KdsTotalSize(descs, nrows), ColumnOffsets(descs, nrows)),
                RegionList(cols, descs, nrows), AlignedColumnSizes(descs, nrows), ColumnOffsets(descs, nrows),
                i, ColumnRegion(cols[i], descs[i], nrows));
  }

  /** The built buffer is the header followed by the column slots, with column `i`'s slot its region. */
  lemma BatchBufferParts(cols: seq<ArrowArray>, descs: seq<KdsColumnDesc>, nrows: nat, i: nat)
    requires BatchSourceFits(cols, descs, nrows) && i < |descs|
    ensures ArrowBatchToKds(cols, descs, nrows).buffer
         == KdsHeader(|descs|, nrows, KdsTotalSize(descs, nrows), ColumnOffsets(descs, nrows))
            + Concat(RegionList(cols, descs, nrows))
    ensures ColumnOffsets(descs, nrows) == OffsetsFrom(AlignedColumnSizes(descs, nrows), KdsHeaderSize(|descs|))
    ensures RegionList(cols, descs, nrows)[i] == ColumnRegion(cols[i], descs[i], nrows)
    ensures AlignedColumnSizes(descs, nrows)[i] == ColumnSize(descs[i], nrows)
  {
    RegionListEntry(cols, descs, nrows, i);
  }

  /** The header of a built batch decodes to the batch's shape and its column offsets. */
  lemma BatchHeaderRoundTrip(cols: seq<ArrowArray>, descs: seq<KdsColumnDesc>, nrows: nat)
    requires BatchSourceFits(cols, descs, nrows) && |descs| < U16Limit
    ensures var b := ArrowBatchToKds(cols, descs, nrows);
      ParseKdsHeader(b.buffer) == Some(KdsHeaderView(
        U32(b.bufferLen), KdsFormatColumn, |descs|, U32(nrows), U32(nrows), U32All(ColumnOffsets(descs, nrows))))
  {
    var rs := RegionList(cols, descs, nrows);
    ConcatLength(rs, AlignedColumnSizes(descs, nrows));
    KdsHeaderRoundTrip(|descs|, nrows, KdsTotalSize(descs, nrows), ColumnOffsets(descs, nrows), Concat(rs));
  }

  /**
    What a consumer does to find column `i`: decode the header, follow
    `col_offset[i]` and take `size` bytes; `None` when the header or the
    buffer is too short for that.
   */
  function ReadColumn(buf: seq<byte>, i: nat, size: nat): (r: Option<seq<byte>>)
    ensures r.Some? ==> |r.value| == size
  {
    var h := ParseKdsHeader(buf);
    if h.None? || i >= h.value.ncols then None
    else
      var off := h.value.colOffsets[i];
      if off + size <= |buf| then Some(buf[off .. off + size]) else None
  }

  /**
    A consumer that follows the header finds every column intact: when the
    column count fits its `uint16` field and the buffer length fits the
    `uint32` fields, column `i` is exactly the bytes its converter produced.
   */
  lemma BatchColumnReadBack(cols: seq<ArrowArray>, descs: seq<KdsColumnDesc>, nrows: nat, i: nat)
    requires BatchSourceFits(cols, descs, nrows) && i < |descs|
    requires |descs| < U16Limit && KdsTotalSize(descs, nrows) < U32Limit
    ensures ReadColumn(ArrowBatchToKds(cols, descs, nrows).buffer, i, ColumnSize(descs[i], nrows)).Some?
    ensures ReadColumn(ArrowBatchToKds(cols, descs, nrows).buffer, i, ColumnSize(descs[i], nrows)).value
         == ColumnRegion(cols[i], descs[i], nrows)
  {
    BatchHeaderRoundTrip(cols, descs, nrows);
    BatchColumnPlacement(cols, descs, nrows, i);
    ReadColumnAt(ArrowBatchToKds(cols, descs, nrows).buffer, i, ColumnOffsets(descs, nrows),
                 ColumnRegion(cols[i], descs[i], nrows));
  }

  /** `ReadColumn` finds a region placed at the recorded offset, when that offset is the true one. */
  lemma ReadColumnAt(buf: seq<byte>, i: nat, offs: seq<nat>, region: seq<byte>)
    requires ParseKdsHeader(buf).Some? && ParseKdsHeader(buf).value.colOffsets == U32All(offs)
    requires i < |offs| && PlacedAt(buf, offs[i], region) && |buf| < U32Limit
    ensures ReadColumn(buf, i, |region|).Some?
    ensures ReadColumn(buf, i, |region|).value == region
  {
  }

  /**
    End to end for a fixed-width column: reading row `row` of column `i`
    through the header yields the Arrow value bytes and validity bit.
   */
  lemma BatchFixedValueReadBack(cols: seq<ArrowArray>, descs: seq<KdsColumnDesc>, nrows: nat, i: nat, row: nat)
    requires BatchSourceFits(cols, descs, nrows) && i < |descs| && row < nrows
    requires |descs| < U16Limit && KdsTotalSize(descs, nrows) < U32Limit
    requires KdsColTyplen(descs[i].colType) > 0
    ensures WordBytes * (row / WordBits) + WordBytes <= ValidityBitmapBytes(nrows)
    ensures FixedSourceFits(cols[i], nrows, KdsColTyplen(descs[i].colType))
    ensures var t := KdsColTyplen(descs[i].colType);
      var r := ReadColumn(ArrowBatchToKds(cols, descs, nrows).buffer, i, FixedColumnBytes(nrows, t));
      && r.Some?
      && FixedValueAt(r.value, nrows, t, row)
         == SourceValueAt(cols[i], nrows, t, row)
      && (ValidBit(r.value, row) <==> (cols[i].validity.None? || ValidBit(cols[i].validity.value, row)))
  {
    var t := KdsColTyplen(descs[i].colType);
    RowInBitmap(nrows, row);
    assert ColumnSourceFits(cols[i], descs[i], nrows);
    BatchColumnReadBack(cols, descs, nrows, i);
    FixedColumnReadBack(cols[i], nrows, t, row);
  }
}
