/**
  The geometry half of the Arrow → KDS column transcoder
  (`geometry_column_bytes`, `build_xpu_geometry_header`,
  `convert_geometry_column` in arrow_kds.c). Input rows are ISO WKB POINT Z
  values (OGC Simple Features Access, Part 1, section 8.2: a byte-order byte,
  a 4-byte type code, then x, y, z as 8-byte doubles); output rows are
  fixed-format `xpu_geometry_t` point records. Coordinates are only copied,
  so they are modelled as opaque 8-byte chunks.
 */
module Geometry {
  import opened Wrappers
  import opened Bytes
  import opened Validity
  import opened KdsColumn

  const PointType: nat := 1
  const GeomFlagZ: nat := 0x01
  /** The ECEF reference system every encoded point is tagged with. */
  const GeometrySrid: int := 4978
  /** Byte order (1) + type (4) + three doubles (24). */
  const WkbPointZSize: nat := 29
  /** `XPU_GEOM_POINT_Z_SIZE`: the per-row size the column region is pre-sized with. */
  const XpuGeomPointZSize: nat := 48
  /** What one encoded point actually occupies. */
  const XpuPointRecordSize: nat := 44
  /** `sizeof(uint32)`, one entry of the output offset array. */
  const OffsetBytes: nat := 4

  /** `geometry_column_bytes`, as written: bitmap, `n` offsets, `n` pre-sized records. */
  function GeometryColumnBytes(n: nat): (r: nat)
    ensures r % 8 == 0
    ensures n == 0 ==> r == 0
    ensures r >= ValidityBitmapBytes(n) + OffsetBytes * n + XpuGeomPointZSize * n
    ensures r <= ValidityBitmapBytes(n) + OffsetBytes * n + XpuGeomPointZSize * n + 4
  {
    var bitmap := ValidityBitmapBytes(n);
    var offsets := MaxAlign(OffsetBytes * n);
    var records := MaxAlign(XpuGeomPointZSize * n);
    AlignedSum(bitmap, offsets);
    AlignedSum(bitmap + offsets, records);
    MaxAlignOfAligned(0);
    MaxAlignOfAligned(XpuGeomPointZSize * n);
    MaxAlignOfWords(n);
    bitmap + offsets + records
  }

  /** `n` 4-byte words need at most one word of padding to reach MAXALIGN. */
  lemma MaxAlignOfWords(n: nat)
    ensures MaxAlign(OffsetBytes * n) <= OffsetBytes * n + 4
  {
    if n % 2 == 0 {
      MaxAlignOfAligned(OffsetBytes * n);
    } else {
      assert (OffsetBytes * n + 4) % 8 == 0;
    }
  }

  /**
    The size this model reserves for a geometry column region: the source's
    size for every `n >= 1`, and room for the single end offset when `n == 0`.
   */
  function GeometryRegionSize(n: nat): (r: nat)
    ensures r % 8 == 0
    ensures n >= 1 ==> r == GeometryColumnBytes(n)
    ensures r >= OffsetBytes
  {
    if n == 0 then MaxAlign(OffsetBytes) else GeometryColumnBytes(n)
  }

  /**
    `build_xpu_geometry_header`: the 44-byte little-endian POINT Z record, whose
    length is the C function's return value. The two padding bytes are never
    written by the source; they keep the zero of the `palloc0`ed buffer.
   */
  function BuildXpuGeometryHeader(srid: int, x: seq<byte>, y: seq<byte>, z: seq<byte>): (r: seq<byte>)
    requires -0x8000_0000 <= srid < 0x8000_0000
    requires |x| == 8 && |y| == 8 && |z| == 8
    ensures |r| == XpuPointRecordSize && |r| <= XpuGeomPointZSize
    ensures LeValue(r[0..4]) == PointType
    ensures LeValue(r[4..6]) == GeomFlagZ
    ensures r[6..8] == [0, 0]
    ensures LeValue(r[8..12]) == U32(srid)
    ensures LeValue(r[12..16]) == 1
    ensures LeValue(r[16..20]) == 24
    ensures r[20..28] == x && r[28..36] == y && r[36..44] == z
  {
    var typ := LeBytes(PointType, 4);
    var flags := LeBytes(GeomFlagZ, 2);
    var sridField := LeBytes(U32(srid), 4);
    var nitems := LeBytes(1, 4);
    var rawsize := LeBytes(24, 4);
    LeRoundTrip32(PointType);
    LeRoundTrip16(GeomFlagZ);
    LeRoundTrip32(U32(srid));
    LeRoundTrip32(1);
    LeRoundTrip32(24);
    RecordFields(typ, flags, Zeros(2), sridField, nitems, rawsize, x, y, z);
    typ + flags + Zeros(2) + sridField + nitems + rawsize + x + y + z
  }

  /** Where each field of a point record sits once the fields are concatenated. */
  lemma RecordFields(typ: seq<byte>, flags: seq<byte>, pad: seq<byte>, srid: seq<byte>,
                     nitems: seq<byte>, rawsize: seq<byte>, x: seq<byte>, y: seq<byte>, z: seq<byte>)
    requires |typ| == 4 && |flags| == 2 && |pad| == 2 && |srid| == 4
    requires |nitems| == 4 && |rawsize| == 4 && |x| == 8 && |y| == 8 && |z| == 8
    ensures var r := typ + flags + pad + srid + nitems + rawsize + x + y + z;
      && |r| == XpuPointRecordSize
      && r[0..4] == typ && r[4..6] == flags && r[6..8] == pad
      && r[8..12] == srid && r[12..16] == nitems && r[16..20] == rawsize
      && r[20..28] == x && r[28..36] == y && r[36..44] == z
  {
    var r := typ + flags + pad + srid + nitems + rawsize + x + y + z;
    assert r[0..4] == typ && r[4..6] == flags && r[6..8] == pad;
    assert r[8..12] == srid && r[12..16] == nitems && r[16..20] == rawsize;
  }

  /** `arrow_offsets[i]`: entry `i` of the source's `uint32` offsets buffer. */
  function ArrowOffset(offsets: seq<byte>, i: nat): nat
    requires OffsetBytes * i + OffsetBytes <= |offsets|
  {
    LeValue(offsets[OffsetBytes * i .. OffsetBytes * i + OffsetBytes])
  }

  /**
    What the caller guarantees of a geometry source array (a valid Arrow
    binary array): the bitmap covers `n` rows, and when both the offsets and
    the data buffers are present the `n + 1` offsets are non-decreasing and
    stay inside the data buffer.
   */
  predicate GeometrySourceWellFormed(col: ArrowArray, n: nat)
  {
    && (col.validity.Some? ==> |col.validity.value| >= ValidityBitmapBytes(n))
    && (col.buffer1.Some? && col.buffer2.Some? ==>
          && |col.buffer1.value| >= OffsetBytes * (n + 1)
          && (forall i, j :: 0 <= i <= j <= n ==>
                ArrowOffset(col.buffer1.value, i) <= ArrowOffset(col.buffer1.value, j))
          && ArrowOffset(col.buffer1.value, n) <= |col.buffer2.value|)
  }

  /** `uint32` offsets of the output never wrap: the payload stays below 4 GiB. */
  predicate GeometryRowsFit(n: nat)
  {
    XpuPointRecordSize * n < U32Limit
  }

  /** Row `i` counts as present: there is no bitmap, or its validity bit is set. */
  predicate RowIsValid(col: ArrowArray, n: nat, i: nat)
    requires GeometrySourceWellFormed(col, n) && i < n
  {
    RowInBitmap(n, i);
    col.validity.None? || ValidBit(col.validity.value, i)
  }

  /** Byte length of row `i`'s WKB value. */
  function WkbLength(col: ArrowArray, n: nat, i: nat): nat
    requires GeometrySourceWellFormed(col, n) && i < n
    requires col.buffer1.Some? && col.buffer2.Some?
  {
    ArrowOffset(col.buffer1.value, i + 1) - ArrowOffset(col.buffer1.value, i)
  }

  /** The source skips row `i`: null, a missing buffer, or a WKB value too short for POINT Z. */
  predicate RowSkipped(col: ArrowArray, n: nat, i: nat)
    requires GeometrySourceWellFormed(col, n) && i < n
  {
    || !RowIsValid(col, n, i)
    || col.buffer1.None? || col.buffer2.None?
    || WkbLength(col, n, i) < WkbPointZSize
  }

  /** The WKB bytes of row `i`. */
  function Wkb(col: ArrowArray, n: nat, i: nat): (w: seq<byte>)
    requires GeometrySourceWellFormed(col, n) && i < n && !RowSkipped(col, n, i)
    ensures |w| >= WkbPointZSize
  {
    var start := ArrowOffset(col.buffer1.value, i);
    col.buffer2.value[start .. ArrowOffset(col.buffer1.value, i + 1)]
  }

  /** The bytes one pass of the source's row loop appends to the data area. */
  function GeometryRowRecord(col: ArrowArray, n: nat, i: nat): (r: seq<byte>)
    requires GeometrySourceWellFormed(col, n) && i < n
    ensures |r| == 0 || |r| == XpuPointRecordSize
    ensures |r| > 0 ==> col.buffer1.Some? && col.buffer2.Some?
  {
    if col.validity.Some? && !(RowInBitmap(n, i); ValidBit(col.validity.value, i)) then []
    else if col.buffer1.None? || col.buffer2.None? then []
    else
      var start := ArrowOffset(col.buffer1.value, i);
      var wkbLen := ArrowOffset(col.buffer1.value, i + 1) - start;
      if wkbLen >= WkbPointZSize then
        var wkb := col.buffer2.value[start .. start + WkbPointZSize];
        BuildXpuGeometryHeader(GeometrySrid, wkb[5..13], wkb[13..21], wkb[21..29])
      else []
  }

  lemma RecordMultiple(a: nat, b: nat)
    requires a % XpuPointRecordSize == 0 && (b == 0 || b == XpuPointRecordSize)
    ensures (a + b) % XpuPointRecordSize == 0
  {
    if b == XpuPointRecordSize {
      assert a + b == XpuPointRecordSize * (a / XpuPointRecordSize + 1);
    }
  }

  /** The data area after the first `k` rows. */
  function GeometryPayload(col: ArrowArray, n: nat, k: nat): (r: seq<byte>)
    requires GeometrySourceWellFormed(col, n) && k <= n
    ensures |r| <= XpuPointRecordSize * k
    ensures |r| % XpuPointRecordSize == 0
  {
    if k == 0 then []
    else
      var p := GeometryPayload(col, n, k - 1);
      var rec := GeometryRowRecord(col, n, k - 1);
      assert XpuPointRecordSize * k == XpuPointRecordSize * (k - 1) + XpuPointRecordSize;
      RecordMultiple(|p|, |rec|);
      p + rec
  }

  /** The output offset array: `offsets[i]` is the data written before row `i`. */
  function GeometryOffsets(col: ArrowArray, n: nat, k: nat): (offs: seq<nat>)
    requires GeometrySourceWellFormed(col, n) && k <= n
    ensures |offs| == k + 1
  {
    if k == 0 then [0]
    else GeometryOffsets(col, n, k - 1) + [|GeometryPayload(col, n, k)|]
  }

  /** Bytes `convert_geometry_column` writes: bitmap, `n + 1` offsets, payload. */
  function GeometryWrittenBytes(n: nat, payloadLen: nat): nat
  {
    ValidityBitmapBytes(n) + OffsetBytes * (n + 1) + payloadLen
  }

  /**
    `convert_geometry_column`, as the bytes of the column's region: the
    validity bitmap, the `n + 1` `uint32` offsets, the point records of the
    rows not skipped, then the zero padding left by `palloc0`.
   */
  function ConvertGeometryColumn(col: ArrowArray, n: nat): (r: seq<byte>)
    requires GeometrySourceWellFormed(col, n) && GeometryRowsFit(n)
    ensures |r| == GeometryRegionSize(n)
    ensures RegionLaidOut(r, CopyValidityBitmap(col.validity, n), GeometryOffsets(col, n, n),
                          GeometryPayload(col, n, n))
  {
    var bitmap := CopyValidityBitmap(col.validity, n);
    var offsets := GeometryOffsets(col, n, n);
    var payload := GeometryPayload(col, n, n);
    GeometryWriteFits(col, n);
    GeometryOffsetsBelow(col, n, n);
    var written := |bitmap| + OffsetBytes * |offsets| + |payload|;
    assert written == GeometryWrittenBytes(n, |payload|);
    RegionLayout(bitmap, offsets, payload, GeometryRegionSize(n));
    bitmap + LeArray32(offsets) + payload + Zeros(GeometryRegionSize(n) - written)
  }

  /**
    How a geometry region is laid out: the bitmap first, then the offset
    table (each 4-byte entry reads back as the offset it holds), then the
    payload, then zeros to the end of the region.
   */
  predicate RegionLaidOut(r: seq<byte>, bitmap: seq<byte>, offsets: seq<nat>, payload: seq<byte>)
  {
    var written := |bitmap| + OffsetBytes * |offsets| + |payload|;
    && written <= |r|
    && r[..|bitmap|] == bitmap
    && (forall i :: 0 <= i < |offsets| ==>
          LeValue(r[|bitmap| + OffsetBytes * i .. |bitmap| + OffsetBytes * i + OffsetBytes]) == offsets[i])
    && r[|bitmap| + OffsetBytes * |offsets| .. written] == payload
    && (forall k :: written <= k < |r| ==> r[k] == 0)
  }

  /** Writing the four parts one after the other gives that layout. */
  lemma RegionLayout(bitmap: seq<byte>, offsets: seq<nat>, payload: seq<byte>, total: nat)
    requires |bitmap| + OffsetBytes * |offsets| + |payload| <= total
    requires forall i :: 0 <= i < |offsets| ==> offsets[i] < U32Limit
    ensures var written := |bitmap| + OffsetBytes * |offsets| + |payload|;
      var r := bitmap + LeArray32(offsets) + payload + Zeros(total - written);
      |r| == total && RegionLaidOut(r, bitmap, offsets, payload)
  {
    var table := LeArray32(offsets);
    var written := |bitmap| + OffsetBytes * |offsets| + |payload|;
    var r := bitmap + table + payload + Zeros(total - written);
    OffsetTableReads(offsets);
    forall i | 0 <= i < |offsets|
      ensures r[|bitmap| + OffsetBytes * i .. |bitmap| + OffsetBytes * i + OffsetBytes]
           == table[OffsetBytes * i .. OffsetBytes * i + OffsetBytes]
    {
    }
    assert r[..|bitmap|] == bitmap;
    assert r[|bitmap| + OffsetBytes * |offsets| .. written] == payload;
  }

  lemma OffsetTableReads(offsets: seq<nat>)
    requires forall i :: 0 <= i < |offsets| ==> offsets[i] < U32Limit
    ensures forall i :: 0 <= i < |offsets| ==>
      LeValue(LeArray32(offsets)[OffsetBytes * i .. OffsetBytes * i + OffsetBytes]) == offsets[i]
  {
    forall i | 0 <= i < |offsets|
      ensures LeValue(LeArray32(offsets)[OffsetBytes * i .. OffsetBytes * i + OffsetBytes]) == offsets[i]
    {
      LeArray32Slice(offsets, i);
      LeRoundTrip32(offsets[i]);
    }
  }

  /** Every output offset is at most the payload written so far, so it fits in a `uint32`. */
  lemma {:induction false} GeometryOffsetsBelow(col: ArrowArray, n: nat, k: nat)
    requires GeometrySourceWellFormed(col, n) && GeometryRowsFit(n) && k <= n
    ensures forall i :: 0 <= i <= k ==> GeometryOffsets(col, n, k)[i] <= XpuPointRecordSize * k
    ensures forall i :: 0 <= i <= k ==> GeometryOffsets(col, n, k)[i] < U32Limit
  {
    if k > 0 {
      GeometryOffsetsBelow(col, n, k - 1);
    }
  }

  /**
    The corrected region size holds everything the conversion writes, for
    every row count including zero.
   */
  lemma GeometryWriteFits(col: ArrowArray, n: nat)
    requires GeometrySourceWellFormed(col, n)
    ensures GeometryWrittenBytes(n, |GeometryPayload(col, n, n)|) <= GeometryRegionSize(n)
  {
    var p := |GeometryPayload(col, n, n)|;
    if n >= 1 {
      assert MaxAlign(OffsetBytes * n) >= OffsetBytes;
      assert MaxAlign(XpuGeomPointZSize * n) >= XpuGeomPointZSize * n;
    }
  }

  /**
    As written, an empty geometry column is given a 0-byte region although the
    conversion still stores `offsets[0]`: 4 bytes land outside the region (for
    `n == 0` every region is empty, so past the end of the buffer).
   */
  lemma GeometryEmptyColumnOverflows(col: ArrowArray)
    requires GeometrySourceWellFormed(col, 0)
    ensures GeometryColumnBytes(0) == 0
    ensures GeometryWrittenBytes(0, |GeometryPayload(col, 0, 0)|) == OffsetBytes
    ensures GeometryWrittenBytes(0, |GeometryPayload(col, 0, 0)|) > GeometryColumnBytes(0)
  {
  }

  /**
    A row contributes nothing exactly when the source skips it; otherwise one
    record tagged with SRID 4978 whose coordinates are WKB bytes 5, 13 and 21.
   */
  lemma GeometryRowRecordSpec(col: ArrowArray, n: nat, i: nat)
    requires GeometrySourceWellFormed(col, n) && i < n
    ensures |GeometryRowRecord(col, n, i)| == 0 <==> RowSkipped(col, n, i)
    ensures !RowSkipped(col, n, i) ==>
      var r := GeometryRowRecord(col, n, i);
      var wkb := Wkb(col, n, i);
      && |r| == XpuPointRecordSize
      && LeValue(r[0..4]) == PointType
      && LeValue(r[8..12]) == GeometrySrid
      && r[20..28] == wkb[5..13] && r[28..36] == wkb[13..21] && r[36..44] == wkb[21..29]
  {
    if !RowSkipped(col, n, i) {
      var start := ArrowOffset(col.buffer1.value, i);
      var end := ArrowOffset(col.buffer1.value, i + 1);
      var wkb := Wkb(col, n, i);
      assert wkb == col.buffer2.value[start .. end];
      assert start + WkbPointZSize <= end;
      SliceOfSlice(col.buffer2.value, start, end, 0, WkbPointZSize);
      assert col.buffer2.value[start .. start + WkbPointZSize] == wkb[..WkbPointZSize];
    }
  }

  /** Entry `i` of the offset array is the size of the payload of the rows before `i`. */
  lemma {:induction false} GeometryOffsetIsPrefixSize(col: ArrowArray, n: nat, k: nat, i: nat)
    requires GeometrySourceWellFormed(col, n) && i <= k <= n
    ensures GeometryOffsets(col, n, k)[i] == |GeometryPayload(col, n, i)|
  {
    if i < k {
      GeometryOffsetIsPrefixSize(col, n, k - 1, i);
      assert GeometryOffsets(col, n, k) == GeometryOffsets(col, n, k - 1) + [|GeometryPayload(col, n, k)|];
    }
  }

  lemma GeometryOffsetsArePrefixSizes(col: ArrowArray, n: nat)
    requires GeometrySourceWellFormed(col, n)
    ensures forall i :: 0 <= i <= n ==> GeometryOffsets(col, n, n)[i] == |GeometryPayload(col, n, i)|
  {
    forall i | 0 <= i <= n
      ensures GeometryOffsets(col, n, n)[i] == |GeometryPayload(col, n, i)|
    {
      GeometryOffsetIsPrefixSize(col, n, n, i);
    }
  }

  /** The payload of the first `j` rows is a prefix of the payload of the first `k`. */
  lemma {:induction false} GeometryPayloadPrefix(col: ArrowArray, n: nat, j: nat, k: nat)
    requires GeometrySourceWellFormed(col, n) && j <= k <= n
    ensures |GeometryPayload(col, n, j)| <= |GeometryPayload(col, n, k)|
    ensures GeometryPayload(col, n, k)[..|GeometryPayload(col, n, j)|] == GeometryPayload(col, n, j)
  {
    if j < k {
      GeometryPayloadPrefix(col, n, j, k - 1);
      var pk := GeometryPayload(col, n, k);
      assert pk == GeometryPayload(col, n, k - 1) + GeometryRowRecord(col, n, k - 1);
    }
  }

  /**
    The offset array has `n + 1` entries, starts at 0 and ends at the payload
    size; each step is 0 for a skipped row and one record size otherwise, so
    the array never decreases.
   */
  lemma GeometryOffsetsShape(col: ArrowArray, n: nat)
    requires GeometrySourceWellFormed(col, n)
    ensures |GeometryOffsets(col, n, n)| == n + 1
    ensures GeometryOffsets(col, n, n)[0] == 0
    ensures GeometryOffsets(col, n, n)[n] == |GeometryPayload(col, n, n)|
    ensures forall i :: 0 <= i < n ==>
      GeometryOffsets(col, n, n)[i + 1]
        == GeometryOffsets(col, n, n)[i] + (if RowSkipped(col, n, i) then 0 else XpuPointRecordSize)
    ensures forall i, j :: 0 <= i <= j <= n ==> GeometryOffsets(col, n, n)[i] <= GeometryOffsets(col, n, n)[j]
  {
    var offs := GeometryOffsets(col, n, n);
    GeometryOffsetsArePrefixSizes(col, n);
    forall i | 0 <= i < n
      ensures offs[i + 1] == offs[i] + (if RowSkipped(col, n, i) then 0 else XpuPointRecordSize)
    {
      GeometryRowRecordSpec(col, n, i);
    }
    forall i, j | 0 <= i <= j <= n
      ensures offs[i] <= offs[j]
    {
      GeometryPayloadPrefix(col, n, i, j);
    }
  }

  /** The payload bytes between `offsets[i]` and `offsets[i + 1]` are row `i`'s record. */
  lemma GeometryRecordPlacement(col: ArrowArray, n: nat, i: nat)
    requires GeometrySourceWellFormed(col, n) && i < n
    ensures GeometryOffsets(col, n, n)[i] <= GeometryOffsets(col, n, n)[i + 1] <= |GeometryPayload(col, n, n)|
    ensures GeometryPayload(col, n, n)[GeometryOffsets(col, n, n)[i] .. GeometryOffsets(col, n, n)[i + 1]]
         == GeometryRowRecord(col, n, i)
  {
    GeometryOffsetsArePrefixSizes(col, n);
    GeometryPayloadPrefix(col, n, i + 1, n);
    GeometryPayloadPrefix(col, n, i, i + 1);
    var p := GeometryPayload(col, n, n);
    var p1 := GeometryPayload(col, n, i + 1);
    assert p1 == GeometryPayload(col, n, i) + GeometryRowRecord(col, n, i);
    assert p[..|p1|] == p1;
    assert p[|GeometryPayload(col, n, i)| .. |p1|] == p1[|GeometryPayload(col, n, i)|..];
  }
}
