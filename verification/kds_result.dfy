/**
  `kds_result_to_partial_agg`: turning the GPU's result buffer into one
  partial-aggregate value and null flag per aggregate.

  Result layout: `Datum values[num_aggs]` (8 bytes each, little-endian)
  followed by `bool nulls[num_aggs]` (one byte each).
 */
module KdsResult {
  import opened Wrappers
  import opened Bytes

  const DatumBytes: nat := 8
  const BoolBytes: nat := 1

  /** The two output arrays `out_values[]` and `out_nulls[]`. */
  datatype PartialAgg = PartialAgg(values: seq<nat>, nulls: seq<bool>)

  /** Bytes a well-formed result for `numAggs` aggregates occupies. */
  function ResultBytes(numAggs: nat): nat
  {
    numAggs * (DatumBytes + BoolBytes)
  }

  /** Every aggregate null with value 0: what the caller sees for a missing or short result. */
  function AllNull(numAggs: nat): (r: PartialAgg)
    ensures |r.values| == |r.nulls| == numAggs
    ensures forall i :: 0 <= i < numAggs ==> r.values[i] == 0 && r.nulls[i]
  {
    PartialAgg(seq(numAggs, _ => 0), seq(numAggs, _ => true))
  }

  /** `values[i]` of a result buffer. */
  function DatumAt(buf: seq<byte>, i: nat): (v: nat)
    requires DatumBytes * i + DatumBytes <= |buf|
    ensures v < U64Limit
  {
    LeValueBound(buf[DatumBytes * i .. DatumBytes * i + DatumBytes]);
    Pow256Values();
    LeValue(buf[DatumBytes * i .. DatumBytes * i + DatumBytes])
  }

  /** `nulls[i]` of a result buffer, a C `bool`: any non-zero byte reads as true. */
  predicate NullAt(buf: seq<byte>, numAggs: nat, i: nat)
    requires i < numAggs && ResultBytes(numAggs) <= |buf|
  {
    buf[DatumBytes * numAggs + i] != 0
  }

  /**
    `kds_result_to_partial_agg`. `result` is `result_buf` (`None` for NULL)
    and `resultLen` is `result_len`, which the caller keeps within the buffer.
   */
  function KdsResultToPartialAgg(result: Option<seq<byte>>, resultLen: nat, numAggs: nat): (r: PartialAgg)
    requires result.Some? ==> resultLen <= |result.value|
    ensures |r.values| == |r.nulls| == numAggs
    ensures forall i :: 0 <= i < numAggs ==> r.values[i] < U64Limit
    ensures result.None? || resultLen < ResultBytes(numAggs) ==> r == AllNull(numAggs)
    ensures result.Some? && resultLen >= ResultBytes(numAggs) ==>
      forall i :: 0 <= i < numAggs ==>
        && DatumBytes * i + DatumBytes <= resultLen
        && r.values[i] == DatumAt(result.value, i)
        && (r.nulls[i] <==> NullAt(result.value, numAggs, i))
  {
    if result.None? || resultLen < ResultBytes(numAggs) then AllNull(numAggs)
    else
      var buf := result.value;
      PartialAgg(
        seq(numAggs, i requires 0 <= i < numAggs => DatumAt(buf, i)),
        seq(numAggs, i requires 0 <= i < numAggs => NullAt(buf, numAggs, i)))
  }

  /** What a GPU kernel writes for the given values and null flags. */
  function EncodePartialAgg(p: PartialAgg): (buf: seq<byte>)
    requires |p.values| == |p.nulls|
    ensures |buf| == ResultBytes(|p.values|)
  {
    LeArray64(p.values) + seq(|p.nulls|, i requires 0 <= i < |p.nulls| => if p.nulls[i] then 1 as byte else 0)
  }

  /**
    Round trip: a result buffer written for `p` (whatever follows it) decodes
    back to `p`, as long as every value fits a `Datum`.
   */
  lemma PartialAggRoundTrip(p: PartialAgg, rest: seq<byte>)
    requires |p.values| == |p.nulls|
    requires forall i :: 0 <= i < |p.values| ==> p.values[i] < U64Limit
    ensures var buf := EncodePartialAgg(p) + rest;
      KdsResultToPartialAgg(Some(buf), |buf|, |p.values|) == p
  {
    var na := |p.values|;
    var enc := EncodePartialAgg(p);
    var buf := enc + rest;
    var r := KdsResultToPartialAgg(Some(buf), |buf|, na);
    forall i | 0 <= i < na
      ensures r.values[i] == p.values[i]
    {
      DatumRoundTrip(p, rest, i);
    }
    forall i | 0 <= i < na
      ensures r.nulls[i] == p.nulls[i]
    {
      assert buf[DatumBytes * na + i] == enc[DatumBytes * na + i];
    }
  }

  lemma DatumRoundTrip(p: PartialAgg, rest: seq<byte>, i: nat)
    requires |p.values| == |p.nulls| && i < |p.values| && p.values[i] < U64Limit
    ensures DatumAt(EncodePartialAgg(p) + rest, i) == p.values[i]
  {
    var values := LeArray64(p.values);
    var buf := EncodePartialAgg(p) + rest;
    assert buf[8 * i .. 8 * i + 8] == values[8 * i .. 8 * i + 8];
    LeArray64Slice(p.values, i);
    LeRoundTrip64(p.values[i]);
  }

  /** The function reads only the first `ResultBytes(numAggs)` bytes of the buffer. */
  lemma ResultReadsOnlyPrefix(buf: seq<byte>, other: seq<byte>, numAggs: nat)
    requires ResultBytes(numAggs) <= |buf| && ResultBytes(numAggs) <= |other|
    requires buf[..ResultBytes(numAggs)] == other[..ResultBytes(numAggs)]
    ensures KdsResultToPartialAgg(Some(buf), |buf|, numAggs) == KdsResultToPartialAgg(Some(other), |other|, numAggs)
  {
    var k := ResultBytes(numAggs);
    var a := KdsResultToPartialAgg(Some(buf), |buf|, numAggs);
    var b := KdsResultToPartialAgg(Some(other), |other|, numAggs);
    forall i | 0 <= i < numAggs
      ensures a.values[i] == b.values[i] && a.nulls[i] == b.nulls[i]
    {
      assert buf[8 * i .. 8 * i + 8] == buf[..k][8 * i .. 8 * i + 8];
      assert other[8 * i .. 8 * i + 8] == other[..k][8 * i .. 8 * i + 8];
      assert buf[8 * numAggs + i] == buf[..k][8 * numAggs + i];
      assert other[8 * numAggs + i] == other[..k][8 * numAggs + i];
    }
  }
}
