# timescaledb_gpu_bridge in Dafny

A Dafny model of the logic at the centre of `timescaledb_gpu_bridge`, the
PostgreSQL extension that hands TimescaleDB aggregate work to PG-Strom GPU
kernels. The model covers three parts:

- **Arrow → KDS transcoder and result decoder** (`arrow_kds.c`).
  `ArrowBatchToKds` builds one flat `KDS_FORMAT_COLUMN` buffer from Arrow
  columns. The buffer holds a little-endian header (length, format, ncols,
  nrooms, nitems, `col_offset[]`) and then one MAXALIGNed region per column.
  - A fixed-width region is a validity bitmap followed by the values.
  - A geometry region is a bitmap, a `uint32` offset array and 44-byte
    `xpu_geometry_t` POINT Z records decoded from ISO WKB.
  - `KdsResultToPartialAgg` reads a result buffer back into one value and
    one null flag per aggregate.
  - Validity bitmaps follow the Arrow C Data Interface layout: one bit per
    row, least-significant bit first, in 64-bit little-endian words.
- **Cost model** (`cost_model.c`).
  - Coefficients resolve as GUC setting, then calibrated value, then
    built-in default.
  - The recursive opcode-cost fold over an expression tree.
  - The gating and formula of `gpu_estimate_cost`.
  - The two calibration updates.
- **Eligibility check and dispatch** (`gpu_dispatch.c`).
  - The recursive eligibility walk over expression trees.
  - The list-level check.
  - The one-shot submission to PG-Strom with CPU fallback.

Buffers are `seq<byte>` built by pure functions. Costs are `real`s. The
PG-Strom entry points (`device_func_lookup`, `opcode_cost`,
`gpu_parallelism`, `xpu_command`) are parameters of a `Bridge` value, along
with the `gpu_bridge_enabled` switch and the GUCs. The calibration globals
are a `Calibration` record that each update returns in changed form.

Every operation comes with a partner:

| operation | partner |
|---|---|
| batch builder | a header parser and column reader (`ParseKdsHeader`, `ReadColumn`) that recover what was written |
| result decoder | an encoder, with a round-trip lemma |
| eligibility walk | a reference predicate: every node of the tree is supported |
| opcode-cost fold | the list of opcodes it prices, characterised by which nodes the walk reaches |
| synthesized validity bitmap | a population count |

Modules: `Wrappers`, `Bits` (shifts and masks on naturals), `Bytes`
(little-endian encoding, `MAXALIGN`, `uint32` / `uint16` casts), `Layout`
(regions laid out back to back), `Validity`, `KdsColumn`, `Geometry`,
`KdsBatch`, `KdsResult`, `GpuBridge` (the shared state and expression
datatype), `CostModel` and `GpuDispatch`.

Two details of the code shape the model:

- `build_xpu_geometry_header` (arrow_kds.c:152-193) writes 44 bytes per
  point: 4 + 2 + 2 + 4 + 4 + 4 header bytes, then 24 bytes of coordinates.
  `geometry_column_bytes` (arrow_kds.c:63-71) reserves 48 bytes per row,
  but the converter advances its data offset by the 44 bytes actually
  written (arrow_kds.c:251-253). The offsets of a two-row column whose
  second row is null are therefore `[0, 44, 44]`.
- `gpu_sum_opcode_costs` prices an `Aggref` by its arguments only
  (cost_model.c:128-140). Its `aggfilter` is never walked, although
  `gpu_expr_is_eligible` does check the filter (gpu_dispatch.c:96-102).
  `CostModel.AggrefFilterNotPriced`, `CostModel.PricedOpcodesReach` and
  `CostModel.FilterFunctionNotReached` state this.

## Model

| member | source | states |
|---|---|---|
| Validity.ValidityBitmapBytes | timescaledb_gpu_bridge/arrow_kds.c:45-49 | the size is a multiple of 8 and is the smallest number of 64-bit words covering `n` bits (one word fewer would not do); it is 0 exactly when `n` is 0 |
| Validity.CopyValidityBitmap | timescaledb_gpu_bridge/arrow_kds.c:95-116 | the bitmap has the bitmap size; a present source bitmap is copied verbatim (its prefix of that size); with no source, the bit of every position in the bitmap is set exactly when the position is below `n` |
| Validity.AllValidAllBits | timescaledb_gpu_bridge/arrow_kds.c:100-111 | the synthesized bitmap marks rows `0 .. n-1` valid and clears every bit at or past `n`, including the trailing bits of the last word |
| Validity.LastWordValue | timescaledb_gpu_bridge/arrow_kds.c:105-110 | when `n % 64 != 0`, the last word lies inside the bitmap and equals `~0 & (~0 >> (64 - n % 64))` |
| Validity.AllValidLastWord | timescaledb_gpu_bridge/arrow_kds.c:105-110 | in that masked last word, bit `i` is set exactly when `i % 64 < n % 64` |
| Validity.AllValidPopCount | timescaledb_gpu_bridge/arrow_kds.c:100-111 | the population count of the synthesized bitmap is exactly `n` |
| KdsColumn.KdsColTyplen | timescaledb_gpu_bridge/arrow_kds.c:76-89 | 8 for INT8 and FLOAT8, 4 for FLOAT4 and INT4, 2 for INT2; the result is positive exactly for the fixed-width types and is -1 for geometry |
| KdsColumn.FixedColumnBytes | timescaledb_gpu_bridge/arrow_kds.c:51-55 | a multiple of 8 that holds the bitmap plus `n * typlen` value bytes, with less than 8 bytes to spare |
| KdsColumn.ConvertFixedColumn | timescaledb_gpu_bridge/arrow_kds.c:122-138 | the region starts with the bitmap `copy_validity_bitmap` produces; the `n * typlen` bytes after it are the first bytes of `buffers[1]`, or zeros when that buffer is absent; everything after them is zero |
| KdsColumn.FixedColumnReadBack | timescaledb_gpu_bridge/arrow_kds.c:122-138 | reading row `row` of a converted region gives the source's `typlen` bytes of that row (zeros without `buffers[1]`); the row's validity bit is the source's bit, and is set when the source has no bitmap |
| Geometry.GeometryColumnBytes | timescaledb_gpu_bridge/arrow_kds.c:65-71 | as written: a multiple of 8, 0 when `n` is 0, at least bitmap + `4n` + `48n` and at most 4 bytes more (only the offset array needs padding) |
| Geometry.GeometryRegionSize | timescaledb_gpu_bridge/arrow_kds.c:65-71 | the corrected region size: a multiple of 8 equal to `geometry_column_bytes` for `n >= 1`, and always room for at least the 4-byte end offset, so an empty column gets a region too |
| Geometry.BuildXpuGeometryHeader | timescaledb_gpu_bridge/arrow_kds.c:152-193 | the record is 44 bytes, which fits the 48-byte pre-size; little-endian type 1 at byte 0, flags 0x01 at 4, two zero pad bytes at 6, the `uint32` image of the SRID at 8, nitems 1 at 12, rawsize 24 at 16, and x, y, z verbatim at 20, 28 and 36 |
| Geometry.GeometryRowRecord | timescaledb_gpu_bridge/arrow_kds.c:217-254 | one pass of the row loop appends either nothing or exactly one 44-byte record, and a record only when both the offsets and the data buffer are present |
| Geometry.GeometryRowRecordSpec | timescaledb_gpu_bridge/arrow_kds.c:217-254 | a row adds no bytes exactly when it is skipped (validity bit clear, offsets or data buffer absent, or WKB shorter than 29 bytes); otherwise it adds a 44-byte record with type 1 and SRID 4978 whose coordinates are WKB bytes 5, 13 and 21 |
| Geometry.GeometryOffsetsShape | timescaledb_gpu_bridge/arrow_kds.c:215-257 | the offset array has `n + 1` entries; it starts at 0 and ends at the payload length; each step is 0 for a skipped row and 44 otherwise; it never decreases |
| Geometry.GeometryRecordPlacement | timescaledb_gpu_bridge/arrow_kds.c:217-257 | the record of row `i` is exactly the payload between `offsets[i]` and `offsets[i+1]` |
| Geometry.ConvertGeometryColumn | timescaledb_gpu_bridge/arrow_kds.c:202-258 | the region has the reserved size; it holds the bitmap, then the `n + 1` offsets (each 4-byte entry decodes to its offset), then the records, then zeros |
| Geometry.GeometryWriteFits | timescaledb_gpu_bridge/arrow_kds.c:209-257 | everything the converter writes (bitmap, `4(n+1)` offset bytes, `44k` record bytes) fits the corrected region, for every `n` |
| Geometry.GeometryEmptyColumnOverflows | timescaledb_gpu_bridge/arrow_kds.c:65-71 | as written, an empty column gets a 0-byte region, yet the converter writes 4 bytes into it |
| KdsBatch.KdsHeaderSize | timescaledb_gpu_bridge/arrow_kds.c:37 | a multiple of 8 that holds the 16 fixed bytes and `ncols` offsets, with less than 8 bytes of padding |
| KdsBatch.ColumnOffsetsLayout | timescaledb_gpu_bridge/arrow_kds.c:304-327 | `col_offset[0]` is the header size; `col_offset[i+1] = col_offset[i] + MAXALIGN(col_sizes[i])`; the last offset plus its aligned size is `buffer_len` |
| KdsBatch.ArrowBatchToKds | timescaledb_gpu_bridge/arrow_kds.c:260-331 | the buffer is exactly `buffer_len` bytes long, and that length is the total of the layout `ColumnOffsetsLayout` describes (header, then each aligned column region); `ncols` and `nrows` are recorded |
| KdsBatch.KdsHeaderRoundTrip | timescaledb_gpu_bridge/arrow_kds.c:288-311 | whatever follows the header, parsing it gives back length, format 4, `ncols`, nrooms, nitems and every column offset, each cut to its field width, provided `ncols` fits 16 bits |
| KdsBatch.BatchHeaderRoundTrip | timescaledb_gpu_bridge/arrow_kds.c:288-311 | the header of a built batch parses to `(uint32) buffer_len`, format 4, `ncols`, `(uint32) nrows` twice, and the `uint32` images of the column offsets |
| KdsBatch.BatchColumnPlacement | timescaledb_gpu_bridge/arrow_kds.c:304-326 | column `i`'s converted region lies inside the buffer, at `col_offset[i]` |
| KdsBatch.BatchColumnReadBack | timescaledb_gpu_bridge/arrow_kds.c:288-326 | a reader that follows the header's `col_offset[i]` finds exactly the bytes the column's converter produced, when `ncols < 2^16` and `buffer_len < 2^32` |
| KdsBatch.BatchFixedValueReadBack | timescaledb_gpu_bridge/arrow_kds.c:304-326 | end to end for a fixed-width column: through the header, row `row` of column `i` reads back as the Arrow value bytes, and its validity bit as the Arrow bit |
| KdsResult.KdsResultToPartialAgg | timescaledb_gpu_bridge/arrow_kds.c:343-375 | a missing buffer, or one shorter than `9 * num_aggs`, gives every aggregate value 0 and null; otherwise `out_values[i]` is the i-th 8-byte little-endian slot and `out_nulls[i]` says whether byte `8 * num_aggs + i` is non-zero |
| KdsResult.PartialAggRoundTrip | timescaledb_gpu_bridge/arrow_kds.c:352-374 | a buffer encoded from values and null flags decodes back to them, whatever bytes follow it |
| KdsResult.ResultReadsOnlyPrefix | timescaledb_gpu_bridge/arrow_kds.c:367-374 | the decoder reads nothing past the first `9 * num_aggs` bytes |
| CostModel.EffectiveTransferCost | timescaledb_gpu_bridge/cost_model.c:40-48 | always positive; a positive GUC wins, else a positive calibrated value once calibration is done, else 0.0001 |
| CostModel.EffectiveLaunchOverhead | timescaledb_gpu_bridge/cost_model.c:53-61 | always positive; the same priority, with default 100.0 |
| CostModel.EffectiveGpuParallelism | timescaledb_gpu_bridge/cost_model.c:66-76 | always positive; PG-Strom's answer when the bridge is on, `gpu_parallelism` is present and the answer is positive, else 1024 |
| CostModel.SumCostsIsTotal | timescaledb_gpu_bridge/cost_model.c:88-144 | the recursive walk sums `opcode_cost` over exactly the opcodes of the reference list: every function or operator reached through arguments that has a positive opcode, and nothing else |
| CostModel.PricedOpcodesReach | timescaledb_gpu_bridge/cost_model.c:88-144 | an opcode is priced exactly when it is positive and some function or operator reached from the root through arguments (an aggregate's filter excluded) has it as its device opcode |
| CostModel.ArgsOpcodesIn | timescaledb_gpu_bridge/cost_model.c:103-107 | the argument loop prices an opcode exactly when one of the remaining arguments does |
| CostModel.PricedWithinIsWithin | timescaledb_gpu_bridge/cost_model.c:88-144 | every node the cost walk reaches is also a node the eligibility walk checks |
| CostModel.FilterFunctionNotReached | timescaledb_gpu_bridge/cost_model.c:128-140 | a function in an aggregate's filter lies inside the expression for eligibility but is not reached by the cost walk |
| CostModel.GpuSumOpcodeCosts | timescaledb_gpu_bridge/cost_model.c:78-145 | a non-zero cost needs the bridge on and both `device_func_lookup` and `opcode_cost` present |
| CostModel.GpuSumOpcodeCostsSpec | timescaledb_gpu_bridge/cost_model.c:78-145 | 0 while the bridge is off or either entry point is missing, otherwise the total over the priced opcodes; never negative when opcode costs are not |
| CostModel.AggrefFilterNotPriced | timescaledb_gpu_bridge/cost_model.c:128-140 | an aggregate's cost is the same whatever its filter |
| CostModel.OpcodeCostSum | timescaledb_gpu_bridge/cost_model.c:165-171 | the summed cost is 0 unless the bridge is on with both entry points, and never negative when opcode costs are not |
| CostModel.OpcodeCostSumIsTotal | timescaledb_gpu_bridge/cost_model.c:165-171 | with the bridge on and both entry points present, the sum is `opcode_cost` totalled over the priced opcodes of every expression in the list |
| CostModel.TransferBytes | timescaledb_gpu_bridge/cost_model.c:180 | the `size_t` product, below 2^64, and the exact product whenever that product fits |
| CostModel.GpuEstimateCost | timescaledb_gpu_bridge/cost_model.c:147-194 | valid exactly when the bridge is on, `nrows > 0`, `nrows` is not below a positive `gpu_min_batch_rows`, and the opcode sum is positive; an invalid estimate is all zero; a valid one has transfer = bytes × per-byte cost, launch = the effective overhead, compute × parallelism = nrows × sum, total = their sum, and total > 0 |
| CostModel.EstimateMonotoneInRows | timescaledb_gpu_bridge/cost_model.c:179-190 | with the same expressions and a non-wrapping transfer size, more rows never give a smaller total |
| CostModel.ComputeCostMonotone | timescaledb_gpu_bridge/cost_model.c:186-188 | for a fixed positive opcode sum, the compute cost does not decrease as `nrows` grows |
| CostModel.GpuCalibrateTransferCost | timescaledb_gpu_bridge/cost_model.c:196-212 | no change when no bytes were moved or the elapsed time is not positive; otherwise calibration is done and the stored per-byte cost times the bytes is the elapsed time; the launch overhead is untouched |
| CostModel.GpuCalibrateLaunchOverhead | timescaledb_gpu_bridge/cost_model.c:214-226 | calibration is done and the stored overhead is positive: `elapsed - compute` when that is positive, else 1.0; the transfer cost is untouched |
| CostModel.CalibrationInvariantPreserved | timescaledb_gpu_bridge/cost_model.c:196-226 | the calibration state starts and stays consistent: nothing is recorded before `calibration_done`, values are never negative, and once done at least one value is positive |
| CostModel.TransferCalibrationTakesEffect | timescaledb_gpu_bridge/cost_model.c:196-212 | after a transfer calibration, the planner uses the measured per-byte cost unless the GUC is set; the launch overhead in use does not change |
| CostModel.LaunchCalibrationTakesEffect | timescaledb_gpu_bridge/cost_model.c:214-226 | after a launch calibration, the planner uses the measured overhead (or 1.0) unless the GUC is set; the transfer cost in use does not change |
| GpuDispatch.EligibleIffAllNodesSupported | timescaledb_gpu_bridge/gpu_dispatch.c:35-109 | the walk accepts a tree exactly when every node in it is supported; at any depth, arguments and aggregate filters included, that means no unknown node kind and a positive opcode for every function and operator |
| GpuDispatch.GpuExprIsEligible | timescaledb_gpu_bridge/gpu_dispatch.c:26-110 | nothing is eligible while the bridge is off or the lookup is missing; otherwise NULL, Const and Var are eligible, an unknown node kind never is, an eligible function or operator has a positive opcode, and an eligible aggregate's filter is absent or eligible |
| GpuDispatch.ArgsEligibleIff | timescaledb_gpu_bridge/gpu_dispatch.c:51-57 | the argument loop succeeds exactly when every remaining argument is eligible |
| GpuDispatch.UnsupportedNodeRejects | timescaledb_gpu_bridge/gpu_dispatch.c:29-108 | a disabled bridge, a missing lookup, or one unsupported node anywhere in the tree makes the whole expression ineligible |
| GpuDispatch.SupportedTreeAccepted | timescaledb_gpu_bridge/gpu_dispatch.c:32-103 | with the bridge on and a lookup present, a tree whose nodes are all supported is eligible; this includes Const, Var and a NULL expression |
| GpuDispatch.GpuCheckEligibility | timescaledb_gpu_bridge/gpu_dispatch.c:112-130 | true exactly when the bridge is on, the list is non-empty and every expression in it is eligible |
| GpuDispatch.GpuDispatchBatch | timescaledb_gpu_bridge/gpu_dispatch.c:132-150 | a submission happens exactly when the bridge is on and `xpu_command` is present, and it hands PG-Strom the given buffer and length unchanged; the dispatch succeeds exactly when that submission returns 0, so a disabled bridge or missing entry point always falls back to the CPU |

## Left out

- Allocation and `kds_batch_free` (arrow_kds.c:333-341): buffers are immutable sequences, so there is nothing to free.
- `elog` diagnostics: logging only.
- `gpu_bridge.c` (symbol discovery with `dlsym`, GUC registration, `_PG_init`, the SQL status function). Its results, the enable switch, the PG-Strom entry points and the GUC values, are the fields of the `Bridge` parameter.
- The PG-Strom entry points are treated as pure functions of their arguments. `gpu_parallelism()` is modelled as the value it returns.
- Concurrency on the calibration globals: they are one sequential `Calibration` record.
- IEEE-754 doubles: costs are exact `real`s, so rounding is not modelled, and neither is the `size_t` → `double` conversion in the transfer cost. Coordinates are opaque 8-byte chunks, because they are only copied.
- Negative `nrows` or `ncols` in `arrow_batch_to_kds` and the column helpers: they are `nat`, because arrow_kds.h:56-57 declares them counts (the number of columns, the number of rows in the batch). Likewise `num_aggs` in `KdsResult.KdsResultToPartialAgg` is a `nat`; a negative value would only make the decoder's loops run zero times.
- The Arrow `offset` field and buffer lengths are not part of the model's Arrow array. Instead, each converter requires that its buffers cover `n` rows: the bitmap and `buffers[1]` for fixed-width columns, and well-formed non-decreasing offsets inside the data buffer for geometry.
- Geometry.ConvertGeometryColumn: requires `44 * n < 2^32`, so the `uint32` running offset never wraps. Wrapping offsets are not modelled.
- KdsBatch.BatchColumnReadBack and KdsBatch.BatchFixedValueReadBack: these require `ncols < 2^16` and `buffer_len < 2^32`. Beyond that, the `(uint16)` and `(uint32)` casts in the header lose information, and a reader cannot find the columns.
- KdsBatch.ArrowBatchToKds: an empty geometry column gets the corrected 8-byte region (see Findings), so for `nrows = 0` such a buffer is longer than the one the source allocates.
- KdsResult.KdsResultToPartialAgg: a C `bool` byte is read as "non-zero". The caller must keep `result_len` within the buffer.
- GpuDispatch.GpuDispatchBatch: the result buffer and `*result_len` are the reply the submission oracle returns. They are not written through out-parameters.

## Findings

| source | as written | input that shows it | evidently intended | confidence | as-written member | corrected member |
|---|---|---|---|---|---|---|
| timescaledb_gpu_bridge/arrow_kds.c:65-71 | `geometry_column_bytes(0)` is 0. `convert_geometry_column` still stores the end offset `offsets[nrows]` (4 bytes) at the start of the column's region. | a batch with `nrows = 0` and a geometry column: its region is 0 bytes long, and every column region is empty and every `col_offset` equals the buffer length, so the 4-byte store lands just past the end of the buffer | reserve room for the `nrows + 1` offsets, which is 8 bytes after alignment when `nrows = 0` | not executed | Geometry.GeometryEmptyColumnOverflows | Geometry.GeometryWriteFits |
