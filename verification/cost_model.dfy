/**
  `cost_model.c`: the GPU cost estimate the planner compares with the CPU
  path,

    total = transfer_bytes * cost_per_byte + launch_overhead
            + nrows * opcode_cost_sum / gpu_parallelism,

  with each coefficient taken from its GUC when set, else from the
  calibration results, else from a built-in default. Costs are `real`s.
 */
module CostModel {
  import opened Wrappers
  import opened Bytes
  import opened GpuBridge

  const DefaultTransferCostPerByte: real := 0.0001
  const DefaultLaunchOverhead: real := 100.0
  const DefaultGpuParallelism: int := 1024

  /** The calibration globals: `calibration_done` and the two measured coefficients. */
  datatype Calibration = Calibration(done: bool, transferCost: real, launchOverhead: real)

  const InitialCalibration := Calibration(false, 0.0, 0.0)

  /** `GpuCostEstimate`. */
  datatype GpuCostEstimate = GpuCostEstimate(
    totalCost: real, transferCost: real, launchCost: real, computeCost: real, isValid: bool)

  /** `GpuCostEstimate est = {0}` with `is_valid` false. */
  const InvalidEstimate := GpuCostEstimate(0.0, 0.0, 0.0, 0.0, false)

  /** `effective_transfer_cost`: the GUC when set, else a positive calibrated value, else the default. */
  function EffectiveTransferCost(s: Settings, cal: Calibration): (c: real)
    ensures c > 0.0
    ensures s.transferCostPerByte > 0.0 ==> c == s.transferCostPerByte
    ensures s.transferCostPerByte <= 0.0 && cal.done && cal.transferCost > 0.0 ==> c == cal.transferCost
    ensures s.transferCostPerByte <= 0.0 && !(cal.done && cal.transferCost > 0.0) ==> c == DefaultTransferCostPerByte
  {
    if s.transferCostPerByte > 0.0 then s.transferCostPerByte
    else if cal.done && cal.transferCost > 0.0 then cal.transferCost
    else DefaultTransferCostPerByte
  }

  /** `effective_launch_overhead`: the GUC when set, else a positive calibrated value, else the default. */
  function EffectiveLaunchOverhead(s: Settings, cal: Calibration): (c: real)
    ensures c > 0.0
    ensures s.launchOverhead > 0.0 ==> c == s.launchOverhead
    ensures s.launchOverhead <= 0.0 && cal.done && cal.launchOverhead > 0.0 ==> c == cal.launchOverhead
    ensures s.launchOverhead <= 0.0 && !(cal.done && cal.launchOverhead > 0.0) ==> c == DefaultLaunchOverhead
  {
    if s.launchOverhead > 0.0 then s.launchOverhead
    else if cal.done && cal.launchOverhead > 0.0 then cal.launchOverhead
    else DefaultLaunchOverhead
  }

  /** `effective_gpu_parallelism`: PG-Strom's positive answer when the bridge is on, else 1024. */
  function EffectiveGpuParallelism(b: Bridge): (p: int)
    ensures p > 0
    ensures b.settings.enabled && b.api.gpuParallelism.Some? && b.api.gpuParallelism.value > 0 ==>
      p == b.api.gpuParallelism.value
    ensures !(b.settings.enabled && b.api.gpuParallelism.Some? && b.api.gpuParallelism.value > 0) ==>
      p == DefaultGpuParallelism
  {
    if b.settings.enabled && b.api.gpuParallelism.Some? && b.api.gpuParallelism.value > 0
    then b.api.gpuParallelism.value
    else DefaultGpuParallelism
  }

  /** Cost of one node's own opcode: `opcode_cost(opcode)` when the lookup finds one. */
  function OwnCost(lookup: nat -> int, cost: int -> real, funcid: nat): real
  {
    var opcode := lookup(funcid);
    if opcode > 0 then cost(opcode) else 0.0
  }

  /** The recursive walk of `gpu_sum_opcode_costs` once both entry points are known. */
  function SumCosts(lookup: nat -> int, cost: int -> real, e: Expr): real
    decreases e, 1
  {
    match e
    case Null => 0.0
    case Const => 0.0
    case Var => 0.0
    case FuncExpr(funcid, _) => OwnCost(lookup, cost, funcid) + ArgsCost(lookup, cost, e, 0)
    case OpExpr(opfuncid, _) => OwnCost(lookup, cost, opfuncid) + ArgsCost(lookup, cost, e, 0)
    case Aggref(_, _) => ArgsCost(lookup, cost, e, 0)
    case Other(_) => 0.0
  }

  /** The `foreach` over a node's arguments, from argument `from` on. */
  function ArgsCost(lookup: nat -> int, cost: int -> real, parent: Expr, from: nat): real
    requires (parent.FuncExpr? || parent.OpExpr? || parent.Aggref?) && from <= |parent.args|
    decreases parent, 0, |parent.args| - from
  {
    if from == |parent.args| then 0.0
    else SumCosts(lookup, cost, parent.args[from]) + ArgsCost(lookup, cost, parent, from + 1)
  }

  /** `gpu_sum_opcode_costs`: 0 while the bridge is off or either entry point is missing. */
  function GpuSumOpcodeCosts(b: Bridge, e: Expr): (c: real)
    ensures c != 0.0 ==> b.settings.enabled && b.api.deviceFuncLookup.Some? && b.api.opcodeCost.Some?
  {
    if !b.settings.enabled || b.api.deviceFuncLookup.None? || b.api.opcodeCost.None? then 0.0
    else SumCosts(b.api.deviceFuncLookup.value, b.api.opcodeCost.value, e)
  }

  /**
    Reference definition: the opcodes the walk prices, in visiting order.
    Each function or operator reached through arguments contributes its
    device opcode when it has one; an aggregate's filter and any other node
    contribute nothing.
   */
  function PricedOpcodes(lookup: nat -> int, e: Expr): (ops: seq<int>)
    ensures forall i :: 0 <= i < |ops| ==> ops[i] > 0
    decreases e, 1
  {
    match e
    case FuncExpr(funcid, _) => OwnOpcodes(lookup, funcid) + ArgsOpcodes(lookup, e, 0)
    case OpExpr(opfuncid, _) => OwnOpcodes(lookup, opfuncid) + ArgsOpcodes(lookup, e, 0)
    case Aggref(_, _) => ArgsOpcodes(lookup, e, 0)
    case _ => []
  }

  /** The node's own device opcode, when it has one. */
  function OwnOpcodes(lookup: nat -> int, funcid: nat): (ops: seq<int>)
    ensures forall i :: 0 <= i < |ops| ==> ops[i] > 0
  {
    if lookup(funcid) > 0 then [lookup(funcid)] else []
  }

  function ArgsOpcodes(lookup: nat -> int, parent: Expr, from: nat): (ops: seq<int>)
    requires (parent.FuncExpr? || parent.OpExpr? || parent.Aggref?) && from <= |parent.args|
    ensures forall i :: 0 <= i < |ops| ==> ops[i] > 0
    decreases parent, 0, |parent.args| - from
  {
    if from == |parent.args| then [] else PricedOpcodes(lookup, parent.args[from]) + ArgsOpcodes(lookup, parent, from + 1)
  }

  /**
    Sub-expression `s` is visited by the cost walk from `e` (the node itself
    included): through the arguments of functions, operators and aggregates,
    never through an aggregate's filter.
   */
  ghost predicate PricedWithin(s: Expr, e: Expr)
    decreases e
  {
    || s == e
    || ((e.FuncExpr? || e.OpExpr? || e.Aggref?) && exists i :: 0 <= i < |e.args| && PricedWithin(s, e.args[i]))
  }

  /** The device opcode PG-Strom reports for a function or operator node; 0 for any other node. */
  function NodeOpcode(lookup: nat -> int, s: Expr): int
  {
    match s
    case FuncExpr(funcid, _) => lookup(funcid)
    case OpExpr(opfuncid, _) => lookup(opfuncid)
    case _ => 0
  }

  /** An argument at or after `from` that prices `op` makes the argument loop from `from` price it. */
  lemma {:induction false} ArgsOpcodesHas(lookup: nat -> int, parent: Expr, from: nat, i: nat, op: int)
    requires (parent.FuncExpr? || parent.OpExpr? || parent.Aggref?) && from <= i < |parent.args|
    requires op in PricedOpcodes(lookup, parent.args[i])
    ensures op in ArgsOpcodes(lookup, parent, from)
    decreases i - from
  {
    assert ArgsOpcodes(lookup, parent, from)
        == PricedOpcodes(lookup, parent.args[from]) + ArgsOpcodes(lookup, parent, from + 1);
    if from < i {
      ArgsOpcodesHas(lookup, parent, from + 1, i, op);
    }
  }

  /** An opcode the argument loop from `from` prices comes from some argument at or after `from`. */
  lemma {:induction false} ArgsOpcodesSource(lookup: nat -> int, parent: Expr, from: nat, op: int)
    returns (i: nat)
    requires (parent.FuncExpr? || parent.OpExpr? || parent.Aggref?) && from <= |parent.args|
    requires op in ArgsOpcodes(lookup, parent, from)
    ensures from <= i < |parent.args| && op in PricedOpcodes(lookup, parent.args[i])
    decreases |parent.args| - from
  {
    assert ArgsOpcodes(lookup, parent, from)
        == PricedOpcodes(lookup, parent.args[from]) + ArgsOpcodes(lookup, parent, from + 1);
    if op in PricedOpcodes(lookup, parent.args[from]) {
      i := from;
    } else {
      i := ArgsOpcodesSource(lookup, parent, from + 1, op);
    }
  }

  /** An opcode is priced from `from` on exactly when some argument from `from` on prices it. */
  lemma ArgsOpcodesIn(lookup: nat -> int, parent: Expr, from: nat, op: int)
    requires (parent.FuncExpr? || parent.OpExpr? || parent.Aggref?) && from <= |parent.args|
    ensures op in ArgsOpcodes(lookup, parent, from) <==>
      exists i :: from <= i < |parent.args| && op in PricedOpcodes(lookup, parent.args[i])
  {
    if op in ArgsOpcodes(lookup, parent, from) {
      var i := ArgsOpcodesSource(lookup, parent, from, op);
    }
    if exists i :: from <= i < |parent.args| && op in PricedOpcodes(lookup, parent.args[i]) {
      var i :| from <= i < |parent.args| && op in PricedOpcodes(lookup, parent.args[i]);
      ArgsOpcodesHas(lookup, parent, from, i, op);
    }
  }

  /** How a node's priced opcodes are made up: its own opcode, if positive, then its arguments'. */
  lemma OwnThenArgs(lookup: nat -> int, e: Expr)
    requires e.FuncExpr? || e.OpExpr? || e.Aggref?
    ensures var own := if NodeOpcode(lookup, e) > 0 then [NodeOpcode(lookup, e)] else [];
      PricedOpcodes(lookup, e) == own + ArgsOpcodes(lookup, e, 0)
  {
  }

  /** Every priced opcode is the positive device opcode of a node the walk reaches. */
  lemma {:induction false} PricedOpcodeSource(lookup: nat -> int, e: Expr, op: int) returns (s: Expr)
    requires op in PricedOpcodes(lookup, e)
    ensures op > 0 && PricedWithin(s, e) && NodeOpcode(lookup, s) == op
    decreases e
  {
    assert op > 0;
    OwnThenArgs(lookup, e);
    if op == NodeOpcode(lookup, e) {
      s := e;
    } else {
      var i := ArgsOpcodesSource(lookup, e, 0, op);
      s := PricedOpcodeSource(lookup, e.args[i], op);
      assert PricedWithin(s, e);
    }
  }

  /** The positive device opcode of every node the walk reaches is priced. */
  lemma {:induction false} ReachedOpcodePriced(lookup: nat -> int, e: Expr, s: Expr)
    requires PricedWithin(s, e) && NodeOpcode(lookup, s) > 0
    ensures NodeOpcode(lookup, s) in PricedOpcodes(lookup, e)
    decreases e
  {
    var op := NodeOpcode(lookup, s);
    if s == e {
      OwnThenArgs(lookup, e);
    } else {
      var i :| 0 <= i < |e.args| && PricedWithin(s, e.args[i]);
      ReachedOpcodePriced(lookup, e.args[i], s);
      ArgsOpcodesHas(lookup, e, 0, i, op);
      OwnThenArgs(lookup, e);
    }
  }

  /**
    The walk prices exactly the device opcodes of the functions and
    operators it reaches through arguments: `op` is priced iff it is
    positive and some such node reports it. Nodes under an aggregate's
    filter are not reached.
   */
  lemma PricedOpcodesReach(lookup: nat -> int, e: Expr, op: int)
    ensures op in PricedOpcodes(lookup, e) <==>
      op > 0 && exists s :: PricedWithin(s, e) && NodeOpcode(lookup, s) == op
  {
    if op in PricedOpcodes(lookup, e) {
      var s := PricedOpcodeSource(lookup, e, op);
    }
    if op > 0 && exists s :: PricedWithin(s, e) && NodeOpcode(lookup, s) == op {
      var s :| PricedWithin(s, e) && NodeOpcode(lookup, s) == op;
      ReachedOpcodePriced(lookup, e, s);
    }
  }

  /** The cost walk reaches only nodes the eligibility walk also checks. */
  lemma {:induction false} PricedWithinIsWithin(s: Expr, e: Expr)
    requires PricedWithin(s, e)
    ensures Within(s, e)
    decreases e
  {
    if s != e {
      var i :| 0 <= i < |e.args| && PricedWithin(s, e.args[i]);
      PricedWithinIsWithin(s, e.args[i]);
    }
  }

  /** The converse fails: a function in an aggregate's filter is checked for eligibility but never priced. */
  lemma FilterFunctionNotReached(funcid: nat)
    ensures var f := FuncExpr(funcid, []);
      Within(f, Aggref([], f)) && !PricedWithin(f, Aggref([], f))
  {
  }

  /** `opcode_cost` summed over a list of opcodes. */
  function Total(cost: int -> real, ops: seq<int>): real
  {
    if |ops| == 0 then 0.0 else cost(ops[0]) + Total(cost, ops[1..])
  }

  lemma {:induction false} TotalConcat(cost: int -> real, a: seq<int>, b: seq<int>)
    ensures Total(cost, a + b) == Total(cost, a) + Total(cost, b)
  {
    if |a| == 0 {
      assert a + b == b;
    } else {
      TotalConcat(cost, a[1..], b);
      assert (a + b)[1..] == a[1..] + b;
    }
  }

  /** The walk's sum is `opcode_cost` totalled over exactly the priced opcodes. */
  lemma {:induction false} SumCostsIsTotal(lookup: nat -> int, cost: int -> real, e: Expr)
    ensures SumCosts(lookup, cost, e) == Total(cost, PricedOpcodes(lookup, e))
    decreases e, 1
  {
    match e
    case FuncExpr(funcid, _) =>
      ArgsCostIsTotal(lookup, cost, e, 0);
      OwnCostIsTotal(lookup, cost, funcid);
      TotalConcat(cost, OwnOpcodes(lookup, funcid), ArgsOpcodes(lookup, e, 0));
    case OpExpr(opfuncid, _) =>
      ArgsCostIsTotal(lookup, cost, e, 0);
      OwnCostIsTotal(lookup, cost, opfuncid);
      TotalConcat(cost, OwnOpcodes(lookup, opfuncid), ArgsOpcodes(lookup, e, 0));
    case Aggref(_, _) =>
      ArgsCostIsTotal(lookup, cost, e, 0);
    case _ =>
  }

  lemma OwnCostIsTotal(lookup: nat -> int, cost: int -> real, funcid: nat)
    ensures OwnCost(lookup, cost, funcid) == Total(cost, OwnOpcodes(lookup, funcid))
  {
    if lookup(funcid) > 0 {
      assert Total(cost, [lookup(funcid)]) == cost(lookup(funcid)) + Total(cost, []);
    }
  }

  lemma {:induction false} ArgsCostIsTotal(lookup: nat -> int, cost: int -> real, parent: Expr, from: nat)
    requires (parent.FuncExpr? || parent.OpExpr? || parent.Aggref?) && from <= |parent.args|
    ensures ArgsCost(lookup, cost, parent, from) == Total(cost, ArgsOpcodes(lookup, parent, from))
    decreases parent, 0, |parent.args| - from
  {
    if from < |parent.args| {
      SumCostsIsTotal(lookup, cost, parent.args[from]);
      ArgsCostIsTotal(lookup, cost, parent, from + 1);
      TotalConcat(cost, PricedOpcodes(lookup, parent.args[from]), ArgsOpcodes(lookup, parent, from + 1));
    }
  }

  /** With non-negative opcode costs the sum is never negative. */
  lemma {:induction false} TotalNonNegative(cost: int -> real, ops: seq<int>)
    requires forall i :: 0 <= i < |ops| ==> cost(ops[i]) >= 0.0
    ensures Total(cost, ops) >= 0.0
  {
    if |ops| > 0 {
      TotalNonNegative(cost, ops[1..]);
    }
  }

  /** An aggregate's filter never affects its cost: the same arguments cost the same under any filter. */
  lemma AggrefFilterNotPriced(lookup: nat -> int, cost: int -> real, args: seq<Expr>, f1: Expr, f2: Expr)
    ensures SumCosts(lookup, cost, Aggref(args, f1)) == SumCosts(lookup, cost, Aggref(args, f2))
  {
    SameArgsSameCost(lookup, cost, Aggref(args, f1), Aggref(args, f2), 0);
  }

  lemma {:induction false} SameArgsSameCost(lookup: nat -> int, cost: int -> real, p1: Expr, p2: Expr, from: nat)
    requires p1.Aggref? && p2.Aggref? && p1.args == p2.args && from <= |p1.args|
    ensures ArgsCost(lookup, cost, p1, from) == ArgsCost(lookup, cost, p2, from)
    decreases |p1.args| - from
  {
    if from < |p1.args| {
      SameArgsSameCost(lookup, cost, p1, p2, from + 1);
    }
  }

  /**
    `gpu_sum_opcode_costs` against the reference: 0 unless the bridge is on
    with both entry points, otherwise the total cost of the priced opcodes,
    which is never negative when PG-Strom reports non-negative costs.
   */
  lemma GpuSumOpcodeCostsSpec(b: Bridge, e: Expr)
    ensures var api := b.api;
      GpuSumOpcodeCosts(b, e)
      == if b.settings.enabled && api.deviceFuncLookup.Some? && api.opcodeCost.Some?
         then Total(api.opcodeCost.value, PricedOpcodes(api.deviceFuncLookup.value, e))
         else 0.0
    ensures b.api.opcodeCost.Some? && (forall op :: b.api.opcodeCost.value(op) >= 0.0) ==> GpuSumOpcodeCosts(b, e) >= 0.0
  {
    if b.settings.enabled && b.api.deviceFuncLookup.Some? && b.api.opcodeCost.Some? {
      var ops := PricedOpcodes(b.api.deviceFuncLookup.value, e);
      SumCostsIsTotal(b.api.deviceFuncLookup.value, b.api.opcodeCost.value, e);
      if forall op :: b.api.opcodeCost.value(op) >= 0.0 {
        TotalNonNegative(b.api.opcodeCost.value, ops);
      }
    }
  }

  /** Sum over the aggregate list, in list order: the first loop of `gpu_estimate_cost`. */
  function OpcodeCostSum(b: Bridge, aggExprs: seq<Expr>): (r: real)
    ensures r != 0.0 ==> b.settings.enabled && b.api.deviceFuncLookup.Some? && b.api.opcodeCost.Some?
    ensures b.api.opcodeCost.Some? && (forall op :: b.api.opcodeCost.value(op) >= 0.0) ==> r >= 0.0
  {
    if |aggExprs| == 0 then 0.0
    else
      GpuSumOpcodeCostsSpec(b, aggExprs[0]);
      GpuSumOpcodeCosts(b, aggExprs[0]) + OpcodeCostSum(b, aggExprs[1..])
  }

  /** The priced opcodes of a list of expressions, one expression after another. */
  function PricedOpcodesOfAll(lookup: nat -> int, es: seq<Expr>): seq<int>
  {
    if |es| == 0 then [] else PricedOpcodes(lookup, es[0]) + PricedOpcodesOfAll(lookup, es[1..])
  }

  /**
    The first loop of `gpu_estimate_cost` against the reference: with the
    bridge on and both entry points present, the summed cost is
    `opcode_cost` totalled over every priced opcode of every expression.
   */
  lemma {:induction false} OpcodeCostSumIsTotal(b: Bridge, aggExprs: seq<Expr>)
    requires b.settings.enabled && b.api.deviceFuncLookup.Some? && b.api.opcodeCost.Some?
    ensures OpcodeCostSum(b, aggExprs)
         == Total(b.api.opcodeCost.value, PricedOpcodesOfAll(b.api.deviceFuncLookup.value, aggExprs))
  {
    if |aggExprs| > 0 {
      var lookup, cost := b.api.deviceFuncLookup.value, b.api.opcodeCost.value;
      OpcodeCostSumIsTotal(b, aggExprs[1..]);
      GpuSumOpcodeCostsSpec(b, aggExprs[0]);
      TotalConcat(cost, PricedOpcodes(lookup, aggExprs[0]), PricedOpcodesOfAll(lookup, aggExprs[1..]));
    }
  }

  /** `(size_t) nrows * row_width * 2`, wrapping modulo 2^64 like `size_t` arithmetic. */
  function TransferBytes(nrows: int, rowWidth: int): (r: nat)
    ensures r < U64Limit
    ensures 0 <= nrows * rowWidth * 2 < U64Limit ==> r == nrows * rowWidth * 2
  {
    (nrows * rowWidth * 2) % U64Limit
  }

  /** `transfer_bytes * effective_transfer_cost()`. */
  function TransferCost(nrows: int, rowWidth: int, perByte: real): (c: real)
    requires perByte > 0.0
    ensures c >= 0.0
    ensures TransferBytes(nrows, rowWidth) > 0 ==> c > 0.0
  {
    TransferBytes(nrows, rowWidth) as real * perByte
  }

  /** `(double) nrows * opcode_cost_sum / parallelism`: the per-row cost shared among `p` threads. */
  function ComputeCost(nrows: int, opcodeCostSum: real, p: int): (c: real)
    requires nrows > 0 && opcodeCostSum > 0.0 && p > 0
    ensures c > 0.0
    ensures c * p as real == nrows as real * opcodeCostSum
  {
    PositiveQuotient(nrows as real * opcodeCostSum, p as real);
    nrows as real * opcodeCostSum / p as real
  }

  lemma PositiveQuotient(x: real, y: real)
    requires x > 0.0 && y > 0.0
    ensures x / y > 0.0
    ensures x / y * y == x
  {
  }

  /** The conditions under which `gpu_estimate_cost` produces an estimate at all. */
  predicate EstimateApplies(b: Bridge, aggExprs: seq<Expr>, nrows: int)
  {
    && b.settings.enabled
    && nrows > 0
    && !(b.settings.minBatchRows > 0 && nrows < b.settings.minBatchRows)
    && OpcodeCostSum(b, aggExprs) > 0.0
  }

  /**
    `gpu_estimate_cost`. An estimate is produced exactly when the bridge is
    on, the batch is non-empty and not below `gpu_min_batch_rows`, and the
    expressions carry a positive opcode cost; otherwise every field is 0.
    A produced estimate is positive and is the sum of its three parts.
   */
  function GpuEstimateCost(b: Bridge, cal: Calibration, aggExprs: seq<Expr>, nrows: int, rowWidth: int)
    : (est: GpuCostEstimate)
    ensures est.isValid <==> EstimateApplies(b, aggExprs, nrows)
    ensures !est.isValid ==> est == InvalidEstimate
    ensures est.isValid ==>
      && est.totalCost == est.transferCost + est.launchCost + est.computeCost
      && est.transferCost == TransferCost(nrows, rowWidth, EffectiveTransferCost(b.settings, cal))
      && est.launchCost == EffectiveLaunchOverhead(b.settings, cal)
      && est.computeCost == ComputeCost(nrows, OpcodeCostSum(b, aggExprs), EffectiveGpuParallelism(b))
      && est.totalCost > 0.0
  {
    if !b.settings.enabled || nrows <= 0 then InvalidEstimate
    else if b.settings.minBatchRows > 0 && nrows < b.settings.minBatchRows then InvalidEstimate
    else
      var opcodeCostSum := OpcodeCostSum(b, aggExprs);
      if opcodeCostSum <= 0.0 then InvalidEstimate
      else
        var transfer := TransferCost(nrows, rowWidth, EffectiveTransferCost(b.settings, cal));
        var launch := EffectiveLaunchOverhead(b.settings, cal);
        var compute := ComputeCost(nrows, opcodeCostSum, EffectiveGpuParallelism(b));
        GpuCostEstimate(transfer + launch + compute, transfer, launch, compute, true)
  }

  /**
    Larger batches never look cheaper: for the same expressions and a
    non-negative row width whose transfer size does not wrap, the total
    estimate grows with the row count.
   */
  lemma EstimateMonotoneInRows(b: Bridge, cal: Calibration, aggExprs: seq<Expr>, n1: int, n2: int, rowWidth: int)
    requires EstimateApplies(b, aggExprs, n1) && n1 <= n2
    requires 0 <= rowWidth && n2 * rowWidth * 2 < U64Limit
    ensures EstimateApplies(b, aggExprs, n2)
    ensures GpuEstimateCost(b, cal, aggExprs, n1, rowWidth).totalCost
         <= GpuEstimateCost(b, cal, aggExprs, n2, rowWidth).totalCost
  {
    TransferCostMonotone(n1, n2, rowWidth, EffectiveTransferCost(b.settings, cal));
    ComputeCostMonotone(n1, n2, OpcodeCostSum(b, aggExprs), EffectiveGpuParallelism(b));
  }

  lemma TransferCostMonotone(n1: int, n2: int, rowWidth: int, perByte: real)
    requires 0 <= n1 <= n2 && 0 <= rowWidth && n2 * rowWidth * 2 < U64Limit && perByte > 0.0
    ensures TransferCost(n1, rowWidth, perByte) <= TransferCost(n2, rowWidth, perByte)
  {
    TransferBytesMonotone(n1, n2, rowWidth);
    RealMulMonotone(TransferBytes(n1, rowWidth) as real, TransferBytes(n2, rowWidth) as real, perByte);
  }

  lemma ComputeCostMonotone(n1: int, n2: int, sum: real, p: int)
    requires 0 < n1 <= n2 && sum > 0.0 && p > 0
    ensures ComputeCost(n1, sum, p) <= ComputeCost(n2, sum, p)
  {
    ComputeMonotone(ComputeCost(n1, sum, p), ComputeCost(n2, sum, p), p as real, n1 as real, n2 as real, sum);
  }

  lemma ComputeMonotone(c1: real, c2: real, p: real, n1: real, n2: real, sum: real)
    requires p > 0.0 && sum > 0.0 && n1 <= n2
    requires c1 * p == n1 * sum && c2 * p == n2 * sum
    ensures c1 <= c2
  {
    RealMulMonotone(n1, n2, sum);
    QuotientMonotone(c1, c2, p);
  }

  lemma TransferBytesMonotone(n1: int, n2: int, rowWidth: int)
    requires 0 <= n1 <= n2 && 0 <= rowWidth && n2 * rowWidth * 2 < U64Limit
    ensures TransferBytes(n1, rowWidth) <= TransferBytes(n2, rowWidth)
  {
    assert 0 <= n1 * rowWidth <= n2 * rowWidth;
  }

  lemma RealMulMonotone(a: real, b: real, c: real)
    requires a <= b && 0.0 <= c
    ensures a * c <= b * c
  {
  }

  lemma QuotientMonotone(x: real, y: real, p: real)
    requires p > 0.0 && x * p <= y * p
    ensures x <= y
  {
  }

  /** `gpu_calibrate_transfer_cost`: record `elapsed_us / bytes_transferred` unless either is not positive. */
  function GpuCalibrateTransferCost(cal: Calibration, bytesTransferred: nat, elapsedUs: real): (c: Calibration)
    ensures c.launchOverhead == cal.launchOverhead
    ensures bytesTransferred == 0 || elapsedUs <= 0.0 ==> c == cal
    ensures bytesTransferred > 0 && elapsedUs > 0.0 ==>
      c.done && c.transferCost > 0.0 && c.transferCost * bytesTransferred as real == elapsedUs
  {
    if bytesTransferred == 0 || elapsedUs <= 0.0 then cal
    else
      PositiveQuotient(elapsedUs, bytesTransferred as real);
      cal.(transferCost := elapsedUs / bytesTransferred as real, done := true)
  }

  /** `gpu_calibrate_launch_overhead`: record `elapsed_us - compute_cost`, at least 1.0 when not positive. */
  function GpuCalibrateLaunchOverhead(cal: Calibration, elapsedUs: real, computeCost: real): (c: Calibration)
    ensures c.transferCost == cal.transferCost
    ensures c.done && c.launchOverhead > 0.0
    ensures elapsedUs - computeCost > 0.0 ==> c.launchOverhead + computeCost == elapsedUs
    ensures elapsedUs - computeCost <= 0.0 ==> c.launchOverhead == 1.0
  {
    var overhead := elapsedUs - computeCost;
    cal.(launchOverhead := if overhead <= 0.0 then 1.0 else overhead, done := true)
  }

  /**
    What the calibration globals always satisfy: coefficients are never
    negative, nothing is recorded before `calibration_done` is set, and once
    it is set at least one coefficient has been measured.
   */
  predicate CalibrationInvariant(cal: Calibration)
  {
    && cal.transferCost >= 0.0 && cal.launchOverhead >= 0.0
    && (!cal.done ==> cal.transferCost == 0.0 && cal.launchOverhead == 0.0)
    && (cal.done ==> cal.transferCost > 0.0 || cal.launchOverhead > 0.0)
  }

  /** The invariant holds at load time and after either calibration, whatever the measurements. */
  lemma CalibrationInvariantPreserved(cal: Calibration, bytesTransferred: nat, elapsedUs: real, computeCost: real)
    ensures CalibrationInvariant(InitialCalibration)
    ensures CalibrationInvariant(cal) ==> CalibrationInvariant(GpuCalibrateTransferCost(cal, bytesTransferred, elapsedUs))
    ensures CalibrationInvariant(cal) ==> CalibrationInvariant(GpuCalibrateLaunchOverhead(cal, elapsedUs, computeCost))
  {
  }

  /**
    A measurement takes effect unless the GUC overrides it: after a transfer
    calibration the planner prices bytes at the measured rate, and the
    launch overhead it uses is unchanged.
   */
  lemma TransferCalibrationTakesEffect(s: Settings, cal: Calibration, bytesTransferred: nat, elapsedUs: real)
    requires CalibrationInvariant(cal) && bytesTransferred > 0 && elapsedUs > 0.0
    ensures var c := GpuCalibrateTransferCost(cal, bytesTransferred, elapsedUs);
      && (s.transferCostPerByte <= 0.0 ==> EffectiveTransferCost(s, c) * bytesTransferred as real == elapsedUs)
      && (s.transferCostPerByte > 0.0 ==> EffectiveTransferCost(s, c) == s.transferCostPerByte)
      && EffectiveLaunchOverhead(s, c) == EffectiveLaunchOverhead(s, cal)
  {
  }

  /** Likewise for the launch overhead; the per-byte transfer cost in use is unchanged. */
  lemma LaunchCalibrationTakesEffect(s: Settings, cal: Calibration, elapsedUs: real, computeCost: real)
    requires CalibrationInvariant(cal)
    ensures var c := GpuCalibrateLaunchOverhead(cal, elapsedUs, computeCost);
      && (s.launchOverhead <= 0.0 ==>
            EffectiveLaunchOverhead(s, c) == if elapsedUs - computeCost > 0.0 then elapsedUs - computeCost else 1.0)
      && (s.launchOverhead > 0.0 ==> EffectiveLaunchOverhead(s, c) == s.launchOverhead)
      && EffectiveTransferCost(s, c) == EffectiveTransferCost(s, cal)
  {
  }
}
