/**
  The bridge's global state as the planner and executor hooks see it: the
  `gpu_bridge_enabled` switch, the GUC settings, and the PG-Strom entry
  points resolved at load time (each absent when PG-Strom is not loaded).
  The expression trees the eligibility check and the cost model walk are
  modelled here as well.
 */
module GpuBridge {
  import opened Wrappers
  import opened Bytes

  /** What `xpu_command` hands back: its return code and the result buffer it filled. */
  datatype SubmitReply = SubmitReply(status: int, result: seq<byte>, resultLen: nat)

  /**
    `GpuBridgeStromAPI`. The entry points are pure functions of their
    arguments here; `gpuParallelism` is the value `gpu_parallelism()` returns.
   */
  datatype StromApi = StromApi(
    xpuCommand: Option<(seq<byte>, nat) -> SubmitReply>,
    deviceFuncLookup: Option<nat -> int>,
    opcodeCost: Option<int -> real>,
    gpuParallelism: Option<int>)

  /** The GUC parameters; 0 means "not set" for the first three. */
  datatype Settings = Settings(
    enabled: bool,
    transferCostPerByte: real,
    launchOverhead: real,
    minBatchRows: int)

  datatype Bridge = Bridge(settings: Settings, api: StromApi)

  /** The values at load time: disabled, nothing resolved, every GUC 0. */
  const InitialSettings := Settings(false, 0.0, 0.0, 0)
  const NoStromApi := StromApi(None, None, None, None)

  /**
    The expression nodes the bridge distinguishes. `Null` is a NULL `Expr *`
    (an absent `aggfilter` included); `Aggref.args` are the expressions of
    its target entries; `Other` is any other node tag.
   */
  datatype Expr =
    | Null
    | Const
    | Var
    | FuncExpr(funcid: nat, args: seq<Expr>)
    | OpExpr(opfuncid: nat, args: seq<Expr>)
    | Aggref(args: seq<Expr>, aggfilter: Expr)
    | Other(tag: int)

  /** Sub-expression `s` occurs in `e` (the node itself included), through arguments and filters. */
  ghost predicate Within(s: Expr, e: Expr)
    decreases e
  {
    || s == e
    || (e.FuncExpr? && exists i :: 0 <= i < |e.args| && Within(s, e.args[i]))
    || (e.OpExpr? && exists i :: 0 <= i < |e.args| && Within(s, e.args[i]))
    || (e.Aggref? && ((exists i :: 0 <= i < |e.args| && Within(s, e.args[i])) || Within(s, e.aggfilter)))
  }
}
