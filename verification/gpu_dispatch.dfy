/**
  `gpu_dispatch.c`: deciding whether an aggregate's expressions can run on
  the GPU, and handing a KDS batch to PG-Strom with CPU fallback.
 */
module GpuDispatch {
  import opened Wrappers
  import opened Bytes
  import opened GpuBridge

  /** One node on its own: leaves are fine, functions and operators need a device opcode. */
  predicate NodeSupported(lookup: nat -> int, e: Expr)
  {
    match e
    case Null => true
    case Const => true
    case Var => true
    case FuncExpr(funcid, _) => lookup(funcid) > 0
    case OpExpr(opfuncid, _) => lookup(opfuncid) > 0
    case Aggref(_, _) => true
    case Other(_) => false
  }

  /** The recursive walk of `gpu_expr_is_eligible` once PG-Strom's lookup is known. */
  predicate Eligible(lookup: nat -> int, e: Expr)
    decreases e, 1
  {
    match e
    case Null => true
    case Const => true
    case Var => true
    case FuncExpr(funcid, _) => lookup(funcid) > 0 && ArgsEligible(lookup, e, 0)
    case OpExpr(opfuncid, _) => lookup(opfuncid) > 0 && ArgsEligible(lookup, e, 0)
    case Aggref(_, aggfilter) =>
      ArgsEligible(lookup, e, 0) && (aggfilter.Null? || Eligible(lookup, aggfilter))
    case Other(_) => false
  }

  /** The `foreach` over a node's arguments, stopping at the first one that is not eligible. */
  predicate ArgsEligible(lookup: nat -> int, parent: Expr, from: nat)
    requires HasArgs(parent) && from <= |parent.args|
    decreases parent, 0, |parent.args| - from
  {
    if from == |parent.args| then true
    else if !Eligible(lookup, parent.args[from]) then false
    else ArgsEligible(lookup, parent, from + 1)
  }

  predicate HasArgs(e: Expr)
  {
    e.FuncExpr? || e.OpExpr? || e.Aggref?
  }

  /**
    `gpu_expr_is_eligible`: nothing is eligible while the bridge is off or
    the lookup is missing. Otherwise a NULL expression, a constant and a
    variable always are, an unknown node kind never is, an eligible
    function or operator has a device opcode, and an eligible aggregate's
    filter is absent or eligible itself.
   */
  predicate GpuExprIsEligible(b: Bridge, e: Expr)
    ensures GpuExprIsEligible(b, e) ==> b.settings.enabled && b.api.deviceFuncLookup.Some?
    ensures b.settings.enabled && b.api.deviceFuncLookup.Some? && (e.Null? || e.Const? || e.Var?) ==>
      GpuExprIsEligible(b, e)
    ensures e.Other? ==> !GpuExprIsEligible(b, e)
    ensures GpuExprIsEligible(b, e) ==> NodeSupported(b.api.deviceFuncLookup.value, e)
    ensures GpuExprIsEligible(b, e) && e.Aggref? ==> GpuExprIsEligible(b, e.aggfilter)
  {
    b.settings.enabled && b.api.deviceFuncLookup.Some? && Eligible(b.api.deviceFuncLookup.value, e)
  }

  /**
    `gpu_check_eligibility`: the list of aggregate expressions goes to the GPU
    only when the bridge is on, the list is not empty, and every expression
    in it is eligible.
   */
  method GpuCheckEligibility(b: Bridge, aggExprs: seq<Expr>) returns (ok: bool)
    ensures ok <==> b.settings.enabled && |aggExprs| > 0
                    && forall i :: 0 <= i < |aggExprs| ==> GpuExprIsEligible(b, aggExprs[i])
  {
    if !b.settings.enabled {
      return false;
    }
    if |aggExprs| == 0 {
      return false;
    }
    var i := 0;
    while i < |aggExprs|
      invariant 0 <= i <= |aggExprs|
      invariant forall j :: 0 <= j < i ==> GpuExprIsEligible(b, aggExprs[j])
    {
      if !GpuExprIsEligible(b, aggExprs[i]) {
        return false;
      }
      i := i + 1;
    }
    return true;
  }

  /**
    A single unsupported node anywhere in the tree (an unknown node type, or
    a function or operator without a device opcode) makes the whole
    expression ineligible, as does a disabled bridge or a missing lookup.
   */
  lemma UnsupportedNodeRejects(b: Bridge, e: Expr, s: Expr)
    requires Within(s, e)
    requires !b.settings.enabled || b.api.deviceFuncLookup.None? || !NodeSupported(b.api.deviceFuncLookup.value, s)
    ensures !GpuExprIsEligible(b, e)
  {
    if b.settings.enabled && b.api.deviceFuncLookup.Some? {
      EligibleIffAllNodesSupported(b.api.deviceFuncLookup.value, e);
    }
  }

  /** Conversely, a tree whose every node is supported is eligible once the bridge is on with a lookup. */
  lemma SupportedTreeAccepted(b: Bridge, e: Expr)
    requires b.settings.enabled && b.api.deviceFuncLookup.Some?
    requires forall s :: Within(s, e) ==> NodeSupported(b.api.deviceFuncLookup.value, s)
    ensures GpuExprIsEligible(b, e)
  {
    EligibleIffAllNodesSupported(b.api.deviceFuncLookup.value, e);
  }

  /** What `gpu_dispatch_batch` reports, and the reply of the one submission it made, if any. */
  datatype DispatchOutcome = DispatchOutcome(ok: bool, submitted: Option<SubmitReply>)

  /**
    `gpu_dispatch_batch`: with the bridge off or no `xpu_command`, fall back
    to the CPU without submitting; otherwise submit the buffer once and
    succeed exactly when the return code is 0.
   */
  function GpuDispatchBatch(b: Bridge, kds: seq<byte>, kdsLen: nat): (r: DispatchOutcome)
    ensures r.submitted.Some? <==> b.settings.enabled && b.api.xpuCommand.Some?
    ensures r.submitted.Some? ==> r.submitted.value == b.api.xpuCommand.value(kds, kdsLen)
    ensures r.ok <==> r.submitted.Some? && r.submitted.value.status == 0
  {
    if !b.settings.enabled || b.api.xpuCommand.None? then DispatchOutcome(false, None)
    else
      var reply := b.api.xpuCommand.value(kds, kdsLen);
      DispatchOutcome(reply.status == 0, Some(reply))
  }

  /** Reference definition: every node of the tree is supported on its own. */
  ghost predicate AllNodesSupported(lookup: nat -> int, e: Expr)
  {
    forall s :: Within(s, e) ==> NodeSupported(lookup, s)
  }

  lemma {:induction false} ArgsEligibleIff(lookup: nat -> int, parent: Expr, from: nat)
    requires HasArgs(parent) && from <= |parent.args|
    ensures ArgsEligible(lookup, parent, from) <==>
      forall i :: from <= i < |parent.args| ==> Eligible(lookup, parent.args[i])
    decreases |parent.args| - from
  {
    if from < |parent.args| {
      ArgsEligibleIff(lookup, parent, from + 1);
    }
  }

  /**
    The walk accepts a tree exactly when every node in it is supported:
    no unknown node tag and a device opcode for every function and operator,
    at any depth, filters of aggregates included.
   */
  lemma {:induction false} EligibleIffAllNodesSupported(lookup: nat -> int, e: Expr)
    ensures Eligible(lookup, e) <==> AllNodesSupported(lookup, e)
    decreases e
  {
    match e
    case Null =>
      WithinLeaf(e);
    case Const =>
      WithinLeaf(e);
    case Var =>
      WithinLeaf(e);
    case Other(_) =>
      assert Within(e, e);
    case FuncExpr(_, args) =>
      ArgsEligibleIff(lookup, e, 0);
      forall i | 0 <= i < |args| ensures Eligible(lookup, args[i]) <==> AllNodesSupported(lookup, args[i]) {
        EligibleIffAllNodesSupported(lookup, args[i]);
      }
      ChildrenIff(lookup, e, args);
    case OpExpr(_, args) =>
      ArgsEligibleIff(lookup, e, 0);
      forall i | 0 <= i < |args| ensures Eligible(lookup, args[i]) <==> AllNodesSupported(lookup, args[i]) {
        EligibleIffAllNodesSupported(lookup, args[i]);
      }
      ChildrenIff(lookup, e, args);
    case Aggref(args, aggfilter) =>
      ArgsEligibleIff(lookup, e, 0);
      forall i | 0 <= i < |args| ensures Eligible(lookup, args[i]) <==> AllNodesSupported(lookup, args[i]) {
        EligibleIffAllNodesSupported(lookup, args[i]);
      }
      EligibleIffAllNodesSupported(lookup, aggfilter);
      AggrefIff(lookup, e);
  }

  lemma WithinLeaf(e: Expr)
    requires e.Null? || e.Const? || e.Var?
    ensures forall s :: Within(s, e) ==> s == e
  {
  }

  /** For a function or operator node: all nodes supported iff the node and each argument subtree are. */
  lemma {:induction false} ChildrenIff(lookup: nat -> int, e: Expr, args: seq<Expr>)
    requires (e.FuncExpr? || e.OpExpr?) && e.args == args
    ensures AllNodesSupported(lookup, e) <==>
      NodeSupported(lookup, e) && forall i :: 0 <= i < |args| ==> AllNodesSupported(lookup, args[i])
    decreases e, 0
  {
    forall i | 0 <= i < |args|
      ensures AllNodesSupported(lookup, e) ==> AllNodesSupported(lookup, args[i])
    {
      forall s | Within(s, args[i]) ensures Within(s, e) { }
    }
    assert Within(e, e);
    if NodeSupported(lookup, e) && forall i :: 0 <= i < |args| ==> AllNodesSupported(lookup, args[i]) {
      forall s | Within(s, e) ensures NodeSupported(lookup, s) {
        if s != e {
          var i :| 0 <= i < |args| && Within(s, args[i]);
          assert AllNodesSupported(lookup, args[i]);
        }
      }
    }
  }

  /** For an aggregate: all nodes supported iff each argument subtree and the filter subtree are. */
  lemma AggrefIff(lookup: nat -> int, e: Expr)
    requires e.Aggref?
    ensures AllNodesSupported(lookup, e) <==>
      (forall i :: 0 <= i < |e.args| ==> AllNodesSupported(lookup, e.args[i]))
      && AllNodesSupported(lookup, e.aggfilter)
  {
    forall i | 0 <= i < |e.args|
      ensures AllNodesSupported(lookup, e) ==> AllNodesSupported(lookup, e.args[i])
    {
      forall s | Within(s, e.args[i]) ensures Within(s, e) { }
    }
    forall s | Within(s, e.aggfilter) ensures Within(s, e) { }
    if (forall i :: 0 <= i < |e.args| ==> AllNodesSupported(lookup, e.args[i]))
      && AllNodesSupported(lookup, e.aggfilter)
    {
      forall s | Within(s, e) ensures NodeSupported(lookup, s) {
        if s != e && !Within(s, e.aggfilter) {
          var i :| 0 <= i < |e.args| && Within(s, e.args[i]);
          assert AllNodesSupported(lookup, e.args[i]);
        }
      }
    }
  }
}
