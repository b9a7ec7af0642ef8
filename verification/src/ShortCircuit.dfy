/** shortCircuitExpressionUses: the rewriting of a computation, and the proof that it keeps
    the computation's meaning and never hands a null argument to a builder. */
module ShortCircuit {
  import opened Options
  import opened SymbolicCode

  // ----- registers of the rewritten code -----

  /** Where the pieces of one rewritten computation live: results from `base` on, then a
      constant and a PHI per input, then the final PHI. */
  datatype Layout = Layout(base: nat, calls: nat, inputs: nat) {
    function ResultReg(k: nat): nat { base + k }
    function ConstReg(i: nat): nat { base + calls + 2 * i }
    function PhiReg(i: nat): nat { base + calls + 2 * i + 1 }
    function FinalReg(): nat { base + calls + 2 * inputs }
  }

  function LayoutOf(comp: Computation, base: nat): Layout { Layout(base, |comp|, |Inputs(comp, |comp|)|) }

  // ----- the pieces -----

  /** `nullChecks`: one test per input. */
  function CheckCode(ins: seq<CallArg>, k: nat): seq<Stmt>
    requires k <= |ins| && forall i :: 0 <= i < |ins| ==> ins[i].Input?
  {
    if k == 0 then [] else CheckCode(ins, k - 1) + [TestNull(k - 1, ins[k - 1].operand)]
  }

  /** The register holding the conjunction of the tests 0 to i. */
  function AndReg(n: nat, i: nat): nat { if i == 0 then 0 else n + i }

  function AndCode(n: nat, k: nat): seq<Stmt>
    requires k > 0
  {
    if k == 1 then [] else AndCode(n, k - 1) + [AndTests(AndReg(n, k - 1), AndReg(n, k - 2), k - 1)]
  }

  /** numUnknownConcreteness: how many inputs are not known to be concrete. */
  function Unknown(ins: seq<CallArg>, k: nat): nat
    requires k <= |ins| && forall i :: 0 <= i < |ins| ==> ins[i].Input?
  {
    if k == 0 then 0 else Unknown(ins, k - 1) + (if ins[k - 1].operand.Null? then 0 else 1)
  }

  /** The code that provides input `i` in the slow path. */
  function ArgStmts(a: CallArg, i: nat, unknown: nat, l: Layout): seq<Stmt>
    requires a.Input?
  {
    if a.operand.Null? then [Constant(l.ConstReg(i), a.value)]
    else if unknown == 1 then []
    else [Guarded(i, true, [Constant(l.ConstReg(i), a.value)],
                  Some(Join(l.PhiReg(i), a.operand, ExprReg(l.ConstReg(i)))))]
  }

  /** The operand that replaces input `i`. */
  function NewOperand(a: CallArg, i: nat, unknown: nat, l: Layout): SymOperand
    requires a.Input?
  {
    if a.operand.Null? then ExprReg(l.ConstReg(i))
    else if unknown == 1 then a.operand
    else ExprReg(l.PhiReg(i))
  }

  function ArgCode(ins: seq<CallArg>, k: nat, unknown: nat, l: Layout): seq<Stmt>
    requires k <= |ins| && forall i :: 0 <= i < |ins| ==> ins[i].Input?
  {
    if k == 0 then [] else ArgCode(ins, k - 1, unknown, l) + ArgStmts(ins[k - 1], k - 1, unknown, l)
  }

  function NewOperands(ins: seq<CallArg>, unknown: nat, l: Layout): (r: seq<SymOperand>)
    requires forall i :: 0 <= i < |ins| ==> ins[i].Input?
    ensures |r| == |ins|
  {
    seq(|ins|, i requires 0 <= i < |ins| => NewOperand(ins[i], i, unknown, l))
  }

  /** The arguments of a call after operand replacement; `start` inputs precede the call. */
  function NewArgs(args: seq<CallArg>, ops: seq<SymOperand>, start: nat, l: Layout): (r: seq<SymOperand>)
    requires start + |InputsOf(args)| <= |ops|
    ensures |r| == |args|
  {
    if |args| == 0 then []
    else
      var front, last := args[..|args| - 1], args[|args| - 1];
      NewArgs(front, ops, start, l)
      + [if last.Input? then ops[start + |InputsOf(front)|] else ExprReg(l.ResultReg(last.call))]
  }

  function CallCode(comp: Computation, ops: seq<SymOperand>, k: nat, l: Layout): seq<Stmt>
    requires k <= |comp| && |Inputs(comp, k)| <= |ops|
  {
    if k == 0 then []
    else
      CallCode(comp, ops, k - 1, l)
      + [CallStmt(l.ResultReg(k - 1), comp[k - 1].builder, NewArgs(comp[k - 1].args, ops, |Inputs(comp, k - 1)|, l))]
  }

  /** The whole rewritten computation; `used` says whether its result is. */
  function Rewritten(comp: Computation, base: nat, used: bool): seq<Stmt>
    requires |Inputs(comp, |comp|)| > 0 && |comp| > 0
  {
    var l, ins := LayoutOf(comp, base), Inputs(comp, |comp|);
    var unknown := Unknown(ins, |ins|);
    CheckCode(ins, |ins|) + AndCode(|ins|, |ins|)
    + [Guarded(AndReg(|ins|, |ins| - 1), false,
               ArgCode(ins, |ins|, unknown, l) + CallCode(comp, NewOperands(ins, unknown, l), |comp|, l),
               if used then Some(Join(l.FinalReg(), Null, ExprReg(l.ResultReg(|comp| - 1)))) else None)]
  }

  // ----- the rewriting, step by step -----

  method RewriteChecks(ins: seq<CallArg>) returns (code: seq<Stmt>)
    requires |ins| > 0 && forall i :: 0 <= i < |ins| ==> ins[i].Input?
    ensures code == CheckCode(ins, |ins|) + AndCode(|ins|, |ins|)
  {
    code := [];
    var i := 0;
    while i < |ins|
      invariant 0 <= i <= |ins| && code == CheckCode(ins, i)
    {
      code := code + [TestNull(i, ins[i].operand)];
      i := i + 1;
    }
    var checks := code;
    var allConcrete := 0;
    var ands: seq<Stmt> := [];
    i := 1;
    while i < |ins|
      invariant 1 <= i <= |ins| && ands == AndCode(|ins|, i) && allConcrete == AndReg(|ins|, i - 1)
    {
      ands := ands + [AndTests(|ins| + i, allConcrete, i)];
      allConcrete := |ins| + i;
      i := i + 1;
    }
    code := checks + ands;
  }

  method CountUnknown(ins: seq<CallArg>) returns (n: nat)
    requires forall i :: 0 <= i < |ins| ==> ins[i].Input?
    ensures n == Unknown(ins, |ins|)
  {
    n := 0;
    var i := 0;
    while i < |ins|
      invariant 0 <= i <= |ins| && n == Unknown(ins, i)
    {
      if !ins[i].operand.Null? {
        n := n + 1;
      }
      i := i + 1;
    }
  }

  /** The loop over the inputs in the slow path. */
  method RewriteArgs(ins: seq<CallArg>, unknown: nat, l: Layout) returns (code: seq<Stmt>, ops: seq<SymOperand>)
    requires forall i :: 0 <= i < |ins| ==> ins[i].Input?
    ensures code == ArgCode(ins, |ins|, unknown, l) && ops == NewOperands(ins, unknown, l)
  {
    code, ops := [], [];
    var i := 0;
    while i < |ins|
      invariant 0 <= i <= |ins| && code == ArgCode(ins, i, unknown, l)
      invariant |ops| == i && forall k :: 0 <= k < i ==> ops[k] == NewOperand(ins[k], k, unknown, l)
    {
      var original := ins[i].operand;
      var needRuntimeCheck := !original.Null?;
      if needRuntimeCheck && unknown == 1 {
        ops := ops + [original];
        assert ArgStmts(ins[i], i, unknown, l) == [];
        assert code + [] == code;
      } else {
        var newArg := Constant(l.ConstReg(i), ins[i].value);
        if needRuntimeCheck {
          code := code + [Guarded(i, true, [newArg], Some(Join(l.PhiReg(i), original, ExprReg(l.ConstReg(i)))))];
          ops := ops + [ExprReg(l.PhiReg(i))];
        } else {
          code := code + [newArg];
          ops := ops + [ExprReg(l.ConstReg(i))];
        }
      }
      i := i + 1;
    }
  }

  /** shortCircuitExpressionUses on one recorded computation. */
  method Rewrite(comp: Computation, base: nat, used: bool) returns (code: seq<Stmt>)
    requires |Inputs(comp, |comp|)| > 0 && |comp| > 0
    ensures code == Rewritten(comp, base, used)
  {
    var l, ins := LayoutOf(comp, base), Inputs(comp, |comp|);
    var head := RewriteChecks(ins);
    var unknown := CountUnknown(ins);
    var args, ops := RewriteArgs(ins, unknown, l);
    var slow := args + CallCode(comp, ops, |comp|, l);
    var join := if used then Some(Join(l.FinalReg(), Null, ExprReg(l.ResultReg(|comp| - 1)))) else None;
    code := head + [Guarded(AndReg(|ins|, |ins| - 1), false, slow, join)];
  }
}
