/** The code that the compiler pass inserts: computations of builder calls, the rewriting of
    each into a guarded form (shortCircuitExpressionUses), and what both mean. */
module SymbolicCode {
  import opened Options
  import opened BitVectors
  import opened Expressions
  import opened Gep
  import opened Ir

  // ----- computations as the visit methods record them -----

  /** An expression operand of inserted code: the null constant, or an SSA register. */
  datatype SymOperand = Null | ExprReg(reg: nat)

  /** Run-time contents of the expression registers. */
  type Env = map<nat, SymExpr>

  function Look(env: Env, o: SymOperand): SymExpr
  {
    match o
    case Null => None
    case ExprReg(r) => if r in env then env[r] else None
  }

  /** The functions of the run-time library; literal arguments are part of the name. */
  datatype Builder =
    | BuildBinary(op: BinOp)
    | BuildBoolOp(bop: BoolOp)
    | BuildCmp(pred: Predicate)
    | BuildSExt(extra: nat)
    | BuildZExt(extra: nat)
    | BuildTrunc(width: nat)
    | BuildBoolToBit
    | PushConstraint(taken: Operand)

  /** What a builder returns; it never returns null. */
  function Build(b: Builder, args: seq<Expr>): Expr
  {
    match b
    case BuildBinary(op) => if |args| == 2 then Binary(op, args[0], args[1]) else BoolConst(false)
    case BuildBoolOp(op) => if |args| == 2 then BoolBinary(op, args[0], args[1]) else BoolConst(false)
    case BuildCmp(p) => if |args| == 2 then BuildCompare(p, args[0], args[1]) else BoolConst(false)
    case BuildSExt(n) => if |args| == 1 then SExt(args[0], n) else BoolConst(false)
    case BuildZExt(n) => if |args| == 1 then ZExt(args[0], n) else BoolConst(false)
    case BuildTrunc(w) => if |args| == 1 then Extract(args[0], w - 1, 0) else BoolConst(false)
    case BuildBoolToBit => if |args| == 1 then BoolToBit(args[0]) else BoolConst(false)
    case PushConstraint(_) => if |args| == 1 then args[0] else BoolConst(false)
  }

  /** The call with the run-time value of its concrete argument. */
  function Bound(b: Builder, regs: Regs): Builder
  {
    match b
    case PushConstraint(o) => PushConstraint(Lit(ConcreteValue(regs, o)))
    case _ => b
  }

  /** An argument of a recorded call: a symbolic input, with the program value it stands for,
      or the result of an earlier call of the same computation. */
  datatype CallArg = Input(value: Operand, operand: SymOperand) | Previous(call: nat)

  datatype CallSite = CallSite(builder: Builder, args: seq<CallArg>)

  /** SymbolicComputation: calls in order; the last one gives the result. */
  type Computation = seq<CallSite>

  function InputsOf(args: seq<CallArg>): (r: seq<CallArg>)
    ensures forall i :: 0 <= i < |r| ==> r[i].Input?
  {
    if |args| == 0 then []
    else InputsOf(args[..|args| - 1]) + (if args[|args| - 1].Input? then [args[|args| - 1]] else [])
  }

  /** The inputs of the first `k` calls, in order. */
  function Inputs(comp: Computation, k: nat): (r: seq<CallArg>)
    requires k <= |comp|
    ensures forall i :: 0 <= i < |r| ==> r[i].Input?
  {
    if k == 0 then [] else Inputs(comp, k - 1) + InputsOf(comp[k - 1].args)
  }

  /** Calls refer to earlier calls only. */
  predicate Ordered(comp: Computation)
  {
    forall k, a :: 0 <= k < |comp| && 0 <= a < |comp[k].args| && comp[k].args[a].Previous? ==> comp[k].args[a].call < k
  }

  /** The operands of inserted code come from registers below `base`. */
  predicate Below(comp: Computation, base: nat)
  {
    forall i :: 0 <= i < |Inputs(comp, |comp|)| && Inputs(comp, |comp|)[i].operand.ExprReg? ==>
      Inputs(comp, |comp|)[i].operand.reg < base
  }

  // ----- the meaning of a computation -----

  function ConcreteValue(regs: Regs, o: Operand): Value
  {
    match Get(regs, o) case Some(v) => v case None => Boolean(false)
  }

  /** An input's expression, or a constant for its concrete value. */
  function InputExpr(a: CallArg, env: Env, regs: Regs): Expr
    requires a.Input?
  {
    OperandExpr(Look(env, a.operand), ConcreteValue(regs, a.value))
  }

  function ArgExprs(args: seq<CallArg>, env: Env, regs: Regs, results: seq<Expr>): (r: seq<Expr>)
    ensures |r| == |args|
  {
    if |args| == 0 then []
    else
      var a := args[|args| - 1];
      ArgExprs(args[..|args| - 1], env, regs, results)
      + [if a.Input? then InputExpr(a, env, regs) else if a.call < |results| then results[a.call] else BoolConst(false)]
  }

  /** Results of the first `k` calls when every argument is built. */
  function Results(comp: Computation, env: Env, regs: Regs, k: nat): (r: seq<Expr>)
    requires k <= |comp|
    ensures |r| == k
  {
    if k == 0 then []
    else
      var before := Results(comp, env, regs, k - 1);
      before + [Build(comp[k - 1].builder, ArgExprs(comp[k - 1].args, env, regs, before))]
  }

  datatype Called = Called(builder: Builder, args: seq<Expr>)

  /** The calls made when every argument is built. */
  function Calls(comp: Computation, env: Env, regs: Regs, k: nat): seq<Called>
    requires k <= |comp|
  {
    if k == 0 then []
    else
      Calls(comp, env, regs, k - 1)
      + [Called(Bound(comp[k - 1].builder, regs),
                ArgExprs(comp[k - 1].args, env, regs, Results(comp, env, regs, k - 1)))]
  }

  predicate AllNull(comp: Computation, env: Env)
  {
    forall i :: 0 <= i < |Inputs(comp, |comp|)| ==> Look(env, Inputs(comp, |comp|)[i].operand).None?
  }

  /** Null exactly when all inputs are null, otherwise the fully built expression. */
  function Meaning(comp: Computation, env: Env, regs: Regs): SymExpr
    requires |comp| > 0
  {
    if AllNull(comp, env) then None else Some(Results(comp, env, regs, |comp|)[|comp| - 1])
  }

  // ----- rewritten code -----

  /** A PHI node at the end of a conditional block: the value for each way around. */
  datatype Join = Join(dst: nat, skipped: SymOperand, taken: SymOperand)

  datatype Stmt =
    | TestNull(test: nat, o: SymOperand)
    | AndTests(test: nat, a: nat, b: nat)
    | Constant(dst: nat, value: Operand)                    // createValueExpression
    | CallStmt(dst: nat, builder: Builder, args: seq<SymOperand>)
    | Guarded(test: nat, on: bool, body: seq<Stmt>, join: Option<Join>)

  /** `crashed` records that a builder was handed a null argument. */
  datatype Machine = Machine(env: Env, tests: map<nat, bool>, log: seq<Called>, crashed: bool)

  function Test(m: Machine, t: nat): bool { t in m.tests && m.tests[t] }

  function Values(args: seq<SymOperand>, env: Env): Option<seq<Expr>>
  {
    if |args| == 0 then Some([])
    else
      match (Values(args[..|args| - 1], env), Look(env, args[|args| - 1]))
      case (Some(es), Some(e)) => Some(es + [e])
      case _ => None
  }

  function ExecStmt(s: Stmt, m: Machine, regs: Regs): Machine
    decreases s, 0
  {
    match s
    case TestNull(t, o) => m.(tests := m.tests[t := Look(m.env, o).None?])
    case AndTests(t, a, b) => m.(tests := m.tests[t := Test(m, a) && Test(m, b)])
    case Constant(dst, v) => m.(env := m.env[dst := Some(ValueExpr(ConcreteValue(regs, v)))])
    case CallStmt(dst, b, args) =>
      (match Values(args, m.env)
       case Some(es) => m.(env := m.env[dst := Some(Build(b, es))], log := m.log + [Called(Bound(b, regs), es)])
       case None => m.(crashed := true))
    case Guarded(t, on, body, join) =>
      var go := Test(m, t) == on;
      var m1 := if go then ExecAll(body, m, regs) else m;
      (match join
       case None => m1
       case Some(Join(dst, skipped, taken)) =>
         m1.(env := m1.env[dst := Look(m1.env, if go then taken else skipped)]))
  }

  function ExecAll(code: seq<Stmt>, m: Machine, regs: Regs): Machine
    decreases code, 1
  {
    if |code| == 0 then m else ExecAll(code[1..], ExecStmt(code[0], m, regs), regs)
  }

  lemma {:induction false} ExecConcat(a: seq<Stmt>, b: seq<Stmt>, m: Machine, regs: Regs)
    ensures ExecAll(a + b, m, regs) == ExecAll(b, ExecAll(a, m, regs), regs)
    decreases |a|
  {
    if |a| == 0 {
      assert a + b == b;
    } else {
      assert (a + b)[1..] == a[1..] + b && (a + b)[0] == a[0];
      ExecConcat(a[1..], b, ExecStmt(a[0], m, regs), regs);
    }
  }

  lemma ExecOne(s: Stmt, m: Machine, regs: Regs)
    ensures ExecAll([s], m, regs) == ExecStmt(s, m, regs)
  {
    assert [s][1..] == [];
  }
}
