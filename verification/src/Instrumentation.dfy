/** The visit methods of the pass: the computations they record for arithmetic, comparisons,
    casts and address calculations, and the proof that these compute the expressions of the
    instrumented execution. */
module Instrumentation {
  import opened Options
  import opened BitVectors
  import opened Expressions
  import opened Gep
  import opened Ir
  import opened Concolic
  import opened SymbolicCode
  import opened PhiFinalization

  /** The inserted code has the operand's expression where the pass will look for it. In
      particular, an operand that the pass does not track has none. */
  ghost predicate Known(sym: SymbolicExpressions, env: Env, exprs: Exprs, o: Operand)
  {
    Look(env, OperandOf(sym, o)) == ExprOf(exprs, o)
  }

  function InputFor(sym: SymbolicExpressions, o: Operand): CallArg { Input(o, OperandOf(sym, o)) }

  // ----- buildRuntimeCall -----

  /** One call with all arguments symbolic; nothing is emitted if all are known to be concrete. */
  function RuntimeCall1(sym: SymbolicExpressions, b: Builder, x: Operand): Option<Computation>
  {
    if !Tracked(sym, x) then None else Some([CallSite(b, [InputFor(sym, x)])])
  }

  function RuntimeCall2(sym: SymbolicExpressions, b: Builder, x: Operand, y: Operand): Option<Computation>
  {
    if !Tracked(sym, x) && !Tracked(sym, y) then None
    else Some([CallSite(b, [InputFor(sym, x), InputFor(sym, y)])])
  }

  lemma OneCallInputs(b: Builder, args: seq<CallArg>)
    ensures Inputs([CallSite(b, args)], 1) == InputsOf(args)
  {
    assert Inputs([CallSite(b, args)], 0) == [];
  }

  lemma InputsOfTwo(x: CallArg, y: CallArg)
    requires x.Input? && y.Input?
    ensures InputsOf([x, y]) == [x, y] && InputsOf([x]) == [x]
  {
    assert [x, y][..1] == [x] && [x][..0] == [];
    assert InputsOf([x][..0]) == [];
  }

  lemma ArgExprsTwo(x: CallArg, y: CallArg, env: Env, regs: Regs, results: seq<Expr>)
    requires x.Input? && y.Input?
    ensures ArgExprs([x, y], env, regs, results) == [InputExpr(x, env, regs), InputExpr(y, env, regs)]
    ensures ArgExprs([x], env, regs, results) == [InputExpr(x, env, regs)]
  {
    hide InputExpr;
    assert [x, y][..1] == [x] && [x][..0] == [];
    assert ArgExprs([x][..0], env, regs, results) == [];
  }

  lemma TwoInputs(b: Builder, x: CallArg, y: CallArg, env: Env, regs: Regs)
    requires x.Input? && y.Input?
    ensures Meaning([CallSite(b, [x, y])], env, regs)
            == if Look(env, x.operand).None? && Look(env, y.operand).None? then None
               else Some(Build(b, [InputExpr(x, env, regs), InputExpr(y, env, regs)]))
  {
    hide Look, InputExpr, Build, InputsOf, ArgExprs;
    var comp := [CallSite(b, [x, y])];
    OneCallInputs(b, [x, y]);
    InputsOfTwo(x, y);
    ArgExprsTwo(x, y, env, regs, []);
    assert Results(comp, env, regs, 0) == [];
    assert AllNull(comp, env) <==> Look(env, x.operand).None? && Look(env, y.operand).None? by {
      assert Inputs(comp, 1)[0] == x && Inputs(comp, 1)[1] == y;
    }
  }

  lemma OneInput(b: Builder, x: CallArg, env: Env, regs: Regs)
    requires x.Input?
    ensures Meaning([CallSite(b, [x])], env, regs)
            == if Look(env, x.operand).None? then None else Some(Build(b, [InputExpr(x, env, regs)]))
  {
    hide Look, InputExpr, Build, InputsOf, ArgExprs;
    var comp := [CallSite(b, [x])];
    OneCallInputs(b, [x]);
    InputsOfTwo(x, x);
    ArgExprsTwo(x, x, env, regs, []);
    assert Results(comp, env, regs, 0) == [];
    assert AllNull(comp, env) <==> Look(env, x.operand).None? by {
      assert Inputs(comp, 1)[0] == x;
    }
  }

  // ----- binary operators and comparisons -----

  predicate Binaryish(i: Instr) { i.BinInstr? || i.BoolInstr? || i.CmpInstr? }

  function BuilderOf(i: Instr): Builder
    requires Binaryish(i)
  {
    match i
    case BinInstr(_, op, _, _) => BuildBinary(op)
    case BoolInstr(_, op, _, _) => BuildBoolOp(op)
    case CmpInstr(_, pred, _, _) => BuildCmp(pred)
  }

  /** visitBinaryOperator and visitCmpInst */
  function VisitBinary(sym: SymbolicExpressions, i: Instr): Option<Computation>
    requires Binaryish(i)
  {
    RuntimeCall2(sym, BuilderOf(i), i.a, i.b)
  }

  /** What a recorded computation, or none, yields. */
  function Yields(comp: Option<Computation>, env: Env, regs: Regs): SymExpr
    requires comp.Some? ==> |comp.value| > 0
  {
    match comp case None => None case Some(c) => Meaning(c, env, regs)
  }

  /** The recorded computation yields the expression of the instrumented execution. */
  lemma VisitBinaryRight(p: Program, sym: SymbolicExpressions, env: Env, s: Sym, i: Instr)
    requires Binaryish(i) && Known(sym, env, s.exprs, i.a) && Known(sym, env, s.exprs, i.b)
    requires Get(s.c.regs, i.a).Some? && Get(s.c.regs, i.b).Some?
    ensures Yields(VisitBinary(sym, i), env, s.c.regs) == ResultExpr(p, s, i)
  {
    hide Meaning, OperandExpr;
    TwoInputs(BuilderOf(i), InputFor(sym, i.a), InputFor(sym, i.b), env, s.c.regs);
  }

  // ----- casts -----

  /** visitCastInst and visitTruncInst; an i1 operand is first turned into a bit vector, and
      that case is emitted even for an operand known to be concrete. */
  function VisitCast(sym: SymbolicExpressions, kind: CastKind, a: Operand, srcWidth: nat,
                     width: nat): Option<Computation>
  {
    var extra := if srcWidth <= width then width - srcWidth else 0;
    if kind == Truncation then RuntimeCall1(sym, BuildTrunc(width), a)
    else
      var extend := ExtendBuilder(kind, extra);
      if srcWidth == 1 then Some([CallSite(BuildBoolToBit, [InputFor(sym, a)]), CallSite(extend, [Previous(0)])])
      else RuntimeCall1(sym, extend, a)
  }

  function ExtendBuilder(kind: CastKind, extra: nat): Builder
  {
    if kind == SignExtension then BuildSExt(extra) else BuildZExt(extra)
  }

  /** The width that the type of a value has; i1 is the Boolean type. */
  function WidthOf(v: Value): nat { match v case Boolean(_) => 1 case Bv(bits) => |bits| }

  lemma TwoCalls(b1: Builder, b2: Builder, x: CallArg, env: Env, regs: Regs)
    requires x.Input?
    ensures Meaning([CallSite(b1, [x]), CallSite(b2, [Previous(0)])], env, regs)
            == if Look(env, x.operand).None? then None else Some(Build(b2, [Build(b1, [InputExpr(x, env, regs)])]))
  {
    hide Look, InputExpr, Build;
    var comp := [CallSite(b1, [x]), CallSite(b2, [Previous(0)])];
    assert [x][..0] == [] && [Previous(0)][..0] == [];
    assert InputsOf([x][..0]) == [] && InputsOf([Previous(0)][..0]) == [];
    assert Inputs(comp, 0) == [];
    assert Inputs(comp, 1) == [x] && Inputs(comp, 2) == [x];
    var first := Build(b1, [InputExpr(x, env, regs)]);
    assert ArgExprs([x][..0], env, regs, []) == [];
    assert ArgExprs([x], env, regs, []) == [InputExpr(x, env, regs)];
    assert Results(comp, env, regs, 0) == [];
    assert Results(comp, env, regs, 1) == [first];
    assert ArgExprs([Previous(0)][..0], env, regs, [first]) == [];
    assert ArgExprs([Previous(0)], env, regs, [first]) == [first];
    assert Results(comp, env, regs, 2)[1] == Build(b2, [first]);
    assert AllNull(comp, env) <==> Look(env, x.operand).None? by {
      assert Inputs(comp, 2)[0] == x;
    }
  }

  lemma VisitCastRight(p: Program, sym: SymbolicExpressions, env: Env, s: Sym, dst: Reg, kind: CastKind, a: Operand,
                       width: nat)
    requires Known(sym, env, s.exprs, a) && Get(s.c.regs, a).Some?
    requires CastValue(kind, Get(s.c.regs, a).value, width).Some? && WidthOf(Get(s.c.regs, a).value) > 0
    requires Get(s.c.regs, a).value.Bv? ==> |Get(s.c.regs, a).value.bits| > 1
    ensures Yields(VisitCast(sym, kind, a, WidthOf(Get(s.c.regs, a).value), width), env, s.c.regs)
            == ResultExpr(p, s, CastInstr(dst, kind, a, width))
  {
    hide Meaning, OperandExpr;
    var x := Get(s.c.regs, a).value;
    var arg := InputFor(sym, a);
    var extra := if WidthOf(x) <= width then width - WidthOf(x) else 0;
    match kind
    case Truncation =>
      OneInput(BuildTrunc(width), arg, env, s.c.regs);
      OneArgument(arg, env, s.c.regs);
    case SignExtension =>
      OneInput(BuildSExt(extra), arg, env, s.c.regs);
      TwoCalls(BuildBoolToBit, BuildSExt(extra), arg, env, s.c.regs);
      OneArgument(arg, env, s.c.regs);
    case ZeroExtension =>
      OneInput(BuildZExt(extra), arg, env, s.c.regs);
      TwoCalls(BuildBoolToBit, BuildZExt(extra), arg, env, s.c.regs);
      OneArgument(arg, env, s.c.regs);
  }

  lemma OneArgument(x: CallArg, env: Env, regs: Regs)
    requires x.Input?
    ensures Look(env, x.operand).Some? ==> InputExpr(x, env, regs) == Look(env, x.operand).value
  {
  }

  // ----- getelementptr -----

  /** The constant operand for an offset or an element size. */
  function SizeLiteral(x: nat): Operand { Lit(Bv(FromInt(Unsigned32(x), PTR_BITS))) }

  predicate ConstantZeroIndex(o: Operand)
  {
    match o
    case Lit(Bv(bits)) => ToNat(bits) == 0
    case Lit(Boolean(b)) => !b
    case Var(_) => false
  }

  /** A computation under construction and the current address in it. */
  datatype GepState = GepState(calls: Computation, current: CallArg)

  /** Append an addition of the last call's result, or of a constant, to the current address. */
  function AddTo(g: GepState, contribution: CallArg): GepState
  {
    GepState(g.calls + [CallSite(BuildBinary(Add), [contribution, g.current])], Previous(|g.calls|))
  }

  /** One round of the loop over the index path. */
  function GepRound(sym: SymbolicExpressions, g: GepState, step: GepStep): GepState
  {
    match step
    case Member(_, offset) => AddTo(g, Input(SizeLiteral(offset), Null))
    case Index(o, width, elementSize) =>
      if ConstantZeroIndex(o) then g
      else if width != PTR_BITS then
        var extended := g.calls + [CallSite(BuildSExt(Widening(width)), [InputFor(sym, o)])];
        var scaled :=
          extended + [CallSite(BuildBinary(Mul), [Previous(|g.calls|), Input(SizeLiteral(elementSize), Null)])];
        AddTo(GepState(scaled, g.current), Previous(|g.calls| + 1))
      else
        var scaled := g.calls + [CallSite(BuildBinary(Mul), [InputFor(sym, o), Input(SizeLiteral(elementSize), Null)])];
        AddTo(GepState(scaled, g.current), Previous(|g.calls|))
  }

  function GepRounds(sym: SymbolicExpressions, g: GepState, path: seq<GepStep>): GepState
    decreases |path|
  {
    if |path| == 0 then g else GepRounds(sym, GepRound(sym, g, path[0]), path[1..])
  }

  /** The loop of visitGetElementPtrInst, merging one round's calls after the other. */
  method BuildGep(sym: SymbolicExpressions, base: Operand, path: seq<GepStep>) returns (g: GepState)
    ensures g == GepRounds(sym, GepState([], InputFor(sym, base)), path)
  {
    hide GepRounds, SizeLiteral, ConstantZeroIndex;
    var calls: Computation := [];
    var current := InputFor(sym, base);
    var k := 0;
    assert path[0..] == path;
    while k < |path|
      invariant 0 <= k <= |path|
      invariant GepRounds(sym, GepState(calls, current), path[k..])
             == GepRounds(sym, GepState([], InputFor(sym, base)), path)
    {
      ghost var g0 := GepState(calls, current);
      NextRound(sym, g0, path, k);
      match path[k] {
        case Member(_, offset) =>
          calls := calls + [CallSite(BuildBinary(Add), [Input(SizeLiteral(offset), Null), current])];
          current := Previous(|calls| - 1);
        case Index(o, width, elementSize) =>
          if !ConstantZeroIndex(o) {
            var index := InputFor(sym, o);
            if width != PTR_BITS {
              calls := calls + [CallSite(BuildSExt(Widening(width)), [index])];
              index := Previous(|calls| - 1);
            }
            calls := calls + [CallSite(BuildBinary(Mul), [index, Input(SizeLiteral(elementSize), Null)])];
            calls := calls + [CallSite(BuildBinary(Add), [Previous(|calls| - 1), current])];
            current := Previous(|calls| - 1);
          }
      }
      assert GepState(calls, current) == GepRound(sym, g0, path[k]);
      k := k + 1;
    }
    g := GepState(calls, current);
    assert path[k..] == [];
    NoRounds(sym, g);
  }

  lemma NextRound(sym: SymbolicExpressions, g: GepState, path: seq<GepStep>, k: nat)
    requires k < |path|
    ensures GepRounds(sym, g, path[k..]) == GepRounds(sym, GepRound(sym, g, path[k]), path[k + 1..])
  {
    hide GepRound;
    assert path[k..][0] == path[k] && path[k..][1..] == path[k + 1..];
  }

  lemma NoRounds(sym: SymbolicExpressions, g: GepState)
    ensures GepRounds(sym, g, []) == g
  {
  }
}
