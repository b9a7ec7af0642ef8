/** The computation recorded for a getelementptr yields the expression of module `Gep`. */
module GepInstrumentation {
  import opened Options
  import opened BitVectors
  import opened Expressions
  import opened Gep
  import opened Ir
  import opened Concolic
  import opened SymbolicCode
  import opened PhiFinalization
  import opened Instrumentation

  // ----- appending a call -----

  lemma {:induction false} ResultsExtend(calls: Computation, c: CallSite, env: Env, regs: Regs, k: nat)
    requires k <= |calls|
    ensures Results(calls + [c], env, regs, k) == Results(calls, env, regs, k)
  {
    hide Build, ArgExprs;
    if k > 0 {
      ResultsExtend(calls, c, env, regs, k - 1);
    }
  }

  /** The result of the last call, and the others unchanged. */
  lemma ResultsAppend(calls: Computation, c: CallSite, env: Env, regs: Regs)
    ensures var before, after := Results(calls, env, regs, |calls|), Results(calls + [c], env, regs, |calls| + 1);
            after == before + [Build(c.builder, ArgExprs(c.args, env, regs, before))]
  {
    hide Build, ArgExprs;
    ResultsExtend(calls, c, env, regs, |calls|);
  }

  lemma {:induction false} InputsExtend(calls: Computation, c: CallSite, k: nat)
    requires k <= |calls|
    ensures Inputs(calls + [c], k) == Inputs(calls, k)
  {
    hide InputsOf;
    if k > 0 {
      InputsExtend(calls, c, k - 1);
    }
  }

  ghost predicate NullArgs(args: seq<CallArg>, env: Env)
  {
    forall a :: 0 <= a < |args| && args[a].Input? ==> Look(env, args[a].operand).None?
  }

  lemma {:induction false} NullInputsOf(args: seq<CallArg>, env: Env)
    ensures (forall i :: 0 <= i < |InputsOf(args)| ==> Look(env, InputsOf(args)[i].operand).None?)
            <==> NullArgs(args, env)
  {
    hide Look;
    if |args| > 0 {
      var front, last := args[..|args| - 1], args[|args| - 1];
      NullInputsOf(front, env);
      var r, f := InputsOf(args), InputsOf(front);
      assert forall i :: 0 <= i < |f| ==> r[i] == f[i];
      assert NullArgs(args, env) <==> NullArgs(front, env) && (last.Input? ==> Look(env, last.operand).None?);
      if last.Input? {
        assert r[|f|] == last;
      }
    }
  }

  lemma AllNullAppend(calls: Computation, c: CallSite, env: Env)
    ensures AllNull(calls + [c], env) <==> AllNull(calls, env) && NullArgs(c.args, env)
  {
    hide Look, InputsOf;
    InputsExtend(calls, c, |calls|);
    NullInputsOf(c.args, env);
    var all, old_, own := Inputs(calls + [c], |calls| + 1), Inputs(calls, |calls|), InputsOf(c.args);
    assert all == old_ + own;
    if AllNull(calls + [c], env) {
      forall i | 0 <= i < |old_|
        ensures Look(env, old_[i].operand).None?
      {
        assert all[i] == old_[i];
      }
      forall i | 0 <= i < |own|
        ensures Look(env, own[i].operand).None?
      {
        assert all[|old_| + i] == own[i];
      }
    }
  }

  // ----- the current address -----

  ghost predicate Sensible(g: GepState) { g.current.Previous? ==> g.current.call < |g.calls| }

  /** The expression of the current address. */
  function CurrentExpr(g: GepState, env: Env, regs: Regs): Expr
    requires Sensible(g)
  {
    if g.current.Input? then InputExpr(g.current, env, regs)
    else Results(g.calls, env, regs, |g.calls|)[g.current.call]
  }

  /** All symbolic inputs so far, including a base not yet used, are null. */
  ghost predicate NullSoFar(g: GepState, env: Env)
  {
    AllNull(g.calls, env) && (g.current.Input? ==> Look(env, g.current.operand).None?)
  }

  lemma LiteralExpr(x: nat, env: Env, regs: Regs)
    ensures InputExpr(Input(SizeLiteral(x), Null), env, regs) == BuildInteger(Unsigned32(x), PTR_BITS)
  {
    ToNatIsResidue(FromInt(Unsigned32(x), PTR_BITS));
  }

  lemma ArgExprsPair(x: CallArg, y: CallArg, env: Env, regs: Regs, results: seq<Expr>)
    ensures ArgExprs([x, y], env, regs, results)
            == ArgExprs([x], env, regs, results) + ArgExprs([y], env, regs, results)
    ensures ArgExprs([x], env, regs, results)
            == [if x.Input? then InputExpr(x, env, regs)
                else if x.call < |results| then results[x.call] else BoolConst(false)]
    ensures ArgExprs([y], env, regs, results)
            == [if y.Input? then InputExpr(y, env, regs)
                else if y.call < |results| then results[y.call] else BoolConst(false)]
  {
    hide InputExpr;
    assert [x, y][..1] == [x] && [x][..0] == [] && [y][..0] == [];
    assert ArgExprs([x][..0], env, regs, results) == [] && ArgExprs([y][..0], env, regs, results) == [];
  }

  /** The expression an argument has after the first calls. */
  function ArgExpr(a: CallArg, calls: Computation, env: Env, regs: Regs): Expr
  {
    var results := Results(calls, env, regs, |calls|);
    if a.Input? then InputExpr(a, env, regs) else if a.call < |results| then results[a.call] else BoolConst(false)
  }

  lemma Append2(calls: Computation, b: Builder, x: CallArg, y: CallArg, env: Env, regs: Regs)
    ensures ArgExpr(Previous(|calls|), calls + [CallSite(b, [x, y])], env, regs)
            == Build(b, [ArgExpr(x, calls, env, regs), ArgExpr(y, calls, env, regs)])
  {
    hide Build, InputExpr;
    var c := CallSite(b, [x, y]);
    var results := Results(calls, env, regs, |calls|);
    ResultsAppend(calls, c, env, regs);
    ArgExprsPair(x, y, env, regs, results);
    assert ArgExprs([x, y], env, regs, results) == [ArgExpr(x, calls, env, regs), ArgExpr(y, calls, env, regs)];
  }

  lemma Append1(calls: Computation, b: Builder, x: CallArg, env: Env, regs: Regs)
    ensures ArgExpr(Previous(|calls|), calls + [CallSite(b, [x])], env, regs)
            == Build(b, [ArgExpr(x, calls, env, regs)])
  {
    hide Build, InputExpr;
    var c := CallSite(b, [x]);
    ResultsAppend(calls, c, env, regs);
    ArgExprsPair(x, x, env, regs, Results(calls, env, regs, |calls|));
  }

  /** Earlier arguments keep their expression when a call is appended. */
  lemma ArgKept(a: CallArg, calls: Computation, c: CallSite, env: Env, regs: Regs)
    requires a.Previous? ==> a.call < |calls|
    ensures ArgExpr(a, calls + [c], env, regs) == ArgExpr(a, calls, env, regs)
  {
    hide Build, InputExpr, ArgExprs;
    ResultsAppend(calls, c, env, regs);
  }

  lemma CurrentIsArg(g: GepState, env: Env, regs: Regs)
    requires Sensible(g)
    ensures CurrentExpr(g, env, regs) == ArgExpr(g.current, g.calls, env, regs)
  {
  }

  /** The run-time argument that a path step stands for. */
  ghost predicate StepArg(step: GepStep, a: GepArg, s: Sym)
  {
    match step
    case Member(index, offset) => a == MemberArg(index, offset)
    case Index(o, width, elementSize) =>
      && a.IndexArg? && IndexBits(Get(s.c.regs, o), width) == Some(a.bits)
      && a == IndexArg(a.bits, ExprOf(s.exprs, o), o.Lit?, elementSize)
  }

  lemma MemberRound(g: GepState, offset: nat, env: Env, regs: Regs)
    requires Sensible(g)
    ensures var g' := AddTo(g, Input(SizeLiteral(offset), Null));
            Sensible(g')
            && CurrentExpr(g', env, regs)
               == Binary(Add, BuildInteger(Unsigned32(offset), PTR_BITS), CurrentExpr(g, env, regs))
            && (NullSoFar(g', env) <==> NullSoFar(g, env))
  {
    hide InputExpr, Results, Unsigned32, SizeLiteral, BuildInteger, AllNull;
    var lit := Input(SizeLiteral(offset), Null);
    LiteralExpr(offset, env, regs);
    CurrentIsArg(g, env, regs);
    CurrentIsArg(AddTo(g, lit), env, regs);
    Append2(g.calls, BuildBinary(Add), lit, g.current, env, regs);
    AllNullAppend(g.calls, CallSite(BuildBinary(Add), [lit, g.current]), env);
    NullPair(lit, g.current, env);
  }

  lemma NullPair(x: CallArg, y: CallArg, env: Env)
    ensures NullArgs([x, y], env)
            <==> (x.Input? ==> Look(env, x.operand).None?) && (y.Input? ==> Look(env, y.operand).None?)
    ensures NullArgs([x], env) <==> (x.Input? ==> Look(env, x.operand).None?)
  {
    assert [x, y][0] == x && [x, y][1] == y && [x][0] == x;
  }

  /** An index of pointer width is multiplied as it is. */
  lemma WideRound(g: GepState, index: CallArg, elementSize: nat, env: Env, regs: Regs)
    requires Sensible(g) && (index.Previous? ==> index.call < |g.calls|)
    ensures var scaled := g.calls + [CallSite(BuildBinary(Mul), [index, Input(SizeLiteral(elementSize), Null)])];
            var g' := AddTo(GepState(scaled, g.current), Previous(|g.calls|));
            Sensible(g')
            && CurrentExpr(g', env, regs)
               == Binary(Add, Binary(Mul, ArgExpr(index, g.calls, env, regs),
                                     BuildInteger(Unsigned32(elementSize), PTR_BITS)),
                         CurrentExpr(g, env, regs))
            && (NullSoFar(g', env) <==> NullSoFar(g, env) && (index.Input? ==> Look(env, index.operand).None?))
  {
    hide InputExpr, Results, Unsigned32, SizeLiteral, BuildInteger, AllNull;
    var lit := Input(SizeLiteral(elementSize), Null);
    var mul := CallSite(BuildBinary(Mul), [index, lit]);
    var scaled := g.calls + [mul];
    var add := CallSite(BuildBinary(Add), [Previous(|g.calls|), g.current]);
    var g' := AddTo(GepState(scaled, g.current), Previous(|g.calls|));
    LiteralExpr(elementSize, env, regs);
    CurrentIsArg(g, env, regs);
    CurrentIsArg(g', env, regs);
    Append2(g.calls, BuildBinary(Mul), index, lit, env, regs);
    ArgKept(g.current, g.calls, mul, env, regs);
    Append2(scaled, BuildBinary(Add), Previous(|g.calls|), g.current, env, regs);
    AllNullAppend(g.calls, mul, env);
    AllNullAppend(scaled, add, env);
    NullPair(index, lit, env);
    NullPair(Previous(|g.calls|), g.current, env);
  }

  lemma IndexRound(sym: SymbolicExpressions, g: GepState, o: Operand, width: nat, elementSize: nat, bits: Bits,
                   env: Env, s: Sym)
    requires Sensible(g) && Known(sym, env, s.exprs, o) && IndexBits(Get(s.c.regs, o), width) == Some(bits)
    ensures var g' := GepRound(sym, g, Index(o, width, elementSize));
            var a := IndexArg(bits, ExprOf(s.exprs, o), o.Lit?, elementSize);
            Sensible(g') && CurrentExpr(g', env, s.c.regs) == Extend(CurrentExpr(g, env, s.c.regs), a)
            && (NullSoFar(g', env) <==> NullSoFar(g, env) && ExprOf(s.exprs, o).None?)
  {
    hide Results, Unsigned32, SizeLiteral, BuildInteger, AllNull, ToNat, ValueExpr, Look, IndexValue, Widening,
         IndexBits;
    ZeroIndex(s.c.regs, o, width);
    var input := InputFor(sym, o);
    if ConstantZeroIndex(o) {
    } else if width != PTR_BITS {
      var extend := CallSite(BuildSExt(Widening(width)), [input]);
      var g1 := GepState(g.calls + [extend], g.current);
      CurrentIsArg(g, env, s.c.regs);
      CurrentIsArg(g1, env, s.c.regs);
      ArgKept(g.current, g.calls, extend, env, s.c.regs);
      Append1(g.calls, extend.builder, input, env, s.c.regs);
      AllNullAppend(g.calls, extend, env);
      NullPair(input, input, env);
      WideRound(g1, Previous(|g.calls|), elementSize, env, s.c.regs);
    } else {
      WideRound(g, input, elementSize, env, s.c.regs);
    }
  }

  lemma ZeroIndex(regs: Regs, o: Operand, width: nat)
    requires IndexBits(Get(regs, o), width).Some?
    ensures ConstantZeroIndex(o) <==> o.Lit? && ToNat(IndexBits(Get(regs, o), width).value) == 0
  {
  }

  lemma MemberStep(sym: SymbolicExpressions, g: GepState, index: nat, offset: nat, env: Env, s: Sym)
    requires Sensible(g)
    ensures var g', a := GepRound(sym, g, Member(index, offset)), MemberArg(index, offset);
            Sensible(g') && CurrentExpr(g', env, s.c.regs) == Extend(CurrentExpr(g, env, s.c.regs), a)
            && (NullSoFar(g', env) <==> NullSoFar(g, env))
  {
    hide CurrentExpr, NullSoFar, BuildInteger, AddTo;
    MemberRound(g, offset, env, s.c.regs);
  }

  lemma RoundRight(sym: SymbolicExpressions, g: GepState, step: GepStep, a: GepArg, env: Env, s: Sym)
    requires Sensible(g) && StepArg(step, a, s) && (step.Index? ==> Known(sym, env, s.exprs, step.operand))
    ensures var g' := GepRound(sym, g, step);
            Sensible(g') && CurrentExpr(g', env, s.c.regs) == Extend(CurrentExpr(g, env, s.c.regs), a)
            && (NullSoFar(g', env) <==> NullSoFar(g, env) && (a.IndexArg? ==> a.expr.None?))
  {
    hide CurrentExpr, NullSoFar, Known, BuildInteger, OperandExpr, ToNat, IndexBits, Extend, GepRound;
    match step
    case Member(index, offset) => MemberStep(sym, g, index, offset, env, s);
    case Index(o, width, elementSize) => IndexRound(sym, g, o, width, elementSize, a.bits, env, s);
  }

  ghost predicate PathArgs(path: seq<GepStep>, args: seq<GepArg>, s: Sym)
  {
    |path| == |args| && forall k :: 0 <= k < |path| ==> StepArg(path[k], args[k], s)
  }

  /** The operands of all indices are known. */
  ghost predicate PathKnown(sym: SymbolicExpressions, env: Env, exprs: Exprs, path: seq<GepStep>)
  {
    forall k :: 0 <= k < |path| && path[k].Index? ==> Known(sym, env, exprs, path[k].operand)
  }

  lemma {:induction false} RoundsRight(sym: SymbolicExpressions, g: GepState, path: seq<GepStep>, args: seq<GepArg>,
                                       env: Env, s: Sym)
    requires Sensible(g) && PathKnown(sym, env, s.exprs, path) && PathArgs(path, args, s)
    ensures var g' := GepRounds(sym, g, path);
            Sensible(g') && CurrentExpr(g', env, s.c.regs) == Chain(CurrentExpr(g, env, s.c.regs), args)
            && (NullSoFar(g', env) <==> NullSoFar(g, env) && AllConcrete(args))
    decreases |path|
  {
    hide CurrentExpr, NullSoFar, Known, Extend, GepRound, StepArg;
    if |path| > 0 {
      assert StepArg(path[0], args[0], s);
      RoundRight(sym, g, path[0], args[0], env, s);
      RoundsRight(sym, GepRound(sym, g, path[0]), path[1..], args[1..], env, s);
      assert AllConcrete(args) <==> (args[0].IndexArg? ==> args[0].expr.None?) && AllConcrete(args[1..]) by {
        if AllConcrete(args[1..]) && (args[0].IndexArg? ==> args[0].expr.None?) {
          forall i | 0 <= i < |args| && args[i].IndexArg?
            ensures args[i].expr.None?
          {
            if i > 0 {
              assert args[i] == args[1..][i - 1];
            }
          }
        }
      }
    }
  }

  lemma {:induction false} ResolveArgs(path: seq<GepStep>, s: Sym)
    requires ResolveSym(path, s.c.regs, s.exprs).Some?
    ensures PathArgs(path, ResolveSym(path, s.c.regs, s.exprs).value, s)
  {
    if |path| > 0 {
      ResolveArgs(path[1..], s);
      var args := ResolveSym(path, s.c.regs, s.exprs).value;
      assert args[1..] == ResolveSym(path[1..], s.c.regs, s.exprs).value;
      forall k | 0 <= k < |path|
        ensures StepArg(path[k], args[k], s)
      {
        if k > 0 {
          assert path[k] == path[1..][k - 1] && args[k] == args[1..][k - 1];
        }
      }
    }
  }

  // ----- visitGetElementPtrInst -----

  predicate StepTracked(sym: SymbolicExpressions, g: GepStep) { g.Index? && Tracked(sym, g.operand) }

  predicate StepZero(g: GepStep)
  {
    match g
    case Member(index, _) => index == 0
    case Index(o, _, _) => ConstantZeroIndex(o)
  }

  /** How the pass represents the result: no expression, the base's, or a computation. */
  datatype GepVisit = NoExpression | SameAsBase | Recorded(comp: Computation)

  function VisitGep(sym: SymbolicExpressions, base: Operand, path: seq<GepStep>): GepVisit
  {
    if !Tracked(sym, base) && forall k :: 0 <= k < |path| ==> !StepTracked(sym, path[k]) then NoExpression
    else if forall k :: 0 <= k < |path| ==> StepZero(path[k]) then SameAsBase
    else Recorded(GepRounds(sym, GepState([], InputFor(sym, base)), path).calls)
  }

  function GepYields(v: GepVisit, sym: SymbolicExpressions, base: Operand, env: Env, regs: Regs): SymExpr
  {
    match v
    case NoExpression => None
    case SameAsBase => Look(env, OperandOf(sym, base))
    case Recorded(comp) => if |comp| > 0 then Meaning(comp, env, regs) else None
  }

  lemma {:induction false} LastIsCurrent(sym: SymbolicExpressions, g: GepState, path: seq<GepStep>)
    requires |g.calls| > 0 ==> g.current == Previous(|g.calls| - 1)
    ensures var g' := GepRounds(sym, g, path);
            |g.calls| <= |g'.calls| && (|g'.calls| > 0 ==> g'.current == Previous(|g'.calls| - 1))
            && (|g'.calls| == 0 ==> g' == g && forall k :: 0 <= k < |path| ==> StepZero(path[k]))
    decreases |path|
  {
    hide SizeLiteral;
    if |path| > 0 {
      var g1 := GepRound(sym, g, path[0]);
      LastIsCurrent(sym, g1, path[1..]);
      if |GepRounds(sym, g, path).calls| == 0 {
        forall k | 0 <= k < |path|
          ensures StepZero(path[k])
        {
          if k > 0 {
            assert path[k] == path[1..][k - 1];
          }
        }
      }
    }
  }

  lemma ZeroSame(path: seq<GepStep>, args: seq<GepArg>, s: Sym)
    requires PathArgs(path, args, s)
    ensures AllZero(args) <==> forall k :: 0 <= k < |path| ==> StepZero(path[k])
  {
    hide ToNat;
    forall k | 0 <= k < |path|
      ensures ConstantZero(args[k]) <==> StepZero(path[k])
    {
      assert StepArg(path[k], args[k], s);
      if path[k].Index? {
        ZeroIndex(s.c.regs, path[k].operand, path[k].width);
      }
    }
  }

  lemma UntrackedConcrete(sym: SymbolicExpressions, path: seq<GepStep>, args: seq<GepArg>, env: Env, s: Sym)
    requires PathArgs(path, args, s) && PathKnown(sym, env, s.exprs, path)
    requires forall k :: 0 <= k < |path| ==> !StepTracked(sym, path[k])
    ensures AllConcrete(args)
  {
    forall k | 0 <= k < |args| && args[k].IndexArg?
      ensures args[k].expr.None?
    {
      assert StepArg(path[k], args[k], s) && !StepTracked(sym, path[k]);
      assert Known(sym, env, s.exprs, path[k].operand);
    }
  }

  /** The recorded computation, the shared base expression or the missing expression is
      exactly what the instrumented execution assigns to the result. */
  lemma VisitGepRight(sym: SymbolicExpressions, env: Env, s: Sym, base: Operand, path: seq<GepStep>)
    requires Known(sym, env, s.exprs, base) && PathKnown(sym, env, s.exprs, path)
    requires Get(s.c.regs, base).Some? && Get(s.c.regs, base).value.Bv? && ResolveSym(path, s.c.regs, s.exprs).Some?
    ensures GepYields(VisitGep(sym, base, path), sym, base, env, s.c.regs) == GepResult(s, base, path)
  {
    hide PathKnown, Chain, GepRounds, AllConcrete, AllZero, PathArgs, StepTracked, StepZero, AllNull, Results,
         ValueExpr;
    var args := ResolveSym(path, s.c.regs, s.exprs).value;
    ResolveArgs(path, s);
    ZeroSame(path, args, s);
    var v := VisitGep(sym, base, path);
    match v
    case NoExpression => UntrackedConcrete(sym, path, args, env, s);
    case SameAsBase =>
    case Recorded(comp) => RecordedRight(sym, env, s, base, path, args);
  }

  lemma RecordedRight(sym: SymbolicExpressions, env: Env, s: Sym, base: Operand, path: seq<GepStep>, args: seq<GepArg>)
    requires Known(sym, env, s.exprs, base) && PathKnown(sym, env, s.exprs, path)
    requires PathArgs(path, args, s) && Get(s.c.regs, base).Some?
    requires !(forall k :: 0 <= k < |path| ==> StepZero(path[k]))
    ensures var comp := GepRounds(sym, GepState([], InputFor(sym, base)), path).calls;
            |comp| > 0
            && Meaning(comp, env, s.c.regs)
               == if ExprOf(s.exprs, base).None? && AllConcrete(args) then None
                  else Some(Chain(OperandExpr(ExprOf(s.exprs, base), Get(s.c.regs, base).value), args))
  {
    hide PathKnown, Chain, GepRounds, AllConcrete, PathArgs, StepZero, Results, ValueExpr, OperandExpr;
    var g := GepState([], InputFor(sym, base));
    RoundsRight(sym, g, path, args, env, s);
    LastIsCurrent(sym, g, path);
  }
}
