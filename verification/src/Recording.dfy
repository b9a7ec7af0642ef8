/** What the visit methods record is fit for short-circuiting: every computation has an
    input, refers to earlier results only, and takes its operands from earlier registers. */
module Recording {
  import opened Options
  import opened BitVectors
  import opened Gep
  import opened Ir
  import opened SymbolicCode
  import opened PhiFinalization
  import opened Instrumentation
  import opened GepInstrumentation

  // ----- recorded computations are in order -----

  ghost predicate ArgOk(a: CallArg, k: nat, base: nat)
  {
    match a
    case Input(_, o) => o.ExprReg? ==> o.reg < base
    case Previous(call) => call < k
  }

  ghost predicate SiteOk(c: CallSite, k: nat, base: nat)
  {
    forall a :: 0 <= a < |c.args| ==> ArgOk(c.args[a], k, base)
  }

  ghost predicate Recordable(comp: Computation, base: nat)
  {
    && (forall k :: 0 <= k < |comp| ==> SiteOk(comp[k], k, base))
    && (|comp| > 0 ==> |comp[0].args| > 0 && comp[0].args[0].Input?)
  }

  ghost predicate InputsBelow(ins: seq<CallArg>, base: nat)
  {
    forall i :: 0 <= i < |ins| ==> ins[i].Input? && ArgOk(ins[i], 0, base)
  }

  lemma {:induction false} InputsOfBelow(args: seq<CallArg>, k: nat, base: nat)
    requires forall a :: 0 <= a < |args| ==> ArgOk(args[a], k, base)
    ensures InputsBelow(InputsOf(args), base)
    ensures |args| > 0 && args[0].Input? ==> |InputsOf(args)| > 0
  {
    if |args| > 0 {
      InputsOfBelow(args[..|args| - 1], k, base);
    }
  }

  lemma {:induction false} RecordableInputs(comp: Computation, k: nat, base: nat)
    requires Recordable(comp, base) && k <= |comp|
    ensures InputsBelow(Inputs(comp, k), base)
    ensures k > 0 ==> |Inputs(comp, k)| > 0
  {
    hide InputsOf;
    if k > 0 {
      RecordableInputs(comp, k - 1, base);
      assert SiteOk(comp[k - 1], k - 1, base);
      InputsOfBelow(comp[k - 1].args, k - 1, base);
    }
  }

  /** No computation is recorded without inputs, as the pass asserts, and the rewriting's
      other demands are met too. */
  lemma RecordableIs(comp: Computation, base: nat)
    requires Recordable(comp, base) && |comp| > 0
    ensures |Inputs(comp, |comp|)| > 0 && Ordered(comp) && Below(comp, base)
  {
    hide Inputs;
    RecordableInputs(comp, |comp|, base);
    forall k, a | 0 <= k < |comp| && 0 <= a < |comp[k].args| && comp[k].args[a].Previous?
      ensures comp[k].args[a].call < k
    {
      assert SiteOk(comp[k], k, base) && ArgOk(comp[k].args[a], k, base);
    }
    var ins := Inputs(comp, |comp|);
    forall i | 0 <= i < |ins| && ins[i].operand.ExprReg?
      ensures ins[i].operand.reg < base
    {
      assert ArgOk(ins[i], 0, base);
    }
  }

  /** All known expressions are in registers below `base`. */
  ghost predicate SymBelow(sym: SymbolicExpressions, base: nat)
  {
    forall r :: r in sym && sym[r].ExprReg? ==> sym[r].reg < base
  }

  lemma RecordableAppend(comp: Computation, c: CallSite, base: nat)
    requires Recordable(comp, base) && SiteOk(c, |comp|, base)
    requires |comp| == 0 ==> |c.args| > 0 && c.args[0].Input?
    ensures Recordable(comp + [c], base)
  {
    hide SiteOk;
    var all := comp + [c];
    forall k | 0 <= k < |all|
      ensures SiteOk(all[k], k, base)
    {
      assert k < |comp| ==> all[k] == comp[k];
    }
  }

  lemma SiteOk1(b: Builder, x: CallArg, k: nat, base: nat)
    requires ArgOk(x, k, base)
    ensures SiteOk(CallSite(b, [x]), k, base)
  {
  }

  lemma SiteOk2(b: Builder, x: CallArg, y: CallArg, k: nat, base: nat)
    requires ArgOk(x, k, base) && ArgOk(y, k, base)
    ensures SiteOk(CallSite(b, [x, y]), k, base)
  {
  }

  /** Calls other than pushes. */
  ghost predicate NoPush(comp: Computation) { forall k :: 0 <= k < |comp| ==> !comp[k].builder.PushConstraint? }

  ghost predicate GepOk(g: GepState, base: nat)
  {
    Recordable(g.calls, base) && NoPush(g.calls) && ArgOk(g.current, |g.calls|, base)
  }

  lemma AddToOk(g: GepState, a: CallArg, base: nat)
    requires GepOk(g, base) && ArgOk(a, |g.calls|, base) && (|g.calls| == 0 ==> a.Input?)
    ensures GepOk(AddTo(g, a), base)
  {
    hide SiteOk, Recordable;
    var c := CallSite(BuildBinary(Add), [a, g.current]);
    SiteOk2(c.builder, a, g.current, |g.calls|, base);
    RecordableAppend(g.calls, c, base);
  }

  lemma ScaleOk(g: GepState, index: CallArg, elementSize: nat, base: nat)
    requires GepOk(g, base) && ArgOk(index, |g.calls|, base) && (|g.calls| == 0 ==> index.Input?)
    ensures var scaled := g.calls + [CallSite(BuildBinary(Mul), [index, Input(SizeLiteral(elementSize), Null)])];
            GepOk(AddTo(GepState(scaled, g.current), Previous(|g.calls|)), base)
  {
    hide SiteOk, Recordable, SizeLiteral;
    var c := CallSite(BuildBinary(Mul), [index, Input(SizeLiteral(elementSize), Null)]);
    SiteOk2(c.builder, index, Input(SizeLiteral(elementSize), Null), |g.calls|, base);
    RecordableAppend(g.calls, c, base);
    AddToOk(GepState(g.calls + [c], g.current), Previous(|g.calls|), base);
  }

  lemma InputOk(sym: SymbolicExpressions, o: Operand, k: nat, base: nat)
    requires SymBelow(sym, base)
    ensures ArgOk(InputFor(sym, o), k, base)
  {
  }

  lemma RoundOk(sym: SymbolicExpressions, g: GepState, step: GepStep, base: nat)
    requires GepOk(g, base) && SymBelow(sym, base)
    ensures GepOk(GepRound(sym, g, step), base)
  {
    hide GepOk, SymBelow, SizeLiteral, AddTo;
    match step
    case Member(_, offset) => AddToOk(g, Input(SizeLiteral(offset), Null), base);
    case Index(o, width, elementSize) =>
      var index := InputFor(sym, o);
      InputOk(sym, o, |g.calls|, base);
      if !ConstantZeroIndex(o) {
        if width != PTR_BITS {
          ExtendOk(g, index, width, base);
          var c := CallSite(BuildSExt(Widening(width)), [index]);
          ScaleOk(GepState(g.calls + [c], g.current), Previous(|g.calls|), elementSize, base);
        } else {
          ScaleOk(g, index, elementSize, base);
        }
      }
  }

  lemma ExtendOk(g: GepState, index: CallArg, width: nat, base: nat)
    requires GepOk(g, base) && ArgOk(index, |g.calls|, base) && index.Input?
    ensures GepOk(GepState(g.calls + [CallSite(BuildSExt(Widening(width)), [index])], g.current), base)
  {
    hide SiteOk, Recordable;
    var c := CallSite(BuildSExt(Widening(width)), [index]);
    SiteOk1(c.builder, index, |g.calls|, base);
    RecordableAppend(g.calls, c, base);
  }

  lemma {:induction false} RoundsOk(sym: SymbolicExpressions, g: GepState, path: seq<GepStep>, base: nat)
    requires GepOk(g, base) && SymBelow(sym, base)
    ensures GepOk(GepRounds(sym, g, path), base)
    decreases |path|
  {
    hide GepOk, SymBelow, GepRound;
    if |path| > 0 {
      RoundOk(sym, g, path[0], base);
      RoundsOk(sym, GepRound(sym, g, path[0]), path[1..], base);
    }
  }

  lemma RecordableOne(comp: Computation, base: nat)
    requires |comp| == 1 && SiteOk(comp[0], 0, base) && |comp[0].args| > 0 && comp[0].args[0].Input?
    ensures Recordable(comp, base)
  {
    hide SiteOk;
  }

  lemma BinaryOk(sym: SymbolicExpressions, i: Instr, base: nat)
    requires Binaryish(i) && SymBelow(sym, base) && VisitBinary(sym, i).Some?
    ensures Recordable(VisitBinary(sym, i).value, base) && NoPush(VisitBinary(sym, i).value)
  {
    hide SymBelow, SiteOk;
    var comp := VisitBinary(sym, i).value;
    InputOk(sym, i.a, 0, base);
    InputOk(sym, i.b, 0, base);
    SiteOk2(BuilderOf(i), InputFor(sym, i.a), InputFor(sym, i.b), 0, base);
    RecordableOne(comp, base);
  }

  lemma CastOk(sym: SymbolicExpressions, kind: CastKind, a: Operand, srcWidth: nat, width: nat, base: nat)
    requires SymBelow(sym, base) && VisitCast(sym, kind, a, srcWidth, width).Some?
    ensures var comp := VisitCast(sym, kind, a, srcWidth, width).value;
            |comp| > 0 && Recordable(comp, base) && NoPush(comp)
  {
    hide SymBelow, SiteOk, Recordable;
    var comp := VisitCast(sym, kind, a, srcWidth, width).value;
    InputOk(sym, a, 0, base);
    SiteOk1(comp[0].builder, InputFor(sym, a), 0, base);
    RecordableOne([comp[0]], base);
    if |comp| == 2 {
      SiteOk1(comp[1].builder, Previous(0), 1, base);
      RecordableAppend([comp[0]], comp[1], base);
      assert comp == [comp[0]] + [comp[1]];
    } else {
      assert comp == [comp[0]];
    }
  }

  lemma GepRecordOk(sym: SymbolicExpressions, b: Operand, path: seq<GepStep>, base: nat)
    requires SymBelow(sym, base) && VisitGep(sym, b, path).Recorded?
    ensures var comp := VisitGep(sym, b, path).comp; |comp| > 0 && Recordable(comp, base) && NoPush(comp)
  {
    hide SymBelow, GepRounds, StepZero;
    var g := GepState([], InputFor(sym, b));
    InputOk(sym, b, 0, base);
    RoundsOk(sym, g, path, base);
    LastIsCurrent(sym, g, path);
  }
}
