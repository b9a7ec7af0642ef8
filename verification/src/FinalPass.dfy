/** The end of the pass: finalised PHI nodes, and the finished code of every visit. Erasing
    PHI nodes afterwards gives the code that would have been emitted without them. */
module FinalPass {
  import opened Options
  import opened BitVectors
  import opened Gep
  import opened Ir
  import opened SymbolicCode
  import opened ShortCircuit
  import opened PhiFinalization
  import opened Instrumentation
  import opened GepInstrumentation
  import opened Emission
  import opened Scope
  import opened FunctionPass

  // ----- the PHI nodes -----

  lemma {:induction false} NodesFrom(t: Compilation, j: nat, i: nat) returns (k: nat)
    requires Complete(t.f.p, t.order) && j <= |t.order| && i < |Nodes(t, j)|
    ensures k < j && VisitOf(t.f.p, t.order[k]) == VisitPhi(Nodes(t, j)[i].phi)
    ensures Nodes(t, j)[i].reg == PassAt(t, k).next
  {
    hide EmitVisit, VisitAt, PassAt;
    if i < |Nodes(t, j - 1)| {
      k := NodesFrom(t, j - 1, i);
    } else {
      k := j - 1;
    }
  }

  lemma {:induction false} NodeOf(t: Compilation, j: nat, k: nat) returns (i: nat)
    requires Complete(t.f.p, t.order) && k < j <= |t.order| && VisitOf(t.f.p, t.order[k]).VisitPhi?
    ensures i < |Nodes(t, j)| && Nodes(t, j)[i] == PhiNode(VisitOf(t.f.p, t.order[k]).phi, PassAt(t, k).next)
  {
    hide EmitVisit, VisitAt, PassAt;
    if k == j - 1 {
      i := |Nodes(t, j)| - 1;
    } else {
      i := NodeOf(t, j - 1, k);
    }
  }

  lemma PhiTakesOne(t: Compilation, k: nat)
    requires Complete(t.f.p, t.order) && k < |t.order| && VisitOf(t.f.p, t.order[k]).VisitPhi?
    ensures PassAt(t, k + 1).next == PassAt(t, k).next + 1
  {
    PassStep(t, k);
  }

  lemma NodesDistinct(t: Compilation)
    requires Complete(t.f.p, t.order)
    ensures DistinctNodes(Nodes(t, |t.order|))
  {
    hide EmitVisit, VisitAt, PassAt, Nodes, Complete;
    var nodes := Nodes(t, |t.order|);
    forall i, j | 0 <= i < j < |nodes|
      ensures nodes[i].reg != nodes[j].reg
    {
      NodesApart(t, |t.order|, i, j);
    }
  }

  lemma {:induction false} NodesApart(t: Compilation, n: nat, i: nat, j: nat)
    requires Complete(t.f.p, t.order) && n <= |t.order| && i < j < |Nodes(t, n)|
    ensures Nodes(t, n)[i].reg < Nodes(t, n)[j].reg
  {
    hide EmitVisit, VisitAt, PassAt;
    if j < |Nodes(t, n - 1)| {
      NodesApart(t, n - 1, i, j);
    } else {
      var k := NodesFrom(t, n - 1, i);
      PhiTakesOne(t, k);
      NextGrows(t, k + 1, n - 1);
    }
  }

  /** A PHI node is erased exactly if none of its operands has an expression. */
  lemma ErasedExact(t: Compilation, k: nat)
    requires Complete(t.f.p, t.order) && k < |t.order| && VisitOf(t.f.p, t.order[k]).VisitPhi?
    ensures PassAt(t, k).next in ErasedNodes(t) <==> OnlyUntracked(FinalSym(t), VisitOf(t.f.p, t.order[k]).phi)
  {
    hide EmitVisit, VisitAt, PassAt, Nodes, OnlyUntracked, FinalSym, Erased;
    var nodes, x := Nodes(t, |t.order|), PassAt(t, k).next;
    ErasedIs(nodes, FinalSym(t), |nodes|, x);
    PhiTakesOne(t, k);
    if x in ErasedNodes(t) {
      var i :| 0 <= i < |nodes| && nodes[i].reg == x && OnlyUntracked(FinalSym(t), nodes[i].phi);
      var m := NodesFrom(t, |t.order|, i);
      PhiTakesOne(t, m);
      SameVisit(t, k, m, x);
    } else {
      var i := NodeOf(t, |t.order|, k);
    }
  }

  /** No other register is erased. */
  lemma ErasedApart(t: Compilation, k: nat, x: nat)
    requires Complete(t.f.p, t.order) && k < |t.order| && !VisitOf(t.f.p, t.order[k]).VisitPhi?
    requires PassAt(t, k).next <= x < PassAt(t, k + 1).next
    ensures x !in ErasedNodes(t)
  {
    hide EmitVisit, VisitAt, PassAt, Nodes, OnlyUntracked, FinalSym, Erased;
    var nodes := Nodes(t, |t.order|);
    ErasedIs(nodes, FinalSym(t), |nodes|, x);
    if x in ErasedNodes(t) {
      var i :| 0 <= i < |nodes| && nodes[i].reg == x && OnlyUntracked(FinalSym(t), nodes[i].phi);
      var m := NodesFrom(t, |t.order|, i);
      PhiTakesOne(t, m);
      SameVisit(t, k, m, x);
      assert false;
    }
  }

  // ----- replacing uses -----

  function ReplaceSym(erased: set<nat>, sym: SymbolicExpressions): SymbolicExpressions
  {
    map r | r in sym :: Replace(erased, sym[r])
  }

  function ReplacePass(erased: set<nat>, pass: Pass): Pass { pass.(sym := ReplaceSym(erased, pass.sym)) }

  lemma OperandReplaced(erased: set<nat>, sym: SymbolicExpressions, o: Operand)
    ensures OperandOf(ReplaceSym(erased, sym), o) == Replace(erased, OperandOf(sym, o))
    ensures Tracked(ReplaceSym(erased, sym), o) == Tracked(sym, o)
  {
  }

  function ReplaceArg(erased: set<nat>, a: CallArg): CallArg
  {
    match a
    case Input(v, o) => Input(v, Replace(erased, o))
    case Previous(_) => a
  }

  function ReplaceArgs(erased: set<nat>, args: seq<CallArg>): (r: seq<CallArg>)
    ensures |r| == |args|
  {
    seq(|args|, k requires 0 <= k < |args| => ReplaceArg(erased, args[k]))
  }

  function ReplaceComp(erased: set<nat>, comp: Computation): (r: Computation)
    ensures |r| == |comp|
  {
    seq(|comp|, k requires 0 <= k < |comp| => CallSite(comp[k].builder, ReplaceArgs(erased, comp[k].args)))
  }

  function ReplaceItem(erased: set<nat>, item: Item): Item
  {
    match item
    case Compute(comp, base, used) => Compute(ReplaceComp(erased, comp), base, used)
    case Pick(dst, cond, a, b) => Pick(dst, cond, Replace(erased, a), Replace(erased, b))
    case PinCall(e, addr) => PinCall(Replace(erased, e), addr)
    case ReadCall(dst, e, addr, n) => ReadCall(dst, Replace(erased, e), addr, n)
    case WriteCall(e, addr, v, n) => WriteCall(Replace(erased, e), addr, Replace(erased, v), n)
    case MoveCall(e, f, l, to, from, len) =>
      MoveCall(Replace(erased, e), Replace(erased, f), Replace(erased, l), to, from, len)
    case FillCall(e, v, l, to, len) => FillCall(Replace(erased, e), Replace(erased, v), Replace(erased, l), to, len)
    case InputCall(dst, e, l, addr, len) => InputCall(dst, Replace(erased, e), Replace(erased, l), addr, len)
    case SwitchCalls(e, cond, values) => SwitchCalls(Replace(erased, e), cond, values)
  }

  function ReplaceItems(erased: set<nat>, items: seq<Item>): (r: seq<Item>)
    ensures |r| == |items|
  {
    seq(|items|, k requires 0 <= k < |items| => ReplaceItem(erased, items[k]))
  }

  lemma {:induction false} InputsOfReplaced(erased: set<nat>, args: seq<CallArg>)
    ensures |InputsOf(ReplaceArgs(erased, args))| == |InputsOf(args)|
  {
    if |args| > 0 {
      var r := ReplaceArgs(erased, args);
      assert r[..|r| - 1] == ReplaceArgs(erased, args[..|args| - 1]);
      InputsOfReplaced(erased, args[..|args| - 1]);
    }
  }

  lemma {:induction false} InputsReplaced(erased: set<nat>, comp: Computation, k: nat)
    requires k <= |comp|
    ensures |Inputs(ReplaceComp(erased, comp), k)| == |Inputs(comp, k)|
  {
    hide InputsOf, ReplaceArgs;
    if k > 0 {
      InputsReplaced(erased, comp, k - 1);
      InputsOfReplaced(erased, comp[k - 1].args);
    }
  }

  lemma LayoutReplaced(erased: set<nat>, comp: Computation, base: nat)
    ensures LayoutOf(ReplaceComp(erased, comp), base) == LayoutOf(comp, base)
  {
    hide Inputs;
    InputsReplaced(erased, comp, |comp|);
  }

  /** Replacing in a computation that may be missing. */
  function ReplaceOption(erased: set<nat>, comp: Option<Computation>): Option<Computation>
  {
    match comp case None => None case Some(c) => Some(ReplaceComp(erased, c))
  }

  lemma OneCallReplaced(erased: set<nat>, b: Builder, x: CallArg)
    ensures ReplaceComp(erased, [CallSite(b, [x])]) == [CallSite(b, [ReplaceArg(erased, x)])]
  {
    assert ReplaceArgs(erased, [x]) == [ReplaceArg(erased, x)];
  }

  lemma TwoArgsReplaced(erased: set<nat>, b: Builder, x: CallArg, y: CallArg)
    ensures ReplaceComp(erased, [CallSite(b, [x, y])]) == [CallSite(b, [ReplaceArg(erased, x), ReplaceArg(erased, y)])]
  {
    assert ReplaceArgs(erased, [x, y]) == [ReplaceArg(erased, x), ReplaceArg(erased, y)];
  }

  lemma BinaryReplaced(erased: set<nat>, sym: SymbolicExpressions, i: Instr)
    requires Binaryish(i)
    ensures VisitBinary(ReplaceSym(erased, sym), i) == ReplaceOption(erased, VisitBinary(sym, i))
  {
    hide ReplaceComp, ReplaceSym;
    OperandReplaced(erased, sym, i.a);
    OperandReplaced(erased, sym, i.b);
    TwoArgsReplaced(erased, BuilderOf(i), InputFor(sym, i.a), InputFor(sym, i.b));
  }

  lemma AppendReplaced(erased: set<nat>, comp: Computation, c: CallSite)
    ensures ReplaceComp(erased, comp + [c])
            == ReplaceComp(erased, comp) + [CallSite(c.builder, ReplaceArgs(erased, c.args))]
  {
    hide ReplaceArgs;
  }

  lemma CastReplaced(erased: set<nat>, sym: SymbolicExpressions, kind: CastKind, a: Operand, srcWidth: nat, width: nat)
    ensures VisitCast(ReplaceSym(erased, sym), kind, a, srcWidth, width)
            == ReplaceOption(erased, VisitCast(sym, kind, a, srcWidth, width))
  {
    hide ReplaceSym, ReplaceComp;
    OperandReplaced(erased, sym, a);
    var x := InputFor(sym, a);
    var extend := ExtendBuilder(kind, if srcWidth <= width then width - srcWidth else 0);
    OneCallReplaced(erased, BuildTrunc(width), x);
    OneCallReplaced(erased, extend, x);
    OneCallReplaced(erased, BuildBoolToBit, x);
    var first, second := CallSite(BuildBoolToBit, [x]), CallSite(extend, [Previous(0)]);
    AppendReplaced(erased, [first], second);
    assert [first] + [second] == [first, second];
    assert ReplaceArgs(erased, [Previous(0)]) == [Previous(0)];
    var first' := CallSite(BuildBoolToBit, [ReplaceArg(erased, x)]);
    assert ReplaceComp(erased, [first, second]) == [first'] + [second] == [first', second];
  }

  // ----- getelementptr -----

  function ReplaceState(erased: set<nat>, g: GepState): GepState
  {
    GepState(ReplaceComp(erased, g.calls), ReplaceArg(erased, g.current))
  }

  lemma AddReplaced(erased: set<nat>, g: GepState, a: CallArg)
    ensures AddTo(ReplaceState(erased, g), ReplaceArg(erased, a)) == ReplaceState(erased, AddTo(g, a))
  {
    hide ReplaceComp;
    AppendReplaced(erased, g.calls, CallSite(BuildBinary(Add), [a, g.current]));
    assert ReplaceArgs(erased, [a, g.current]) == [ReplaceArg(erased, a), ReplaceArg(erased, g.current)];
    ReplacedLength(erased, g.calls);
  }

  lemma ReplacedLength(erased: set<nat>, comp: Computation)
    ensures |ReplaceComp(erased, comp)| == |comp|
  {
  }

  lemma ScaleReplaced(erased: set<nat>, g: GepState, index: CallArg, elementSize: nat)
    ensures var lit := Input(SizeLiteral(elementSize), Null);
            var scaled := g.calls + [CallSite(BuildBinary(Mul), [index, lit])];
            var scaled' :=
              ReplaceComp(erased, g.calls) + [CallSite(BuildBinary(Mul), [ReplaceArg(erased, index), lit])];
            AddTo(GepState(scaled', ReplaceArg(erased, g.current)), Previous(|g.calls|))
            == ReplaceState(erased, AddTo(GepState(scaled, g.current), Previous(|g.calls|)))
  {
    hide ReplaceComp, AddTo, SizeLiteral;
    var lit := Input(SizeLiteral(elementSize), Null);
    var c := CallSite(BuildBinary(Mul), [index, lit]);
    AppendReplaced(erased, g.calls, c);
    assert ReplaceArgs(erased, [index, lit]) == [ReplaceArg(erased, index), lit];
    AddReplaced(erased, GepState(g.calls + [c], g.current), Previous(|g.calls|));
  }

  lemma RoundReplaced(erased: set<nat>, sym: SymbolicExpressions, g: GepState, step: GepStep)
    ensures GepRound(ReplaceSym(erased, sym), ReplaceState(erased, g), step)
            == ReplaceState(erased, GepRound(sym, g, step))
  {
    hide ReplaceComp, AddTo, SizeLiteral, ReplaceSym, ConstantZeroIndex;
    ReplacedLength(erased, g.calls);
    match step
    case Member(_, offset) => AddReplaced(erased, g, Input(SizeLiteral(offset), Null));
    case Index(o, width, elementSize) =>
      OperandReplaced(erased, sym, o);
      var index := InputFor(sym, o);
      if !ConstantZeroIndex(o) {
        if width != PTR_BITS {
          var c := CallSite(BuildSExt(Widening(width)), [index]);
          AppendReplaced(erased, g.calls, c);
          assert ReplaceArgs(erased, [index]) == [ReplaceArg(erased, index)];
          ScaleReplaced(erased, GepState(g.calls + [c], g.current), Previous(|g.calls|), elementSize);
        } else {
          ScaleReplaced(erased, g, index, elementSize);
        }
      }
  }

  lemma {:induction false} RoundsReplaced(erased: set<nat>, sym: SymbolicExpressions, g: GepState, path: seq<GepStep>)
    ensures GepRounds(ReplaceSym(erased, sym), ReplaceState(erased, g), path)
            == ReplaceState(erased, GepRounds(sym, g, path))
    decreases |path|
  {
    hide GepRound, ReplaceState, ReplaceSym;
    if |path| > 0 {
      RoundReplaced(erased, sym, g, path[0]);
      RoundsReplaced(erased, sym, GepRound(sym, g, path[0]), path[1..]);
    }
  }

  lemma GepReplaced(erased: set<nat>, sym: SymbolicExpressions, base: Operand, path: seq<GepStep>)
    ensures var v, v' := VisitGep(sym, base, path), VisitGep(ReplaceSym(erased, sym), base, path);
            v' == if v.Recorded? then Recorded(ReplaceComp(erased, v.comp)) else v
  {
    hide GepRounds, StepZero, ReplaceSym, ReplaceComp;
    OperandReplaced(erased, sym, base);
    forall k | 0 <= k < |path|
      ensures StepTracked(ReplaceSym(erased, sym), path[k]) == StepTracked(sym, path[k])
    {
      if path[k].Index? {
        OperandReplaced(erased, sym, path[k].operand);
      }
    }
    assert ReplaceComp(erased, []) == [] by { NothingReplaced(erased); }
    RoundsReplaced(erased, sym, GepState([], InputFor(sym, base)), path);
  }

  lemma NothingReplaced(erased: set<nat>)
    ensures ReplaceComp(erased, []) == []
  {
  }

  // ----- whole visits -----

  ghost predicate Apart(erased: set<nat>, lo: nat, hi: nat) { forall x :: lo <= x < hi ==> x !in erased }

  /** Adding an expression commutes with the replacement. */
  lemma SetReplaced(erased: set<nat>, sym: SymbolicExpressions, dst: Reg, o: SymOperand)
    ensures ReplaceSym(erased, sym[dst := o]) == ReplaceSym(erased, sym)[dst := Replace(erased, o)]
  {
  }

  lemma RegisterReplaced(erased: set<nat>, pass: Pass, dst: Reg, comp: Option<Computation>)
    requires Apart(erased, pass.next, Register(pass, dst, comp).pass.next)
    ensures var e := Register(pass, dst, comp);
            Register(ReplacePass(erased, pass), dst, ReplaceOption(erased, comp))
            == Emitted(ReplacePass(erased, e.pass), ReplaceItems(erased, e.items))
  {
    hide ReplaceComp, LayoutOf, ReplaceSym;
    if comp.Some? {
      LayoutReplaced(erased, comp.value, pass.next);
      var final := LayoutOf(comp.value, pass.next).FinalReg();
      assert pass.next <= final by { FinalAbove(comp.value, pass.next); }
      SetReplaced(erased, pass.sym, dst, ExprReg(final));
    }
    ItemsReplaced(erased, Register(pass, dst, comp).items);
  }

  lemma FinalAbove(comp: Computation, base: nat)
    ensures LayoutOf(comp, base).FinalReg() >= base
  {
  }

  lemma ItemsReplaced(erased: set<nat>, items: seq<Item>)
    requires |items| <= 1
    ensures ReplaceItems(erased, items) == if |items| == 0 then [] else [ReplaceItem(erased, items[0])]
  {
    hide ReplaceItem;
  }

  lemma ItemsConcatReplaced(erased: set<nat>, a: seq<Item>, b: seq<Item>)
    ensures ReplaceItems(erased, a + b) == ReplaceItems(erased, a) + ReplaceItems(erased, b)
  {
    hide ReplaceItem;
  }

  lemma PushReplaced(erased: set<nat>, pass: Pass, cond: Operand)
    ensures var e := EmitPush(pass, cond);
            EmitPush(ReplacePass(erased, pass), cond)
              == Emitted(ReplacePass(erased, e.pass), ReplaceItems(erased, e.items))
  {
    hide ReplaceComp, LayoutOf, ReplaceSym;
    OperandReplaced(erased, pass.sym, cond);
    var comp := PushComputation(pass.sym, cond);
    OneCallReplaced(erased, PushConstraint(cond), InputFor(pass.sym, cond));
    LayoutReplaced(erased, comp, pass.next);
    ItemsReplaced(erased, EmitPush(pass, cond).items);
  }

  lemma ShareReplaced(erased: set<nat>, pass: Pass, dst: Reg, o: Operand)
    ensures var e := Share(pass, dst, o);
            Share(ReplacePass(erased, pass), dst, o)
              == Emitted(ReplacePass(erased, e.pass), ReplaceItems(erased, e.items))
  {
    OperandReplaced(erased, pass.sym, o);
    if Tracked(pass.sym, o) {
      SetReplaced(erased, pass.sym, dst, pass.sym[o.reg]);
    }
    ItemsReplaced(erased, []);
  }

  lemma ChoiceReplaced(erased: set<nat>, pass: Pass, dst: Reg, cond: Operand, a: Operand, b: Operand)
    requires Apart(erased, pass.next, EmitChoice(pass, dst, cond, a, b).pass.next)
    ensures var e := EmitChoice(pass, dst, cond, a, b);
            EmitChoice(ReplacePass(erased, pass), dst, cond, a, b)
            == Emitted(ReplacePass(erased, e.pass), ReplaceItems(erased, e.items))
  {
    hide ReplaceSym;
    OperandReplaced(erased, pass.sym, a);
    OperandReplaced(erased, pass.sym, b);
    SetReplaced(erased, pass.sym, dst, ExprReg(pass.next));
    ItemsReplaced(erased, EmitChoice(pass, dst, cond, a, b).items);
  }

  lemma SelectReplaced(types: Types, erased: set<nat>, pass: Pass, i: Instr)
    requires i.SelectInstr? && Apart(erased, pass.next, EmitInstr(types, pass, i).pass.next)
    ensures Replaced(types, erased, pass, i)
  {
    hide EmitPush, EmitChoice, ReplaceItems, ReplacePass;
    PushReplaced(erased, pass, i.cond);
    SymUnchanged(pass, i.cond);
    var push := EmitPush(pass, i.cond);
    ChoiceReplaced(erased, push.pass, i.dst, i.cond, i.a, i.b);
    ItemsConcatReplaced(erased, push.items, EmitChoice(push.pass, i.dst, i.cond, i.a, i.b).items);
  }

  /** The code without the erased nodes is that emitted without them. */
  ghost predicate Replaced(types: Types, erased: set<nat>, pass: Pass, i: Instr)
  {
    var e := EmitInstr(types, pass, i);
    EmitInstr(types, ReplacePass(erased, pass), i)
      == Emitted(ReplacePass(erased, e.pass), ReplaceItems(erased, e.items))
  }

  lemma CallReplaced(types: Types, erased: set<nat>, pass: Pass, i: Instr)
    requires i.MoveInstr? || i.FillInstr? || i.ReadInstr?
    requires Apart(erased, pass.next, EmitInstr(types, pass, i).pass.next)
    ensures Replaced(types, erased, pass, i)
  {
    hide ReplaceSym;
    ItemsReplaced(erased, EmitInstr(types, pass, i).items);
    match i
    case MoveInstr(to, from, len) =>
      OperandReplaced(erased, pass.sym, to);
      OperandReplaced(erased, pass.sym, from);
      OperandReplaced(erased, pass.sym, len);
    case FillInstr(to, a, len) =>
      OperandReplaced(erased, pass.sym, to);
      OperandReplaced(erased, pass.sym, a);
      OperandReplaced(erased, pass.sym, len);
    case ReadInstr(dst, addr, len) =>
      OperandReplaced(erased, pass.sym, addr);
      OperandReplaced(erased, pass.sym, len);
      SetReplaced(erased, pass.sym, dst, ExprReg(pass.next));
  }

  lemma PinReplaced(erased: set<nat>, sym: SymbolicExpressions, addr: Operand)
    ensures EmitPin(ReplaceSym(erased, sym), addr) == ReplaceItems(erased, EmitPin(sym, addr))
  {
    OperandReplaced(erased, sym, addr);
    ItemsReplaced(erased, EmitPin(sym, addr));
  }

  lemma AccessReplaced(types: Types, erased: set<nat>, pass: Pass, i: Instr)
    requires i.LoadInstr? || i.StoreInstr?
    requires Apart(erased, pass.next, EmitInstr(types, pass, i).pass.next)
    ensures Replaced(types, erased, pass, i)
  {
    hide ReplaceSym, EmitPin, ReplaceItems;
    OperandReplaced(erased, pass.sym, i.addr);
    PinReplaced(erased, pass.sym, i.addr);
    match i
    case LoadInstr(dst, addr, n) =>
      var read := ReadCall(pass.next, OperandOf(pass.sym, addr), addr, n);
      ItemsReplaced(erased, [read]);
      ItemsConcatReplaced(erased, EmitPin(pass.sym, addr), [read]);
      SetReplaced(erased, pass.sym, dst, ExprReg(pass.next));
    case StoreInstr(addr, a, n) =>
      OperandReplaced(erased, pass.sym, a);
      var write := WriteCall(OperandOf(pass.sym, addr), addr, OperandOf(pass.sym, a), n);
      ItemsReplaced(erased, [write]);
      ItemsConcatReplaced(erased, EmitPin(pass.sym, addr), [write]);
  }

  lemma GepInstrReplaced(types: Types, erased: set<nat>, pass: Pass, i: Instr)
    requires i.GepInstr? && Apart(erased, pass.next, EmitInstr(types, pass, i).pass.next)
    ensures Replaced(types, erased, pass, i)
  {
    hide ReplaceSym, VisitGep, Register, Share, ReplaceItems, ReplaceComp, Apart;
    GepReplaced(erased, pass.sym, i.base, i.path);
    match VisitGep(pass.sym, i.base, i.path)
    case NoExpression => assert ReplaceItems(erased, []) == [] by { ItemsReplaced(erased, []); }
    case SameAsBase => ShareReplaced(erased, pass, i.dst, i.base);
    case Recorded(comp) => RegisterReplaced(erased, pass, i.dst, Some(comp));
  }

  lemma InstrReplaced(types: Types, erased: set<nat>, pass: Pass, i: Instr)
    requires Apart(erased, pass.next, EmitInstr(types, pass, i).pass.next)
    ensures Replaced(types, erased, pass, i)
  {
    hide ReplaceSym, VisitBinary, VisitCast, VisitGep, Register, Share, ReplaceItems, ReplaceComp, Apart, EmitPush,
         EmitChoice;
    match i
    case BinInstr(dst, _, _, _) =>
      BinaryReplaced(erased, pass.sym, i);
      RegisterReplaced(erased, pass, dst, VisitBinary(pass.sym, i));
    case BoolInstr(dst, _, _, _) =>
      BinaryReplaced(erased, pass.sym, i);
      RegisterReplaced(erased, pass, dst, VisitBinary(pass.sym, i));
    case CmpInstr(dst, _, _, _) =>
      BinaryReplaced(erased, pass.sym, i);
      RegisterReplaced(erased, pass, dst, VisitBinary(pass.sym, i));
    case CastInstr(dst, kind, a, width) =>
      CastReplaced(erased, pass.sym, kind, a, TypeOf(types, a), width);
      RegisterReplaced(erased, pass, dst, VisitCast(pass.sym, kind, a, TypeOf(types, a), width));
    case CopyInstr(dst, a) => ShareReplaced(erased, pass, dst, a);
    case SelectInstr(_, _, _, _) => SelectReplaced(types, erased, pass, i);
    case LoadInstr(_, _, _) => AccessReplaced(types, erased, pass, i);
    case StoreInstr(_, _, _) => AccessReplaced(types, erased, pass, i);
    case GepInstr(_, _, _) => GepInstrReplaced(types, erased, pass, i);
    case MoveInstr(_, _, _) => CallReplaced(types, erased, pass, i);
    case FillInstr(_, _, _) => CallReplaced(types, erased, pass, i);
    case ReadInstr(_, _, _) => CallReplaced(types, erased, pass, i);
  }

  lemma TermReplaced(erased: set<nat>, pass: Pass, t: Terminator)
    ensures var e := EmitTerm(pass, t);
            EmitTerm(ReplacePass(erased, pass), t)
              == Emitted(ReplacePass(erased, e.pass), ReplaceItems(erased, e.items))
  {
    hide EmitPush, ReplaceSym;
    match t
    case CondBr(cond, _, _) => PushReplaced(erased, pass, cond);
    case Switch(cond, values, _, _) =>
      OperandReplaced(erased, pass.sym, cond);
      ItemsReplaced(erased, EmitTerm(pass, t).items);
    case _ => ItemsReplaced(erased, []);
  }

  // ----- the finished code -----

  /** The code that the pass leaves for visit `j`. */
  function CodeAt(t: Compilation, j: nat): seq<Op>
    requires Complete(t.f.p, t.order) && j < |t.order|
  {
    FinishAll(ReplaceItems(ErasedNodes(t), EmitVisit(t.types, PassAt(t, j), VisitOf(t.f.p, t.order[j])).items))
  }

  /** The expression PHI nodes that the pass leaves. */
  function FinalPhis(t: Compilation): ExprPhis
    requires Complete(t.f.p, t.order)
  {
    var nodes := Nodes(t, |t.order|);
    ReplacePhis(ErasedNodes(t), Filled(nodes, FinalSym(t), |nodes|))
  }

  /** What the pass would have known at visit `j` without the erased nodes. */
  function CleanPass(t: Compilation, j: nat): Pass
    requires Complete(t.f.p, t.order) && j <= |t.order|
  {
    ReplacePass(ErasedNodes(t), PassAt(t, j))
  }

  function CleanSym(t: Compilation): SymbolicExpressions
    requires Complete(t.f.p, t.order)
  {
    ReplaceSym(ErasedNodes(t), FinalSym(t))
  }

  lemma VisitApart(t: Compilation, j: nat)
    requires Complete(t.f.p, t.order) && j < |t.order| && !VisitOf(t.f.p, t.order[j]).VisitPhi?
    ensures Apart(ErasedNodes(t), PassAt(t, j).next, PassAt(t, j + 1).next)
  {
    hide PassAt, ErasedNodes;
    forall x | PassAt(t, j).next <= x < PassAt(t, j + 1).next
      ensures x !in ErasedNodes(t)
    {
      ErasedApart(t, j, x);
    }
  }

  /** Finished code is what visiting without the erased nodes emits. */
  lemma CodeIsClean(t: Compilation, j: nat)
    requires Complete(t.f.p, t.order) && j < |t.order| && !VisitOf(t.f.p, t.order[j]).VisitPhi?
    ensures var e := EmitVisit(t.types, CleanPass(t, j), VisitOf(t.f.p, t.order[j]));
            CodeAt(t, j) == FinishAll(e.items) && e.pass == CleanPass(t, j + 1)
  {
    hide PassAt, ErasedNodes, EmitInstr, EmitTerm, ReplacePass, ReplaceItems, FinishAll, Apart;
    var v := VisitOf(t.f.p, t.order[j]);
    PassStep(t, j);
    VisitApart(t, j);
    match v
    case VisitInstr(i) => InstrReplaced(t.types, ErasedNodes(t), PassAt(t, j), i);
    case VisitTerm(term) => TermReplaced(ErasedNodes(t), PassAt(t, j), term);
  }
}
