/** The pass at work on a function: visiting records computations and updates the known
    expressions; then the PHI nodes are finalised and what was recorded is short-circuited. */
module SymbolizerPass {
  import opened Options
  import opened Ir
  import opened SymbolicCode
  import opened ShortCircuit
  import opened PhiFinalization
  import opened Instrumentation
  import opened GepInstrumentation
  import opened Emission
  import opened Scope
  import opened FunctionPass
  import opened FinalPass

  /** The code before an instruction once the erased nodes are gone. */
  function Finished(erased: set<nat>, items: seq<Item>): seq<Op> { FinishAll(ReplaceItems(erased, items)) }

  class Symbolizer {
    const types: Types
    var symbolicExpressions: SymbolicExpressions
    var next: nat
    var phiNodes: seq<PhiNode>
    var inserted: seq<seq<Item>>     // per visit
    var current: seq<Item>           // for the one under way

    function Progress(): Pass
      reads this
    {
      Pass(symbolicExpressions, next)
    }

    constructor (t: Types, pass: Pass)
      ensures types == t && Progress() == pass && inserted == [] && phiNodes == []
    {
      types, symbolicExpressions, next := t, pass.sym, pass.next;
      phiNodes, inserted, current := [], [], [];
    }

    /** registerSymbolicComputation, with or without a program value for the result. */
    method RegisterComputation(comp: Option<Computation>, concrete: Option<Reg>)
      modifies this
      ensures inserted == old(inserted) && phiNodes == old(phiNodes)
      ensures comp.None? ==> Progress() == old(Progress()) && current == old(current)
      ensures comp.Some? ==>
                var final := LayoutOf(comp.value, old(next)).FinalReg();
                && next == final + 1 && current == old(current) + [Compute(comp.value, old(next), concrete.Some?)]
                && symbolicExpressions
                   == (if concrete.Some? then old(symbolicExpressions)[concrete.value := ExprReg(final)]
                                           else old(symbolicExpressions))
    {
      if comp.Some? {
        var final := LayoutOf(comp.value, next).FinalReg();
        current := current + [Compute(comp.value, next, concrete.Some?)];
        if concrete.Some? {
          symbolicExpressions := symbolicExpressions[concrete.value := ExprReg(final)];
        }
        next := final + 1;
      }
    }

    /** Computations that belong to a value. */
    method RegisterFor(comp: Option<Computation>, dst: Reg)
      requires current == []
      modifies this
      ensures inserted == old(inserted) && phiNodes == old(phiNodes)
      ensures Emitted(Progress(), current) == Register(old(Progress()), dst, comp)
    {
      hide LayoutOf;
      RegisterComputation(comp, Some(dst));
    }

    /** The push of a condition, for branches and selects. */
    method PushCondition(cond: Operand)
      requires current == []
      modifies this
      ensures inserted == old(inserted) && phiNodes == old(phiNodes)
      ensures Emitted(Progress(), current) == EmitPush(old(Progress()), cond)
    {
      hide LayoutOf;
      RegisterComputation(RuntimeCall1(symbolicExpressions, PushConstraint(cond), cond), None);
    }

    /** The choice that follows the push of a select. */
    method ChooseExpression(dst: Reg, cond: Operand, a: Operand, b: Operand)
      modifies this
      ensures inserted == old(inserted) && phiNodes == old(phiNodes)
      ensures var e := EmitChoice(old(Progress()), dst, cond, a, b);
              Progress() == e.pass && current == old(current) + e.items
    {
      if Tracked(symbolicExpressions, a) || Tracked(symbolicExpressions, b) {
        var data := Pick(next, cond, OperandOf(symbolicExpressions, a), OperandOf(symbolicExpressions, b));
        current := current + [data];
        symbolicExpressions := symbolicExpressions[dst := ExprReg(next)];
        next := next + 1;
      } else {
        assert current + [] == current;
      }
    }

    method VisitSelect(dst: Reg, cond: Operand, a: Operand, b: Operand)
      requires current == []
      modifies this
      ensures inserted == old(inserted) && phiNodes == old(phiNodes)
      ensures Emitted(Progress(), current) == EmitInstr(types, old(Progress()), SelectInstr(dst, cond, a, b))
    {
      hide EmitPush, EmitChoice;
      PushCondition(cond);
      ChooseExpression(dst, cond, a, b);
    }

    /** The value's expression is that of another value, if that has one. */
    method ShareExpression(dst: Reg, o: Operand)
      requires current == []
      modifies this
      ensures inserted == old(inserted) && phiNodes == old(phiNodes)
      ensures Emitted(Progress(), current) == Share(old(Progress()), dst, o)
    {
      if Tracked(symbolicExpressions, o) {
        symbolicExpressions := symbolicExpressions[dst := symbolicExpressions[o.reg]];
      }
    }

    method VisitGetElementPtr(dst: Reg, base: Operand, path: seq<GepStep>)
      requires current == []
      modifies this
      ensures inserted == old(inserted) && phiNodes == old(phiNodes)
      ensures Emitted(Progress(), current) == EmitInstr(types, old(Progress()), GepInstr(dst, base, path))
    {
      hide GepRounds, StepTracked, StepZero, Register, Share;
      var sym := symbolicExpressions;
      if !Tracked(sym, base) && forall k :: 0 <= k < |path| ==> !StepTracked(sym, path[k]) {
        return;
      }
      if forall k :: 0 <= k < |path| ==> StepZero(path[k]) {
        ShareExpression(dst, base);
        return;
      }
      var g := BuildGep(symbolicExpressions, base, path);
      RegisterFor(Some(g.calls), dst);
    }

    /** concretizePointer */
    method PinPointer(addr: Operand)
      modifies this
      ensures inserted == old(inserted) && phiNodes == old(phiNodes) && Progress() == old(Progress())
      ensures current == old(current) + EmitPin(symbolicExpressions, addr)
    {
      if Tracked(symbolicExpressions, addr) {
        current := current + [PinCall(symbolicExpressions[addr.reg], addr)];
      }
    }

    /** A call whose result is the expression of `dst`. */
    method CallFor(dst: Reg, call: Item)
      modifies this
      ensures inserted == old(inserted) && phiNodes == old(phiNodes)
      ensures current == old(current) + [call] && Progress() == Fresh(old(Progress()), dst)
    {
      current := current + [call];
      symbolicExpressions := symbolicExpressions[dst := ExprReg(next)];
      next := next + 1;
    }

    method VisitMemory(i: Instr)
      requires current == [] && (i.LoadInstr? || i.StoreInstr? || i.MoveInstr? || i.FillInstr? || i.ReadInstr?)
      modifies this
      ensures inserted == old(inserted) && phiNodes == old(phiNodes)
      ensures Emitted(Progress(), current) == EmitInstr(types, old(Progress()), i)
    {
      hide EmitPin;
      var sym := symbolicExpressions;
      if i.LoadInstr? {
        PinPointer(i.addr);
        CallFor(i.dst, ReadCall(next, OperandOf(sym, i.addr), i.addr, i.bytes));
      } else if i.StoreInstr? {
        PinPointer(i.addr);
        current := current + [WriteCall(OperandOf(sym, i.addr), i.addr, OperandOf(sym, i.a), i.bytes)];
      } else if i.MoveInstr? {
        current := [MoveCall(OperandOf(sym, i.to), OperandOf(sym, i.from), OperandOf(sym, i.len), i.to, i.from, i.len)];
      } else if i.FillInstr? {
        current := [FillCall(OperandOf(sym, i.to), OperandOf(sym, i.a), OperandOf(sym, i.len), i.to, i.len)];
      } else {
        CallFor(i.dst, InputCall(next, OperandOf(sym, i.addr), OperandOf(sym, i.len), i.addr, i.len));
      }
    }

    method VisitInstruction(i: Instr)
      requires current == []
      modifies this
      ensures inserted == old(inserted) && phiNodes == old(phiNodes)
      ensures Emitted(Progress(), current) == EmitInstr(types, old(Progress()), i)
    {
      hide Register, VisitBinary, VisitCast, VisitGep, EmitPush, EmitChoice, Share, EmitPin, Fresh;
      if Binaryish(i) {
        RegisterFor(VisitBinary(symbolicExpressions, i), i.dst);
      } else if i.CastInstr? {
        RegisterFor(VisitCast(symbolicExpressions, i.kind, i.a, TypeOf(types, i.a), i.width), i.dst);
      } else if i.CopyInstr? {
        ShareExpression(i.dst, i.a);
      } else if i.SelectInstr? {
        VisitSelect(i.dst, i.cond, i.a, i.b);
      } else if i.GepInstr? {
        VisitGetElementPtr(i.dst, i.base, i.path);
      } else {
        VisitMemory(i);
      }
    }

    method VisitTerminator(t: Terminator)
      requires current == []
      modifies this
      ensures inserted == old(inserted) && phiNodes == old(phiNodes)
      ensures Emitted(Progress(), current) == EmitTerm(old(Progress()), t)
    {
      hide EmitPush;
      if t.CondBr? {
        PushCondition(t.cond);
      } else if t.Switch? && Tracked(symbolicExpressions, t.cond) {
        current := [SwitchCalls(OperandOf(symbolicExpressions, t.cond), t.cond, t.values)];
      }
    }

    /** One visit. */
    method Visit(v: Visit)
      modifies this
      ensures var e := EmitVisit(types, old(Progress()), v);
              Progress() == e.pass && inserted == old(inserted) + [e.items]
      ensures phiNodes == old(phiNodes) + if v.VisitPhi? then [PhiNode(v.phi, old(next))] else []
    {
      hide EmitInstr, EmitTerm;
      current := [];
      match v {
        case VisitPhi(phi) =>
          phiNodes := phiNodes + [PhiNode(phi, next)];
          symbolicExpressions := symbolicExpressions[phi.dst := ExprReg(next)];
          next := next + 1;
        case VisitInstr(i) => VisitInstruction(i);
        case VisitTerm(t) => VisitTerminator(t);
      }
      inserted := inserted + [current];
    }

    /** Instrument a function. The outcome is the code and the expression PHI nodes that
        `CompiledRun.PassSimulates` is about. */
    method Instrument(t: Compilation) returns (code: seq<seq<Op>>, exprPhis: ExprPhis)
      requires Complete(t.f.p, t.order) && t.types == types && t.start == Progress() && inserted == [] && phiNodes == []
      modifies this
      ensures |code| == |t.order| && forall j :: 0 <= j < |code| ==> code[j] == CodeAt(t, j)
      ensures exprPhis == FinalPhis(t)
    {
      hide EmitVisit, VisitAt, Complete;
      var j := 0;
      while j < |t.order|
        invariant 0 <= j <= |t.order| && |inserted| == j
        invariant Progress() == PassAt(t, j) && phiNodes == Nodes(t, j)
        invariant forall i :: 0 <= i < j ==> inserted[i] == ItemsAt(t, i)
      {
        PassStep(t, j);
        NodesStep(t, j);
        Visit(VisitOf(t.f.p, t.order[j]));
        assert inserted[j] == ItemsAt(t, j);
        j := j + 1;
      }
      var finalizer := new Finalizer(symbolicExpressions, []);
      var erased := finalizer.Finalize(phiNodes);
      exprPhis := finalizer.exprPhis;
      code := ShortCircuitExpressionUses(erased);
    }

    /** Replacing the uses of erased nodes and rewriting every recorded computation. */
    method ShortCircuitExpressionUses(erased: set<nat>) returns (code: seq<seq<Op>>)
      ensures |code| == |inserted| && forall j :: 0 <= j < |code| ==> code[j] == Finished(erased, inserted[j])
    {
      code := [];
      var k := 0;
      while k < |inserted|
        invariant 0 <= k <= |inserted| && |code| == k && forall j :: 0 <= j < k ==>
                  code[j] == Finished(erased, inserted[j])
      {
        var ops := FinishItems(ReplaceItems(erased, inserted[k]));
        code := code + [ops];
        k := k + 1;
      }
    }
  }

  function ItemsAt(t: Compilation, j: nat): seq<Item>
    requires Complete(t.f.p, t.order) && j < |t.order|
  {
    EmitVisit(t.types, PassAt(t, j), VisitOf(t.f.p, t.order[j])).items
  }

  lemma NodesStep(t: Compilation, j: nat)
    requires Complete(t.f.p, t.order) && j < |t.order|
    ensures ValidPoint(t.f.p, t.order[j])
    ensures var v := VisitOf(t.f.p, t.order[j]);
            Nodes(t, j + 1) == Nodes(t, j) + if v.VisitPhi? then [PhiNode(v.phi, PassAt(t, j).next)] else []
  {
    hide PassAt, VisitAt;
  }

  method FinishItems(items: seq<Item>) returns (ops: seq<Op>)
    ensures ops == FinishAll(items)
  {
    hide Rewritten, Inputs;
    ops := [];
    var k := 0;
    while k < |items|
      invariant 0 <= k <= |items| && |ops| == k && forall j :: 0 <= j < k ==> ops[j] == Finish(items[j])
    {
      var op := FinishItem(items[k]);
      ops := ops + [op];
      k := k + 1;
    }
  }

  /** shortCircuitExpressionUses on one item. */
  method FinishItem(item: Item) returns (op: Op)
    ensures op == Finish(item)
  {
    hide Rewritten, Inputs;
    if item.Compute? {
      var stmts: seq<Stmt> := [];
      if |item.comp| > 0 && |Inputs(item.comp, |item.comp|)| > 0 {
        stmts := Rewrite(item.comp, item.base, item.used);
      }
      op := Code(stmts);
    } else {
      op := Direct(item);
    }
  }
}
