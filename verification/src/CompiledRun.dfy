/** The finished function at run time: the code that the pass leaves behind, executed beside
    the program, simulates the instrumented execution for any number of steps. */
module CompiledRun {
  import opened Options
  import opened Expressions
  import opened FlatMemory
  import opened Ir
  import opened Concolic
  import opened SymbolicCode
  import opened CodeFrame
  import opened PhiFinalization
  import opened Instrumentation
  import opened Recording
  import opened Emission
  import opened LateOperands
  import opened Scope
  import opened FunctionPass
  import opened FinalPass
  import opened Typing

  // ----- execution -----

  function IndexOf(order: seq<Point>, pt: Point): (j: nat)
    requires pt in order
    ensures j < |order| && order[j] == pt
  {
    if order[0] == pt then 0 else 1 + IndexOf(order[1..], pt)
  }

  /** The visit of a point of the function. */
  function At(t: Compilation, b: Label, n: nat): (j: nat)
    requires Complete(t.f.p, t.order) && b in t.f.p.blocks && n < Length(t.f.p.blocks[b])
    ensures j < |t.order| && t.order[j] == Point(b, n)
  {
    IndexOf(t.order, Point(b, n))
  }

  /** The expression PHI nodes of a block. */
  function BlockNodes(t: Compilation, b: Label): (r: seq<PhiNode>)
    requires Complete(t.f.p, t.order) && b in t.f.p.blocks
    ensures |r| == |t.f.p.blocks[b].phis|
  {
    var phis := t.f.p.blocks[b].phis;
    seq(|phis|, k requires 0 <= k < |phis| => PhiNode(phis[k], PassAt(t, At(t, b, k)).next))
  }

  /** The jump reads the expression PHI nodes of the block it leads to. */
  function EnterBlock(t: Compilation, w: World, from: Label, c: State): World
    requires Complete(t.f.p, t.order)
  {
    if c.ctl.Running? && c.ctl.block in t.f.p.blocks
    then w.(m := w.m.(env := EnterEnv(BlockNodes(t, c.ctl.block), FinalPhis(t), from, w.m.env, w.m.env)))
    else w
  }

  function CompiledStep(t: Compilation, input: Input, w: World, c: State): World
    requires Complete(t.f.p, t.order)
  {
    match c.ctl
    case Running(b, pc) =>
      if b !in t.f.p.blocks then w
      else
        var blk := t.f.p.blocks[b];
        if pc < |blk.body| then ExecOps(t.f.p, input, CodeAt(t, At(t, b, |blk.phis| + pc)), w, c)
        else
          var w1 := ExecOps(t.f.p, input, CodeAt(t, At(t, b, |blk.phis| + |blk.body|)), w, c);
          EnterBlock(t, w1, b, Terminate(t.f.p, c, b, blk.term))
    case _ => w
  }

  function CompiledAfter(t: Compilation, input: Input, w: World, c: State, k: nat): World
    requires Complete(t.f.p, t.order)
  {
    if k == 0 then w else CompiledStep(t, input, CompiledAfter(t, input, w, c, k - 1), Run(t.f.p, input, c, k - 1))
  }

  /** The instrumented execution from any state. */
  function SymFrom(p: Program, input: Input, s: Sym, k: nat): Sym
  {
    if k == 0 then s else SymStep(p, input, SymFrom(p, input, s, k - 1))
  }

  // ----- the invariant -----

  /** Every register in scope has its expression where the finished code looks for it. */
  ghost predicate ScopeKnown(t: Compilation, env: Env, exprs: Exprs, b: Label, n: nat)
    requires Complete(t.f.p, t.order)
  {
    forall r: Reg :: InScope(t.f, b, n, r) ==> Known(CleanSym(t), env, exprs, Var(r))
  }

  ghost predicate Placed(t: Compilation, w: World, s: Sym, b: Label, pc: nat)
    requires Complete(t.f.p, t.order)
  {
    && b in t.f.p.blocks && pc <= |t.f.p.blocks[b].body| && Reachable(t.f, b) && RegsTyped(t.types, s.c.regs)
    && ScopeKnown(t, w.m.env, s.exprs, b, |t.f.p.blocks[b].phis| + pc)
  }

  /** The finished code's state is that of the instrumented execution. */
  ghost predicate Simulated(t: Compilation, w: World, s: Sym)
    requires Complete(t.f.p, t.order)
  {
    && w.shadow == s.shadow && PathOf(w.m.log) == s.path && !w.m.crashed
    && (s.c.ctl.Running? ==> Placed(t, w, s, s.c.ctl.block, s.c.ctl.pc))
  }

  // ----- one instruction -----

  lemma SameOperand(t: Compilation, j: nat, r: Reg)
    requires Complete(t.f.p, t.order) && j <= |t.order| && Same(PassAt(t, j).sym, FinalSym(t), r)
    ensures OperandOf(CleanPass(t, j).sym, Var(r)) == OperandOf(CleanSym(t), Var(r))
  {
    hide PassAt, ErasedNodes, FinalSym, ReplaceSym;
    OperandReplaced(ErasedNodes(t), PassAt(t, j).sym, Var(r));
    OperandReplaced(ErasedNodes(t), FinalSym(t), Var(r));
  }

  /** What a visited instruction reads is known, or the pass did not know of it yet. */
  lemma UseKnown(t: Compilation, env: Env, exprs: Exprs, j: nat, o: Operand)
    requires Valid(t) && j < |t.order| && UsedBy(VisitOf(t.f.p, t.order[j]), o)
    requires ScopeKnown(t, env, exprs, t.order[j].block, t.order[j].pos)
    ensures KnownOrLate(CleanPass(t, j).sym, env, exprs, Late(t, j), o)
  {
    hide PassAt, ErasedNodes, UsedBy, VisitAt, ReplaceSym, FinalSym, UniqueDefs, IncomingDominated, InScope, SymBelow;
    if o.Var? {
      assert InScope(t.f, t.order[j].block, t.order[j].pos, o.reg);
      OperandReplaced(ErasedNodes(t), PassAt(t, j).sym, o);
      if o.reg !in Late(t, j) {
        FinalOrLate(t, j, o.reg);
        SameOperand(t, j, o.reg);
      }
    }
  }

  /** The instrumented state as the code of visit `j` sees it. */
  function Seen(t: Compilation, j: nat, s: Sym): Sym
    requires Complete(t.f.p, t.order) && j <= |t.order|
  {
    Forget(s, Late(t, j))
  }

  lemma CleanBelow(t: Compilation, j: nat)
    requires Valid(t) && j <= |t.order|
    ensures SymBelow(CleanPass(t, j).sym, CleanPass(t, j).next)
  {
    hide PassAt, ErasedNodes, Ssa, Complete;
    SymsBelow(t, j);
  }

  /** A register in scope before a visit, and still there after it. */
  lemma KnownStays(t: Compilation, env: Env, env': Env, exprs: Exprs, j: nat, r: Reg)
    requires Valid(t) && j < |t.order| && Reachable(t.f, t.order[j].block)
    requires InScope(t.f, t.order[j].block, t.order[j].pos, r) && Known(CleanSym(t), env, exprs, Var(r))
    requires KeepsOutside(env, env', PassAt(t, j).next, PassAt(t, j + 1).next)
    ensures Known(CleanSym(t), env', exprs, Var(r))
  {
    hide PassAt, ErasedNodes, Ssa, Complete, ReplaceSym, FinalSym, InScope, Reachable, SymBelow;
    OperandReplaced(ErasedNodes(t), FinalSym(t), Var(r));
    var o := OperandOf(FinalSym(t), Var(r));
    if o.ExprReg? {
      NotOverwritten(t, j, r, o.reg);
    }
  }

  lemma InstrScope(t: Compilation, env: Env, env': Env, exprs: Exprs, exprs': Exprs, j: nat)
    requires Valid(t) && j < |t.order| && Reachable(t.f, t.order[j].block)
    requires ScopeKnown(t, env, exprs, t.order[j].block, t.order[j].pos)
    requires KeepsOutside(env, env', PassAt(t, j).next, PassAt(t, j + 1).next)
    requires forall r: Reg :: DefOf(VisitOf(t.f.p, t.order[j])) != Some(r) ==> RegExpr(exprs', r) == RegExpr(exprs, r)
    requires DefOf(VisitOf(t.f.p, t.order[j])).Some? ==>
               Known(CleanPass(t, j + 1).sym, env', exprs', Var(DefOf(VisitOf(t.f.p, t.order[j])).value))
    ensures ScopeKnown(t, env', exprs', t.order[j].block, t.order[j].pos + 1)
  {
    hide PassAt, ErasedNodes, Ssa, ReplaceSym, FinalSym, InScope, Reachable, SymBelow, DefOf, VisitAt, KeepsOutside,
         CleanPass, CleanSym, RegExpr;
    var pt := t.order[j];
    var v := VisitOf(t.f.p, pt);
    forall r: Reg | InScope(t.f, pt.block, pt.pos + 1, r)
      ensures Known(CleanSym(t), env', exprs', Var(r))
    {
      if DefOf(v) == Some(r) {
        FinalAfter(t, j, r);
        SameOperand(t, j + 1, r);
      } else {
        InScopeBefore(t.f, pt.block, pt.pos, pt.pos + 1, r);
        KnownStays(t, env, env', exprs, j, r);
        SameExpr(t, env', exprs, exprs', r);
      }
    }
  }

  lemma SameExpr(t: Compilation, env: Env, exprs: Exprs, exprs': Exprs, r: Reg)
    requires Complete(t.f.p, t.order) && Known(CleanSym(t), env, exprs, Var(r))
    requires RegExpr(exprs', r) == RegExpr(exprs, r)
    ensures Known(CleanSym(t), env, exprs', Var(r))
  {
    hide CleanSym;
  }

  lemma SymExecExprs(p: Program, input: Input, s: Sym, i: Instr, r: Reg)
    requires Dst(i) != Some(r)
    ensures RegExpr(SymExec(p, input, s, i).exprs, r) == RegExpr(s.exprs, r)
  {
    hide Exec, Pushes, ResultExpr, ResultShadow, Dst;
  }

  /** What the code of an instruction has left behind, operands visited too late included. */
  ghost predicate Left(t: Compilation, input: Input, w: World, s: Sym, j: nat, i: Instr)
    requires Complete(t.f.p, t.order) && j < |t.order|
  {
    var u, w' := Seen(t, j, s), ExecOps(t.f.p, input, CodeAt(t, j), w, s.c);
    && KeepsOutside(w.m.env, w'.m.env, PassAt(t, j).next, PassAt(t, j + 1).next) && !w'.m.crashed
    && PathOf(w'.m.log) == s.path + Pushes(u, i) && w'.shadow == ResultShadow(t.f.p, input, u, i)
    && (Dst(i).Some? ==>
          Look(w'.m.env, OperandOf(CleanPass(t, j + 1).sym, Var(Dst(i).value))) == ResultExpr(t.f.p, u, i))
  }

  lemma InstrLeft(t: Compilation, input: Input, w: World, s: Sym, b: Label, pc: nat)
    requires Valid(t) && ProgramTyped(t.types, t.f.p) && Simulated(t, w, s)
    requires s.c.ctl == Running(b, pc) && b in t.f.p.blocks && pc < |t.f.p.blocks[b].body|
    requires !Exec(t.f.p, input, s.c, t.f.p.blocks[b].body[pc]).ctl.Fault?
    ensures Left(t, input, w, s, At(t, b, |t.f.p.blocks[b].phis| + pc), t.f.p.blocks[b].body[pc])
    ensures RegsTyped(t.types, Exec(t.f.p, input, s.c, t.f.p.blocks[b].body[pc]).regs)
  {
    hide Valid, PassAt, ErasedNodes, ScopeKnown, Exec, CodeAt, Known, RegsTyped, InstrTyped, EmitInstr, ExecOps, PathOf,
         Uses, CleanPass, Pushes, SymBelow, KeepsOutside, Reachable, KnownOrLate, Late, ResultExpr, ResultShadow,
         Forget;
    ValidIs(t);
    var blk := t.f.p.blocks[b];
    var i, n := blk.body[pc], |blk.phis| + pc;
    var j := At(t, b, n);
    assert VisitOf(t.f.p, t.order[j]) == VisitInstr(i);
    forall o: Operand | Uses(i, o)
      ensures KnownOrLate(CleanPass(t, j).sym, w.m.env, s.exprs, Late(t, j), o)
    {
      UseKnown(t, w.m.env, s.exprs, j, o);
    }
    CleanBelow(t, j);
    assert InstrTyped(t.types, i);
    CastTypedIs(t.types, s.c.regs, i);
    ExecTyped(t.types, t.f.p, input, s.c, i);
    DstNew(t, j, i);
    LateCode(t.f.p, input, t.types, CleanPass(t, j), w, s, Late(t, j), i);
    CodeIsClean(t, j);
    CleanNext(t, j);
    CleanNext(t, j + 1);
  }

  /** Seen from the code, the instruction does what it does. */
  ghost predicate InstrUnharmed(t: Compilation, input: Input, s: Sym, j: nat, i: Instr)
    requires Complete(t.f.p, t.order) && j < |t.order|
  {
    SameStep(t.f.p, input, s, Seen(t, j, s), i)
  }

  lemma LeftExprs(t: Compilation, input: Input, w: World, s: Sym, j: nat, i: Instr)
    requires Valid(t) && j < |t.order| && Left(t, input, w, s, j, i) && !Exec(t.f.p, input, s.c, i).ctl.Fault?
    requires VisitOf(t.f.p, t.order[j]) == VisitInstr(i) && Dst(i).Some?
    ensures var w', d := ExecOps(t.f.p, input, CodeAt(t, j), w, s.c), Dst(i).value;
            Known(CleanSym(t), w'.m.env, SymExec(t.f.p, input, s, i).exprs, Var(d))
            <==> ResultExpr(t.f.p, Seen(t, j, s), i) == ResultExpr(t.f.p, s, i)
  {
    hide Ssa, PassAt, ErasedNodes, CodeAt, ExecOps, PathOf, Exec, Pushes, ResultExpr, ResultShadow, Forget, Late,
         SymBelow, KeepsOutside, VisitAt, CleanPass, CleanSym, Dst;
    var d := Dst(i).value;
    FinalAfter(t, j, d);
    SameOperand(t, j + 1, d);
  }

  /** After an instruction the state is simulated if the instruction is unharmed. */
  lemma InstrSimulated(t: Compilation, input: Input, w: World, s: Sym, b: Label, pc: nat)
    requires Valid(t) && ProgramTyped(t.types, t.f.p) && Simulated(t, w, s)
    requires s.c.ctl == Running(b, pc) && b in t.f.p.blocks && pc < |t.f.p.blocks[b].body|
    requires !Exec(t.f.p, input, s.c, t.f.p.blocks[b].body[pc]).ctl.Fault?
    requires InstrUnharmed(t, input, s, At(t, b, |t.f.p.blocks[b].phis| + pc), t.f.p.blocks[b].body[pc])
    ensures var j, s' := At(t, b, |t.f.p.blocks[b].phis| + pc), SymExec(t.f.p, input, s, t.f.p.blocks[b].body[pc]);
            var w' := ExecOps(t.f.p, input, CodeAt(t, j), w, s.c);
            w'.shadow == s'.shadow && PathOf(w'.m.log) == s'.path && !w'.m.crashed
            && RegsTyped(t.types, s'.c.regs) && ScopeKnown(t, w'.m.env, s'.exprs, b, |t.f.p.blocks[b].phis| + (pc + 1))
  {
    hide Valid, PassAt, ErasedNodes, ScopeKnown, Exec, CodeAt, Known, RegsTyped, ExecOps, PathOf, CleanPass, Pushes,
         KeepsOutside, Reachable, Late, ResultExpr, ResultShadow, Forget, ProgramTyped;
    ValidIs(t);
    InstrLeft(t, input, w, s, b, pc);
    var blk := t.f.p.blocks[b];
    var i, j := blk.body[pc], At(t, b, |blk.phis| + pc);
    var w', s' := ExecOps(t.f.p, input, CodeAt(t, j), w, s.c), SymExec(t.f.p, input, s, i);
    assert VisitOf(t.f.p, t.order[j]) == VisitInstr(i);
    SymExecState(t.f.p, input, s, i);
    forall r: Reg | DefOf(VisitOf(t.f.p, t.order[j])) != Some(r)
      ensures RegExpr(s'.exprs, r) == RegExpr(s.exprs, r)
    {
      SymExecExprs(t.f.p, input, s, i, r);
    }
    assert Dst(i).Some? ==> Known(CleanPass(t, j + 1).sym, w'.m.env, s'.exprs, Var(Dst(i).value)) by {
      if Dst(i).Some? {
        KnownIs(CleanPass(t, j + 1).sym, w'.m.env, s'.exprs, Dst(i).value);
      }
    }
    InstrScope(t, w.m.env, w'.m.env, s.exprs, s'.exprs, j);
  }

  lemma DefinedNow(f: Func, b: Label, n: nat, r: Reg)
    requires b in f.p.blocks && n < Length(f.p.blocks[b]) && DefOf(VisitAt(f.p.blocks[b], n)) == Some(r)
    ensures InScope(f, b, n + 1, r)
  {
    hide VisitAt, DefOf;
    assert DefinedIn(f.p, b, n + 1, r);
  }

  /** And only then. */
  lemma InstrHarmed(t: Compilation, input: Input, w: World, s: Sym, b: Label, pc: nat)
    requires Valid(t) && ProgramTyped(t.types, t.f.p) && Simulated(t, w, s)
    requires s.c.ctl == Running(b, pc) && b in t.f.p.blocks && pc < |t.f.p.blocks[b].body|
    requires !Exec(t.f.p, input, s.c, t.f.p.blocks[b].body[pc]).ctl.Fault?
    requires var j, s' := At(t, b, |t.f.p.blocks[b].phis| + pc), SymExec(t.f.p, input, s, t.f.p.blocks[b].body[pc]);
             var w' := ExecOps(t.f.p, input, CodeAt(t, j), w, s.c);
             w'.shadow == s'.shadow && PathOf(w'.m.log) == s'.path
             && ScopeKnown(t, w'.m.env, s'.exprs, b, |t.f.p.blocks[b].phis| + (pc + 1))
    ensures InstrUnharmed(t, input, s, At(t, b, |t.f.p.blocks[b].phis| + pc), t.f.p.blocks[b].body[pc])
  {
    hide Valid, PassAt, ErasedNodes, Exec, CodeAt, Known, RegsTyped, ExecOps, PathOf, InScope, CleanPass, Pushes,
         KeepsOutside, Reachable, Late, ResultExpr, ResultShadow, Forget, ProgramTyped, CleanSym;
    ValidIs(t);
    InstrLeft(t, input, w, s, b, pc);
    var blk := t.f.p.blocks[b];
    var i, n := blk.body[pc], |blk.phis| + pc;
    var j := At(t, b, n);
    assert VisitOf(t.f.p, t.order[j]) == VisitInstr(i) == VisitAt(blk, n);
    SymExecState(t.f.p, input, s, i);
    SameTail(s.path, Pushes(Seen(t, j, s), i), Pushes(s, i));
    if Dst(i).Some? {
      DefinedNow(t.f, b, n, Dst(i).value);
      LeftExprs(t, input, w, s, j, i);
    }
  }

  lemma KnownIs(sym: SymbolicExpressions, env: Env, exprs: Exprs, r: Reg)
    ensures Known(sym, env, exprs, Var(r)) <==> Look(env, OperandOf(sym, Var(r))) == RegExpr(exprs, r)
  {
  }

  lemma ValidIs(t: Compilation)
    requires Valid(t)
    ensures Complete(t.f.p, t.order)
  {
  }

  lemma CleanNext(t: Compilation, j: nat)
    requires Complete(t.f.p, t.order) && j <= |t.order|
    ensures CleanPass(t, j).next == PassAt(t, j).next
  {
  }

  lemma DstNew(t: Compilation, j: nat, i: Instr)
    requires Valid(t) && j < |t.order| && VisitOf(t.f.p, t.order[j]) == VisitInstr(i)
    ensures Dst(i).Some? ==> Dst(i).value !in CleanPass(t, j).sym
  {
    hide PassAt, ErasedNodes, Dst, VisitAt, Ssa, SymBelow;
    if Dst(i).Some? {
      NotKnownBefore(t, j, Dst(i).value);
    }
  }

  // ----- one edge -----

  lemma {:induction false} PhiExprsElsewhere(phis: seq<Phi>, from: Label, before: Exprs, exprs: Exprs, r: Reg)
    requires forall k :: 0 <= k < |phis| ==> phis[k].dst != r
    ensures RegExpr(PhiExprs(phis, from, before, exprs), r) == RegExpr(exprs, r)
  {
    if |phis| > 0 {
      PhiExprsElsewhere(phis[..|phis| - 1], from, before, exprs, r);
    }
  }

  lemma {:induction false} PhiExprsAt(phis: seq<Phi>, from: Label, before: Exprs, exprs: Exprs, k: nat)
    requires k < |phis| && from in phis[k].incoming
    requires forall i, j :: 0 <= i < j < |phis| ==> phis[i].dst != phis[j].dst
    ensures RegExpr(PhiExprs(phis, from, before, exprs), phis[k].dst) == ExprOf(before, phis[k].incoming[from])
  {
    hide ExprOf;
    if k < |phis| - 1 {
      PhiExprsAt(phis[..|phis| - 1], from, before, exprs, k);
      assert phis[..|phis| - 1][k] == phis[k] && phis[|phis| - 1].dst != phis[k].dst;
    }
  }

  lemma {:induction false} PhiRegsIncoming(phis: seq<Phi>, from: Label, before: Regs, regs: Regs, k: nat)
    requires PhiRegs(phis, from, before, regs).Some? && k < |phis|
    ensures from in phis[k].incoming
  {
    if k < |phis| - 1 {
      PhiRegsIncoming(phis[..|phis| - 1], from, before, regs, k);
      assert phis[..|phis| - 1][k] == phis[k];
    }
  }

  lemma PhisDistinct(t: Compilation, c: Label)
    requires Valid(t) && c in t.f.p.blocks
    ensures var phis := t.f.p.blocks[c].phis; forall i, j :: 0 <= i < j < |phis| ==> phis[i].dst != phis[j].dst
  {
    hide UsesDominated, IncomingDominated, SymBelow, Complete;
    var phis := t.f.p.blocks[c].phis;
    forall i, j | 0 <= i < j < |phis|
      ensures phis[i].dst != phis[j].dst
    {
      assert Defines(t.f.p, c, i) && Defines(t.f.p, c, j);
      assert DefOf(VisitAt(t.f.p.blocks[c], i)) == Some(phis[i].dst);
      assert DefOf(VisitAt(t.f.p.blocks[c], j)) == Some(phis[j].dst);
    }
  }

  /** Where the pass keeps the expression of a PHI node, before any is erased. */
  lemma PhiSym(t: Compilation, c: Label, k: nat)
    requires Valid(t) && c in t.f.p.blocks && k < |t.f.p.blocks[c].phis|
    ensures VisitOf(t.f.p, t.order[At(t, c, k)]) == VisitPhi(t.f.p.blocks[c].phis[k])
    ensures OperandOf(FinalSym(t), Var(t.f.p.blocks[c].phis[k].dst)) == ExprReg(PassAt(t, At(t, c, k)).next)
  {
    hide Ssa, SymBelow, PassAt, FinalSym;
    var j := At(t, c, k);
    PassStep(t, j);
    FinalAfter(t, j, t.f.p.blocks[c].phis[k].dst);
  }

  lemma BlockNodesDistinct(t: Compilation, c: Label)
    requires Valid(t) && c in t.f.p.blocks
    ensures DistinctNodes(BlockNodes(t, c))
  {
    hide Ssa, SymBelow, PassAt, FinalSym;
    var nodes := BlockNodes(t, c);
    forall i, k | 0 <= i < k < |nodes|
      ensures nodes[i].reg != nodes[k].reg
    {
      PhiSym(t, c, i);
      PhiSym(t, c, k);
      PhiTakesOne(t, At(t, c, i));
      PhiTakesOne(t, At(t, c, k));
      if nodes[i].reg == nodes[k].reg {
        SameVisit(t, At(t, c, i), At(t, c, k), nodes[i].reg);
      }
    }
  }

  /** An operand of a PHI node is known at the end of the block it comes from. */
  lemma IncomingKnown(t: Compilation, env: Env, exprs: Exprs, b: Label, c: Label, k: nat)
    requires Valid(t) && ComesFrom(t.f.p, c, k, b) && ScopeKnown(t, env, exprs, b, Length(t.f.p.blocks[b]))
    ensures Known(CleanSym(t), env, exprs, t.f.p.blocks[c].phis[k].incoming[b])
  {
    hide UniqueDefs, UsesDominated, InScope, SymBelow, Complete, CleanSym;
    var o := t.f.p.blocks[c].phis[k].incoming[b];
    if o.Lit? {
      LiteralKnown(CleanSym(t), env, exprs, o);
    }
  }

  lemma LiteralKnown(sym: SymbolicExpressions, env: Env, exprs: Exprs, o: Operand)
    requires o.Lit?
    ensures Known(sym, env, exprs, o)
  {
  }

  /** After the jump a PHI node has the expression of the value that came in. */
  lemma PhiEntered(t: Compilation, env: Env, exprs: Exprs, b: Label, c: Label, k: nat)
    requires Valid(t) && ComesFrom(t.f.p, c, k, b) && ScopeKnown(t, env, exprs, b, Length(t.f.p.blocks[b]))
    ensures var phi := t.f.p.blocks[c].phis[k];
            Look(EnterEnv(BlockNodes(t, c), FinalPhis(t), b, env, env), OperandOf(CleanSym(t), Var(phi.dst)))
            == ExprOf(exprs, phi.incoming[b])
  {
    hide Ssa, SymBelow, PassAt, FinalSym, ScopeKnown, EnterEnv, Nodes, ReplaceSym, ReplacePhis, Filled, Erased, Look,
         ExprOf, DistinctNodes;
    var phi := t.f.p.blocks[c].phis[k];
    IncomingKnown(t, env, exprs, b, c, k);
    OperandReplaced(ErasedNodes(t), FinalSym(t), phi.incoming[b]);
    OperandReplaced(ErasedNodes(t), FinalSym(t), Var(phi.dst));
    PhiSym(t, c, k);
    NodesDistinct(t);
    BlockNodesDistinct(t, c);
    var n := NodeOf(t, |t.order|, At(t, c, k));
    FinalizeKeepsMeaning(Nodes(t, |t.order|), BlockNodes(t, c), FinalSym(t), b, env, exprs, k, n);
  }

  /** A value in scope before the PHI nodes keeps its expression. */
  lemma OtherEntered(t: Compilation, env: Env, exprs: Exprs, b: Label, c: Label, r: Reg)
    requires Valid(t) && Edge(t.f.p, b, c) && Reachable(t.f, c) && InScope(t.f, c, 0, r)
    requires ScopeKnown(t, env, exprs, b, Length(t.f.p.blocks[b]))
    ensures Known(CleanSym(t), EnterEnv(BlockNodes(t, c), FinalPhis(t), b, env, env), exprs, Var(r))
  {
    hide Ssa, SymBelow, PassAt, FinalSym, EnterEnv, Nodes, ReplaceSym, FinalPhis, ErasedNodes, Look, InScope, Reachable,
         Edge;
    InScopeEdge(t.f, b, c, r);
    assert c in t.f.p.blocks by { EdgeEnds(t.f.p, b, c); }
    assert Known(CleanSym(t), env, exprs, Var(r));
    OperandReplaced(ErasedNodes(t), FinalSym(t), Var(r));
    var nodes := BlockNodes(t, c);
    forall k | 0 <= k < |nodes|
      ensures OperandOf(FinalSym(t), Var(r)) != ExprReg(nodes[k].reg)
    {
      var o := OperandOf(FinalSym(t), Var(r));
      if o.ExprReg? {
        InScopeLater(t.f, c, 0, k, r);
        PhiSym(t, c, k);
        PhiTakesOne(t, At(t, c, k));
        NotOverwritten(t, At(t, c, k), r, o.reg);
      }
    }
    FinalizeKeepsOthers(nodes, FinalPhis(t), ErasedNodes(t), FinalSym(t), b, env, Var(r));
  }

  lemma EdgeEnds(p: Program, b: Label, c: Label)
    requires Edge(p, b, c)
    ensures b in p.blocks && c in p.blocks
  {
  }

  /** If everything in scope is known before a jump, then so it is after it. */
  lemma EdgeScope(t: Compilation, env: Env, exprs: Exprs, b: Label, c: Label)
    requires Valid(t) && Edge(t.f.p, b, c) && Reachable(t.f, c)
    requires forall k :: 0 <= k < |t.f.p.blocks[c].phis| ==> b in t.f.p.blocks[c].phis[k].incoming
    requires ScopeKnown(t, env, exprs, b, Length(t.f.p.blocks[b]))
    ensures ScopeKnown(t, EnterEnv(BlockNodes(t, c), FinalPhis(t), b, env, env),
                       PhiExprs(t.f.p.blocks[c].phis, b, exprs, exprs), c, |t.f.p.blocks[c].phis|)
  {
    hide Valid, PassAt, FinalSym, EnterEnv, CleanSym, FinalPhis, InScope, Reachable, Edge, PhiExprs, BlockNodes, Look;
    EdgeEnds(t.f.p, b, c);
    ValidIs(t);
    var phis := t.f.p.blocks[c].phis;
    var env', exprs' := EnterEnv(BlockNodes(t, c), FinalPhis(t), b, env, env), PhiExprs(phis, b, exprs, exprs);
    PhisDistinct(t, c);
    forall r: Reg | InScope(t.f, c, |phis|, r)
      ensures Known(CleanSym(t), env', exprs', Var(r))
    {
      if k :| 0 <= k < |phis| && phis[k].dst == r {
        PhiEntered(t, env, exprs, b, c, k);
        PhiExprsAt(phis, b, exprs, exprs, k);
      } else {
        assert forall k :: 0 <= k < |phis| ==> DefOf(VisitAt(t.f.p.blocks[c], k)) == Some(phis[k].dst);
        InScopeBefore(t.f, c, 0, |phis|, r);
        OtherEntered(t, env, exprs, b, c, r);
        PhiExprsElsewhere(phis, b, exprs, exprs, r);
      }
    }
  }

  // ----- terminators -----

  lemma {:induction false} CaseTargetSuccessor(values: seq<Value>, targets: seq<Label>, default: Label, v: Value)
    requires |values| == |targets|
    ensures CaseTarget(values, targets, default, v) in targets || CaseTarget(values, targets, default, v) == default
  {
    if |values| > 0 {
      CaseTargetSuccessor(values[1..], targets[1..], default, v);
    }
  }

  lemma TargetSuccessor(t: Terminator, regs: Regs)
    requires !t.Ret? && Target(t, regs).Some?
    ensures Successor(t, Target(t, regs).value)
  {
    match t
    case Switch(cond, values, targets, default) => CaseTargetSuccessor(values, targets, default, Get(regs, cond).value);
    case _ =>
  }

  /** The code before a terminator, with the constraints it pushes. */
  lemma TermCode(t: Compilation, input: Input, w: World, s: Sym, b: Label)
    requires Valid(t) && b in t.f.p.blocks && Simulated(t, w, s) && s.c.ctl == Running(b, |t.f.p.blocks[b].body|)
    requires t.f.p.blocks[b].term.CondBr? ==> Target(t.f.p.blocks[b].term, s.c.regs).Some?
    ensures var blk := t.f.p.blocks[b];
            var j := At(t, b, |blk.phis| + |blk.body|);
            var w' := ExecOps(t.f.p, input, CodeAt(t, j), w, s.c);
            w'.shadow == s.shadow && PathOf(w'.m.log) == s.path + TermPushes(Seen(t, j, s), blk.term) && !w'.m.crashed
            && ScopeKnown(t, w'.m.env, s.exprs, b, Length(blk))
  {
    hide Valid, PassAt, ErasedNodes, ScopeKnown, CodeAt, Known, RegsTyped, EmitTerm, ExecOps, PathOf, TermUses,
         CleanPass, TermPushes, SymBelow, KeepsOutside, Reachable, Target, KnownOrLate, Late, Forget;
    ValidIs(t);
    var blk := t.f.p.blocks[b];
    var n := |blk.phis| + |blk.body|;
    var j := At(t, b, n);
    assert VisitOf(t.f.p, t.order[j]) == VisitTerm(blk.term);
    forall o: Operand | TermUses(blk.term, o)
      ensures KnownOrLate(CleanPass(t, j).sym, w.m.env, s.exprs, Late(t, j), o)
    {
      UseKnown(t, w.m.env, s.exprs, j, o);
    }
    CleanBelow(t, j);
    LateTerm(t.f.p, input, CleanPass(t, j), w, s, Late(t, j), blk.term);
    CodeIsClean(t, j);
    CleanNext(t, j);
    CleanNext(t, j + 1);
    InstrScope(t, w.m.env, ExecOps(t.f.p, input, CodeAt(t, j), w, s.c).m.env, s.exprs, s.exprs, j);
  }

  ghost predicate TermUnharmed(t: Compilation, s: Sym, b: Label)
    requires Complete(t.f.p, t.order) && b in t.f.p.blocks
  {
    var blk := t.f.p.blocks[b];
    TermPushes(Seen(t, At(t, b, |blk.phis| + |blk.body|), s), blk.term) == TermPushes(s, blk.term)
  }

  lemma AllIncoming(phis: seq<Phi>, b: Label, regs: Regs)
    requires PhiRegs(phis, b, regs, regs).Some?
    ensures forall k :: 0 <= k < |phis| ==> b in phis[k].incoming
  {
    hide PhiRegs;
    forall k | 0 <= k < |phis|
      ensures b in phis[k].incoming
    {
      PhiRegsIncoming(phis, b, regs, regs, k);
    }
  }

  /** The edge that a terminator takes carries the scope along. */
  lemma TermEdge(t: Compilation, env: Env, s: Sym, b: Label)
    requires Valid(t) && b in t.f.p.blocks && Reachable(t.f, b) && !t.f.p.blocks[b].term.Ret?
    requires !Terminate(t.f.p, s.c, b, t.f.p.blocks[b].term).ctl.Fault?
    requires ScopeKnown(t, env, s.exprs, b, Length(t.f.p.blocks[b]))
    ensures Target(t.f.p.blocks[b].term, s.c.regs).Some?
    ensures var c := Target(t.f.p.blocks[b].term, s.c.regs).value;
            && c in t.f.p.blocks && Reachable(t.f, c)
            && ScopeKnown(t, EnterEnv(BlockNodes(t, c), FinalPhis(t), b, env, env),
                          PhiExprs(t.f.p.blocks[c].phis, b, s.exprs, s.exprs), c, |t.f.p.blocks[c].phis|)
  {
    hide Valid, ScopeKnown, Reachable, Target, EnterEnv, PhiExprs, PhiRegs, FinalPhis, Successor, BlockNodes;
    var c := Target(t.f.p.blocks[b].term, s.c.regs).value;
    TargetSuccessor(t.f.p.blocks[b].term, s.c.regs);
    ReachableNext(t.f, b, c);
    AllIncoming(t.f.p.blocks[c].phis, b, s.c.regs);
    EdgeScope(t, env, s.exprs, b, c);
  }

  /** The state behind a terminator, but for the constraints pushed. */
  lemma TermPlaced(t: Compilation, input: Input, w: World, s: Sym, b: Label)
    requires Valid(t) && ProgramTyped(t.types, t.f.p) && b in t.f.p.blocks && Simulated(t, w, s)
    requires s.c.ctl == Running(b, |t.f.p.blocks[b].body|) && !Terminate(t.f.p, s.c, b, t.f.p.blocks[b].term).ctl.Fault?
    ensures var blk := t.f.p.blocks[b];
            var j := At(t, b, |blk.phis| + |blk.body|);
            var w', s' := CompiledStep(t, input, w, s.c), SymTerminate(t.f.p, s, b, blk.term);
            && w'.shadow == s'.shadow && PathOf(w'.m.log) == s.path + TermPushes(Seen(t, j, s), blk.term)
            && !w'.m.crashed && (s'.c.ctl.Running? ==> Placed(t, w', s', s'.c.ctl.block, s'.c.ctl.pc))
  {
    hide Valid, PassAt, ErasedNodes, ScopeKnown, CodeAt, RegsTyped, ExecOps, PathOf, TermPushes, Reachable, Target,
         ProgramTyped, EnterEnv, PhiExprs, PhiRegs, FinalPhis, Successor, Late, Forget, Seen;
    ValidIs(t);
    var blk := t.f.p.blocks[b];
    TermCode(t, input, w, s, b);
    TerminateTyped(t.types, t.f.p, s.c, b, blk.term);
    if !blk.term.Ret? {
      var w1 := ExecOps(t.f.p, input, CodeAt(t, At(t, b, |blk.phis| + |blk.body|)), w, s.c);
      TermEdge(t, w1.m.env, s, b);
    }
  }

  /** After a terminator the state is simulated if the right constraints were pushed, and
      only then. */
  lemma TermSimulated(t: Compilation, input: Input, w: World, s: Sym, b: Label)
    requires Valid(t) && ProgramTyped(t.types, t.f.p) && b in t.f.p.blocks && Simulated(t, w, s)
    requires s.c.ctl == Running(b, |t.f.p.blocks[b].body|) && !Terminate(t.f.p, s.c, b, t.f.p.blocks[b].term).ctl.Fault?
    ensures Simulated(t, CompiledStep(t, input, w, s.c), SymTerminate(t.f.p, s, b, t.f.p.blocks[b].term))
            <==> TermUnharmed(t, s, b)
  {
    hide Valid, PathOf, TermPushes, ProgramTyped, PhiExprs, CompiledStep, Placed, Terminate, Seen;
    ValidIs(t);
    var blk := t.f.p.blocks[b];
    TermPlaced(t, input, w, s, b);
    SameTail(s.path, TermPushes(Seen(t, At(t, b, |blk.phis| + |blk.body|), s), blk.term), TermPushes(s, blk.term));
  }

  // ----- whole runs -----

  /** The step about to be executed loses nothing to operands that were visited too late. */
  ghost predicate Unharmed(t: Compilation, input: Input, s: Sym)
    requires Complete(t.f.p, t.order)
  {
    match s.c.ctl
    case Running(b, pc) =>
      b in t.f.p.blocks ==>
        var blk := t.f.p.blocks[b];
        if pc < |blk.body| then InstrUnharmed(t, input, s, At(t, b, |blk.phis| + pc), blk.body[pc])
        else TermUnharmed(t, s, b)
    case _ => true
  }

  /** One step is simulated if and only if it is unharmed. */
  lemma StepSimulated(t: Compilation, input: Input, w: World, s: Sym)
    requires Valid(t) && ProgramTyped(t.types, t.f.p) && Simulated(t, w, s) && !SymStep(t.f.p, input, s).c.ctl.Fault?
    ensures Simulated(t, CompiledStep(t, input, w, s.c), SymStep(t.f.p, input, s)) <==> Unharmed(t, input, s)
  {
    hide Valid, PassAt, ErasedNodes, ScopeKnown, CodeAt, RegsTyped, ExecOps, PathOf, Reachable, ProgramTyped, Exec,
         Terminate, SymExec, EnterBlock, InstrUnharmed, TermUnharmed;
    ValidIs(t);
    match s.c.ctl
    case Running(b, pc) =>
      if pc < |t.f.p.blocks[b].body| {
        var i := t.f.p.blocks[b].body[pc];
        SymExecState(t.f.p, input, s, i);
        ExecControl(t.f.p, input, s.c, i);
        InstrStep(t, input, w, s, b, pc);
      } else {
        TermSimulated(t, input, w, s, b);
      }
    case _ =>
  }

  lemma InstrStep(t: Compilation, input: Input, w: World, s: Sym, b: Label, pc: nat)
    requires Valid(t) && ProgramTyped(t.types, t.f.p) && Simulated(t, w, s)
    requires s.c.ctl == Running(b, pc) && b in t.f.p.blocks && pc < |t.f.p.blocks[b].body|
    requires Exec(t.f.p, input, s.c, t.f.p.blocks[b].body[pc]).ctl == s.c.ctl
    ensures Simulated(t, CompiledStep(t, input, w, s.c), SymStep(t.f.p, input, s))
            <==> InstrUnharmed(t, input, s, At(t, b, |t.f.p.blocks[b].phis| + pc), t.f.p.blocks[b].body[pc])
  {
    hide Valid, PassAt, ErasedNodes, ScopeKnown, CodeAt, RegsTyped, ExecOps, PathOf, Reachable, ProgramTyped, Exec,
         SymExec, EnterBlock, InstrUnharmed;
    ValidIs(t);
    var i := t.f.p.blocks[b].body[pc];
    SymExecState(t.f.p, input, s, i);
    if InstrUnharmed(t, input, s, At(t, b, |t.f.p.blocks[b].phis| + pc), i) {
      InstrSimulated(t, input, w, s, b, pc);
    }
    if Simulated(t, CompiledStep(t, input, w, s.c), SymStep(t.f.p, input, s)) {
      InstrHarmed(t, input, w, s, b, pc);
    }
  }

  /** An instruction moves on or faults. */
  lemma ExecControl(p: Program, input: Input, c: State, i: Instr)
    ensures Exec(p, input, c, i).ctl == c.ctl || Exec(p, input, c, i).ctl.Fault?
  {
    hide BinValue, BoolValue, CmpValue, CastValue, GepValue, LoadValue, SelectValue, StoreBits, MoveMemory, FillMemory,
         InputMemory;
  }

  lemma {:induction false} SymFromConcrete(p: Program, input: Input, s: Sym, k: nat)
    ensures SymFrom(p, input, s, k).c == Run(p, input, s.c, k)
  {
    hide Exec, Pushes, ResultExpr, ResultShadow, Terminate, TermPushes, PhiExprs;
    if k > 0 {
      SymFromConcrete(p, input, s, k - 1);
    }
  }

  /** The arguments' expressions are in place, and nothing else is claimed. */
  ghost predicate Starts(t: Compilation, w: World, s: Sym)
  {
    && s.c.ctl == Running(t.f.entry, 0) && w.shadow == s.shadow && PathOf(w.m.log) == s.path && !w.m.crashed
    && RegsTyped(t.types, s.c.regs)
    && forall r: Reg :: r in t.f.params ==> Known(t.start.sym, w.m.env, s.exprs, Var(r))
  }

  lemma EntryScope(f: Func, r: Reg)
    requires Ssa(f) && InScope(f, f.entry, 0, r)
    ensures r in f.params && Reachable(f, f.entry)
  {
    hide UniqueDefs, UsesDominated, IncomingDominated;
    assert Path(f, [f.entry]) && [f.entry][0] == f.entry;
    assert !DefinedOn(f, [f.entry], 0, r);
  }

  lemma EntryReachable(f: Func)
    requires f.entry in f.p.blocks
    ensures Reachable(f, f.entry)
  {
    assert Path(f, [f.entry]) && [f.entry][0] == f.entry;
  }

  /** What the pass knows about the arguments never changes. */
  lemma ParamKnown(t: Compilation, env: Env, exprs: Exprs, r: Reg)
    requires Valid(t) && r in t.f.params && Known(t.start.sym, env, exprs, Var(r))
    ensures Known(CleanSym(t), env, exprs, Var(r))
  {
    hide EmitVisit, VisitAt, DefOf, UsesDominated, IncomingDominated;
    forall k | 0 <= k < |t.order|
      ensures DefOf(VisitOf(t.f.p, t.order[k])) != Some(r)
    {
      if DefOf(VisitOf(t.f.p, t.order[k])) == Some(r) {
        NotKnownBefore(t, k, r);
        assert false;
      }
    }
    SymStable(t, 0, |t.order|, r);
    OperandReplaced(ErasedNodes(t), FinalSym(t), Var(r));
    var o := OperandOf(t.start.sym, Var(r));
    if o.ExprReg? {
      StartKept(t, o.reg);
    }
  }

  lemma StartKept(t: Compilation, x: nat)
    requires Complete(t.f.p, t.order) && x < t.start.next
    ensures x !in ErasedNodes(t)
  {
    hide EmitVisit, VisitAt, PassAt, Nodes, OnlyUntracked, FinalSym, Erased, Complete;
    var nodes := Nodes(t, |t.order|);
    ErasedIs(nodes, FinalSym(t), |nodes|, x);
    PassStart(t);
    if x in ErasedNodes(t) {
      var i :| 0 <= i < |nodes| && nodes[i].reg == x && OnlyUntracked(FinalSym(t), nodes[i].phi);
      var m := NodesFrom(t, |t.order|, i);
      NextGrows(t, 0, m);
      assert false;
    }
  }

  lemma PassStart(t: Compilation)
    requires Complete(t.f.p, t.order)
    ensures PassAt(t, 0) == t.start
  {
  }

  lemma StartSimulated(t: Compilation, w: World, s: Sym)
    requires Valid(t) && Starts(t, w, s)
    ensures Simulated(t, w, s)
  {
    hide PassAt, ErasedNodes, PathOf, RegsTyped, InScope, Reachable, CleanSym, UniqueDefs, UsesDominated,
         IncomingDominated, Known, SymBelow;
    EntryReachable(t.f);
    forall r: Reg | InScope(t.f, t.f.entry, 0, r)
      ensures Known(CleanSym(t), w.m.env, s.exprs, Var(r))
    {
      EntryScope(t.f, r);
      ParamKnown(t, w.m.env, s.exprs, r);
    }
  }

  /** All steps before the k-th lose nothing. */
  ghost predicate RunUnharmed(t: Compilation, input: Input, s: Sym, k: nat)
    requires Complete(t.f.p, t.order)
  {
    forall m: nat :: m < k ==> Unharmed(t, input, SymFrom(t.f.p, input, s, m))
  }

  /** The pass is exactly right on a run: for every function in static single assignment
      form, every input and number of steps, the finished code run beside the program is in
      the state of the instrumented execution all along if and only if no step is harmed by
      an operand that was visited too late. In that state, the code has pushed the same
      constraints in order, has the same shadow memory, keeps the expression of every
      register in scope, and has handed no null to a builder. */
  lemma {:induction false} PassSimulatesIff(t: Compilation, input: Input, w: World, s: Sym, k: nat)
    requires Valid(t) && ProgramTyped(t.types, t.f.p) && Starts(t, w, s)
    requires !SymFrom(t.f.p, input, s, k).c.ctl.Fault?
    ensures (forall m: nat :: m <= k ==> Simulated(t, CompiledAfter(t, input, w, s.c, m), SymFrom(t.f.p, input, s, m)))
            <==> RunUnharmed(t, input, s, k)
  {
    hide Valid, Simulated, CompiledStep, SymStep, ProgramTyped, Starts, Run, Unharmed;
    ValidIs(t);
    if k == 0 {
      StartSimulated(t, w, s);
    } else {
      var before := SymFrom(t.f.p, input, s, k - 1);
      FaultStays(t.f.p, input, before);
      PassSimulatesIff(t, input, w, s, k - 1);
      SymFromConcrete(t.f.p, input, s, k - 1);
      var w1 := CompiledAfter(t, input, w, s.c, k - 1);
      assert CompiledAfter(t, input, w, s.c, k) == CompiledStep(t, input, w1, before.c);
      assert SymFrom(t.f.p, input, s, k) == SymStep(t.f.p, input, before);
      if Simulated(t, w1, before) {
        StepSimulated(t, input, w1, before);
      }
    }
  }

  /** If no late value ends up with an expression, no step of any run is harmed. */
  lemma NothingLate(t: Compilation, input: Input, s: Sym)
    requires Valid(t) && LateUntracked(t)
    ensures Unharmed(t, input, s)
  {
    hide PassAt, ErasedNodes, SymBelow, Ssa, Late, SameStep, TermPushes, VisitAt;
    match s.c.ctl
    case Running(b, pc) =>
      if b in t.f.p.blocks {
        var blk := t.f.p.blocks[b];
        if pc < |blk.body| {
          InstrNothingLate(t, input, s, b, pc);
        } else {
          TermNothingLate(t, s, b);
        }
      }
    case _ =>
  }

  lemma SeenOperand(t: Compilation, j: nat, s: Sym, o: Operand)
    requires Valid(t) && LateUntracked(t) && j < |t.order| && UsedBy(VisitOf(t.f.p, t.order[j]), o)
    ensures ExprOf(Seen(t, j, s).exprs, o) == ExprOf(s.exprs, o)
  {
    hide PassAt, UsedBy, VisitAt, Ssa, SymBelow, FinalSym, LateUntracked;
    if o.Var? {
      FinalAtUse(t, j, o.reg);
    }
  }

  lemma InstrNothingLate(t: Compilation, input: Input, s: Sym, b: Label, pc: nat)
    requires Valid(t) && LateUntracked(t) && b in t.f.p.blocks && pc < |t.f.p.blocks[b].body|
    ensures InstrUnharmed(t, input, s, At(t, b, |t.f.p.blocks[b].phis| + pc), t.f.p.blocks[b].body[pc])
  {
    hide PassAt, Ssa, SymBelow, FinalSym, LateUntracked, ExprOf, Uses, Late, SameStep;
    var i, j := t.f.p.blocks[b].body[pc], At(t, b, |t.f.p.blocks[b].phis| + pc);
    assert VisitOf(t.f.p, t.order[j]) == VisitInstr(i);
    forall o: Operand | Uses(i, o)
      ensures ExprOf(Seen(t, j, s).exprs, o) == ExprOf(s.exprs, o)
    {
      SeenOperand(t, j, s, o);
    }
    ForgetKeeps(s, Late(t, j));
    SameOperands(t.f.p, input, s, Seen(t, j, s), i);
  }

  lemma TermNothingLate(t: Compilation, s: Sym, b: Label)
    requires Valid(t) && LateUntracked(t) && b in t.f.p.blocks
    ensures TermUnharmed(t, s, b)
  {
    hide PassAt, Ssa, SymBelow, FinalSym, LateUntracked, ExprOf, Late;
    var blk := t.f.p.blocks[b];
    var j := At(t, b, |blk.phis| + |blk.body|);
    assert VisitOf(t.f.p, t.order[j]) == VisitTerm(blk.term);
    forall o: Operand | TermUses(blk.term, o)
      ensures ExprOf(Seen(t, j, s).exprs, o) == ExprOf(s.exprs, o)
    {
      SeenOperand(t, j, s, o);
    }
    ForgetKeeps(s, Late(t, j));
    match blk.term
    case CondBr(cond, _, _) => assert TermUses(blk.term, cond);
    case Switch(cond, _, _, _) => assert TermUses(blk.term, cond);
    case _ =>
  }

  lemma NeverHarmed(t: Compilation, input: Input, s: Sym, k: nat)
    requires Valid(t) && LateUntracked(t)
    ensures RunUnharmed(t, input, s, k)
  {
    hide LateUntracked, SymFrom, Unharmed, Ssa, Complete;
    forall m: nat | m < k
      ensures Unharmed(t, input, SymFrom(t.f.p, input, s, m))
    {
      NothingLate(t, input, SymFrom(t.f.p, input, s, m));
    }
  }

  /** The pass is right for every layout in which no late value ends up with an expression:
      on every input and after every number of steps. */
  lemma PassSimulates(t: Compilation, input: Input, w: World, s: Sym, k: nat)
    requires Valid(t) && LateUntracked(t) && ProgramTyped(t.types, t.f.p) && Starts(t, w, s)
    requires !SymFrom(t.f.p, input, s, k).c.ctl.Fault?
    ensures Simulated(t, CompiledAfter(t, input, w, s.c, k), SymFrom(t.f.p, input, s, k))
  {
    hide Valid, LateUntracked, Simulated, CompiledAfter, SymFrom, ProgramTyped, Starts, Unharmed;
    ValidIs(t);
    NeverHarmed(t, input, s, k);
    PassSimulatesIff(t, input, w, s, k);
  }

  lemma FaultStays(p: Program, input: Input, s: Sym)
    ensures s.c.ctl.Fault? ==> SymStep(p, input, s).c.ctl.Fault?
  {
  }
}
