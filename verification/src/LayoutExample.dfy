/** Why the order of visits matters: a function in static single assignment form whose
    blocks are laid out with a use before its definition. The pass visits in layout order
    and takes the operand for a concrete one, so that the expression is lost. */
module LayoutExample {
  import opened Options
  import opened BitVectors
  import opened Expressions
  import opened Ir
  import opened Concolic
  import opened SymbolicCode
  import opened Instrumentation
  import opened Emission
  import opened Scope
  import opened FunctionPass
  import opened FinalPass
  import opened CompiledRun

  const ZERO := Lit(Bv(ZERO_BYTE))
  const DEFINITION := BinInstr(1, Add, Var(0), ZERO)
  const USE := BinInstr(2, Add, Var(1), ZERO)
  const ENTRY := Block([], [], Jump(2))
  const USING := Block([], [USE], Ret(Var(2)))
  const DEFINING := Block([], [DEFINITION], Jump(1))
  const PROGRAM := Program(map[0 := ENTRY, 1 := USING, 2 := DEFINING], true)
  const FUNC := Func(PROGRAM, 0, {0})

  /** Blocks 0, 1, 2 in this order. */
  const JOB := Compilation(FUNC, map[0 := 8, 1 := 8, 2 := 8],
                           [Point(0, 0), Point(1, 0), Point(1, 1), Point(2, 0), Point(2, 1)],
                           Pass(map[0 := ExprReg(0)], 1))

  lemma Positions()
    ensures Length(ENTRY) == 1 && VisitAt(ENTRY, 0) == VisitTerm(Jump(2))
    ensures Length(USING) == 2 && VisitAt(USING, 0) == VisitInstr(USE) && VisitAt(USING, 1) == VisitTerm(Ret(Var(2)))
    ensures Length(DEFINING) == 2 && VisitAt(DEFINING, 0) == VisitInstr(DEFINITION)
    ensures VisitAt(DEFINING, 1) == VisitTerm(Jump(1))
  {
  }

  lemma Unique()
    ensures UniqueDefs(FUNC)
  {
    Positions();
    forall b, n: nat | Defines(PROGRAM, b, n)
      ensures n == 0 && (b == 1 || b == 2) && DefOf(VisitAt(PROGRAM.blocks[b], n)) == Some(3 - b)
    {
    }
  }

  /** Block 2 dominates block 1. */
  lemma DefinitionDominates()
    ensures InScope(FUNC, 1, 0, 1)
  {
    Positions();
    forall path: seq<Label> | Path(FUNC, path) && path[|path| - 1] == 1
      ensures DefinedOn(FUNC, path, 0, 1)
    {
      var k := |path| - 2;
      assert Edge(PROGRAM, path[k], path[k + 1]);
      assert path[k] == 2;
      assert DefOf(VisitAt(DEFINING, 0)) == Some(1);
      assert DefinedThrough(PROGRAM, path[k], 1);
    }
  }

  lemma SingleAssignment()
    ensures Ssa(FUNC)
  {
    hide UniqueDefs, InScope;
    Positions();
    Unique();
    DefinitionDominates();
    assert InScope(FUNC, 2, 0, 0) by { ParamScope(); }
  }

  lemma ParamScope()
    ensures InScope(FUNC, 2, 0, 0)
  {
  }

  lemma Ordered()
    ensures Complete(PROGRAM, JOB.order)
  {
    Positions();
  }

  /** What the pass knows at the end. */
  lemma Lost()
    requires Complete(PROGRAM, JOB.order)
    ensures FinalSym(JOB).Keys == {0, 1}
  {
    Positions();
    hide Inputs;
    assert PassAt(JOB, 0) == JOB.start;
    assert PassAt(JOB, 1) == JOB.start;
    assert PassAt(JOB, 2) == JOB.start;
    assert PassAt(JOB, 3) == JOB.start;
    assert PassAt(JOB, 4).sym.Keys == {0, 1};
    assert PassAt(JOB, 5).sym == PassAt(JOB, 4).sym;
  }

  lemma Jumps(input: Input, s: Sym, b: Label)
    requires (b == 0 && s.c.ctl == Running(0, 0)) || (b == 2 && s.c.ctl == Running(2, 1))
    ensures var s' := SymStep(PROGRAM, input, s);
            s'.c.ctl == Running(if b == 0 then 2 else 1, 0) && s'.exprs == s.exprs && s'.c.regs == s.c.regs
  {
  }

  lemma Computes(input: Input, s: Sym, b: Label, i: Instr)
    requires s.c.ctl == Running(b, 0) && ((b == 1 && i == USE) || (b == 2 && i == DEFINITION))
    requires i.a.reg in s.c.regs && i.a.reg in s.exprs && s.c.regs[i.a.reg].Bv? && |s.c.regs[i.a.reg].bits| == 8
    ensures var s' := SymStep(PROGRAM, input, s);
            s'.c.ctl == Running(b, 1) && s'.exprs.Keys == s.exprs.Keys + {i.dst}
            && i.dst in s'.c.regs && s'.c.regs[i.dst].Bv? && |s'.c.regs[i.dst].bits| == 8
  {
    hide Apply, ValueExpr;
    assert Get(s.c.regs, i.a) == Some(s.c.regs[i.a.reg]) && Get(s.c.regs, i.b) == Some(Bv(ZERO_BYTE));
    assert ResultExpr(PROGRAM, s, i).Some?;
  }

  lemma Symbolic(x: Byte, input: Input)
    ensures var s := Sym(State(Running(0, 0), map[0 := Bv(x)], map[], 0), map[0 := InputByte(0)], map[], []);
            var s' := SymFrom(PROGRAM, input, s, 4);
            s'.c.ctl == Running(1, 1) && s'.exprs.Keys == {0, 1, 2}
  {
    hide SymStep;
    var s := Sym(State(Running(0, 0), map[0 := Bv(x)], map[], 0), map[0 := InputByte(0)], map[], []);
    var s1 := SymStep(PROGRAM, input, s);
    var s2 := SymStep(PROGRAM, input, s1);
    var s3 := SymStep(PROGRAM, input, s2);
    Jumps(input, s, 0);
    Computes(input, s1, 2, DEFINITION);
    Jumps(input, s2, 2);
    Computes(input, s3, 1, USE);
    assert SymFrom(PROGRAM, input, s, 0) == s;
    assert SymFrom(PROGRAM, input, s, 1) == s1;
    assert SymFrom(PROGRAM, input, s, 2) == s2;
    assert SymFrom(PROGRAM, input, s, 3) == s3;
  }

  lemma UseFirst()
    requires Complete(PROGRAM, JOB.order) && FinalSym(JOB).Keys == {0, 1}
    ensures !LateUntracked(JOB)
  {
    hide FinalSym;
    Positions();
    assert 1 in FinalSym(JOB);
    assert UsedBy(VisitOf(PROGRAM, JOB.order[1]), Var(1)) && DefOf(VisitOf(PROGRAM, JOB.order[3])) == Some(1);
  }

  lemma Untracked(env: Env, exprs: Exprs)
    requires Complete(PROGRAM, JOB.order) && FinalSym(JOB).Keys == {0, 1} && 2 in exprs
    ensures !Known(CleanSym(JOB), env, exprs, Var(2))
  {
    hide FinalSym;
  }

  lemma UseInScope()
    ensures InScope(FUNC, 1, 1, 2) && Reachable(FUNC, 1)
  {
    Positions();
    DefinedNow(FUNC, 1, 0, 2);
    var path := [0, 2, 1];
    assert Path(FUNC, path) && path[|path| - 1] == 1;
  }

  /** In this layout the finished code has no expression for a symbolic value in scope. */
  lemma ExpressionLost(x: Byte, input: Input, w: World)
    ensures Ssa(FUNC) && Complete(PROGRAM, JOB.order) && !LateUntracked(JOB)
    ensures InScope(FUNC, 1, 1, 2) && Reachable(FUNC, 1)
    ensures var s := Sym(State(Running(0, 0), map[0 := Bv(x)], map[], 0), map[0 := InputByte(0)], map[], []);
            var s' := SymFrom(PROGRAM, input, s, 4);
            s'.c.ctl == Running(1, 1) && 2 in s'.exprs && !Known(CleanSym(JOB), w.m.env, s'.exprs, Var(2))
            && !Simulated(JOB, w, s')
  {
    hide Ssa, FinalSym, SymFrom, Complete, LateUntracked, Known, CleanSym, InScope, Reachable;
    SingleAssignment();
    Ordered();
    Lost();
    UseFirst();
    UseInScope();
    Symbolic(x, input);
    var s := Sym(State(Running(0, 0), map[0 := Bv(x)], map[], 0), map[0 := InputByte(0)], map[], []);
    var s' := SymFrom(PROGRAM, input, s, 4);
    Untracked(w.m.env, s'.exprs);
    NotPlaced(w, s');
  }

  lemma NotPlaced(w: World, s: Sym)
    requires Complete(PROGRAM, JOB.order) && s.c.ctl == Running(1, 1) && InScope(FUNC, 1, 1, 2)
    requires !Known(CleanSym(JOB), w.m.env, s.exprs, Var(2))
    ensures !Simulated(JOB, w, s)
  {
    hide CleanSym, InScope, Known;
    assert |USING.phis| + 1 == 1;
  }
}
