/** A loop that accumulates a symbolic argument, as an instance of the pass theorem: the
    body is entered again while its result still has the expression of the last round. */
module LoopExample {
  import opened Options
  import opened BitVectors
  import opened Expressions
  import opened Ir
  import opened Concolic
  import opened SymbolicCode
  import opened Emission
  import opened Scope
  import opened FunctionPass
  import opened Typing
  import opened CompiledRun

  const BODY := BinInstr(2, Add, Var(1), Var(0))

  const LOOP := Block([Phi(1, map[0 := Lit(Bv(ZERO_BYTE)), 1 := Var(2)])], [BODY], Jump(1))

  const ENTRY := Block([], [], Jump(1))

  const PROGRAM := Program(map[0 := ENTRY, 1 := LOOP], true)

  const FUNC := Func(PROGRAM, 0, {0})

  const JOB := Compilation(FUNC, map[0 := 8, 1 := 8, 2 := 8], [Point(0, 0), Point(1, 0), Point(1, 1), Point(1, 2)],
                           Pass(map[0 := ExprReg(0)], 1))

  lemma Positions()
    ensures Length(ENTRY) == 1 && VisitAt(ENTRY, 0) == VisitTerm(Jump(1))
    ensures Length(LOOP) == 3 && VisitAt(LOOP, 0) == VisitPhi(LOOP.phis[0])
    ensures VisitAt(LOOP, 1) == VisitInstr(BODY) && VisitAt(LOOP, 2) == VisitTerm(Jump(1))
  {
  }

  lemma LoopUnique()
    ensures UniqueDefs(FUNC)
  {
    Positions();
    forall b, n: nat | Defines(PROGRAM, b, n)
      ensures b == 1 && (n == 0 || n == 1) && DefOf(VisitAt(PROGRAM.blocks[b], n)) == Some(n + 1)
    {
    }
  }

  lemma LoopScope()
    ensures InScope(FUNC, 1, 1, 1) && InScope(FUNC, 1, 3, 2)
  {
    hide Path;
    Positions();
    assert DefOf(VisitAt(LOOP, 0)) == Some(1) && DefOf(VisitAt(LOOP, 1)) == Some(2);
    assert DefinedIn(PROGRAM, 1, 1, 1) && DefinedIn(PROGRAM, 1, 3, 2);
  }

  lemma LoopUses(b: Label, n: nat, r: Reg)
    requires b in PROGRAM.blocks && n < Length(PROGRAM.blocks[b]) && UsedBy(VisitAt(PROGRAM.blocks[b], n), Var(r))
    ensures b == 1 && n == 1 && (r == 0 || r == 1)
  {
    Positions();
  }

  lemma SingleAssignment()
    ensures Ssa(FUNC)
  {
    hide UniqueDefs, InScope, UsedBy, VisitAt, Length;
    LoopUnique();
    LoopScope();
    assert InScope(FUNC, 1, 1, 0) by { ParamScope(1, 1); }
    forall b, n, r | b in PROGRAM.blocks && 0 <= n < Length(PROGRAM.blocks[b])
      && UsedBy(VisitAt(PROGRAM.blocks[b], n), Var(r))
      ensures InScope(FUNC, b, n, r)
    {
      LoopUses(b, n, r);
    }
    forall b, k: nat, from, r | ComesFrom(PROGRAM, b, k, from) && PROGRAM.blocks[b].phis[k].incoming[from] == Var(r)
      ensures InScope(FUNC, from, Length(PROGRAM.blocks[from]), r)
    {
      Positions();
    }
  }

  lemma ParamScope(b: Label, n: nat)
    ensures InScope(FUNC, b, n, 0)
  {
  }

  lemma VisitOrder()
    ensures Complete(PROGRAM, JOB.order)
  {
    Positions();
  }

  lemma VisitedFirst()
    requires Complete(PROGRAM, JOB.order)
    ensures DefinedFirst(PROGRAM, JOB.order)
  {
    Positions();
    hide Complete, VisitAt;
    assert PROGRAM.blocks[1] == LOOP && PROGRAM.blocks[0] == ENTRY;
  }

  lemma LoopTyped()
    ensures ProgramTyped(JOB.types, PROGRAM)
  {
  }

  lemma ValidLoop()
    ensures Valid(JOB) && LateUntracked(JOB) && ProgramTyped(JOB.types, PROGRAM)
  {
    hide Ssa, Complete, DefinedFirst, LateUntracked, ProgramTyped;
    SingleAssignment();
    VisitOrder();
    VisitedFirst();
    FirstIsEnough(JOB);
    LoopTyped();
    assert JOB.start.sym.Keys <= FUNC.params;
  }

  /** Entering the loop, one round of its body, and the jump back. */
  lemma EnterLoop(input: Input, s: Sym)
    requires s.c.ctl == Running(0, 0)
    ensures var s' := SymStep(PROGRAM, input, s);
            s'.c.ctl == Running(1, 0) && s'.exprs == s.exprs - {1} && s'.c.regs == s.c.regs[1 := Bv(ZERO_BYTE)]
  {
    hide PhiExprs, PhiRegs;
    Entering(s.exprs, s.c.regs, 0);
  }

  lemma Round(input: Input, s: Sym)
    requires s.c.ctl == Running(1, 0) && {0, 1} <= s.c.regs.Keys && 0 in s.exprs
    requires s.c.regs[0].Bv? && s.c.regs[1].Bv? && |s.c.regs[0].bits| == |s.c.regs[1].bits|
    ensures var s' := SymStep(PROGRAM, input, s);
            s'.c.ctl == Running(1, 1) && s'.exprs.Keys == s.exprs.Keys + {2} && 2 in s'.c.regs
  {
    hide Apply, ValueExpr;
    assert Get(s.c.regs, Var(0)) == Some(s.c.regs[0]) && Get(s.c.regs, Var(1)) == Some(s.c.regs[1]);
    assert ResultExpr(PROGRAM, s, BODY).Some?;
  }

  lemma JumpBack(input: Input, s: Sym)
    requires s.c.ctl == Running(1, 1) && 2 in s.c.regs && 2 in s.exprs
    ensures var s' := SymStep(PROGRAM, input, s); s'.c.ctl == Running(1, 0) && s'.exprs == s.exprs[1 := s.exprs[2]]
  {
    hide PhiExprs, PhiRegs;
    Entering(s.exprs, s.c.regs, 1);
  }

  /** The body is entered again while its result has the expression of the first round. */
  lemma SecondRound(x: Byte, input: Input)
    ensures var s := Sym(State(Running(0, 0), map[0 := Bv(x)], map[], 0), map[0 := InputByte(0)], map[], []);
            var s' := SymFrom(PROGRAM, input, s, 3);
            s'.c.ctl == Running(1, 0) && s'.exprs.Keys == {0, 1, 2}
  {
    hide SymStep;
    var s := Sym(State(Running(0, 0), map[0 := Bv(x)], map[], 0), map[0 := InputByte(0)], map[], []);
    var s1 := SymStep(PROGRAM, input, s);
    var s2 := SymStep(PROGRAM, input, s1);
    EnterLoop(input, s);
    Round(input, s1);
    JumpBack(input, s2);
    assert SymFrom(PROGRAM, input, s, 0) == s;
    assert SymFrom(PROGRAM, input, s, 1) == s1;
    assert SymFrom(PROGRAM, input, s, 2) == s2;
  }

  lemma Entering(exprs: Exprs, regs: Regs, from: Label)
    requires from == 0 || from == 1
    ensures PhiExprs(LOOP.phis, from, exprs, exprs) == SetExpr(exprs, 1, if from == 0 then None else RegExpr(exprs, 2))
    ensures from == 0 ==> PhiRegs(LOOP.phis, 0, regs, regs) == Some(regs[1 := Bv(ZERO_BYTE)])
    ensures from == 1 && 2 in regs ==> PhiRegs(LOOP.phis, 1, regs, regs) == Some(regs[1 := regs[2]])
  {
    assert LOOP.phis[..0] == [];
    assert PhiExprs(LOOP.phis[..0], from, exprs, exprs) == exprs;
    assert PhiRegs(LOOP.phis[..0], from, regs, regs) == Some(regs);
  }

  /** Whatever the number of rounds, the finished loop has the right expressions. */
  lemma LoopSimulated(x: Byte, input: Input, k: nat)
    ensures var s := Sym(State(Running(0, 0), map[0 := Bv(x)], map[], 0), map[0 := InputByte(0)], map[], []);
            var w := World(Machine(map[0 := Some(InputByte(0))], map[], [], false), map[]);
            Complete(PROGRAM, JOB.order)
            && (!SymFrom(PROGRAM, input, s, k).c.ctl.Fault? ==>
                  Simulated(JOB, CompiledAfter(JOB, input, w, s.c, k), SymFrom(PROGRAM, input, s, k)))
  {
    hide Ssa, Complete, LateUntracked, ProgramTyped, SymFrom, CompiledAfter, Simulated;
    ValidLoop();
    var s := Sym(State(Running(0, 0), map[0 := Bv(x)], map[], 0), map[0 := InputByte(0)], map[], []);
    var w := World(Machine(map[0 := Some(InputByte(0))], map[], [], false), map[]);
    assert Starts(JOB, w, s);
    if !SymFrom(PROGRAM, input, s, k).c.ctl.Fault? {
      PassSimulates(JOB, input, w, s, k);
    }
  }
}
