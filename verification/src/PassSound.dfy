/** The compiler pass and the theory of concolic execution put together: what the finished
    code of a function has pushed and recorded is sound. */
module PassSound {
  import opened Expressions
  import opened FlatMemory
  import opened Constraints
  import opened Ir
  import opened Concolic
  import opened PathSoundness
  import opened SymbolicCode
  import opened PhiFinalization
  import opened Instrumentation
  import opened Emission
  import opened Scope
  import opened FunctionPass
  import opened FinalPass
  import opened Typing
  import opened CompiledRun

  lemma {:induction false} SymRunFrom(p: Program, input: Input, c: State, k: nat)
    ensures SymRun(p, input, c, k) == SymFrom(p, input, Sym(c, map[], map[], []), k)
  {
    hide SymStep;
    if k > 0 {
      SymRunFrom(p, input, c, k - 1);
    }
  }

  /** The expression that the finished code holds for a register in scope. */
  function HeldExpr(t: Compilation, w: World, r: Reg): SymExpr
    requires Complete(t.f.p, t.order)
  {
    Look(w.m.env, OperandOf(CleanSym(t), Var(r)))
  }

  /** The run on the other input is where this run is, and every register in scope and every
      memory byte is what the finished code's own registers and shadow memory say. */
  ghost predicate Foretold(t: Compilation, w: World, c: State, j: Input, c': State)
    requires Complete(t.f.p, t.order)
  {
    && c'.ctl == c.ctl && c'.pos == c.pos && Predicts(w.shadow, c.mem, j, c'.mem)
    && (c.ctl.Running? && c.ctl.block in t.f.p.blocks ==>
          forall r: Reg :: InScope(t.f, c.ctl.block, |t.f.p.blocks[c.ctl.block].phis| + c.ctl.pc, r) && r in c.regs ==>
            r in c'.regs && ValuePredicted(HeldExpr(t, w, r), c.regs[r], j, c'.regs[r]))
  }

  /** Any input of the same length that satisfies the constraints which the finished code
      has pushed repeats the run, with all values as the finished code has recorded them, if
      no step of the run is harmed by an operand visited too late. */
  lemma FinishedCodeIsSound(t: Compilation, w: World, c: State, i: Input, j: Input, k: nat)
    requires Valid(t) && ProgramTyped(t.types, t.f.p) && OkRun(t.f.p, i, c, k) && OkRegs(c.regs)
    requires RunUnharmed(t, i, Sym(c, map[], map[], []), k)
    requires Starts(t, w, Sym(c, map[], map[], [])) && |i| == |j| && !Run(t.f.p, i, c, k).ctl.Fault?
    requires SatisfiesAll(j, PathOf(CompiledAfter(t, i, w, c, k).m.log))
    ensures Foretold(t, CompiledAfter(t, i, w, c, k), Run(t.f.p, i, c, k), j, Run(t.f.p, j, c, k))
  {
    hide ProgramTyped, OkRun, RunUnharmed, OkRegs, Starts, SatisfiesAll, CompiledAfter, SymFrom, SymRun, Run, PathOf,
         Predicts, Ssa, Complete, InScope, Known, CleanSym, RegsTyped, Reachable;
    var s := SymRun(t.f.p, i, c, k);
    ConcreteUnchanged(t.f.p, i, c, k);
    SymRunFrom(t.f.p, i, c, k);
    PassSimulatesIff(t, i, w, Sym(c, map[], map[], []), k);
    PathSound(t.f.p, c, i, j, k);
    var w', c' := CompiledAfter(t, i, w, c, k), Run(t.f.p, j, c, k);
    if s.c.ctl.Running? && s.c.ctl.block in t.f.p.blocks {
      var n := |t.f.p.blocks[s.c.ctl.block].phis| + s.c.ctl.pc;
      forall r: Reg | InScope(t.f, s.c.ctl.block, n, r) && r in s.c.regs
        ensures r in c'.regs && ValuePredicted(HeldExpr(t, w', r), s.c.regs[r], j, c'.regs[r])
      {
        assert Known(CleanSym(t), w'.m.env, s.exprs, Var(r));
        KnownIs(CleanSym(t), w'.m.env, s.exprs, r);
        assert RegAgrees(s.c.regs, s.exprs, j, c'.regs, r);
      }
    }
  }
}
