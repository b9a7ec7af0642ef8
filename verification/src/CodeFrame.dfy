/** Which expression registers a piece of inserted code may write. */
module CodeFrame {
  import opened Options
  import opened Expressions
  import opened Ir
  import opened SymbolicCode
  import opened ShortCircuit

  /** Registers outside lo..hi keep their contents. */
  ghost predicate KeepsOutside(env: Env, env': Env, lo: nat, hi: nat)
  {
    forall r: nat :: r < lo || hi <= r ==> Look(env', ExprReg(r)) == Look(env, ExprReg(r))
  }

  lemma KeepsTwice(e1: Env, e2: Env, e3: Env, lo: nat, mid: nat, hi: nat)
    requires KeepsOutside(e1, e2, lo, mid) && KeepsOutside(e2, e3, mid, hi) && lo <= mid <= hi
    ensures KeepsOutside(e1, e3, lo, hi)
  {
    hide Look;
    forall r: nat | r < lo || hi <= r
      ensures Look(e3, ExprReg(r)) == Look(e1, ExprReg(r))
    {
      assert Look(e2, ExprReg(r)) == Look(e1, ExprReg(r));
    }
  }

  predicate StmtWithin(s: Stmt, lo: nat, hi: nat)
  {
    match s
    case TestNull(_, _) => true
    case AndTests(_, _, _) => true
    case Constant(dst, _) => lo <= dst < hi
    case CallStmt(dst, _, _) => lo <= dst < hi
    case Guarded(_, _, body, join) =>
      (forall k :: 0 <= k < |body| ==> StmtWithin(body[k], lo, hi)) && (join.Some? ==> lo <= join.value.dst < hi)
  }

  predicate CodeWithin(code: seq<Stmt>, lo: nat, hi: nat)
  {
    forall k :: 0 <= k < |code| ==> StmtWithin(code[k], lo, hi)
  }

  lemma {:induction false} StmtKeeps(s: Stmt, m: Machine, regs: Regs, lo: nat, hi: nat)
    requires StmtWithin(s, lo, hi)
    ensures KeepsOutside(m.env, ExecStmt(s, m, regs).env, lo, hi)
    decreases s, 0
  {
    hide Build, Values, ValueExpr, Bound;
    match s
    case Guarded(t, on, body, join) => CodeKeeps(body, m, regs, lo, hi);
    case _ =>
  }

  lemma {:induction false} CodeKeeps(code: seq<Stmt>, m: Machine, regs: Regs, lo: nat, hi: nat)
    requires CodeWithin(code, lo, hi)
    ensures KeepsOutside(m.env, ExecAll(code, m, regs).env, lo, hi)
    decreases code, 1
  {
    hide ExecStmt, StmtWithin, Look;
    if |code| > 0 {
      StmtKeeps(code[0], m, regs, lo, hi);
      var m1 := ExecStmt(code[0], m, regs);
      CodeKeeps(code[1..], m1, regs, lo, hi);
      forall r: nat | r < lo || hi <= r
        ensures Look(ExecAll(code, m, regs).env, ExprReg(r)) == Look(m.env, ExprReg(r))
      {
        assert Look(m1.env, ExprReg(r)) == Look(m.env, ExprReg(r));
      }
    }
  }

  // ----- rewritten computations -----

  lemma WithinConcat(a: seq<Stmt>, b: seq<Stmt>, lo: nat, hi: nat)
    requires CodeWithin(a, lo, hi) && CodeWithin(b, lo, hi)
    ensures CodeWithin(a + b, lo, hi)
  {
    hide StmtWithin;
  }

  lemma WithinOne(s: Stmt, lo: nat, hi: nat)
    requires StmtWithin(s, lo, hi)
    ensures CodeWithin([s], lo, hi)
  {
    hide StmtWithin;
  }

  lemma {:induction false} ChecksWithin(ins: seq<CallArg>, k: nat, lo: nat, hi: nat)
    requires k <= |ins| && forall i :: 0 <= i < |ins| ==> ins[i].Input?
    ensures CodeWithin(CheckCode(ins, k), lo, hi)
  {
    if k > 0 {
      ChecksWithin(ins, k - 1, lo, hi);
      WithinConcat(CheckCode(ins, k - 1), [TestNull(k - 1, ins[k - 1].operand)], lo, hi);
    }
  }

  lemma {:induction false} AndsWithin(n: nat, k: nat, lo: nat, hi: nat)
    requires k > 0
    ensures CodeWithin(AndCode(n, k), lo, hi)
  {
    if k > 1 {
      AndsWithin(n, k - 1, lo, hi);
      WithinConcat(AndCode(n, k - 1), [AndTests(AndReg(n, k - 1), AndReg(n, k - 2), k - 1)], lo, hi);
    }
  }

  lemma ArgWithin(a: CallArg, i: nat, unknown: nat, l: Layout)
    requires a.Input? && i < l.inputs
    ensures CodeWithin(ArgStmts(a, i, unknown, l), l.base, l.FinalReg() + 1)
  {
    var constant := Constant(l.ConstReg(i), a.value);
    assert StmtWithin(constant, l.base, l.FinalReg() + 1);
  }

  lemma {:induction false} ArgsWithin(ins: seq<CallArg>, k: nat, unknown: nat, l: Layout)
    requires k <= |ins| == l.inputs && forall i :: 0 <= i < |ins| ==> ins[i].Input?
    ensures CodeWithin(ArgCode(ins, k, unknown, l), l.base, l.FinalReg() + 1)
  {
    hide CodeWithin, ArgStmts;
    if k > 0 {
      ArgsWithin(ins, k - 1, unknown, l);
      ArgWithin(ins[k - 1], k - 1, unknown, l);
      WithinConcat(ArgCode(ins, k - 1, unknown, l), ArgStmts(ins[k - 1], k - 1, unknown, l), l.base, l.FinalReg() + 1);
    } else {
      assert CodeWithin([], l.base, l.FinalReg() + 1) by { NothingWithin(l.base, l.FinalReg() + 1); }
    }
  }

  lemma NothingWithin(lo: nat, hi: nat)
    ensures CodeWithin([], lo, hi)
  {
  }

  lemma {:induction false} CallsWithin(comp: Computation, ops: seq<SymOperand>, k: nat, l: Layout)
    requires k <= |comp| == l.calls && |Inputs(comp, k)| <= |ops|
    ensures CodeWithin(CallCode(comp, ops, k, l), l.base, l.FinalReg() + 1)
  {
    hide CodeWithin, NewArgs;
    NothingWithin(l.base, l.FinalReg() + 1);
    if k > 0 {
      var args := NewArgs(comp[k - 1].args, ops, |Inputs(comp, k - 1)|, l);
      var call := CallStmt(l.ResultReg(k - 1), comp[k - 1].builder, args);
      CallsWithin(comp, ops, k - 1, l);
      WithinOne(call, l.base, l.FinalReg() + 1);
      WithinConcat(CallCode(comp, ops, k - 1, l), [call], l.base, l.FinalReg() + 1);
    }
  }

  /** A rewritten computation writes the registers of its layout only. */
  lemma RewrittenWithin(comp: Computation, base: nat, used: bool)
    requires |Inputs(comp, |comp|)| > 0 && |comp| > 0
    ensures CodeWithin(Rewritten(comp, base, used), base, LayoutOf(comp, base).FinalReg() + 1)
  {
    hide Inputs, CheckCode, AndCode, ArgCode, CallCode, NewOperands, Unknown, CodeWithin;
    var l, ins := LayoutOf(comp, base), Inputs(comp, |comp|);
    var hi := l.FinalReg() + 1;
    var unknown := Unknown(ins, |ins|);
    var ops := NewOperands(ins, unknown, l);
    ChecksWithin(ins, |ins|, base, hi);
    AndsWithin(|ins|, |ins|, base, hi);
    WithinConcat(CheckCode(ins, |ins|), AndCode(|ins|, |ins|), base, hi);
    ArgsWithin(ins, |ins|, unknown, l);
    CallsWithin(comp, ops, |comp|, l);
    var slow := ArgCode(ins, |ins|, unknown, l) + CallCode(comp, ops, |comp|, l);
    WithinConcat(ArgCode(ins, |ins|, unknown, l), CallCode(comp, ops, |comp|, l), base, hi);
    var join := if used then Some(Join(l.FinalReg(), Null, ExprReg(l.ResultReg(|comp| - 1)))) else None;
    GuardWithin(AndReg(|ins|, |ins| - 1), slow, join, base, hi);
    var guard := Guarded(AndReg(|ins|, |ins| - 1), false, slow, join);
    WithinOne(guard, base, hi);
    WithinConcat(CheckCode(ins, |ins|) + AndCode(|ins|, |ins|), [guard], base, hi);
  }

  lemma GuardWithin(test: nat, body: seq<Stmt>, join: Option<Join>, lo: nat, hi: nat)
    requires CodeWithin(body, lo, hi) && (join.Some? ==> lo <= join.value.dst < hi)
    ensures StmtWithin(Guarded(test, false, body, join), lo, hi)
  {
  }
}
