/** The rewritten computation means what the recorded one means. */
module ShortCircuitMeaning {
  import opened Options
  import opened Expressions
  import opened Ir
  import opened SymbolicCode
  import opened ShortCircuit
  import opened CodeFrame

  // ----- the null checks -----

  ghost predicate AllInputs(ins: seq<CallArg>) { forall i :: 0 <= i < |ins| ==> ins[i].Input? }

  /** Only the tests differ. */
  ghost predicate SameButTests(m: Machine, m': Machine)
  {
    m'.env == m.env && m'.log == m.log && m'.crashed == m.crashed
  }

  ghost predicate NullAt(ins: seq<CallArg>, env: Env, i: nat)
    requires AllInputs(ins) && i < |ins|
  {
    Look(env, ins[i].operand).None?
  }

  lemma {:induction false} ChecksExec(ins: seq<CallArg>, k: nat, m: Machine, regs: Regs)
    requires AllInputs(ins) && k <= |ins|
    ensures var m' := ExecAll(CheckCode(ins, k), m, regs);
            SameButTests(m, m') && forall i :: 0 <= i < k ==> Test(m', i) == NullAt(ins, m.env, i)
  {
    hide Look;
    if k > 0 {
      ChecksExec(ins, k - 1, m, regs);
      var front := CheckCode(ins, k - 1);
      ExecConcat(front, [TestNull(k - 1, ins[k - 1].operand)], m, regs);
      ExecOne(TestNull(k - 1, ins[k - 1].operand), ExecAll(front, m, regs), regs);
    }
  }

  lemma {:induction false} AndsExec(n: nat, k: nat, m: Machine, regs: Regs)
    requires 0 < k <= n
    ensures var m' := ExecAll(AndCode(n, k), m, regs);
            SameButTests(m, m')
            && (forall i :: 0 <= i < n ==> Test(m', i) == Test(m, i))
            && (Test(m', AndReg(n, k - 1)) <==> forall i :: 0 <= i < k ==> Test(m, i))
  {
    if k > 1 {
      AndsExec(n, k - 1, m, regs);
      var front := AndCode(n, k - 1);
      var last := AndTests(AndReg(n, k - 1), AndReg(n, k - 2), k - 1);
      ExecConcat(front, [last], m, regs);
      ExecOne(last, ExecAll(front, m, regs), regs);
    }
  }

  lemma ChecksAll(comp: Computation, m: Machine, regs: Regs)
    requires |Inputs(comp, |comp|)| > 0
    ensures var ins := Inputs(comp, |comp|);
            var m' := ExecAll(CheckCode(ins, |ins|) + AndCode(|ins|, |ins|), m, regs);
            SameButTests(m, m')
            && (forall i :: 0 <= i < |ins| ==> Test(m', i) == NullAt(ins, m.env, i))
            && (Test(m', AndReg(|ins|, |ins| - 1)) <==> AllNull(comp, m.env))
  {
    hide Look, CheckCode, AndCode;
    var ins := Inputs(comp, |comp|);
    var m1 := ExecAll(CheckCode(ins, |ins|), m, regs);
    ChecksExec(ins, |ins|, m, regs);
    AndsExec(|ins|, |ins|, m1, regs);
    ExecConcat(CheckCode(ins, |ins|), AndCode(|ins|, |ins|), m, regs);
    AllNullIs(comp, ins, m.env);
  }

  lemma AllNullIs(comp: Computation, ins: seq<CallArg>, env: Env)
    requires ins == Inputs(comp, |comp|)
    ensures AllNull(comp, env) <==> forall i :: 0 <= i < |ins| ==> NullAt(ins, env, i)
  {
    if forall i :: 0 <= i < |ins| ==> NullAt(ins, env, i) {
      forall i | 0 <= i < |ins|
        ensures Look(env, ins[i].operand).None?
      {
        assert NullAt(ins, env, i);
      }
    }
  }

  // ----- the arguments in the slow path -----

  /** Everything in `env` below register `n` is as in the original environment. */
  ghost predicate Keeps(env: Env, env': Env, n: nat)
  {
    forall r: nat :: r < n ==> Look(env', ExprReg(r)) == Look(env, ExprReg(r))
  }

  /** Input `i` is available, and not null, in `env'`. */
  ghost predicate Provided(ins: seq<CallArg>, i: nat, unknown: nat, l: Layout, env: Env, env': Env, regs: Regs)
    requires AllInputs(ins) && i < |ins|
  {
    Look(env', NewOperand(ins[i], i, unknown, l)) == Some(InputExpr(ins[i], env, regs))
  }

  lemma {:induction false} UnknownAtLeast(ins: seq<CallArg>, i: nat, k: nat)
    requires AllInputs(ins) && i < k <= |ins| && !ins[i].operand.Null?
    ensures Unknown(ins, k) >= 1
    ensures forall j :: i < j < k && !ins[j].operand.Null? ==> Unknown(ins, k) >= 2
  {
    if i < k - 1 {
      UnknownAtLeast(ins, i, k - 1);
    }
  }

  /** With a single input of unknown concreteness, the slow path means that it is symbolic. */
  lemma SingleIsSymbolic(ins: seq<CallArg>, i: nat, env: Env)
    requires AllInputs(ins) && i < |ins| && Unknown(ins, |ins|) == 1 && !ins[i].operand.Null?
    requires exists j :: 0 <= j < |ins| && !NullAt(ins, env, j)
    ensures Look(env, ins[i].operand).Some?
  {
    var j :| 0 <= j < |ins| && !NullAt(ins, env, j);
    if j < i {
      UnknownAtLeast(ins, j, |ins|);
    } else if i < j {
      UnknownAtLeast(ins, i, |ins|);
    }
  }

  /** Executing the code for one input provides it. */
  lemma ArgExec(ins: seq<CallArg>, i: nat, unknown: nat, l: Layout, env: Env, m: Machine, regs: Regs)
    requires AllInputs(ins) && i < |ins| && unknown == Unknown(ins, |ins|)
    requires exists j :: 0 <= j < |ins| && !NullAt(ins, env, j)
    requires ins[i].operand.ExprReg? ==> ins[i].operand.reg < l.base
    requires Keeps(env, m.env, l.base) && Test(m, i) == NullAt(ins, env, i)
    ensures var m' := ExecAll(ArgStmts(ins[i], i, unknown, l), m, regs);
            Provided(ins, i, unknown, l, env, m'.env, regs)
            && m'.tests == m.tests && m'.log == m.log && m'.crashed == m.crashed
            && Keeps(m.env, m'.env, l.ConstReg(i))
  {
    hide ValueExpr, Unknown;
    var a := ins[i];
    var constant := Constant(l.ConstReg(i), a.value);
    assert a.operand.ExprReg? ==> Look(m.env, a.operand) == Look(env, a.operand);
    if a.operand.Null? {
      ExecOne(constant, m, regs);
    } else if unknown == 1 {
      SingleIsSymbolic(ins, i, env);
    } else {
      ExecOne(Guarded(i, true, [constant], Some(Join(l.PhiReg(i), a.operand, ExprReg(l.ConstReg(i))))), m, regs);
      ExecOne(constant, m, regs);
    }
  }

  lemma ProvidedKept(ins: seq<CallArg>, i: nat, unknown: nat, l: Layout, env: Env, e1: Env, e2: Env, regs: Regs, n: nat)
    requires AllInputs(ins) && i < |ins| && Provided(ins, i, unknown, l, env, e1, regs) && Keeps(e1, e2, n)
    requires ins[i].operand.ExprReg? ==> ins[i].operand.reg < l.base
    requires l.PhiReg(i) < n && l.base <= n
    ensures Provided(ins, i, unknown, l, env, e2, regs)
  {
    hide Look, InputExpr;
  }

  lemma {:induction false} ArgsExec(ins: seq<CallArg>, k: nat, unknown: nat, l: Layout, m: Machine, regs: Regs)
    requires AllInputs(ins) && k <= |ins| && unknown == Unknown(ins, |ins|)
    requires exists j :: 0 <= j < |ins| && !NullAt(ins, m.env, j)
    requires forall i :: 0 <= i < |ins| && ins[i].operand.ExprReg? ==> ins[i].operand.reg < l.base
    requires forall i :: 0 <= i < |ins| ==> Test(m, i) == NullAt(ins, m.env, i)
    ensures var m' := ExecAll(ArgCode(ins, k, unknown, l), m, regs);
            (forall i :: 0 <= i < k ==> Provided(ins, i, unknown, l, m.env, m'.env, regs))
            && m'.tests == m.tests && m'.log == m.log && m'.crashed == m.crashed
            && Keeps(m.env, m'.env, l.base + l.calls)
  {
    hide Look, InputExpr, Unknown, ArgStmts, NullAt, NewOperand;
    if k > 0 {
      ArgsExec(ins, k - 1, unknown, l, m, regs);
      var front := ArgCode(ins, k - 1, unknown, l);
      var m1 := ExecAll(front, m, regs);
      ExecConcat(front, ArgStmts(ins[k - 1], k - 1, unknown, l), m, regs);
      ArgExec(ins, k - 1, unknown, l, m.env, m1, regs);
      var m2 := ExecAll(ArgStmts(ins[k - 1], k - 1, unknown, l), m1, regs);
      forall i | 0 <= i < k - 1
        ensures Provided(ins, i, unknown, l, m.env, m2.env, regs)
      {
        ProvidedKept(ins, i, unknown, l, m.env, m1.env, m2.env, regs, l.ConstReg(k - 1));
      }
    }
  }

  // ----- the calls -----

  /** The results of the first `k` calls are in their registers. */
  ghost predicate ResultsIn(results: seq<Expr>, k: nat, l: Layout, env: Env)
  {
    k <= |results| && forall j :: 0 <= j < k ==> Look(env, ExprReg(l.ResultReg(j))) == Some(results[j])
  }

  lemma {:induction false} NewArgsValues(args: seq<CallArg>, ops: seq<SymOperand>, start: nat, l: Layout,
                                         env: Env, env': Env, regs: Regs, results: seq<Expr>)
    requires start + |InputsOf(args)| <= |ops|
    requires forall i :: 0 <= i < |InputsOf(args)| ==>
             Look(env', ops[start + i]) == Some(InputExpr(InputsOf(args)[i], env, regs))
    requires forall a :: 0 <= a < |args| && args[a].Previous? ==> args[a].call < |results|
    requires ResultsIn(results, |results|, l, env')
    ensures Values(NewArgs(args, ops, start, l), env') == Some(ArgExprs(args, env, regs, results))
  {
    hide Look, InputExpr, ResultsIn;
    if |args| > 0 {
      var front, last := args[..|args| - 1], args[|args| - 1];
      forall i | 0 <= i < |InputsOf(front)|
        ensures Look(env', ops[start + i]) == Some(InputExpr(InputsOf(front)[i], env, regs))
      {
        assert InputsOf(args)[i] == InputsOf(front)[i];
      }
      NewArgsValues(front, ops, start, l, env, env', regs, results);
      var r := NewArgs(args, ops, start, l);
      assert r[..|r| - 1] == NewArgs(front, ops, start, l);
      if last.Input? {
        assert InputsOf(args)[|InputsOf(front)|] == last;
      } else {
        ResultThere(results, l, env', last.call);
      }
    }
  }

  lemma ResultThere(results: seq<Expr>, l: Layout, env: Env, j: nat)
    requires ResultsIn(results, |results|, l, env) && j < |results|
    ensures Look(env, ExprReg(l.ResultReg(j))) == Some(results[j])
  {
  }

  /** All replaced operands are provided in `env'`. */
  ghost predicate AllProvided(ins: seq<CallArg>, ops: seq<SymOperand>, env: Env, env': Env, regs: Regs)
    requires AllInputs(ins)
  {
    |ops| == |ins| && forall i :: 0 <= i < |ins| ==> Look(env', ops[i]) == Some(InputExpr(ins[i], env, regs))
  }

  /** Replaced operands are not result registers. */
  ghost predicate OpsOutside(ops: seq<SymOperand>, l: Layout)
  {
    forall i :: 0 <= i < |ops| && ops[i].ExprReg? ==> ops[i].reg < l.base || l.base + l.calls <= ops[i].reg
  }

  lemma {:induction false} InputsPrefix(comp: Computation, k: nat, n: nat)
    requires k <= n <= |comp|
    ensures Inputs(comp, k) <= Inputs(comp, n)
  {
    if k < n {
      InputsPrefix(comp, k, n - 1);
    }
  }

  lemma CallArgsProvided(comp: Computation, ops: seq<SymOperand>, k: nat, env: Env, env': Env, regs: Regs)
    requires k < |comp| && AllProvided(Inputs(comp, |comp|), ops, env, env', regs)
    ensures var start := |Inputs(comp, k)|;
            start + |InputsOf(comp[k].args)| <= |ops|
            && forall i :: 0 <= i < |InputsOf(comp[k].args)| ==>
                 Look(env', ops[start + i]) == Some(InputExpr(InputsOf(comp[k].args)[i], env, regs))
  {
    hide Look, InputExpr, InputsOf, Inputs;
    var start, ins, own := |Inputs(comp, k)|, Inputs(comp, |comp|), InputsOf(comp[k].args);
    InputsBound(comp, k);
    forall i | 0 <= i < |own|
      ensures Look(env', ops[start + i]) == Some(InputExpr(own[i], env, regs))
    {
      InputsAt(comp, k, i);
    }
  }

  lemma InputsBound(comp: Computation, k: nat)
    requires k < |comp|
    ensures |Inputs(comp, k)| + |InputsOf(comp[k].args)| <= |Inputs(comp, |comp|)|
  {
    hide InputsOf;
    InputsPrefix(comp, k + 1, |comp|);
  }

  lemma InputsAt(comp: Computation, k: nat, i: nat)
    requires k < |comp| && i < |InputsOf(comp[k].args)|
    ensures |Inputs(comp, k)| + i < |Inputs(comp, |comp|)|
    ensures Inputs(comp, |comp|)[|Inputs(comp, k)| + i] == InputsOf(comp[k].args)[i]
  {
    hide InputsOf;
    InputsPrefix(comp, k + 1, |comp|);
    assert Inputs(comp, k + 1)[|Inputs(comp, k)| + i] == InputsOf(comp[k].args)[i];
  }

  lemma AllProvidedKept(ins: seq<CallArg>, ops: seq<SymOperand>, l: Layout, env: Env, e1: Env, k: nat, v: SymExpr,
                        regs: Regs)
    requires AllInputs(ins) && AllProvided(ins, ops, env, e1, regs) && OpsOutside(ops, l) && k < l.calls
    ensures AllProvided(ins, ops, env, e1[l.ResultReg(k) := v], regs)
  {
    hide InputExpr;
  }

  lemma ResultsNext(results: seq<Expr>, k: nat, l: Layout, env: Env, e: Expr)
    requires k < |results| && ResultsIn(results, k, l, env) && e == results[k]
    ensures ResultsIn(results, k + 1, l, env[l.ResultReg(k) := Some(e)])
  {
  }

  /** What the calls of the slow path leave behind. */
  ghost predicate CallsDone(comp: Computation, k: nat, l: Layout, ops: seq<SymOperand>, env: Env, m: Machine,
                            m': Machine, regs: Regs)
    requires k <= |comp|
  {
    && AllProvided(Inputs(comp, |comp|), ops, env, m'.env, regs)
    && ResultsIn(Results(comp, env, regs, k), k, l, m'.env)
    && m'.log == m.log + Calls(comp, env, regs, k) && m'.crashed == m.crashed
  }

  lemma ResultsPrefix(comp: Computation, env: Env, regs: Regs, k: nat)
    requires k < |comp|
    ensures Results(comp, env, regs, k + 1)[..k] == Results(comp, env, regs, k)
  {
  }

  lemma CallExec(comp: Computation, k: nat, l: Layout, ops: seq<SymOperand>, env: Env, m: Machine, m1: Machine,
                 regs: Regs)
    requires k < |comp| == l.calls && Ordered(comp) && OpsOutside(ops, l)
    requires CallsDone(comp, k, l, ops, env, m, m1, regs)
    ensures |Inputs(comp, k)| + |InputsOf(comp[k].args)| <= |ops|
    ensures var call := CallStmt(l.ResultReg(k), comp[k].builder, NewArgs(comp[k].args, ops, |Inputs(comp, k)|, l));
            CallsDone(comp, k + 1, l, ops, env, m, ExecStmt(call, m1, regs), regs)
  {
    hide Look, InputExpr, Build, ArgExprs, Values, NewArgs, AllProvided;
    CallArgsProvided(comp, ops, k, env, m1.env, regs);
    var results := Results(comp, env, regs, k);
    NewArgsValues(comp[k].args, ops, |Inputs(comp, k)|, l, env, m1.env, regs, results);
    var es := ArgExprs(comp[k].args, env, regs, results);
    var e := Build(comp[k].builder, es);
    AllProvidedKept(Inputs(comp, |comp|), ops, l, env, m1.env, k, Some(e), regs);
    ResultsPrefix(comp, env, regs, k);
    var results' := Results(comp, env, regs, k + 1);
    assert ResultsIn(results', k, l, m1.env) by {
      forall j | 0 <= j < k
        ensures Look(m1.env, ExprReg(l.ResultReg(j))) == Some(results'[j])
      {
        assert results'[j] == results'[..k][j] == results[j];
      }
    }
    ResultsNext(results', k, l, m1.env, e);
  }

  lemma {:induction false} CallsExec(comp: Computation, k: nat, l: Layout, ops: seq<SymOperand>, env: Env, m: Machine,
                                     regs: Regs)
    requires k <= |comp| == l.calls && Ordered(comp) && OpsOutside(ops, l)
    requires AllProvided(Inputs(comp, |comp|), ops, env, m.env, regs)
    ensures |Inputs(comp, k)| <= |ops|
    ensures CallsDone(comp, k, l, ops, env, m, ExecAll(CallCode(comp, ops, k, l), m, regs), regs)
  {
    hide Look, InputExpr, Build, ArgExprs, AllProvided, NewArgs, Ordered, OpsOutside, ExecStmt, Results, Calls;
    InputsFit(comp, k, ops, env, m.env, regs);
    if k == 0 {
      NothingCalled(comp, l, ops, env, m, regs);
    } else {
      CallsExec(comp, k - 1, l, ops, env, m, regs);
      var front := CallCode(comp, ops, k - 1, l);
      var m1 := ExecAll(front, m, regs);
      CallExec(comp, k - 1, l, ops, env, m, m1, regs);
      var call := CallStmt(l.ResultReg(k - 1), comp[k - 1].builder,
                           NewArgs(comp[k - 1].args, ops, |Inputs(comp, k - 1)|, l));
      ExecConcat(front, [call], m, regs);
      ExecOne(call, m1, regs);
    }
  }

  lemma InputsFit(comp: Computation, k: nat, ops: seq<SymOperand>, env: Env, env': Env, regs: Regs)
    requires k <= |comp| && AllProvided(Inputs(comp, |comp|), ops, env, env', regs)
    ensures |Inputs(comp, k)| <= |ops|
  {
    InputsPrefix(comp, k, |comp|);
  }

  lemma NothingCalled(comp: Computation, l: Layout, ops: seq<SymOperand>, env: Env, m: Machine, regs: Regs)
    requires AllProvided(Inputs(comp, |comp|), ops, env, m.env, regs)
    ensures CallsDone(comp, 0, l, ops, env, m, m, regs)
  {
  }

  // ----- the whole -----

  lemma OpsAreOutside(ins: seq<CallArg>, unknown: nat, l: Layout)
    requires AllInputs(ins) && l.inputs == |ins|
    requires forall i :: 0 <= i < |ins| && ins[i].operand.ExprReg? ==> ins[i].operand.reg < l.base
    ensures OpsOutside(NewOperands(ins, unknown, l), l)
  {
  }

  /** The slow path builds every argument and makes every call. */
  lemma SlowPath(comp: Computation, base: nat, m: Machine, regs: Regs)
    requires |comp| > 0 && |Inputs(comp, |comp|)| > 0 && Ordered(comp) && Below(comp, base) && !AllNull(comp, m.env)
    requires forall i :: 0 <= i < |Inputs(comp, |comp|)| ==> Test(m, i) == NullAt(Inputs(comp, |comp|), m.env, i)
    ensures var l, ins := LayoutOf(comp, base), Inputs(comp, |comp|);
            var ops := NewOperands(ins, Unknown(ins, |ins|), l);
            var m' := ExecAll(ArgCode(ins, |ins|, Unknown(ins, |ins|), l) + CallCode(comp, ops, |comp|, l), m, regs);
            Look(m'.env, ExprReg(l.ResultReg(|comp| - 1))) == Meaning(comp, m.env, regs)
            && m'.log == m.log + Calls(comp, m.env, regs, |comp|) && m'.crashed == m.crashed
  {
    hide Look, InputExpr, Ordered, ExecStmt, Results, Calls, ArgCode, CallCode, Test, Unknown, NewOperand, Inputs;
    var l, ins := LayoutOf(comp, base), Inputs(comp, |comp|);
    var unknown := Unknown(ins, |ins|);
    var ops := NewOperands(ins, unknown, l);
    AllNullIs(comp, ins, m.env);
    BelowIs(comp, ins, base);
    ArgsExec(ins, |ins|, unknown, l, m, regs);
    var m1 := ExecAll(ArgCode(ins, |ins|, unknown, l), m, regs);
    assert AllProvided(ins, ops, m.env, m1.env, regs) by {
      forall i | 0 <= i < |ins|
        ensures Look(m1.env, ops[i]) == Some(InputExpr(ins[i], m.env, regs))
      {
        assert Provided(ins, i, unknown, l, m.env, m1.env, regs);
      }
    }
    OpsAreOutside(ins, unknown, l);
    CallsExec(comp, |comp|, l, ops, m.env, m1, regs);
    ExecConcat(ArgCode(ins, |ins|, unknown, l), CallCode(comp, ops, |comp|, l), m, regs);
  }

  lemma BelowIs(comp: Computation, ins: seq<CallArg>, base: nat)
    requires ins == Inputs(comp, |comp|) && Below(comp, base)
    ensures forall i :: 0 <= i < |ins| && ins[i].operand.ExprReg? ==> ins[i].operand.reg < base
  {
  }

  /** Short-circuiting preserves meaning: the rewritten code yields null exactly when all
      inputs are null and otherwise the fully built expression; it makes no call in the first
      case and exactly the recorded calls in the second; and no builder ever gets a null
      argument, even where the check of a single unknown argument is skipped. Registers
      outside the computation's own keep their contents. */
  lemma ShortCircuitKeepsMeaning(comp: Computation, base: nat, used: bool, m: Machine, regs: Regs)
    requires |comp| > 0 && |Inputs(comp, |comp|)| > 0 && Ordered(comp) && Below(comp, base)
    ensures var m' := ExecAll(Rewritten(comp, base, used), m, regs);
            (used ==> Look(m'.env, ExprReg(LayoutOf(comp, base).FinalReg())) == Meaning(comp, m.env, regs))
            && m'.log == m.log + (if AllNull(comp, m.env) then [] else Calls(comp, m.env, regs, |comp|))
            && m'.crashed == m.crashed
            && KeepsOutside(m.env, m'.env, base, LayoutOf(comp, base).FinalReg() + 1)
  {
    hide KeepsOutside, CodeWithin, InputExpr, Ordered, Results, Calls, ArgCode, CallCode, Test, Unknown, NewOperands,
         Inputs, CheckCode, AndCode, Below;
    var l, ins := LayoutOf(comp, base), Inputs(comp, |comp|);
    var head := CheckCode(ins, |ins|) + AndCode(|ins|, |ins|);
    var m1 := ExecAll(head, m, regs);
    ChecksAll(comp, m, regs);
    RewrittenWithin(comp, base, used);
    CodeKeeps(Rewritten(comp, base, used), m, regs, base, l.FinalReg() + 1);
    var unknown := Unknown(ins, |ins|);
    var slow := ArgCode(ins, |ins|, unknown, l) + CallCode(comp, NewOperands(ins, unknown, l), |comp|, l);
    var guard := Guarded(AndReg(|ins|, |ins| - 1), false, slow,
                         if used then Some(Join(l.FinalReg(), Null, ExprReg(l.ResultReg(|comp| - 1)))) else None);
    ExecConcat(head, [guard], m, regs);
    ExecOne(guard, m1, regs);
    if !AllNull(comp, m.env) {
      SlowPath(comp, base, m1, regs);
    }
  }
}
