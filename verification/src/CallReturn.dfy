/** What a call hands to the callee and a return hands back, over whole runs of functions
    that call each other. */
module CallReturn {
  import opened Options
  import opened Expressions
  import opened Ir
  import opened Concolic
  import opened PathSoundness
  import opened CallSlots
  import opened Interprocedural

  // ----- calls -----

  predicate DistinctRegs(params: seq<Reg>) { forall d, e :: 0 <= d < e < |params| ==> params[d] != params[e] }

  lemma {:induction false} ValuesAre(regs: Regs, args: seq<Operand>, d: nat)
    requires Values(regs, args).Some? && d < |args|
    ensures |Values(regs, args).value| == |args| && Some(Values(regs, args).value[d]) == Get(regs, args[d])
  {
    ValuesLength(regs, args);
    if d < |args| - 1 {
      ValuesAre(regs, args[..|args| - 1], d);
    } else {
      ValuesLength(regs, args[..d]);
    }
  }

  /** Setting one more register. */
  lemma SetOne(regs: Regs, exprs: Exprs, r: Reg, v: Value, e: SymExpr, q: Reg)
    ensures Get(regs[r := v], Var(q)) == if q == r then Some(v) else Get(regs, Var(q))
    ensures RegExpr(SetExpr(exprs, r, e), q) == if q == r then e else RegExpr(exprs, q)
  {
  }

  /** Parameter `d` takes value and expression number `d`; no other register is set. */
  lemma {:induction false} Bound(params: seq<Reg>, vs: seq<Value>, es: seq<SymExpr>, r: Reg)
    requires |params| == |vs| == |es| && DistinctRegs(params)
    ensures var regs, exprs := Interprocedural.Bind(params, vs), BindExprs(params, es);
            && (forall d :: 0 <= d < |params| ==>
                  Get(regs, Var(params[d])) == Some(vs[d]) && RegExpr(exprs, params[d]) == es[d])
            && (r !in params ==> Get(regs, Var(r)) == None && RegExpr(exprs, r) == None)
  {
    if |params| > 0 {
      var n := |params| - 1;
      var front := params[..n];
      var regs, exprs := Interprocedural.Bind(front, vs[..n]), BindExprs(front, es[..n]);
      assert Interprocedural.Bind(params, vs) == regs[params[n] := vs[n]];
      assert BindExprs(params, es) == SetExpr(exprs, params[n], es[n]);
      hide Interprocedural.Bind, BindExprs, SetExpr, Get, RegExpr;
      Bound(front, vs[..n], es[..n], r);
      forall d | 0 <= d < |params|
        ensures Get(Interprocedural.Bind(params, vs), Var(params[d])) == Some(vs[d])
        ensures RegExpr(BindExprs(params, es), params[d]) == es[d]
      {
        SetOne(regs, exprs, params[n], vs[n], es[n], params[d]);
        if d < n {
          assert front[d] == params[d] != params[n];
        }
      }
      SetOne(regs, exprs, params[n], vs[n], es[n], r);
    }
  }

  /** The callee starts at its entry with the caller's memory, input position, shadow and
      constraints; the caller waits on the stack as it was. Every parameter has the value and
      the expression, or null, of its own argument, and no other register is set. */
  ghost predicate CalleeStarts(m: Module, k: SymConf, site: CallSite, k': SymConf)
    requires k.s.c.ctl.Running? && site.callee in m && |site.args| == |m[site.callee].params|
  {
    var callee := m[site.callee];
    && k'.fn == site.callee && k'.s.c.ctl == Running(callee.entry, 0)
    && k'.s.c.mem == k.s.c.mem && k'.s.c.pos == k.s.c.pos && k'.s.shadow == k.s.shadow && k'.s.path == k.s.path
    && k'.stack == k.stack + [SymFrame(Frame(k.fn, k.s.c.ctl.block, k.s.c.regs), k.s.exprs)]
    && (forall d :: 0 <= d < |callee.params| ==>
          Get(k'.s.c.regs, Var(callee.params[d])) == Get(k.s.c.regs, site.args[d])
          && RegExpr(k'.s.exprs, callee.params[d]) == ExprOf(k.s.exprs, site.args[d]))
    && forall r: Reg :: r !in callee.params ==> Get(k'.s.c.regs, Var(r)) == None && RegExpr(k'.s.exprs, r) == None
  }

  lemma InvokePasses(m: Module, k: SymConf, site: CallSite)
    requires SlotsThere(k) && k.s.c.ctl.Running? && OkSite(site) && site.callee in m
    requires |site.args| == |m[site.callee].params| && Values(k.s.c.regs, site.args).Some?
    requires DistinctRegs(m[site.callee].params)
    ensures CalleeStarts(m, k, site, SymInvoke(m, k, site))
  {
    hide Interprocedural.Bind, BindExprs, Values, Stored, Received, ArgExprs, OkOperand, Get, RegExpr, DistinctRegs;
    var params, vs, es := m[site.callee].params, Values(k.s.c.regs, site.args).value, ArgExprs(k.s.exprs, site.args);
    InvokeBinds(m, k, site);
    ValuesLength(k.s.c.regs, site.args);
    var k' := SymInvoke(m, k, site);
    assert k'.s.c.regs == Interprocedural.Bind(params, vs);
    forall d | 0 <= d < |params|
      ensures Get(k'.s.c.regs, Var(params[d])) == Get(k.s.c.regs, site.args[d])
      ensures RegExpr(k'.s.exprs, params[d]) == ExprOf(k.s.exprs, site.args[d])
    {
      Bound(params, vs, es, 0);
      ValuesAre(k.s.c.regs, site.args, d);
      assert es[d] == ExprOf(k.s.exprs, site.args[d]) by { ArgExprAt(k.s.exprs, site.args, d); }
    }
    forall r: Reg | r !in params
      ensures Get(k'.s.c.regs, Var(r)) == None && RegExpr(k'.s.exprs, r) == None
    {
      Bound(params, vs, es, r);
    }
  }

  lemma ArgExprAt(exprs: Exprs, args: seq<Operand>, d: nat)
    requires d < |args|
    ensures ArgExprs(exprs, args)[d] == ExprOf(exprs, args[d])
  {
  }

  // ----- returns -----

  /** The caller is back in front of its block's terminator: memory, input position, shadow
      and constraints are the callee's, the register of a used result has the value and the
      expression, or null, of the operand that the callee returned, and every other register
      has the value and expression that it had when the call was made. */
  ghost predicate CallerContinues(k: SymConf, frame: SymFrame, dst: Option<Reg>, back: Sym)
    requires k.s.c.ctl.Returned?
  {
    && back.c.mem == k.s.c.mem && back.c.pos == k.s.c.pos && back.shadow == k.s.shadow && back.path == k.s.path
    && forall r: Reg ::
         if dst == Some(r) then
           Get(back.c.regs, Var(r)) == Get(k.s.c.regs, k.s.c.ctl.result)
           && RegExpr(back.exprs, r) == ExprOf(k.s.exprs, k.s.c.ctl.result)
         else
           Get(back.c.regs, Var(r)) == Get(frame.frame.regs, Var(r))
           && RegExpr(back.exprs, r) == RegExpr(frame.exprs, r)
  }

  /** A return continues the innermost caller, which then leaves its block. */
  lemma ResumeTakes(m: Module, k: SymConf) returns (back: Sym)
    requires SlotsThere(k) && Returning(m, k.s.c, |k.stack|).Some?
    requires var fr := k.stack[|k.stack| - 1].frame; fr.fn in m && fr.at in m[fr.fn].calls && fr.at in m[fr.fn].p.blocks
    ensures k.s.c.ctl.Returned? && |k.stack| > 0
    ensures var fr := k.stack[|k.stack| - 1];
            var k', rt := SymResume(m, k, Returning(m, k.s.c, |k.stack|).value), m[fr.frame.fn];
            && k'.fn == fr.frame.fn && k'.stack == k.stack[..|k.stack| - 1]
            && CallerContinues(k, fr, rt.calls[fr.frame.at].dst, back)
            && k'.s == SymTerminate(rt.p, back, fr.frame.at, rt.p.blocks[fr.frame.at].term)
  {
    hide SymTerminate;
    var fr, v := k.stack[|k.stack| - 1], Returning(m, k.s.c, |k.stack|).value;
    back := SymBack(k, fr, m[fr.frame.fn].calls[fr.frame.at], v, ExprOf(k.s.exprs, k.s.c.ctl.result));
  }

  // ----- a call from its start to its return -----

  /** A step leaves alone the callers that are there before and after it. */
  lemma StepKeepsCallers(m: Module, i: Input, k: SymConf, n: nat)
    requires SlotsThere(k) && n <= |k.stack| && n <= |SymConfStep(m, i, k).stack|
    ensures SymConfStep(m, i, k).stack[..n] == k.stack[..n]
  {
    hide Values, Interprocedural.Bind, BindExprs, Stored, Received, ArgExprs, SymStep, SymTerminate, SymBack, SiteOf,
         Returning;
    if k.fn in m {
      var site := SiteOf(m, k.fn, k.s.c);
      if site.None? && Returning(m, k.s.c, |k.stack|).Some? {
        ReturningIs(m, k.s.c, |k.stack|);
      } else if site.Some? {
        SiteRunning(m, k.fn, k.s.c);
      }
    }
  }

  /** At least `n` callers wait from step `t` to step `u`. */
  ghost predicate Waiting(m: Module, i: Input, start: SymConf, t: nat, u: nat, n: nat)
    requires SlotsThere(start)
  {
    forall w: nat :: t <= w <= u ==> |SymConfRun(m, i, start, w).stack| >= n
  }

  /** Whatever the callees do, a waiting caller stays as it was. */
  lemma {:induction false} CallersKept(m: Module, i: Input, start: SymConf, t: nat, u: nat, n: nat)
    requires SlotsThere(start) && t <= u && Waiting(m, i, start, t, u, n)
    ensures |SymConfRun(m, i, start, u).stack| >= n && |SymConfRun(m, i, start, t).stack| >= n
    ensures SymConfRun(m, i, start, u).stack[..n] == SymConfRun(m, i, start, t).stack[..n]
  {
    hide SymConfStep, SlotsThere;
    assert |SymConfRun(m, i, start, u).stack| >= n;
    if t < u {
      CallersKept(m, i, start, t, u - 1, n);
      StepKeepsCallers(m, i, SymConfRun(m, i, start, u - 1), n);
    }
  }

  /** The configuration calls at this site and the call goes through. */
  ghost predicate Calls(m: Module, k: SymConf, site: CallSite)
  {
    && k.fn in m && SiteOf(m, k.fn, k.s.c) == Some(site) && site.callee in m && OkSite(site)
    && |site.args| == |m[site.callee].params| && DistinctRegs(m[site.callee].params)
    && Values(k.s.c.regs, site.args).Some?
  }

  /** A whole call, however deep its callees nest: from the call in step `t` to the return in
      step `u` of the function called. The caller goes on at its own terminator with every
      register and expression as it was at the call, but for a used result, which has the
      value and the expression of the operand returned. */
  lemma WholeCall(m: Module, i: Input, start: SymConf, t: nat, u: nat, site: CallSite) returns (back: Sym)
    requires SlotsThere(start) && t < u && Calls(m, SymConfRun(m, i, start, t), site)
    requires var k, r := SymConfRun(m, i, start, t), SymConfRun(m, i, start, u);
             && Waiting(m, i, start, t + 1, u, |k.stack| + 1) && |r.stack| == |k.stack| + 1
             && r.fn in m && Returning(m, r.s.c, |r.stack|).Some?
    ensures var k, r, k' := SymConfRun(m, i, start, t), SymConfRun(m, i, start, u), SymConfRun(m, i, start, u + 1);
            && k.s.c.ctl.Running? && r.s.c.ctl.Returned? && k'.fn == k.fn && k'.stack == k.stack
            && k.fn in m && k.s.c.ctl.block in m[k.fn].p.blocks
            && CalleeStarts(m, k, site, SymConfRun(m, i, start, t + 1))
            && CallerContinues(r, SymFrame(Frame(k.fn, k.s.c.ctl.block, k.s.c.regs), k.s.exprs), site.dst, back)
            && k'.s == SymTerminate(m[k.fn].p, back, k.s.c.ctl.block, m[k.fn].p.blocks[k.s.c.ctl.block].term)
  {
    hide SymInvoke, SymResume, SymTerminate, Values, DistinctRegs, OkSite, Waiting, CalleeStarts, CallerContinues,
         SymStep, SymConfRun, SlotsThere;
    var k, r := SymConfRun(m, i, start, t), SymConfRun(m, i, start, u);
    SiteRunning(m, k.fn, k.s.c);
    NextStep(m, i, start, t);
    InvokePasses(m, k, site);
    StackAtStart(m, k, site, SymInvoke(m, k, site));
    CallersKept(m, i, start, t + 1, u, |k.stack| + 1);
    assert r.stack == r.stack[..|k.stack| + 1];
    ReturningIs(m, r.s.c, |r.stack|);
    NextStep(m, i, start, u);
    back := ResumeTakes(m, r);
  }

  lemma NextStep(m: Module, i: Input, start: SymConf, t: nat)
    requires SlotsThere(start)
    ensures SymConfRun(m, i, start, t + 1) == SymConfStep(m, i, SymConfRun(m, i, start, t))
  {
    hide SymConfStep, SlotsThere;
  }

  lemma StackAtStart(m: Module, k: SymConf, site: CallSite, k': SymConf)
    requires k.s.c.ctl.Running? && site.callee in m && |site.args| == |m[site.callee].params|
    requires CalleeStarts(m, k, site, k')
    ensures k'.stack == k.stack + [SymFrame(Frame(k.fn, k.s.c.ctl.block, k.s.c.regs), k.s.exprs)]
  {
    hide Get, RegExpr, ExprOf;
  }

  // ----- the concrete part -----

  /** The concrete part of the instrumented execution of a module is its concrete execution. */
  lemma {:induction false} ConcretePart(m: Module, i: Input, start: SymConf, n: nat)
    requires SlotsThere(start)
    ensures Erase(SymConfRun(m, i, start, n)) == ConfRun(m, i, Erase(start), n)
  {
    hide SymConfStep, ConfStep, SlotsThere, Erase;
    if n > 0 {
      ConcretePart(m, i, start, n - 1);
      ConcreteStep(m, i, SymConfRun(m, i, start, n - 1));
    }
  }

  lemma ConcreteStep(m: Module, i: Input, k: SymConf)
    requires SlotsThere(k)
    ensures Erase(SymConfStep(m, i, k)) == ConfStep(m, i, Erase(k))
  {
    hide Values, Interprocedural.Bind, BindExprs, Stored, Received, ArgExprs, SymStep, Step, Terminate, SiteOf,
         PhiExprs, TermPushes, Returning;
    if k.fn in m && SiteOf(m, k.fn, k.s.c).None? {
      if Returning(m, k.s.c, |k.stack|).Some? {
        ReturningIs(m, k.s.c, |k.stack|);
      } else {
        StepConcrete(m[k.fn].p, i, k.s);
      }
    } else if k.fn in m {
      SiteRunning(m, k.fn, k.s.c);
    }
  }

  lemma StepConcrete(p: Program, i: Input, s: Sym)
    ensures SymStep(p, i, s).c == Step(p, i, s.c)
  {
    hide Exec, Pushes, ResultExpr, ResultShadow, Terminate, TermPushes, PhiExprs;
  }
}
