/** Instrumented functions that call each other: expressions of arguments and results travel
    through the global slots, and path soundness holds over the whole call tree. */
module Interprocedural {
  import opened Options
  import opened Expressions
  import opened FlatMemory
  import opened Constraints
  import opened Ir
  import opened Concolic
  import opened PathSoundness
  import opened CallSlots

  // ----- modules -----

  /** A call at the end of a block, before its terminator; `dst` receives a used result. */
  datatype CallSite = CallSite(callee: nat, args: seq<Operand>, dst: Option<Reg>)

  datatype Routine = Routine(p: Program, entry: Label, params: seq<Reg>, calls: map<Label, CallSite>)

  type Module = map<nat, Routine>

  /** A suspended caller: its registers, and the block whose call is under way. */
  datatype Frame = Frame(fn: nat, at: Label, regs: Regs)

  /** The function under way, its state, and its callers, the innermost last. */
  datatype Conf = Conf(fn: nat, c: State, stack: seq<Frame>)

  function SiteOf(m: Module, fn: nat, c: State): (r: Option<CallSite>)
    ensures r.Some? ==> fn in m && c.ctl.Running? && c.ctl.block in m[fn].calls && c.ctl.block in m[fn].p.blocks
  {
    match c.ctl
    case Running(b, pc) =>
      if fn in m && b in m[fn].calls && b in m[fn].p.blocks && pc >= |m[fn].p.blocks[b].body|
      then Some(m[fn].calls[b]) else None
    case _ => None
  }

  /** The value that a function under way returns to its caller. */
  function Returning(m: Module, c: State, depth: nat): Option<Value>
  {
    match c.ctl
    case Returned(o) => if depth > 0 then Get(c.regs, o) else None
    case _ => None
  }

  // ----- concrete execution -----

  function Values(regs: Regs, args: seq<Operand>): Option<seq<Value>>
  {
    if |args| == 0 then Some([])
    else
      match (Values(regs, args[..|args| - 1]), Get(regs, args[|args| - 1]))
      case (Some(vs), Some(v)) => Some(vs + [v])
      case _ => None
  }

  function Bind(params: seq<Reg>, vs: seq<Value>): Regs
    requires |params| == |vs|
  {
    if |params| == 0 then map[]
    else Bind(params[..|params| - 1], vs[..|vs| - 1])[params[|params| - 1] := vs[|vs| - 1]]
  }

  function Crash(k: Conf): Conf { k.(c := k.c.(ctl := Fault)) }

  function Invoke(m: Module, k: Conf, site: CallSite): Conf
    requires k.c.ctl.Running?
  {
    if site.callee !in m then Crash(k)
    else
      var callee := m[site.callee];
      match Values(k.c.regs, site.args)
      case Some(vs) =>
        if |vs| == |callee.params| then
          Conf(site.callee, State(Running(callee.entry, 0), Bind(callee.params, vs), k.c.mem, k.c.pos),
               k.stack + [Frame(k.fn, k.c.ctl.block, k.c.regs)])
        else Crash(k)
      case None => Crash(k)
  }

  /** The caller's state when the call returns, about to execute its block's terminator. */
  function Back(k: Conf, fr: Frame, site: CallSite, v: Value): State
  {
    State(Running(fr.at, 0), if site.dst.Some? then fr.regs[site.dst.value := v] else fr.regs, k.c.mem, k.c.pos)
  }

  function Resume(m: Module, k: Conf, v: Value): Conf
    requires |k.stack| > 0
  {
    var fr, rest := k.stack[|k.stack| - 1], k.stack[..|k.stack| - 1];
    if fr.fn in m && fr.at in m[fr.fn].calls && fr.at in m[fr.fn].p.blocks then
      var rt := m[fr.fn];
      Conf(fr.fn, Terminate(rt.p, Back(k, fr, rt.calls[fr.at], v), fr.at, rt.p.blocks[fr.at].term), rest)
    else Crash(k)
  }

  function ConfStep(m: Module, input: Input, k: Conf): Conf
  {
    if k.fn !in m then Crash(k)
    else
      match SiteOf(m, k.fn, k.c)
      case Some(site) => Invoke(m, k, site)
      case None =>
        match Returning(m, k.c, |k.stack|)
        case Some(v) => Resume(m, k, v)
        case None => k.(c := Step(m[k.fn].p, input, k.c))
  }

  function ConfRun(m: Module, input: Input, k: Conf, n: nat): Conf
  {
    if n == 0 then k else ConfStep(m, input, ConfRun(m, input, k, n - 1))
  }

  // ----- instrumented execution -----

  datatype SymFrame = SymFrame(frame: Frame, exprs: Exprs)

  /** With the argument slots and the return slot of the run-time library. */
  datatype SymConf = SymConf(fn: nat, s: Sym, stack: seq<SymFrame>, slots: seq<SymExpr>, ret: SymExpr)

  function Erase(k: SymConf): Conf
  {
    Conf(k.fn, k.s.c, seq(|k.stack|, d requires 0 <= d < |k.stack| => k.stack[d].frame))
  }

  function ArgExprs(exprs: Exprs, args: seq<Operand>): (r: seq<SymExpr>)
    ensures |r| == |args|
  {
    seq(|args|, d requires 0 <= d < |args| => ExprOf(exprs, args[d]))
  }

  function BindExprs(params: seq<Reg>, es: seq<SymExpr>): Exprs
    requires |params| == |es|
  {
    if |params| == 0 then map[]
    else SetExpr(BindExprs(params[..|params| - 1], es[..|es| - 1]), params[|params| - 1], es[|es| - 1])
  }

  predicate SlotsThere(k: SymConf) { |k.slots| == MAX_ARGUMENTS }

  function SymCrash(k: SymConf): SymConf { k.(s := k.s.(c := k.s.c.(ctl := Fault))) }

  /** The caller stores its arguments' expressions and, for a used result, empties the return
      slot; the callee reads as many expressions as it has parameters. */
  function SymInvoke(m: Module, k: SymConf, site: CallSite): (r: SymConf)
    requires SlotsThere(k) && k.s.c.ctl.Running?
    ensures SlotsThere(r)
  {
    if site.callee !in m then SymCrash(k)
    else
      var callee := m[site.callee];
      match Values(k.s.c.regs, site.args)
      case Some(vs) =>
        if |vs| == |callee.params| then
          var slots := Stored(k.slots, ArgExprs(k.s.exprs, site.args), |site.args|);
          var c := State(Running(callee.entry, 0), Bind(callee.params, vs), k.s.c.mem, k.s.c.pos);
          SymConf(site.callee,
                  Sym(c, BindExprs(callee.params, Received(slots, |callee.params|)), k.s.shadow, k.s.path),
                  k.stack + [SymFrame(Frame(k.fn, k.s.c.ctl.block, k.s.c.regs), k.s.exprs)],
                  slots, if site.dst.Some? then None else k.ret)
        else SymCrash(k)
      case None => SymCrash(k)
  }

  /** The caller's instrumented state: a used result's expression comes from the return slot. */
  function SymBack(k: SymConf, fr: SymFrame, site: CallSite, v: Value, ret: SymExpr): Sym
  {
    Sym(Back(Erase(k), fr.frame, site, v),
        if site.dst.Some? then SetExpr(fr.exprs, site.dst.value, ret) else fr.exprs,
        k.s.shadow, k.s.path)
  }

  /** The callee puts its result's expression into the return slot, and a caller that uses
      the result takes it out. */
  function SymResume(m: Module, k: SymConf, v: Value): (r: SymConf)
    requires SlotsThere(k) && |k.stack| > 0 && k.s.c.ctl.Returned?
    ensures SlotsThere(r)
  {
    var fr, rest := k.stack[|k.stack| - 1], k.stack[..|k.stack| - 1];
    var fn, at := fr.frame.fn, fr.frame.at;
    if fn in m && at in m[fn].calls && at in m[fn].p.blocks then
      var rt := m[fn];
      var ret := ExprOf(k.s.exprs, k.s.c.ctl.result);
      var back := SymBack(k, fr, rt.calls[at], v, ret);
      SymConf(fn, SymTerminate(rt.p, back, at, rt.p.blocks[at].term), rest, k.slots,
              if rt.calls[at].dst.Some? then None else ret)
    else SymCrash(k)
  }

  function SymConfStep(m: Module, input: Input, k: SymConf): (r: SymConf)
    requires SlotsThere(k)
    ensures SlotsThere(r)
  {
    if k.fn !in m then SymCrash(k)
    else
      match SiteOf(m, k.fn, k.s.c)
      case Some(site) => SymInvoke(m, k, site)
      case None =>
        match Returning(m, k.s.c, |k.stack|)
        case Some(v) => SymResume(m, k, v)
        case None => k.(s := SymStep(m[k.fn].p, input, k.s))
  }

  function SymConfRun(m: Module, input: Input, k: SymConf, n: nat): (r: SymConf)
    requires SlotsThere(k)
    ensures SlotsThere(r)
  {
    if n == 0 then k else SymConfStep(m, input, SymConfRun(m, input, k, n - 1))
  }

  // ----- agreement -----

  ghost predicate FrameAgrees(fr: SymFrame, j: Input, fr': Frame)
  {
    && fr'.fn == fr.frame.fn && fr'.at == fr.frame.at && OkRegs(fr.frame.regs)
    && RegsAgree(fr.frame.regs, fr.exprs, j, fr'.regs)
  }

  /** The function under way and all its callers are where the instrumented run predicts. */
  ghost predicate ConfAgrees(k: SymConf, j: Input, k': Conf)
  {
    && k'.fn == k.fn && Agrees(k.s, k'.c, j) && OkRegs(k.s.c.regs)
    && |k'.stack| == |k.stack| && forall d :: 0 <= d < |k.stack| ==> FrameAgrees(k.stack[d], j, k'.stack[d])
  }

  predicate OkSite(site: CallSite)
  {
    |site.args| <= MAX_ARGUMENTS && forall d :: 0 <= d < |site.args| ==> OkOperand(site.args[d])
  }

  predicate OkRoutine(rt: Routine) { OkProgram(rt.p) && forall b :: b in rt.calls ==> OkSite(rt.calls[b]) }

  predicate OkModule(m: Module) { forall fn :: fn in m ==> OkRoutine(m[fn]) }

  /** What a step pushes. */
  function ConfPushes(m: Module, k: SymConf): seq<Constraint>
  {
    if k.fn !in m || SiteOf(m, k.fn, k.s.c).Some? then []
    else
      match Returning(m, k.s.c, |k.stack|)
      case Some(v) =>
        var fr := k.stack[|k.stack| - 1];
        var fn, at := fr.frame.fn, fr.frame.at;
        if fn in m && at in m[fn].calls && at in m[fn].p.blocks then
          TermPushes(SymBack(k, fr, m[fn].calls[at], v, ExprOf(k.s.exprs, k.s.c.ctl.result)), m[fn].p.blocks[at].term)
        else []
      case None => StepPushes(m[k.fn].p, k.s)
  }

  lemma ConfPath(m: Module, input: Input, k: SymConf)
    requires SlotsThere(k)
    ensures SymConfStep(m, input, k).s.path == k.s.path + ConfPushes(m, k)
  {
    hide Stored, Received, BindExprs, Bind, Values, SymStep, StepPushes, TermPushes, Terminate, PhiExprs, Back, Erase;
    if k.fn in m && SiteOf(m, k.fn, k.s.c).None? && Returning(m, k.s.c, |k.stack|).None? {
      StepPath(m[k.fn].p, input, k.s);
    }
  }

  // ----- calls -----

  /** The values of arguments on both sides, and their expressions. */
  ghost predicate AllPredicted(es: seq<SymExpr>, vs: seq<Value>, j: Input, vs': seq<Value>)
  {
    && |es| == |vs| == |vs'|
    && forall d :: 0 <= d < |vs| ==> ValuePredicted(es[d], vs[d], j, vs'[d]) && OkValue(vs[d])
  }

  lemma {:induction false} ValuesAgree(s: Sym, c': State, j: Input, args: seq<Operand>)
    requires RegsAgree(s.c.regs, s.exprs, j, c'.regs) && OkRegs(s.c.regs)
    requires forall d :: 0 <= d < |args| ==> OkOperand(args[d])
    ensures var vs, vs' := Values(s.c.regs, args), Values(c'.regs, args);
            (vs.Some? <==> vs'.Some?) && (vs.Some? ==> AllPredicted(ArgExprs(s.exprs, args), vs.value, j, vs'.value))
  {
    hide SortOf, Eval, RegsAgree, OkRegs, ExprOf;
    if |args| > 0 {
      var front, last := args[..|args| - 1], args[|args| - 1];
      ValuesAgree(s, c', j, front);
      GetPredicted(s, c', j, last);
      assert ArgExprs(s.exprs, args) == ArgExprs(s.exprs, front) + [ExprOf(s.exprs, last)];
    }
  }

  lemma {:induction false} BindAgrees(params: seq<Reg>, es: seq<SymExpr>, vs: seq<Value>, j: Input, vs': seq<Value>)
    requires |params| == |vs| && AllPredicted(es, vs, j, vs')
    ensures RegsAgree(Bind(params, vs), BindExprs(params, es), j, Bind(params, vs')) && OkRegs(Bind(params, vs))
  {
    hide SortOf, Eval, ValuePredicted, OkValue, SetExpr, RegsAgree, OkRegs;
    var n := |params|;
    if n == 0 {
      NothingBound(j);
    } else {
      BindAgrees(params[..n - 1], es[..n - 1], vs[..n - 1], j, vs'[..n - 1]);
      SetAgrees(Bind(params[..n - 1], vs[..n - 1]), BindExprs(params[..n - 1], es[..n - 1]), j,
                Bind(params[..n - 1], vs'[..n - 1]), params[n - 1], es[n - 1], vs[n - 1], vs'[n - 1]);
    }
  }

  lemma NothingBound(j: Input)
    ensures RegsAgree(map[], map[], j, map[]) && OkRegs(map[])
  {
  }

  /** A call: the callee's parameters have the expressions of its own caller's arguments. */
  lemma InvokeAgrees(m: Module, k: SymConf, j: Input, k': Conf, site: CallSite)
    requires SlotsThere(k) && k.s.c.ctl.Running? && ConfAgrees(k, j, k') && OkSite(site)
    ensures k'.c.ctl.Running? && ConfAgrees(SymInvoke(m, k, site), j, Invoke(m, k', site))
  {
    hide SortOf, Eval, RegsAgree, OkRegs, Predicts, Stored, Received, Bind, BindExprs, Values, ArgExprs, AllPredicted,
         OkOperand;
    ValuesAgree(k.s, k'.c, j, site.args);
    if site.callee in m && Values(k.s.c.regs, site.args).Some? {
      var callee, es := m[site.callee], ArgExprs(k.s.exprs, site.args);
      var vs, vs' := Values(k.s.c.regs, site.args).value, Values(k'.c.regs, site.args).value;
      SameLength(es, vs, j, vs');
      if |vs| == |callee.params| {
        ReceivedAll(k.slots, es);
        BindAgrees(callee.params, es, vs, j, vs');
      }
    }
  }

  lemma SameLength(es: seq<SymExpr>, vs: seq<Value>, j: Input, vs': seq<Value>)
    requires AllPredicted(es, vs, j, vs')
    ensures |es| == |vs| == |vs'|
  {
  }

  /** A callee's parameters have the expressions of its own caller's arguments. */
  lemma InvokeBinds(m: Module, k: SymConf, site: CallSite)
    requires SlotsThere(k) && k.s.c.ctl.Running? && OkSite(site) && site.callee in m
    requires |site.args| == |m[site.callee].params| && Values(k.s.c.regs, site.args).Some?
    ensures SymInvoke(m, k, site).s.exprs == BindExprs(m[site.callee].params, ArgExprs(k.s.exprs, site.args))
  {
    hide Stored, Received, Bind, BindExprs, Values, ArgExprs, OkOperand;
    ReceivedAll(k.slots, ArgExprs(k.s.exprs, site.args));
    ValuesLength(k.s.c.regs, site.args);
  }

  lemma {:induction false} ValuesLength(regs: Regs, args: seq<Operand>)
    requires Values(regs, args).Some?
    ensures |Values(regs, args).value| == |args|
  {
    if |args| > 0 {
      ValuesLength(regs, args[..|args| - 1]);
    }
  }

  /** What the caller finds when the call returns. */
  lemma BackAgrees(k: SymConf, j: Input, k': Conf, fr: SymFrame, fr': Frame, site: CallSite, v: Value, v': Value,
                   ret: SymExpr)
    requires Agrees(k.s, k'.c, j) && FrameAgrees(fr, j, fr') && ValuePredicted(ret, v, j, v') && OkValue(v)
    ensures Agrees(SymBack(k, fr, site, v, ret), Back(k', fr', site, v'), j)
    ensures OkRegs(SymBack(k, fr, site, v, ret).c.regs)
  {
    hide SortOf, Eval, RegsAgree, OkRegs, Predicts, ValuePredicted, SetExpr;
    if site.dst.Some? {
      SetAgrees(fr.frame.regs, fr.exprs, j, fr'.regs, site.dst.value, ret, v, v');
    }
  }

  /** The operand that a finished function returns is one of its program's. */
  ghost predicate OkReturn(k: SymConf) { k.s.c.ctl.Returned? ==> OkOperand(k.s.c.ctl.result) }

  /** A return: the result's expression is the one which that very callee returned. */
  lemma ResumeAgrees(m: Module, k: SymConf, j: Input, k': Conf)
    requires OkModule(m) && SlotsThere(k) && |k.stack| > 0 && k.s.c.ctl.Returned? && ConfAgrees(k, j, k')
    requires OkReturn(k) && SatisfiesAll(j, ConfPushes(m, k)) && k.fn in m
    requires Returning(m, k.s.c, |k.stack|).Some?
    ensures Returning(m, k'.c, |k'.stack|).Some? && k'.c.ctl.Returned?
    ensures ConfAgrees(SymResume(m, k, Returning(m, k.s.c, |k.stack|).value), j,
                       Resume(m, k', Returning(m, k'.c, |k'.stack|).value))
  {
    hide SortOf, Eval, RegsAgree, OkRegs, Predicts, SatisfiesAll, OkRoutine, SymTerminate, Terminate, TermPushes, Back,
         SymBack;
    var o := k.s.c.ctl.result;
    GetPredicted(k.s, k'.c, j, o);
    var v, v' := Get(k.s.c.regs, o).value, Get(k'.c.regs, o).value;
    var fr, fr' := k.stack[|k.stack| - 1], k'.stack[|k'.stack| - 1];
    assert FrameAgrees(fr, j, fr');
    var fn, at := fr.frame.fn, fr.frame.at;
    if fn in m && at in m[fn].calls && at in m[fn].p.blocks {
      var rt := m[fn];
      var ret := ExprOf(k.s.exprs, o);
      assert OkProgram(rt.p) && OkBlock(rt.p.blocks[at]) by { RoutineOk(m, fn); }
      BackAgrees(k, j, k', fr, fr', rt.calls[at], v, v', ret);
      var back := SymBack(k, fr, rt.calls[at], v, ret);
      assert back.c.ctl.Running? by { BackRunning(k, fr, rt.calls[at], v, ret); }
      TerminateAgrees(rt.p, j, back, Back(k', fr', rt.calls[at], v'), at, rt.p.blocks[at].term);
      TerminateConcrete(rt.p, back, at, rt.p.blocks[at].term);
    }
  }

  lemma BackRunning(k: SymConf, fr: SymFrame, site: CallSite, v: Value, ret: SymExpr)
    ensures SymBack(k, fr, site, v, ret).c.ctl.Running?
  {
  }

  lemma RoutineOk(m: Module, fn: nat)
    requires OkModule(m) && fn in m
    ensures OkProgram(m[fn].p) && forall b :: b in m[fn].calls ==> OkSite(m[fn].calls[b])
  {
    assert OkRoutine(m[fn]);
  }

  // ----- runs -----

  /** A step inside a function truncates no symbolic value to i1. */
  ghost predicate ConfOk(m: Module, k: SymConf)
  {
    k.fn in m && SiteOf(m, k.fn, k.s.c).None? && Returning(m, k.s.c, |k.stack|).None? ==> StepOk(m[k.fn].p, k.s)
  }

  lemma SameSite(m: Module, k: SymConf, j: Input, k': Conf)
    requires ConfAgrees(k, j, k')
    ensures SiteOf(m, k'.fn, k'.c) == SiteOf(m, k.fn, k.s.c)
  {
    hide RegsAgree, Predicts, OkRegs;
  }

  lemma SameReturn(m: Module, k: SymConf, j: Input, k': Conf)
    requires ConfAgrees(k, j, k') && OkReturn(k)
    ensures Returning(m, k'.c, |k'.stack|).Some? <==> Returning(m, k.s.c, |k.stack|).Some?
  {
    hide RegsAgree, Predicts, OkRegs, SortOf, Eval;
    if k.s.c.ctl.Returned? {
      GetPredicted(k.s, k'.c, j, k.s.c.ctl.result);
    }
  }

  lemma ConfStepAgrees(m: Module, i: Input, j: Input, k: SymConf, k': Conf)
    requires OkModule(m) && |i| == |j| && SlotsThere(k) && ConfAgrees(k, j, k') && OkReturn(k)
    requires SatisfiesAll(j, ConfPushes(m, k)) && ConfOk(m, k)
    ensures ConfAgrees(SymConfStep(m, i, k), j, ConfStep(m, j, k'))
  {
    hide SortOf, Eval, RegsAgree, OkRegs, Predicts, SatisfiesAll, OkRoutine, SymInvoke, Invoke, SymResume, Resume,
         SymStep, Step, SiteOf, Returning, FrameAgrees, StepPushes, StepOk;
    if k.fn in m {
      SameSite(m, k, j, k');
      SameReturn(m, k, j, k');
      RoutineOk(m, k.fn);
      var site := SiteOf(m, k.fn, k.s.c);
      if site.Some? {
        SiteRunning(m, k.fn, k.s.c);
        InvokeAgrees(m, k, j, k', site.value);
      } else if Returning(m, k.s.c, |k.stack|).Some? {
        ReturningIs(m, k.s.c, |k.stack|);
        ResumeAgrees(m, k, j, k');
      } else {
        StepAgrees(m[k.fn].p, i, j, k.s, k'.c);
      }
    }
  }

  lemma SiteRunning(m: Module, fn: nat, c: State)
    requires SiteOf(m, fn, c).Some?
    ensures fn in m && c.ctl.Running? && c.ctl.block in m[fn].calls
    ensures SiteOf(m, fn, c).value == m[fn].calls[c.ctl.block]
  {
  }

  lemma ReturningIs(m: Module, c: State, depth: nat)
    requires Returning(m, c, depth).Some?
    ensures depth > 0 && c.ctl.Returned?
  {
  }

  /** Functions return operands of their programs. */
  lemma ReturnOk(m: Module, i: Input, k: SymConf)
    requires OkModule(m) && SlotsThere(k) && OkReturn(k)
    ensures OkReturn(SymConfStep(m, i, k))
  {
    hide OkRoutine, Stored, Received, Bind, BindExprs, Values, PhiRegs, PhiExprs, TermPushes, Pushes, ResultExpr,
         ResultShadow, Target, OkOperand, SetExpr, Back, ArgExprs, Erase;
    if k.fn in m {
      RoutineOk(m, k.fn);
      var site := SiteOf(m, k.fn, k.s.c);
      if site.None? {
        var v := Returning(m, k.s.c, |k.stack|);
        if v.Some? {
          var fr := k.stack[|k.stack| - 1].frame;
          if fr.fn in m && fr.at in m[fr.fn].calls && fr.at in m[fr.fn].p.blocks {
            RoutineOk(m, fr.fn);
            var back := SymBack(k, k.stack[|k.stack| - 1], m[fr.fn].calls[fr.at], v.value,
                                ExprOf(k.s.exprs, k.s.c.ctl.result));
            TermReturns(m[fr.fn].p, back, fr.at);
          }
        } else {
          StepReturns(m[k.fn].p, i, k.s);
        }
      }
    }
  }

  lemma TermReturns(p: Program, s: Sym, b: Label)
    requires OkProgram(p) && b in p.blocks
    ensures var c := SymTerminate(p, s, b, p.blocks[b].term).c; c.ctl.Returned? ==> OkOperand(c.ctl.result)
  {
    hide PhiRegs, PhiExprs, TermPushes, Target, OkOperand;
    assert OkBlock(p.blocks[b]);
  }

  lemma StepReturns(p: Program, i: Input, s: Sym)
    requires OkProgram(p) && (s.c.ctl.Returned? ==> OkOperand(s.c.ctl.result))
    ensures var c := SymStep(p, i, s).c; c.ctl.Returned? ==> OkOperand(c.ctl.result)
  {
    hide Exec, SymTerminate, ResultExpr, ResultShadow, Pushes, OkOperand;
    match s.c.ctl
    case Running(b, pc) =>
      if b in p.blocks {
        if pc < |p.blocks[b].body| {
          ExecReturns(p, i, s, p.blocks[b].body[pc]);
        } else {
          TermReturns(p, s, b);
        }
      }
    case _ =>
  }

  lemma ExecReturns(p: Program, i: Input, s: Sym, ins: Instr)
    requires s.c.ctl.Running?
    ensures !Advance(SymExec(p, i, s, ins).c).ctl.Returned?
  {
    hide ResultExpr, ResultShadow, Pushes, BinValue, BoolValue, CmpValue, CastValue, GepValue, LoadValue, SelectValue,
         StoreBits, MoveMemory, FillMemory, InputMemory;
  }

  /** Path soundness over the whole call tree: for every module of functions that call each
      other to any depth, every run and every number of steps, an input of the same length
      that satisfies all constraints pushed so far is in the same function at the same place
      under the same callers, and every register of every function under way and every
      memory byte is as its expression says on that input. */
  lemma {:induction false} ModuleSound(m: Module, start: SymConf, i: Input, j: Input, start': Conf, n: nat)
    requires OkModule(m) && |i| == |j| && SlotsThere(start) && ConfAgrees(start, j, start') && OkReturn(start)
    requires forall t: nat :: t < n ==> ConfOk(m, SymConfRun(m, i, start, t))
    requires SatisfiesAll(j, SymConfRun(m, i, start, n).s.path)
    ensures ConfAgrees(SymConfRun(m, i, start, n), j, ConfRun(m, j, start', n)) && OkReturn(SymConfRun(m, i, start, n))
  {
    hide SatisfiesAll, ConfAgrees, SymConfStep, ConfStep, ConfPushes, ConfOk, OkModule, OkReturn, SlotsThere;
    if n > 0 {
      var k := SymConfRun(m, i, start, n - 1);
      ConfPath(m, i, k);
      SatisfiesConcat(j, k.s.path, ConfPushes(m, k));
      ModuleSound(m, start, i, j, start', n - 1);
      assert ConfOk(m, k);
      ConfStepAgrees(m, i, j, k, ConfRun(m, j, start', n - 1));
      ReturnOk(m, i, k);
    }
  }
}
