/** What the pass inserts for one instruction, and the proof that the inserted code, once
    short-circuited and run beside the instruction, does what the instrumented step does. */
module Emission {
  import opened Options
  import opened BitVectors
  import opened Expressions
  import opened FlatMemory
  import opened Constraints
  import opened SwitchBatch
  import opened Gep
  import opened Ir
  import opened Concolic
  import opened SymbolicCode
  import opened ShortCircuit
  import opened ShortCircuitMeaning
  import opened CodeFrame
  import opened PhiFinalization
  import opened Instrumentation
  import opened GepInstrumentation
  import opened Recording

  // ----- inserted code -----

  /** Code as a visit inserts it: a recorded computation, with the first register that its
      rewriting may use, or a direct call of the run-time library. */
  datatype Item =
    | Compute(comp: Computation, base: nat, used: bool)
    | Pick(dst: nat, cond: Operand, ifTrue: SymOperand, ifFalse: SymOperand)   // an LLVM select
    | PinCall(addrExpr: SymOperand, addr: Operand)                             // concretizePointer
    | ReadCall(dst: nat, addrExpr: SymOperand, addr: Operand, bytes: nat)
    | WriteCall(addrExpr: SymOperand, addr: Operand, valueExpr: SymOperand, bytes: nat)
    | MoveCall(addrExpr: SymOperand, fromExpr: SymOperand, lenExpr: SymOperand, addr: Operand, from: Operand,
               len: Operand)
    | FillCall(addrExpr: SymOperand, valueExpr: SymOperand, lenExpr: SymOperand, addr: Operand, len: Operand)
    | InputCall(dst: nat, addrExpr: SymOperand, lenExpr: SymOperand, addr: Operand, len: Operand)
    | SwitchCalls(condExpr: SymOperand, cond: Operand, values: seq<Value>)

  /** Finished code. */
  datatype Op = Code(stmts: seq<Stmt>) | Direct(call: Item)

  function Shortened(comp: Computation, base: nat, used: bool): seq<Stmt>
  {
    if |comp| > 0 && |Inputs(comp, |comp|)| > 0 then Rewritten(comp, base, used) else []
  }

  function Finish(item: Item): Op
  {
    if item.Compute? then Code(Shortened(item.comp, item.base, item.used)) else Direct(item)
  }

  function FinishAll(items: seq<Item>): (r: seq<Op>)
    ensures |r| == |items|
  {
    seq(|items|, k requires 0 <= k < |items| => Finish(items[k]))
  }

  // ----- its execution -----

  /** The state of the inserted code: its registers and calls, and shadow memory. */
  datatype World = World(m: Machine, shadow: Shadow)

  function Push(w: World, cs: seq<Constraint>): World { w.(m := w.m.(log := w.m.log + LogOf(cs))) }

  function SetReg(w: World, dst: nat, e: SymExpr): World { w.(m := w.m.(env := w.m.env[dst := e])) }

  /** Calls that push constraints, with the outcome they are given. */
  function LogOf(cs: seq<Constraint>): (r: seq<Called>)
    ensures |r| == |cs|
  {
    seq(|cs|, k requires 0 <= k < |cs| => Called(PushConstraint(Lit(Boolean(cs[k].taken))), [cs[k].expr]))
  }

  /** The concretisation of a 64-bit operand. */
  function Pinned(w: World, e: SymOperand, regs: Regs, o: Operand): seq<Constraint>
  {
    match AsSize(Get(regs, o))
    case Some(x) => Concretize(Look(w.m.env, e), x)
    case None => []
  }

  function ExecCall(p: Program, input: Input, item: Item, w: World, c: State): World
  {
    match item
    case Compute(_, _, _) => w
    case Pick(dst, cond, a, b) =>
      SetReg(w, dst, Look(w.m.env, if ConcreteValue(c.regs, cond) == Boolean(true) then a else b))
    case PinCall(e, addr) => Push(w, Pinned(w, e, c.regs, addr))
    case ReadCall(dst, e, addr, n) =>
      var a := AsSize(Get(c.regs, addr));
      SetReg(Push(w, Pinned(w, e, c.regs, addr)), dst,
             if a.Some? && n > 0 then ReadMemory(w.shadow, c.mem, a.value, n, p.le) else None)
    case WriteCall(e, addr, v, n) =>
      (match AsSize(Get(c.regs, addr))
       case Some(x) =>
         Push(w, Pinned(w, e, c.regs, addr)).(shadow := WriteMemory(w.shadow, Look(w.m.env, v), x, n, p.le))
       case None => w)
    case MoveCall(e, f, l, to, from, len) =>
      var w1 := Push(w, Pinned(w, e, c.regs, to) + Pinned(w, f, c.regs, from) + Pinned(w, l, c.regs, len));
      (match (AsSize(Get(c.regs, to)), AsSize(Get(c.regs, from)), AsSize(Get(c.regs, len)))
       case (Some(x), Some(y), Some(n)) => w1.(shadow := MoveShadow(w.shadow, x, y, n))
       case _ => w1)
    case FillCall(e, v, l, to, len) =>
      var w1 := Push(w, Pinned(w, e, c.regs, to) + Pinned(w, l, c.regs, len));
      (match (AsSize(Get(c.regs, to)), AsSize(Get(c.regs, len)))
       case (Some(x), Some(n)) => w1.(shadow := FillShadow(w.shadow, x, n, Look(w.m.env, v)))
       case _ => w1)
    case InputCall(dst, e, l, addr, len) =>
      var w1 := SetReg(Push(w, Pinned(w, e, c.regs, addr) + Pinned(w, l, c.regs, len)), dst, None);
      (match (AsSize(Get(c.regs, addr)), AsSize(Get(c.regs, len)))
       case (Some(x), Some(n)) => w1.(shadow := MakeSymbolic(w.shadow, x, Available(input, c.pos, n), c.pos))
       case _ => w1)
    case SwitchCalls(e, cond, values) => Push(w, SwitchPushes(Look(w.m.env, e), Get(c.regs, cond), values))
  }

  function ExecOp(p: Program, input: Input, op: Op, w: World, c: State): World
  {
    match op
    case Code(stmts) => w.(m := ExecAll(stmts, w.m, c.regs))
    case Direct(item) => ExecCall(p, input, item, w, c)
  }

  function ExecOps(p: Program, input: Input, ops: seq<Op>, w: World, c: State): World
    decreases |ops|
  {
    if |ops| == 0 then w else ExecOps(p, input, ops[1..], ExecOp(p, input, ops[0], w, c), c)
  }

  /** Executing the finished form of one or two items. */
  lemma ExecTwo(p: Program, input: Input, items: seq<Item>, w: World, c: State)
    requires |items| <= 2
    ensures var w1 := if |items| > 0 then ExecOp(p, input, Finish(items[0]), w, c) else w;
            ExecOps(p, input, FinishAll(items), w, c)
            == if |items| > 1 then ExecOp(p, input, Finish(items[1]), w1, c) else w1
  {
    hide ExecOp, Finish;
    var ops := FinishAll(items);
    if |items| > 0 {
      var w1 := ExecOp(p, input, ops[0], w, c);
      assert ExecOps(p, input, ops, w, c) == ExecOps(p, input, ops[1..], w1, c);
      if |items| > 1 {
        assert ops[1..][0] == ops[1] && ops[1..][1..] == [];
      }
    }
  }

  // ----- emission -----

  /** The pass between two instructions: the expressions it knows of and the first unused register. */
  datatype Pass = Pass(sym: SymbolicExpressions, next: nat)

  datatype Emitted = Emitted(pass: Pass, items: seq<Item>)

  /** Integer widths of the program's registers; 1 is the Boolean type. */
  type Types = map<Reg, nat>

  function TypeOf(types: Types, o: Operand): nat
  {
    match o
    case Var(r) => if r in types then types[r] else 0
    case Lit(v) => WidthOf(v)
  }

  /** registerSymbolicComputation for the value `dst`. */
  function Register(pass: Pass, dst: Reg, comp: Option<Computation>): Emitted
  {
    match comp
    case None => Emitted(pass, [])
    case Some(c) =>
      var final := LayoutOf(c, pass.next).FinalReg();
      Emitted(Pass(pass.sym[dst := ExprReg(final)], final + 1), [Compute(c, pass.next, true)])
  }

  /** The recorded push of a condition's outcome. */
  function PushComputation(sym: SymbolicExpressions, cond: Operand): Computation
  {
    [CallSite(PushConstraint(cond), [InputFor(sym, cond)])]
  }

  function EmitPush(pass: Pass, cond: Operand): Emitted
  {
    if !Tracked(pass.sym, cond) then Emitted(pass, [])
    else
      var comp := PushComputation(pass.sym, cond);
      Emitted(pass.(next := LayoutOf(comp, pass.next).FinalReg() + 1), [Compute(comp, pass.next, false)])
  }

  /** The value shares the expression of `o`. */
  function Share(pass: Pass, dst: Reg, o: Operand): Emitted
  {
    Emitted(if Tracked(pass.sym, o) then pass.(sym := pass.sym[dst := pass.sym[o.reg]]) else pass, [])
  }

  function EmitChoice(pass: Pass, dst: Reg, cond: Operand, a: Operand, b: Operand): Emitted
  {
    if !Tracked(pass.sym, a) && !Tracked(pass.sym, b) then Emitted(pass, [])
    else
      Emitted(Pass(pass.sym[dst := ExprReg(pass.next)], pass.next + 1),
              [Pick(pass.next, cond, OperandOf(pass.sym, a), OperandOf(pass.sym, b))])
  }

  /** The pass gives `dst` the result of a call, whether or not anything is symbolic. */
  function Fresh(pass: Pass, dst: Reg): Pass { Pass(pass.sym[dst := ExprReg(pass.next)], pass.next + 1) }

  function EmitPin(sym: SymbolicExpressions, addr: Operand): seq<Item>
  {
    if Tracked(sym, addr) then [PinCall(OperandOf(sym, addr), addr)] else []
  }

  function EmitInstr(types: Types, pass: Pass, i: Instr): Emitted
  {
    var sym := pass.sym;
    match i
    case BinInstr(dst, _, _, _) => Register(pass, dst, VisitBinary(sym, i))
    case BoolInstr(dst, _, _, _) => Register(pass, dst, VisitBinary(sym, i))
    case CmpInstr(dst, _, _, _) => Register(pass, dst, VisitBinary(sym, i))
    case CastInstr(dst, kind, a, width) => Register(pass, dst, VisitCast(sym, kind, a, TypeOf(types, a), width))
    case CopyInstr(dst, a) => Share(pass, dst, a)
    case SelectInstr(dst, cond, a, b) =>
      var push := EmitPush(pass, cond);
      var choice := EmitChoice(push.pass, dst, cond, a, b);
      Emitted(choice.pass, push.items + choice.items)
    case LoadInstr(dst, addr, n) =>
      Emitted(Fresh(pass, dst), EmitPin(sym, addr) + [ReadCall(pass.next, OperandOf(sym, addr), addr, n)])
    case StoreInstr(addr, a, n) =>
      Emitted(pass, EmitPin(sym, addr) + [WriteCall(OperandOf(sym, addr), addr, OperandOf(sym, a), n)])
    case GepInstr(dst, base, path) =>
      (match VisitGep(sym, base, path)
       case NoExpression => Emitted(pass, [])
       case SameAsBase => Share(pass, dst, base)
       case Recorded(comp) => Register(pass, dst, Some(comp)))
    case MoveInstr(to, from, len) =>
      Emitted(pass, [MoveCall(OperandOf(sym, to), OperandOf(sym, from), OperandOf(sym, len), to, from, len)])
    case FillInstr(to, a, len) =>
      Emitted(pass, [FillCall(OperandOf(sym, to), OperandOf(sym, a), OperandOf(sym, len), to, len)])
    case ReadInstr(dst, addr, len) =>
      Emitted(Fresh(pass, dst), [InputCall(pass.next, OperandOf(sym, addr), OperandOf(sym, len), addr, len)])
  }

  function EmitTerm(pass: Pass, t: Terminator): Emitted
  {
    match t
    case CondBr(cond, _, _) => EmitPush(pass, cond)
    case Switch(cond, values, _, _) =>
      Emitted(pass, if Tracked(pass.sym, cond) then [SwitchCalls(OperandOf(pass.sym, cond), cond, values)] else [])
    case _ => Emitted(pass, [])
  }

  // ----- constraints in the log -----

  /** The constraints among the calls made. */
  function PathOf(log: seq<Called>): seq<Constraint>
  {
    if |log| == 0 then []
    else
      var last := log[|log| - 1];
      PathOf(log[..|log| - 1])
      + (match last.builder
         case PushConstraint(Lit(Boolean(taken))) => if |last.args| == 1 then [Constraint(last.args[0], taken)] else []
         case _ => [])
  }

  lemma {:induction false} PathOfConcat(a: seq<Called>, b: seq<Called>)
    ensures PathOf(a + b) == PathOf(a) + PathOf(b)
    decreases |b|
  {
    if |b| == 0 {
      assert a + b == a;
    } else {
      assert (a + b)[..|a + b| - 1] == a + b[..|b| - 1];
      PathOfConcat(a, b[..|b| - 1]);
    }
  }

  lemma {:induction false} PathOfLog(cs: seq<Constraint>)
    ensures PathOf(LogOf(cs)) == cs
  {
    if |cs| > 0 {
      var front := cs[..|cs| - 1];
      assert LogOf(cs)[..|cs| - 1] == LogOf(front);
      PathOfLog(front);
      assert cs == front + [cs[|cs| - 1]];
    }
  }

  /** A direct call's constraints are appended to the path. */
  lemma PushedPath(w: World, cs: seq<Constraint>)
    ensures PathOf(Push(w, cs).m.log) == PathOf(w.m.log) + cs
  {
    hide PathOf;
    PathOfConcat(w.m.log, LogOf(cs));
    PathOfLog(cs);
  }

  lemma {:induction false} NothingPushed(comp: Computation, env: Env, regs: Regs, k: nat)
    requires NoPush(comp) && k <= |comp|
    ensures PathOf(Calls(comp, env, regs, k)) == []
  {
    hide ArgExprs, Results;
    if k > 0 {
      NothingPushed(comp, env, regs, k - 1);
      var calls := Calls(comp, env, regs, k);
      assert calls[..|calls| - 1] == Calls(comp, env, regs, k - 1);
    }
  }

  // ----- what executing one instruction's code must achieve -----

  /** From `w` to `w'`: only registers lo..hi written, the constraints `cs` pushed, shadow
      memory as given, and no null argument handed to a builder. */
  ghost predicate Effect(w: World, w': World, lo: nat, hi: nat, cs: seq<Constraint>, shadow: Shadow)
  {
    && KeepsOutside(w.m.env, w'.m.env, lo, hi) && w'.m.crashed == w.m.crashed
    && PathOf(w'.m.log) == PathOf(w.m.log) + cs && w'.shadow == shadow
  }

  lemma NoEffect(w: World, lo: nat)
    ensures Effect(w, w, lo, lo, [], w.shadow)
  {
    hide PathOf;
    assert PathOf(w.m.log) + [] == PathOf(w.m.log);
  }

  lemma EffectTwice(w: World, w1: World, w2: World, lo: nat, mid: nat, hi: nat, cs: seq<Constraint>,
                    ds: seq<Constraint>,
                    shadow1: Shadow, shadow2: Shadow)
    requires lo <= mid <= hi && Effect(w, w1, lo, mid, cs, shadow1) && Effect(w1, w2, mid, hi, ds, shadow2)
    ensures Effect(w, w2, lo, hi, cs + ds, shadow2)
  {
    hide PathOf, KeepsOutside;
    KeepsTwice(w.m.env, w1.m.env, w2.m.env, lo, mid, hi);
    assert PathOf(w.m.log) + cs + ds == PathOf(w.m.log) + (cs + ds);
  }

  lemma PushEffect(w: World, cs: seq<Constraint>, lo: nat)
    ensures Effect(w, Push(w, cs), lo, lo, cs, w.shadow)
  {
    hide PathOf;
    PushedPath(w, cs);
  }

  // ----- computations -----

  lemma PathUnpushed(m: Machine, m': Machine, c: Computation, regs: Regs)
    requires m'.log == m.log + (if AllNull(c, m.env) then [] else Calls(c, m.env, regs, |c|)) && NoPush(c)
    ensures PathOf(m'.log) == PathOf(m.log) + []
  {
    hide AllNull, Calls, PathOf;
    NothingPushed(c, m.env, regs, |c|);
    assert m.log + [] == m.log;
    PathOfConcat(m.log, Calls(c, m.env, regs, |c|));
    assert PathOf(m.log) + [] == PathOf(m.log);
  }

  /** A registered computation leaves its meaning behind as the expression of its value. */
  lemma RegisterRight(p: Program, input: Input, pass: Pass, dst: Reg, comp: Option<Computation>, w: World, c: State)
    requires dst !in pass.sym
    requires comp.Some? ==> |comp.value| > 0 && Recordable(comp.value, pass.next) && NoPush(comp.value)
    ensures var e := Register(pass, dst, comp);
            var w' := ExecOps(p, input, FinishAll(e.items), w, c);
            Effect(w, w', pass.next, e.pass.next, [], w.shadow)
            && Look(w'.m.env, OperandOf(e.pass.sym, Var(dst))) == Yields(comp, w.m.env, c.regs)
  {
    hide Recordable, NoPush, Rewritten, Inputs, AllNull, Calls, Results, PathOf, ExecOps, KeepsOutside;
    var e := Register(pass, dst, comp);
    ExecTwo(p, input, e.items, w, c);
    if comp.None? {
      NoEffect(w, pass.next);
    } else {
      var comp := comp.value;
      RecordableIs(comp, pass.next);
      ShortCircuitKeepsMeaning(comp, pass.next, true, w.m, c.regs);
      PathUnpushed(w.m, ExecAll(Rewritten(comp, pass.next, true), w.m, c.regs), comp, c.regs);
    }
  }

  lemma PushNull(sym: SymbolicExpressions, cond: Operand, env: Env)
    ensures AllNull(PushComputation(sym, cond), env) <==> Look(env, OperandOf(sym, cond)).None?
  {
    hide Look, InputsOf;
    var x, comp := InputFor(sym, cond), PushComputation(sym, cond);
    OneCallInputs(comp[0].builder, [x]);
    InputsOfTwo(x, x);
    assert Inputs(comp, 1)[0] == x;
  }

  lemma PushCalls(sym: SymbolicExpressions, cond: Operand, env: Env, regs: Regs)
    requires Look(env, OperandOf(sym, cond)).Some?
    ensures Calls(PushComputation(sym, cond), env, regs, 1)
            == [Called(PushConstraint(Lit(ConcreteValue(regs, cond))), [Look(env, OperandOf(sym, cond)).value])]
  {
    hide Look, InputExpr, ArgExprs, ConcreteValue;
    var x, comp := InputFor(sym, cond), PushComputation(sym, cond);
    ArgExprsTwo(x, x, env, regs, []);
    OneArgument(x, env, regs);
    assert Results(comp, env, regs, 0) == [] && Calls(comp, env, regs, 0) == [];
  }

  lemma PathOfPush(e: Expr, taken: bool)
    ensures PathOf([Called(PushConstraint(Lit(Boolean(taken))), [e])]) == [Constraint(e, taken)]
  {
    var log := [Called(PushConstraint(Lit(Boolean(taken))), [e])];
    assert PathOf(log[..0]) == [];
  }

  lemma PushRecordable(sym: SymbolicExpressions, cond: Operand, base: nat)
    requires SymBelow(sym, base)
    ensures Recordable(PushComputation(sym, cond), base)
  {
    hide SymBelow;
    var c := PushComputation(sym, cond);
    InputOk(sym, cond, 0, base);
    SiteOk1(c[0].builder, InputFor(sym, cond), 0, base);
    RecordableOne(c, base);
  }

  /** The recorded push adds the outcome of the condition to the path, if it is symbolic. */
  lemma PushRight(p: Program, input: Input, pass: Pass, cond: Operand, w: World, c: State, exprs: Exprs)
    requires SymBelow(pass.sym, pass.next) && Known(pass.sym, w.m.env, exprs, cond)
    requires Get(c.regs, cond).Some? && Get(c.regs, cond).value.Boolean?
    ensures var e := EmitPush(pass, cond);
            var w' := ExecOps(p, input, FinishAll(e.items), w, c);
            Effect(w, w', pass.next, e.pass.next, PushCondition(ExprOf(exprs, cond), Get(c.regs, cond)), w.shadow)
  {
    hide Recordable, Rewritten, Inputs, AllNull, Calls, Results, PathOf, ExecOps, KeepsOutside, SymBelow;
    var e := EmitPush(pass, cond);
    ExecTwo(p, input, e.items, w, c);
    if !Tracked(pass.sym, cond) {
      NoEffect(w, pass.next);
    } else {
      var comp := PushComputation(pass.sym, cond);
      PushRecordable(pass.sym, cond, pass.next);
      RecordableIs(comp, pass.next);
      ShortCircuitKeepsMeaning(comp, pass.next, false, w.m, c.regs);
      PushNull(pass.sym, cond, w.m.env);
      assert w.m.log + [] == w.m.log && PathOf(w.m.log) + [] == PathOf(w.m.log);
      if !AllNull(comp, w.m.env) {
        PushCalls(pass.sym, cond, w.m.env, c.regs);
        PathOfPush(ExprOf(exprs, cond).value, Get(c.regs, cond).value.b);
        PathOfConcat(w.m.log, Calls(comp, w.m.env, c.regs, 1));
      }
    }
  }

  // ----- one instruction -----

  /** The operand of a cast has the width it is declared with. */
  ghost predicate CastTyped(types: Types, regs: Regs, i: Instr)
  {
    i.CastInstr? && Get(regs, i.a).Some? ==>
      var v := Get(regs, i.a).value;
      WidthOf(v) == TypeOf(types, i.a) && WidthOf(v) > 0 && (v.Bv? ==> |v.bits| > 1)
  }

  /** The operands of an instruction, other than PHI nodes'. */
  predicate Uses(i: Instr, o: Operand)
  {
    match i
    case BinInstr(_, _, a, b) => o == a || o == b
    case BoolInstr(_, _, a, b) => o == a || o == b
    case CmpInstr(_, _, a, b) => o == a || o == b
    case CastInstr(_, _, a, _) => o == a
    case CopyInstr(_, a) => o == a
    case SelectInstr(_, cond, a, b) => o == cond || o == a || o == b
    case LoadInstr(_, addr, _) => o == addr
    case StoreInstr(addr, a, _) => o == addr || o == a
    case GepInstr(_, base, path) => o == base || exists k :: 0 <= k < |path| && path[k].Index? && path[k].operand == o
    case MoveInstr(to, from, len) => o == to || o == from || o == len
    case FillInstr(to, a, len) => o == to || o == a || o == len
    case ReadInstr(_, addr, len) => o == addr || o == len
  }

  ghost predicate OperandsKnown(sym: SymbolicExpressions, env: Env, exprs: Exprs, i: Instr)
  {
    forall o: Operand :: Uses(i, o) ==> Known(sym, env, exprs, o)
  }

  /** What the code for an instruction must do: the effect of the instrumented step, and the
      expression of the result where the pass will look for it. */
  ghost predicate Does(p: Program, input: Input, e: Emitted, pass: Pass, w: World, s: Sym, i: Instr)
  {
    var w', s' := ExecOps(p, input, FinishAll(e.items), w, s.c), SymExec(p, input, s, i);
    Effect(w, w', pass.next, e.pass.next, Pushes(s, i), s'.shadow)
    && (Dst(i).Some? ==> Look(w'.m.env, OperandOf(e.pass.sym, Var(Dst(i).value))) == RegExpr(s'.exprs, Dst(i).value))
  }

  /** Instructions that only compute a value. */
  lemma ValueDoes(p: Program, input: Input, e: Emitted, pass: Pass, w: World, s: Sym, i: Instr)
    requires Dst(i).Some? && !Exec(p, input, s.c, i).ctl.Fault? && w.shadow == ResultShadow(p, input, s, i)
    requires var w' := ExecOps(p, input, FinishAll(e.items), w, s.c);
             Effect(w, w', pass.next, e.pass.next, Pushes(s, i), w.shadow)
             && Look(w'.m.env, OperandOf(e.pass.sym, Var(Dst(i).value))) == ResultExpr(p, s, i)
    ensures Does(p, input, e, pass, w, s, i)
  {
    hide Exec, ResultExpr, ResultShadow, Pushes, Effect, ExecOps, Look;
  }

  lemma BinaryDoes(p: Program, input: Input, pass: Pass, w: World, s: Sym, i: Instr)
    requires Binaryish(i) && OperandsKnown(pass.sym, w.m.env, s.exprs, i) && SymBelow(pass.sym, pass.next)
    requires i.dst !in pass.sym && !Exec(p, input, s.c, i).ctl.Fault? && w.shadow == s.shadow
    ensures Does(p, input, Register(pass, i.dst, VisitBinary(pass.sym, i)), pass, w, s, i)
  {
    hide Known, Recordable, NoPush, Register, PathOf, BinValue, BoolValue, CmpValue, ResultExpr, Yields, ExecOps, Does,
         Effect, SymBelow, Look;
    assert Uses(i, i.a) && Uses(i, i.b);
    assert Get(s.c.regs, i.a).Some? && Get(s.c.regs, i.b).Some?;
    var comp := VisitBinary(pass.sym, i);
    if comp.Some? {
      BinaryOk(pass.sym, i, pass.next);
    }
    RegisterRight(p, input, pass, i.dst, comp, w, s.c);
    VisitBinaryRight(p, pass.sym, w.m.env, s, i);
    ValueDoes(p, input, Register(pass, i.dst, comp), pass, w, s, i);
  }

  lemma CastDoes(p: Program, input: Input, types: Types, pass: Pass, w: World, s: Sym, i: Instr)
    requires i.CastInstr? && OperandsKnown(pass.sym, w.m.env, s.exprs, i) && SymBelow(pass.sym, pass.next)
    requires i.dst !in pass.sym && !Exec(p, input, s.c, i).ctl.Fault? && w.shadow == s.shadow
    requires CastTyped(types, s.c.regs, i)
    ensures Does(p, input, EmitInstr(types, pass, i), pass, w, s, i)
  {
    hide Known, Recordable, NoPush, Register, PathOf, CastValue, ResultExpr, Yields, ExecOps, Does, Effect, SymBelow,
         Look, VisitCast;
    assert Uses(i, i.a);
    var comp := VisitCast(pass.sym, i.kind, i.a, TypeOf(types, i.a), i.width);
    assert Get(s.c.regs, i.a).Some? && CastValue(i.kind, Get(s.c.regs, i.a).value, i.width).Some?;
    if comp.Some? {
      CastOk(pass.sym, i.kind, i.a, TypeOf(types, i.a), i.width, pass.next);
    }
    RegisterRight(p, input, pass, i.dst, comp, w, s.c);
    VisitCastRight(p, pass.sym, w.m.env, s, i.dst, i.kind, i.a, i.width);
    ValueDoes(p, input, Register(pass, i.dst, comp), pass, w, s, i);
  }

  /** A value that shares another's expression, or has none if that has none. */
  lemma ShareRight(p: Program, input: Input, pass: Pass, dst: Reg, o: Operand, w: World, c: State, exprs: Exprs)
    requires dst !in pass.sym && Known(pass.sym, w.m.env, exprs, o)
    ensures var e := Share(pass, dst, o);
            var w' := ExecOps(p, input, FinishAll(e.items), w, c);
            Effect(w, w', pass.next, e.pass.next, [], w.shadow)
            && Look(w'.m.env, OperandOf(e.pass.sym, Var(dst))) == ExprOf(exprs, o)
  {
    hide PathOf, Effect;
    ExecTwo(p, input, [], w, c);
    NoEffect(w, pass.next);
  }

  lemma CopyDoes(p: Program, input: Input, types: Types, pass: Pass, w: World, s: Sym, i: Instr)
    requires i.CopyInstr? && OperandsKnown(pass.sym, w.m.env, s.exprs, i)
    requires i.dst !in pass.sym && !Exec(p, input, s.c, i).ctl.Fault? && w.shadow == s.shadow
    ensures Does(p, input, EmitInstr(types, pass, i), pass, w, s, i)
  {
    hide Known, PathOf, ExecOps, Does, Effect, Look, Share;
    assert Uses(i, i.a);
    ShareRight(p, input, pass, i.dst, i.a, w, s.c, s.exprs);
    ValueDoes(p, input, Share(pass, i.dst, i.a), pass, w, s, i);
  }

  lemma {:induction false} ResolveBoth(path: seq<GepStep>, regs: Regs, exprs: Exprs)
    ensures Resolve(path, regs).Some? <==> ResolveSym(path, regs, exprs).Some?
  {
    hide IndexBits;
    if |path| > 0 {
      ResolveBoth(path[1..], regs, exprs);
    }
  }

  lemma GepDoes(p: Program, input: Input, types: Types, pass: Pass, w: World, s: Sym, i: Instr)
    requires i.GepInstr? && OperandsKnown(pass.sym, w.m.env, s.exprs, i) && SymBelow(pass.sym, pass.next)
    requires i.dst !in pass.sym && !Exec(p, input, s.c, i).ctl.Fault? && w.shadow == s.shadow
    ensures Does(p, input, EmitInstr(types, pass, i), pass, w, s, i)
  {
    hide Known, Recordable, NoPush, Register, PathOf, Resolve, ResolveSym, GepResult, VisitGep, Meaning, Look, Address,
         SymBelow, Does, Effect, ExecOps, Share, GepYields;
    assert Uses(i, i.base);
    assert PathKnown(pass.sym, w.m.env, s.exprs, i.path) by {
      forall k | 0 <= k < |i.path| && i.path[k].Index?
        ensures Known(pass.sym, w.m.env, s.exprs, i.path[k].operand)
      {
        assert Uses(i, i.path[k].operand);
      }
    }
    ResolveBoth(i.path, s.c.regs, s.exprs);
    VisitGepRight(pass.sym, w.m.env, s, i.base, i.path);
    var e := EmitInstr(types, pass, i);
    GepLeaves(p, input, types, pass, w, s, i);
    ValueDoes(p, input, e, pass, w, s, i);
  }

  lemma GepLeaves(p: Program, input: Input, types: Types, pass: Pass, w: World, s: Sym, i: Instr)
    requires i.GepInstr? && Known(pass.sym, w.m.env, s.exprs, i.base) && SymBelow(pass.sym, pass.next)
    requires i.dst !in pass.sym
    ensures var e := EmitInstr(types, pass, i);
            var w' := ExecOps(p, input, FinishAll(e.items), w, s.c);
            Effect(w, w', pass.next, e.pass.next, [], w.shadow)
            && Look(w'.m.env, OperandOf(e.pass.sym, Var(i.dst)))
               == GepYields(VisitGep(pass.sym, i.base, i.path), pass.sym, i.base, w.m.env, s.c.regs)
  {
    hide Recordable, NoPush, Register, PathOf, VisitGep, Meaning, SymBelow, Effect, ExecOps, Share;
    match VisitGep(pass.sym, i.base, i.path)
    case NoExpression =>
      ExecTwo(p, input, [], w, s.c);
      NoEffect(w, pass.next);
    case SameAsBase => ShareRight(p, input, pass, i.dst, i.base, w, s.c, s.exprs);
    case Recorded(comp) =>
      GepRecordOk(pass.sym, i.base, i.path, pass.next);
      RegisterRight(p, input, pass, i.dst, Some(comp), w, s.c);
  }

  lemma {:induction false} ExecConcatOps(p: Program, input: Input, a: seq<Op>, b: seq<Op>, w: World, c: State)
    ensures ExecOps(p, input, a + b, w, c) == ExecOps(p, input, b, ExecOps(p, input, a, w, c), c)
    decreases |a|
  {
    hide ExecOp;
    if |a| == 0 {
      assert a + b == b;
    } else {
      assert (a + b)[0] == a[0] && (a + b)[1..] == a[1..] + b;
      ExecConcatOps(p, input, a[1..], b, ExecOp(p, input, a[0], w, c), c);
    }
  }

  lemma FinishConcat(a: seq<Item>, b: seq<Item>)
    ensures FinishAll(a + b) == FinishAll(a) + FinishAll(b)
  {
    hide Finish;
  }

  /** The choice between both operands' expressions. */
  lemma ChoiceRight(p: Program, input: Input, pass: Pass, dst: Reg, cond: Operand, a: Operand, b: Operand,
                    w: World, c: State, exprs: Exprs)
    requires dst !in pass.sym && Known(pass.sym, w.m.env, exprs, a) && Known(pass.sym, w.m.env, exprs, b)
    requires Get(c.regs, cond).Some? && Get(c.regs, cond).value.Boolean?
    ensures var e := EmitChoice(pass, dst, cond, a, b);
            var w' := ExecOps(p, input, FinishAll(e.items), w, c);
            Effect(w, w', pass.next, e.pass.next, [], w.shadow)
            && Look(w'.m.env, OperandOf(e.pass.sym, Var(dst)))
               == if Get(c.regs, cond).value.b then ExprOf(exprs, a) else ExprOf(exprs, b)
  {
    hide PathOf, ExecOps;
    var e := EmitChoice(pass, dst, cond, a, b);
    ExecTwo(p, input, e.items, w, c);
    NoEffect(w, pass.next);
  }

  /** Registers below the ones written keep their expressions. */
  lemma KnownKept(sym: SymbolicExpressions, env: Env, env': Env, exprs: Exprs, o: Operand, lo: nat, hi: nat)
    requires Known(sym, env, exprs, o) && SymBelow(sym, lo) && KeepsOutside(env, env', lo, hi)
    ensures Known(sym, env', exprs, o)
  {
  }

  lemma SelectDoes(p: Program, input: Input, types: Types, pass: Pass, w: World, s: Sym, i: Instr)
    requires i.SelectInstr? && OperandsKnown(pass.sym, w.m.env, s.exprs, i) && SymBelow(pass.sym, pass.next)
    requires i.dst !in pass.sym && !Exec(p, input, s.c, i).ctl.Fault? && w.shadow == s.shadow
    ensures Does(p, input, EmitInstr(types, pass, i), pass, w, s, i)
  {
    hide Known, PathOf, ExecOps, Does, Effect, Look, EmitPush, EmitChoice, FinishAll, SymBelow, PushCondition;
    assert Uses(i, i.cond) && Uses(i, i.a) && Uses(i, i.b);
    var push := EmitPush(pass, i.cond);
    SymUnchanged(pass, i.cond);
    PushRight(p, input, pass, i.cond, w, s.c, s.exprs);
    var w1 := ExecOps(p, input, FinishAll(push.items), w, s.c);
    EffectKeeps(w, w1, pass.next, push.pass.next, Pushes(s, i), w.shadow);
    KnownKept(pass.sym, w.m.env, w1.m.env, s.exprs, i.a, pass.next, push.pass.next);
    KnownKept(pass.sym, w.m.env, w1.m.env, s.exprs, i.b, pass.next, push.pass.next);
    ChoiceRight(p, input, push.pass, i.dst, i.cond, i.a, i.b, w1, s.c, s.exprs);
    var choice := EmitChoice(push.pass, i.dst, i.cond, i.a, i.b);
    FinishConcat(push.items, choice.items);
    ExecConcatOps(p, input, FinishAll(push.items), FinishAll(choice.items), w, s.c);
    var w2 := ExecOps(p, input, FinishAll(choice.items), w1, s.c);
    ChoiceGrows(push.pass, i.dst, i.cond, i.a, i.b);
    EffectTwice(w, w1, w2, pass.next, push.pass.next, choice.pass.next, Pushes(s, i), [], w.shadow, w.shadow);
    assert Pushes(s, i) + [] == Pushes(s, i);
    ValueDoes(p, input, EmitInstr(types, pass, i), pass, w, s, i);
  }

  lemma SymUnchanged(pass: Pass, cond: Operand)
    ensures EmitPush(pass, cond).pass.sym == pass.sym && EmitPush(pass, cond).pass.next >= pass.next
  {
  }

  lemma EffectKeeps(w: World, w': World, lo: nat, hi: nat, cs: seq<Constraint>, shadow: Shadow)
    requires Effect(w, w', lo, hi, cs, shadow)
    ensures KeepsOutside(w.m.env, w'.m.env, lo, hi) && w'.shadow == shadow
  {
  }

  lemma ChoiceGrows(pass: Pass, dst: Reg, cond: Operand, a: Operand, b: Operand)
    ensures EmitChoice(pass, dst, cond, a, b).pass.next >= pass.next
  {
  }

  // ----- memory instructions -----

  /** A pointer's concretisation in the inserted code. */
  lemma PinRight(p: Program, input: Input, pass: Pass, addr: Operand, w: World, s: Sym)
    requires Known(pass.sym, w.m.env, s.exprs, addr)
    ensures ExecOps(p, input, FinishAll(EmitPin(pass.sym, addr)), w, s.c) == Push(w, PinOperand(s, addr))
    ensures Pinned(w, OperandOf(pass.sym, addr), s.c.regs, addr) == PinOperand(s, addr)
  {
    ExecTwo(p, input, EmitPin(pass.sym, addr), w, s.c);
    if !Tracked(pass.sym, addr) {
      assert LogOf([]) == [];
      assert w.m.log + [] == w.m.log;
    }
  }

  /** A call that writes at most one register. */
  lemma CallEffect(w: World, cs: seq<Constraint>, shadow: Shadow, dst: Option<nat>, e: SymExpr, lo: nat, hi: nat)
    requires dst.Some? ==> lo <= dst.value < hi
    ensures var w1 := Push(w, cs).(shadow := shadow);
            Effect(w, if dst.Some? then SetReg(w1, dst.value, e) else w1, lo, hi, cs, shadow)
  {
    hide PathOf;
    PushedPath(w, cs);
  }

  lemma LoadDoes(p: Program, input: Input, types: Types, pass: Pass, w: World, s: Sym, i: Instr)
    requires i.LoadInstr? && OperandsKnown(pass.sym, w.m.env, s.exprs, i)
    requires !Exec(p, input, s.c, i).ctl.Fault? && w.shadow == s.shadow
    ensures Does(p, input, EmitInstr(types, pass, i), pass, w, s, i)
  {
    hide Known, PathOf, ExecOps, Effect, Does, PinOperand, FinishAll, EmitPin, Pinned, ReadMemory, LoadValue;
    assert Uses(i, i.addr);
    var pin := PinOperand(s, i.addr);
    PinRight(p, input, pass, i.addr, w, s);
    var w1 := Push(w, pin);
    PushKnown(pass, w, pin, s.exprs, i.addr);
    PinRight(p, input, pass, i.addr, w1, s);
    var read := ReadCall(pass.next, OperandOf(pass.sym, i.addr), i.addr, i.bytes);
    FinishConcat(EmitPin(pass.sym, i.addr), [read]);
    ExecConcatOps(p, input, FinishAll(EmitPin(pass.sym, i.addr)), FinishAll([read]), w, s.c);
    ExecTwo(p, input, [read], w1, s.c);
    var e := EmitInstr(types, pass, i);
    var value := LoadExpr(s, AsSize(Get(s.c.regs, i.addr)), i.bytes, p.le);
    PushEffect(w, pin, pass.next);
    CallEffect(w1, pin, w.shadow, Some(pass.next), value, pass.next, pass.next + 1);
    var w2 := SetReg(Push(w1, pin), pass.next, value);
    EffectTwice(w, w1, w2, pass.next, pass.next, pass.next + 1, pin, pin, w.shadow, w.shadow);
    ValueDoes(p, input, e, pass, w, s, i);
  }

  lemma PushKnown(pass: Pass, w: World, cs: seq<Constraint>, exprs: Exprs, o: Operand)
    requires Known(pass.sym, w.m.env, exprs, o)
    ensures Known(pass.sym, Push(w, cs).m.env, exprs, o)
  {
  }

  lemma StoreDoes(p: Program, input: Input, types: Types, pass: Pass, w: World, s: Sym, i: Instr)
    requires i.StoreInstr? && OperandsKnown(pass.sym, w.m.env, s.exprs, i)
    requires !Exec(p, input, s.c, i).ctl.Fault? && w.shadow == s.shadow
    ensures Does(p, input, EmitInstr(types, pass, i), pass, w, s, i)
  {
    hide PathOf, ExecOps, Effect, PinOperand, FinishAll, EmitPin, Pinned, WriteMemory, StoreBits;
    assert Uses(i, i.addr) && Uses(i, i.a);
    var pin := PinOperand(s, i.addr);
    PinRight(p, input, pass, i.addr, w, s);
    var w1 := Push(w, pin);
    PinRight(p, input, pass, i.addr, w1, s);
    var write := WriteCall(OperandOf(pass.sym, i.addr), i.addr, OperandOf(pass.sym, i.a), i.bytes);
    FinishConcat(EmitPin(pass.sym, i.addr), [write]);
    ExecConcatOps(p, input, FinishAll(EmitPin(pass.sym, i.addr)), FinishAll([write]), w, s.c);
    ExecTwo(p, input, [write], w1, s.c);
    var shadow := ResultShadow(p, input, s, i);
    PushEffect(w, pin, pass.next);
    CallEffect(w1, pin, shadow, None, None, pass.next, pass.next);
    EffectTwice(w, w1, Push(w1, pin).(shadow := shadow), pass.next, pass.next, pass.next, pin, pin, w.shadow, shadow);
  }

  lemma MoveDoes(p: Program, input: Input, types: Types, pass: Pass, w: World, s: Sym, i: Instr)
    requires i.MoveInstr? && OperandsKnown(pass.sym, w.m.env, s.exprs, i)
    requires !Exec(p, input, s.c, i).ctl.Fault? && w.shadow == s.shadow
    ensures Does(p, input, EmitInstr(types, pass, i), pass, w, s, i)
  {
    hide PathOf, ExecOps, Effect, PinOperand, FinishAll, Pinned, MoveShadow, MoveMemory, Known;
    assert Uses(i, i.to) && Uses(i, i.from) && Uses(i, i.len);
    PinRight(p, input, pass, i.to, w, s);
    PinRight(p, input, pass, i.from, w, s);
    PinRight(p, input, pass, i.len, w, s);
    ExecTwo(p, input, EmitInstr(types, pass, i).items, w, s.c);
    CallEffect(w, Pushes(s, i), ResultShadow(p, input, s, i), None, None, pass.next, pass.next);
  }

  lemma FillDoes(p: Program, input: Input, types: Types, pass: Pass, w: World, s: Sym, i: Instr)
    requires i.FillInstr? && OperandsKnown(pass.sym, w.m.env, s.exprs, i)
    requires !Exec(p, input, s.c, i).ctl.Fault? && w.shadow == s.shadow
    ensures Does(p, input, EmitInstr(types, pass, i), pass, w, s, i)
  {
    hide PathOf, ExecOps, Effect, PinOperand, FinishAll, Pinned, FillShadow, FillMemory;
    assert Uses(i, i.to) && Uses(i, i.a) && Uses(i, i.len);
    PinRight(p, input, pass, i.to, w, s);
    PinRight(p, input, pass, i.len, w, s);
    ExecTwo(p, input, EmitInstr(types, pass, i).items, w, s.c);
    CallEffect(w, Pushes(s, i), ResultShadow(p, input, s, i), None, None, pass.next, pass.next);
  }

  lemma ReadDoes(p: Program, input: Input, types: Types, pass: Pass, w: World, s: Sym, i: Instr)
    requires i.ReadInstr? && OperandsKnown(pass.sym, w.m.env, s.exprs, i)
    requires !Exec(p, input, s.c, i).ctl.Fault? && w.shadow == s.shadow
    ensures Does(p, input, EmitInstr(types, pass, i), pass, w, s, i)
  {
    hide PathOf, ExecOps, Effect, PinOperand, FinishAll, Pinned, MakeSymbolic, InputMemory, Known, FromInt, Available,
         Push;
    assert Uses(i, i.addr) && Uses(i, i.len);
    PinRight(p, input, pass, i.addr, w, s);
    PinRight(p, input, pass, i.len, w, s);
    ExecTwo(p, input, EmitInstr(types, pass, i).items, w, s.c);
    CallEffect(w, Pushes(s, i), ResultShadow(p, input, s, i), Some(pass.next), None, pass.next, pass.next + 1);
  }

  /** The code emitted for any instruction does, beside it, what the instrumented step does. */
  lemma InstrDoes(p: Program, input: Input, types: Types, pass: Pass, w: World, s: Sym, i: Instr)
    requires OperandsKnown(pass.sym, w.m.env, s.exprs, i) && SymBelow(pass.sym, pass.next)
    requires CastTyped(types, s.c.regs, i)
    requires Dst(i).Some? ==> Dst(i).value !in pass.sym
    requires !Exec(p, input, s.c, i).ctl.Fault? && w.shadow == s.shadow
    ensures Does(p, input, EmitInstr(types, pass, i), pass, w, s, i)
  {
    hide OperandsKnown, SymBelow, CastTyped, Exec, Does, Register, VisitBinary, VisitCast, VisitGep;
    match i
    case BinInstr(_, _, _, _) => BinaryDoes(p, input, pass, w, s, i);
    case BoolInstr(_, _, _, _) => BinaryDoes(p, input, pass, w, s, i);
    case CmpInstr(_, _, _, _) => BinaryDoes(p, input, pass, w, s, i);
    case CastInstr(_, _, _, _) => CastDoes(p, input, types, pass, w, s, i);
    case CopyInstr(_, _) => CopyDoes(p, input, types, pass, w, s, i);
    case SelectInstr(_, _, _, _) => SelectDoes(p, input, types, pass, w, s, i);
    case LoadInstr(_, _, _) => LoadDoes(p, input, types, pass, w, s, i);
    case StoreInstr(_, _, _) => StoreDoes(p, input, types, pass, w, s, i);
    case GepInstr(_, _, _) => GepDoes(p, input, types, pass, w, s, i);
    case MoveInstr(_, _, _) => MoveDoes(p, input, types, pass, w, s, i);
    case FillInstr(_, _, _) => FillDoes(p, input, types, pass, w, s, i);
    case ReadInstr(_, _, _) => ReadDoes(p, input, types, pass, w, s, i);
  }

  // ----- terminators -----

  predicate TermUses(t: Terminator, o: Operand)
  {
    match t
    case CondBr(cond, _, _) => o == cond
    case Switch(cond, _, _, _) => o == cond
    case _ => false
  }

  /** The code before a terminator pushes the terminator's constraints. */
  lemma TermDoes(p: Program, input: Input, pass: Pass, w: World, s: Sym, t: Terminator)
    requires SymBelow(pass.sym, pass.next) && forall o: Operand :: TermUses(t, o) ==>
             Known(pass.sym, w.m.env, s.exprs, o)
    requires t.CondBr? ==> Target(t, s.c.regs).Some?
    ensures var e := EmitTerm(pass, t);
            var w' := ExecOps(p, input, FinishAll(e.items), w, s.c);
            Effect(w, w', pass.next, e.pass.next, TermPushes(s, t), w.shadow)
  {
    hide SymBelow, PathOf, ExecOps, Effect, EmitPush, SwitchPushes, PushCondition;
    match t
    case CondBr(cond, _, _) =>
      assert TermUses(t, cond);
      PushRight(p, input, pass, cond, w, s.c, s.exprs);
    case Switch(cond, values, _, _) =>
      assert TermUses(t, cond);
      var e := EmitTerm(pass, t);
      ExecTwo(p, input, e.items, w, s.c);
      if Tracked(pass.sym, cond) {
        PushEffect(w, TermPushes(s, t), pass.next);
      } else {
        assert SwitchPushes(None, Get(s.c.regs, cond), values) == []
          by { NothingToSwitch(Get(s.c.regs, cond), values); }
        NoEffect(w, pass.next);
      }
    case Jump(_) =>
      ExecTwo(p, input, [], w, s.c);
      NoEffect(w, pass.next);
    case Ret(_) =>
      ExecTwo(p, input, [], w, s.c);
      NoEffect(w, pass.next);
  }

  lemma NothingToSwitch(v: Option<Value>, values: seq<Value>)
    ensures SwitchPushes(None, v, values) == []
  {
  }
}
