/** What the solver's models are good for: the running input satisfies its own constraints,
    and a model found at a decision repeats the run up to it and then decides otherwise. */
module Divergence {
  import opened Options
  import opened BitVectors
  import opened Expressions
  import opened FlatMemory
  import opened Constraints
  import opened SwitchBatch
  import opened Ir
  import opened Concolic
  import opened PathSoundness
  import opened Backend

  // ----- the running input -----

  lemma PinOwn(s: Sym, i: Input, o: Operand)
    requires RegsAgree(s.c.regs, s.exprs, i, s.c.regs) && OkRegs(s.c.regs) && OkOperand(o)
    ensures SatisfiesAll(i, PinOperand(s, o)) && Sorted(PinOperand(s, o))
  {
    hide RegsAgree, OkRegs, ToNat, FromNat, Concretize, SortOf, Eval, SatisfiesAll, Sorted;
    GetPredicted(s, s.c, i, o);
    NothingPushed(i);
    var v, e := Get(s.c.regs, o), ExprOf(s.exprs, o);
    if AsSize(v).Some? {
      OwnValue(e, v.value.bits, i);
    }
  }

  lemma OwnValue(e: SymExpr, bits: Bits, i: Input)
    requires |bits| == 64 && ValuePredicted(e, Bv(bits), i, Bv(bits))
    ensures SatisfiesAll(i, Concretize(e, ToNat(bits))) && Sorted(Concretize(e, ToNat(bits)))
  {
    hide ToNat, FromNat;
    if e.Some? {
      ToNatIsResidue(bits);
      CmpMeans(e.value, BuildInteger(ToNat(bits), 64), i);
    }
  }

  /** Every constraint is a Boolean expression. */
  ghost predicate Sorted(cs: seq<Constraint>)
  {
    forall k :: 0 <= k < |cs| ==> SortOf(cs[k].expr) == Some(BoolSort)
  }

  lemma SortedConcat(cs: seq<Constraint>, ds: seq<Constraint>)
    requires Sorted(cs) && Sorted(ds)
    ensures Sorted(cs + ds)
  {
  }

  lemma OwnConcat(i: Input, cs: seq<Constraint>, ds: seq<Constraint>)
    requires SatisfiesAll(i, cs) && Sorted(cs) && SatisfiesAll(i, ds) && Sorted(ds)
    ensures SatisfiesAll(i, cs + ds) && Sorted(cs + ds)
  {
    hide Eval, SortOf;
    SatisfiesConcat(i, cs, ds);
    SortedConcat(cs, ds);
  }

  lemma ConditionOwn(s: Sym, i: Input, o: Operand)
    requires RegsAgree(s.c.regs, s.exprs, i, s.c.regs) && OkRegs(s.c.regs) && OkOperand(o)
    ensures var cs := PushCondition(ExprOf(s.exprs, o), Get(s.c.regs, o)); SatisfiesAll(i, cs) && Sorted(cs)
  {
    hide RegsAgree, OkRegs;
    GetPredicted(s, s.c, i, o);
  }

  lemma PushesOwn(s: Sym, i: Input, ins: Instr)
    requires RegsAgree(s.c.regs, s.exprs, i, s.c.regs) && OkRegs(s.c.regs) && OkInstr(ins)
    ensures SatisfiesAll(i, Pushes(s, ins)) && Sorted(Pushes(s, ins))
  {
    hide RegsAgree, OkRegs, SatisfiesAll, Sorted, PinOperand;
    NothingPushed(i);
    match ins
    case SelectInstr(_, cond, _, _) => ConditionOwn(s, i, cond);
    case LoadInstr(_, addr, _) => PinOwn(s, i, addr); OwnConcat(i, PinOperand(s, addr), PinOperand(s, addr));
    case StoreInstr(addr, _, _) => PinOwn(s, i, addr); OwnConcat(i, PinOperand(s, addr), PinOperand(s, addr));
    case MoveInstr(to, from, len) =>
      PinOwn(s, i, to); PinOwn(s, i, from); PinOwn(s, i, len);
      OwnConcat(i, PinOperand(s, to), PinOperand(s, from));
      OwnConcat(i, PinOperand(s, to) + PinOperand(s, from), PinOperand(s, len));
    case FillInstr(to, _, len) =>
      PinOwn(s, i, to); PinOwn(s, i, len); OwnConcat(i, PinOperand(s, to), PinOperand(s, len));
    case ReadInstr(_, addr, len) =>
      PinOwn(s, i, addr); PinOwn(s, i, len); OwnConcat(i, PinOperand(s, addr), PinOperand(s, len));
    case _ =>
  }

  lemma NothingPushed(i: Input)
    ensures SatisfiesAll(i, []) && Sorted([])
  {
  }

  /** A switch whose case values all have the operand's type. */
  ghost predicate TypedSwitch(v: Value, values: seq<Value>)
  {
    forall k :: 0 <= k < |values| ==> OkValue(values[k]) && SortOfValue(values[k]) == SortOfValue(v)
  }

  lemma CasesOwn(e: Expr, v: Value, i: Input, values: seq<Value>, k: nat)
    requires Denotes(e, i, v) && TypedSwitch(v, values) && k < |values|
    ensures Satisfies(i, CaseConstraints(e, v, values)[k])
    ensures SortOf(CaseConstraints(e, v, values)[k].expr) == Some(BoolSort)
  {
    hide ValueExpr;
    CaseMeans(e, values[k], i);
  }

  lemma BatchOwn(e: Expr, v: Value, i: Input, values: seq<Value>)
    requires Denotes(e, i, v) && TypedSwitch(v, values)
    ensures SatisfiesAll(i, Batched(CaseConstraints(e, v, values))) && Sorted(Batched(CaseConstraints(e, v, values)))
  {
    hide Eval, SortOf, TypedSwitch, Batched;
    var cs := CaseConstraints(e, v, values);
    var b := Batched(cs);
    forall m | 0 <= m < |b|
      ensures Satisfies(i, b[m]) && SortOf(b[m].expr) == Some(BoolSort)
    {
      BatchedOnce(cs);
      assert b[m] in multiset(b);
      assert b[m] in cs;
      var k :| 0 <= k < |cs| && cs[k] == b[m];
      CasesOwn(e, v, i, values, k);
    }
  }

  /** Programs without type errors at their switches. */
  ghost predicate TypedTerm(s: Sym, t: Terminator)
  {
    t.Switch? && Get(s.c.regs, t.cond).Some? ==> TypedSwitch(Get(s.c.regs, t.cond).value, t.values)
  }

  lemma TermPushesOwn(s: Sym, i: Input, t: Terminator)
    requires RegsAgree(s.c.regs, s.exprs, i, s.c.regs) && OkRegs(s.c.regs) && OkTerm(t) && TypedTerm(s, t)
    ensures SatisfiesAll(i, TermPushes(s, t)) && Sorted(TermPushes(s, t))
  {
    hide RegsAgree, OkRegs, SatisfiesAll, Sorted, Eval, SortOf, Batched;
    NothingPushed(i);
    match t
    case CondBr(cond, _, _) => ConditionOwn(s, i, cond);
    case Switch(cond, values, _, _) =>
      GetPredicted(s, s.c, i, cond);
      if ExprOf(s.exprs, cond).Some? && Get(s.c.regs, cond).Some? {
        BatchOwn(ExprOf(s.exprs, cond).value, Get(s.c.regs, cond).value, i, values);
      }
    case _ =>
  }

  /** The state is about to execute a switch only if its case values have the right type. */
  ghost predicate TypedState(p: Program, s: Sym)
  {
    match s.c.ctl
    case Running(b, pc) => b in p.blocks && pc >= |p.blocks[b].body| ==> TypedTerm(s, p.blocks[b].term)
    case _ => true
  }

  lemma StepPushesOwn(p: Program, s: Sym, i: Input)
    requires OkProgram(p) && Agrees(s, s.c, i) && OkRegs(s.c.regs) && TypedState(p, s)
    ensures SatisfiesAll(i, StepPushes(p, s)) && Sorted(StepPushes(p, s))
  {
    hide OkRegs, SatisfiesAll, Sorted, Eval, SortOf, RegsAgree, Predicts, Pushes, TermPushes, OkInstr, OkTerm,
         TypedTerm;
    NothingPushed(i);
    match s.c.ctl
    case Running(b, pc) =>
      if b in p.blocks {
        assert OkBlock(p.blocks[b]);
        if pc < |p.blocks[b].body| {
          PushesOwn(s, i, p.blocks[b].body[pc]);
        } else {
          TermPushesOwn(s, i, p.blocks[b].term);
        }
      }
    case _ =>
  }

  /** No type error at a switch during the first `k` steps. */
  ghost predicate TypedRun(p: Program, i: Input, c: State, k: nat)
  {
    forall t: nat :: t < k ==> TypedState(p, SymRun(p, i, c, t))
  }

  /** The running input satisfies everything it pushes, every pushed constraint is a Boolean
      expression, and every expression in a register or in shadow memory is well sorted and
      evaluates to the concrete value beside it. */
  lemma {:induction false} RunOwn(p: Program, c: State, i: Input, k: nat)
    requires OkRun(p, i, c, k) && OkRegs(c.regs) && TypedRun(p, i, c, k)
    ensures SatisfiesAll(i, SymRun(p, i, c, k).path) && Sorted(SymRun(p, i, c, k).path)
    ensures Agrees(SymRun(p, i, c, k), SymRun(p, i, c, k).c, i)
    ensures OkRegs(SymRun(p, i, c, k).c.regs)
  {
    hide OkRegs, SatisfiesAll, Sorted, Eval, SortOf, Agrees, StepPushes, SymStep, Step, TypedState;
    if k == 0 {
      NothingPushed(i);
      InitAgrees(c, i);
    } else {
      OkRunPrefix(p, i, c, k - 1, k);
      RunOwn(p, c, i, k - 1);
      var s := SymRun(p, i, c, k - 1);
      assert TypedState(p, s);
      StepPushesOwn(p, s, i);
      StepPath(p, i, s);
      OwnConcat(i, s.path, StepPushes(p, s));
      ConcreteUnchanged(p, i, c, k);
      PathSound(p, c, i, i, k);
    }
  }

  /** Concolic memory: during any run, a non-null shadow entry is an 8-bit expression whose
      value on the running input is the byte in memory. */
  lemma ConcolicMemory(p: Program, c: State, i: Input, k: nat, a: nat)
    requires OkRun(p, i, c, k) && OkRegs(c.regs) && TypedRun(p, i, c, k)
    ensures var s := SymRun(p, i, c, k); a in s.shadow ==> Denotes(s.shadow[a], i, Bv(MemAt(s.c.mem, a)))
  {
    hide OkRegs, SatisfiesAll, Sorted, Eval, SortOf, SymRun, TypedRun;
    RunOwn(p, c, i, k);
    var s := SymRun(p, i, c, k);
    assert PredictsAt(s.shadow, s.c.mem, i, a, MemAt(s.c.mem, a));
  }

  // ----- models -----

  lemma SatisfiesPrefix(x: Input, cs: seq<Constraint>, k: nat, m: nat)
    requires k <= m <= |cs| && SatisfiesAll(x, cs[..m])
    ensures SatisfiesAll(x, cs[..k])
  {
    forall i | 0 <= i < k
      ensures Satisfies(x, cs[..k][i])
    {
      assert cs[..k][i] == cs[..m][i];
    }
  }

  lemma {:induction false} PathGrows(p: Program, c: State, i: Input, t: nat, k: nat)
    requires t <= k
    ensures SymRun(p, i, c, t).path <= SymRun(p, i, c, k).path
  {
    hide SymStep, StepPushes;
    if t < k {
      PathGrows(p, c, i, t, k - 1);
      StepPath(p, i, SymRun(p, i, c, k - 1));
    }
  }

  /** A model found for the constraint with number `d.number` repeats the run up to every
      step before that constraint was pushed. */
  lemma ModelRepeats(p: Program, c: State, i: Input, k: nat, d: Diverging, t: nat)
    requires OkRun(p, i, c, k) && OkRegs(c.regs) && Diverges(d, SymRun(p, i, c, k).path, |i|)
    requires t <= k && |SymRun(p, i, c, t).path| <= d.number
    ensures Agrees(SymRun(p, i, c, t), Run(p, d.model, c, t), d.model) && OkRegs(SymRun(p, i, c, t).c.regs)
  {
    hide Eval, SortOf, SymRun, SatisfiesAll, OkRegs;
    var path, before := SymRun(p, i, c, k).path, SymRun(p, i, c, t).path;
    PathGrows(p, c, i, t, k);
    SatisfiesPrefix(d.model, path, |before|, d.number);
    assert path[..|before|] == before;
    OkRunPrefix(p, i, c, t, k);
    PathSound(p, c, i, d.model, t);
  }

  /** A conditional branch on a symbolic condition: the model takes the other side. */
  lemma BranchFlips(s: Sym, c': State, m: Input, t: Terminator)
    requires t.CondBr? && Agrees(s, c', m) && OkRegs(s.c.regs) && OkTerm(t)
    requires ExprOf(s.exprs, t.cond).Some? && Target(t, s.c.regs).Some?
    requires Eval(TermPushes(s, t)[0].expr, m) == Boolean(!TermPushes(s, t)[0].taken)
    ensures Target(t, c'.regs) == Some(if Get(s.c.regs, t.cond) == Some(Boolean(true)) then t.ifFalse else t.ifTrue)
  {
    hide RegsAgree, OkRegs, Predicts;
    GetPredicted(s, c', m, t.cond);
  }

  /** A select on a symbolic condition: the model selects the other operand. */
  lemma SelectFlips(s: Sym, c': State, m: Input, cond: Operand, a: Operand, b: Operand)
    requires Agrees(s, c', m) && OkRegs(s.c.regs) && OkOperand(cond) && OkOperand(a) && OkOperand(b)
    requires ExprOf(s.exprs, cond).Some?
    requires SelectValue(Get(s.c.regs, cond), Get(s.c.regs, a), Get(s.c.regs, b)).Some?
    requires var q := PushCondition(ExprOf(s.exprs, cond), Get(s.c.regs, cond))[0]; Eval(q.expr, m) == Boolean(!q.taken)
    ensures SelectValue(Get(c'.regs, cond), Get(c'.regs, a), Get(c'.regs, b))
            == if Get(s.c.regs, cond) == Some(Boolean(true)) then Get(c'.regs, b) else Get(c'.regs, a)
  {
    hide RegsAgree, OkRegs, Predicts;
    GetPredicted(s, c', m, cond);
    GetPredicted(s, c', m, a);
    GetPredicted(s, c', m, b);
  }

  /** A pinned address or size: the model has a different one. */
  lemma PinFlips(s: Sym, c': State, m: Input, o: Operand)
    requires Agrees(s, c', m) && OkRegs(s.c.regs) && OkOperand(o)
    requires ExprOf(s.exprs, o).Some? && AsSize(Get(s.c.regs, o)).Some?
    requires Eval(PinOperand(s, o)[0].expr, m) == Boolean(false)
    ensures AsSize(Get(c'.regs, o)).Some? && AsSize(Get(c'.regs, o)) != AsSize(Get(s.c.regs, o))
  {
    hide RegsAgree, OkRegs, Predicts, ToNat, FromNat;
    GetPredicted(s, c', m, o);
    var n := AsSize(Get(s.c.regs, o)).value;
    var bits, bits' := Get(s.c.regs, o).value.bits, Get(c'.regs, o).value.bits;
    ToNatIsResidue(bits);
    CmpMeans(ExprOf(s.exprs, o).value, BuildInteger(n, 64), m);
    if ToNat(bits') == n {
      FromToNat(bits);
      FromToNat(bits');
    }
  }

  lemma {:induction false} CaseTargetIs(values: seq<Value>, targets: seq<Label>, default: Label, k: nat)
    requires |values| == |targets| && k < |values| && Distinct(values)
    ensures CaseTarget(values, targets, default, values[k]) == targets[k]
  {
    if k > 0 {
      CaseTargetIs(values[1..], targets[1..], default, k - 1);
    }
  }

  /** A switch on a symbolic operand: the model found for a case not taken reaches that case. */
  lemma SwitchReaches(s: Sym, c': State, m: Input, t: Terminator, k: nat)
    requires t.Switch? && Agrees(s, c', m) && OkRegs(s.c.regs) && OkTerm(t) && Distinct(t.values)
    requires ExprOf(s.exprs, t.cond).Some? && Target(t, s.c.regs).Some? && k < |t.values|
    requires Eval(Cmp(Eq, ExprOf(s.exprs, t.cond).value, ValueExpr(t.values[k])), m) == Boolean(true)
    ensures Target(t, c'.regs) == Some(t.targets[k])
  {
    hide RegsAgree, OkRegs, Predicts, ValueExpr, Eval, SortOf;
    GetPredicted(s, c', m, t.cond);
    assert SortOfValue(t.values[k]) == SortOfValue(Get(s.c.regs, t.cond).value);
    CaseMeans(ExprOf(s.exprs, t.cond).value, t.values[k], m);
    CaseTargetIs(t.values, t.targets, t.default, k);
  }

  // ----- whole runs -----

  /** The instrumented state is about to execute the terminator of block `b`. */
  ghost predicate AtTerminator(p: Program, s: Sym, b: Label)
  {
    s.c.ctl.Running? && s.c.ctl.block == b && b in p.blocks && s.c.ctl.pc >= |p.blocks[b].body|
  }

  /** What a step pushes, in the path of a longer run. */
  lemma StepInPath(p: Program, c: State, i: Input, k: nat, t: nat, q: nat)
    requires t < k && q < |StepPushes(p, SymRun(p, i, c, t))|
    ensures var s := SymRun(p, i, c, t);
            |s.path| + q < |SymRun(p, i, c, k).path|
            && SymRun(p, i, c, k).path[|s.path| + q] == StepPushes(p, s)[q]
  {
    hide SymStep, StepPushes;
    StepPath(p, i, SymRun(p, i, c, t));
    PathGrows(p, c, i, t + 1, k);
  }

  /** A model found for constraint number `q` of a step: the run on it is at the same step,
      the step's earlier constraints hold there, and this one has the other truth value. */
  lemma ModelAtStep(p: Program, c: State, i: Input, k: nat, d: Diverging, t: nat, q: nat)
    requires OkRun(p, i, c, k) && OkRegs(c.regs) && Diverges(d, SymRun(p, i, c, k).path, |i|)
    requires t < k && q < |StepPushes(p, SymRun(p, i, c, t))| && d.number == |SymRun(p, i, c, t).path| + q
    ensures Agrees(SymRun(p, i, c, t), Run(p, d.model, c, t), d.model) && OkRegs(SymRun(p, i, c, t).c.regs)
    ensures var cs := StepPushes(p, SymRun(p, i, c, t));
            Eval(cs[q].expr, d.model) == Boolean(!cs[q].taken) && forall m :: 0 <= m < q ==> Satisfies(d.model, cs[m])
  {
    hide OkRegs, SymRun, Run, Eval, SortOf, Agrees, StepPushes, OkProgram, Satisfies;
    ModelRepeats(p, c, i, k, d, t);
    StepInPath(p, c, i, k, t, q);
    var path, s := SymRun(p, i, c, k).path, SymRun(p, i, c, t);
    forall m | 0 <= m < q
      ensures Satisfies(d.model, StepPushes(p, s)[m])
    {
      StepInPath(p, c, i, k, t, m);
      assert path[..d.number][|s.path| + m] == StepPushes(p, s)[m];
    }
  }

  lemma TerminatorOk(p: Program, s: Sym, b: Label)
    requires OkProgram(p) && AtTerminator(p, s, b)
    ensures OkTerm(p.blocks[b].term) && StepPushes(p, s) == TermPushes(s, p.blocks[b].term)
  {
    assert OkBlock(p.blocks[b]);
  }

  /** A model that the backend found for the constraint of a conditional branch repeats the
      run to that branch and then goes the other way. */
  lemma BranchModel(p: Program, c: State, i: Input, k: nat, d: Diverging, t: nat, b: Label)
    requires OkRun(p, i, c, k) && OkRegs(c.regs) && Diverges(d, SymRun(p, i, c, k).path, |i|)
    requires t < k && AtTerminator(p, SymRun(p, i, c, t), b)
    requires var s, term := SymRun(p, i, c, t), p.blocks[b].term;
             term.CondBr? && ExprOf(s.exprs, term.cond).Some? && Target(term, s.c.regs).Some? && d.number == |s.path|
    ensures var s, term, c' := SymRun(p, i, c, t), p.blocks[b].term, Run(p, d.model, c, t);
            && Agrees(s, c', d.model) && c'.ctl == s.c.ctl
            && Target(term, c'.regs)
               == Some(if Get(s.c.regs, term.cond) == Some(Boolean(true)) then term.ifFalse else term.ifTrue)
  {
    hide OkRegs, SymRun, Run, Eval, SortOf, SatisfiesAll, RegsAgree, Predicts, Diverges, OkProgram, StepPushes;
    var s, term := SymRun(p, i, c, t), p.blocks[b].term;
    TerminatorOk(p, s, b);
    ModelAtStep(p, c, i, k, d, t, 0);
    BranchFlips(s, Run(p, d.model, c, t), d.model, term);
  }

  /** The instrumented state is about to execute an instruction. */
  ghost predicate AtInstruction(p: Program, s: Sym, ins: Instr)
  {
    && s.c.ctl.Running? && s.c.ctl.block in p.blocks && s.c.ctl.pc < |p.blocks[s.c.ctl.block].body|
    && p.blocks[s.c.ctl.block].body[s.c.ctl.pc] == ins
  }

  lemma InstructionOk(p: Program, s: Sym, ins: Instr)
    requires OkProgram(p) && AtInstruction(p, s, ins)
    ensures OkInstr(ins) && StepPushes(p, s) == Pushes(s, ins)
  {
    assert OkBlock(p.blocks[s.c.ctl.block]);
  }

  /** A model found for the constraint of a select repeats the run to it and then selects
      the other operand. */
  lemma SelectModel(p: Program, c: State, i: Input, k: nat, d: Diverging, t: nat, ins: Instr)
    requires OkRun(p, i, c, k) && OkRegs(c.regs) && Diverges(d, SymRun(p, i, c, k).path, |i|)
    requires t < k && ins.SelectInstr? && AtInstruction(p, SymRun(p, i, c, t), ins)
    requires var s := SymRun(p, i, c, t);
             ExprOf(s.exprs, ins.cond).Some? && d.number == |s.path|
             && SelectValue(Get(s.c.regs, ins.cond), Get(s.c.regs, ins.a), Get(s.c.regs, ins.b)).Some?
    ensures var s, c' := SymRun(p, i, c, t), Run(p, d.model, c, t);
            && Agrees(s, c', d.model) && c'.ctl == s.c.ctl
            && SelectValue(Get(c'.regs, ins.cond), Get(c'.regs, ins.a), Get(c'.regs, ins.b))
               == if Get(s.c.regs, ins.cond) == Some(Boolean(true)) then Get(c'.regs, ins.b) else Get(c'.regs, ins.a)
  {
    hide OkRegs, SymRun, Run, Eval, SortOf, SatisfiesAll, RegsAgree, Predicts, Diverges, OkProgram, StepPushes;
    var s := SymRun(p, i, c, t);
    InstructionOk(p, s, ins);
    ModelAtStep(p, c, i, k, d, t, 0);
    SelectFlips(s, Run(p, d.model, c, t), d.model, ins.cond, ins.a, ins.b);
  }

  /** The operands whose 64-bit value an instruction pins. */
  predicate Pins(ins: Instr, o: Operand)
  {
    match ins
    case LoadInstr(_, addr, _) => o == addr
    case StoreInstr(addr, _, _) => o == addr
    case MoveInstr(to, from, len) => o == to || o == from || o == len
    case FillInstr(to, _, len) => o == to || o == len
    case ReadInstr(_, addr, len) => o == addr || o == len
    case _ => false
  }

  lemma PinsOk(ins: Instr, o: Operand)
    requires OkInstr(ins) && Pins(ins, o)
    ensures OkOperand(o)
  {
  }

  /** A model found for the concretisation of an address or a size repeats the run to that
      instruction and has another address or size there. */
  lemma PinModel(p: Program, c: State, i: Input, k: nat, d: Diverging, t: nat, ins: Instr, o: Operand, q: nat)
    requires OkRun(p, i, c, k) && OkRegs(c.regs) && Diverges(d, SymRun(p, i, c, k).path, |i|)
    requires t < k && AtInstruction(p, SymRun(p, i, c, t), ins) && Pins(ins, o)
    requires var s := SymRun(p, i, c, t);
             ExprOf(s.exprs, o).Some? && AsSize(Get(s.c.regs, o)).Some?
             && q < |Pushes(s, ins)| && Pushes(s, ins)[q] == PinOperand(s, o)[0] && d.number == |s.path| + q
    ensures var s, c' := SymRun(p, i, c, t), Run(p, d.model, c, t);
            && Agrees(s, c', d.model) && c'.ctl == s.c.ctl
            && AsSize(Get(c'.regs, o)).Some? && AsSize(Get(c'.regs, o)) != AsSize(Get(s.c.regs, o))
  {
    hide OkRegs, SymRun, Run, Eval, SortOf, SatisfiesAll, RegsAgree, Predicts, Diverges, OkProgram, StepPushes, Pushes,
         OkInstr, Pins;
    var s := SymRun(p, i, c, t);
    InstructionOk(p, s, ins);
    PinsOk(ins, o);
    ModelAtStep(p, c, i, k, d, t, q);
    PinFlips(s, Run(p, d.model, c, t), d.model, o);
  }

  lemma {:induction false} NonTakenCase(e: Expr, v: Value, values: seq<Value>, q: nat) returns (k: nat)
    requires q < |NonTaken(CaseConstraints(e, v, values))|
    ensures k < |values| && values[k] != v
    ensures NonTaken(CaseConstraints(e, v, values))[q] == CaseConstraint(e, v, values[k])
  {
    var cs := CaseConstraints(e, v, values);
    NonTakenAreNot(cs, q);
    k :| 0 <= k < |cs| && cs[k] == NonTaken(cs)[q];
  }

  /** The switch operand is symbolic and `q` numbers one of the cases not taken. */
  ghost predicate SwitchQuery(s: Sym, t: Terminator, q: nat)
  {
    && t.Switch? && Distinct(t.values) && ExprOf(s.exprs, t.cond).Some? && Target(t, s.c.regs).Some?
    && q < |NonTaken(CaseConstraints(ExprOf(s.exprs, t.cond).value, Get(s.c.regs, t.cond).value, t.values))|
  }

  lemma QueryPushed(s: Sym, t: Terminator, q: nat)
    requires SwitchQuery(s, t, q)
    ensures q < |TermPushes(s, t)| && !TermPushes(s, t)[q].taken
  {
    hide NonTaken, Taken;
    NonTakenAreNot(CaseConstraints(ExprOf(s.exprs, t.cond).value, Get(s.c.regs, t.cond).value, t.values), q);
  }

  lemma QueryReaches(s: Sym, c': State, m: Input, t: Terminator, q: nat) returns (n: nat)
    requires SwitchQuery(s, t, q) && q < |TermPushes(s, t)|
    requires Agrees(s, c', m) && OkRegs(s.c.regs) && OkTerm(t)
    requires Eval(TermPushes(s, t)[q].expr, m) == Boolean(true)
    ensures n < |t.values| == |t.targets| && Some(t.values[n]) != Get(s.c.regs, t.cond)
    ensures TermPushes(s, t)[q]
            == CaseConstraint(ExprOf(s.exprs, t.cond).value, Get(s.c.regs, t.cond).value, t.values[n])
    ensures Target(t, c'.regs) == Some(t.targets[n])
  {
    hide OkRegs, Eval, SortOf, Agrees, ValueExpr, NonTaken, Taken;
    n := NonTakenCase(ExprOf(s.exprs, t.cond).value, Get(s.c.regs, t.cond).value, t.values, q);
    SwitchReaches(s, c', m, t, n);
  }

  /** A model found for a case that the switch did not take repeats the run to that switch
      and then goes to the very case that was asked for. */
  lemma SwitchModel(p: Program, c: State, i: Input, k: nat, d: Diverging, t: nat, b: Label, q: nat) returns (n: nat)
    requires OkRun(p, i, c, k) && OkRegs(c.regs) && Diverges(d, SymRun(p, i, c, k).path, |i|)
    requires t < k && AtTerminator(p, SymRun(p, i, c, t), b)
    requires SwitchQuery(SymRun(p, i, c, t), p.blocks[b].term, q) && d.number == |SymRun(p, i, c, t).path| + q
    ensures var s, term, c' := SymRun(p, i, c, t), p.blocks[b].term, Run(p, d.model, c, t);
            && Agrees(s, c', d.model) && c'.ctl == s.c.ctl
            && n < |term.values| == |term.targets| && Some(term.values[n]) != Get(s.c.regs, term.cond)
            && q < |TermPushes(s, term)|
            && TermPushes(s, term)[q]
               == CaseConstraint(ExprOf(s.exprs, term.cond).value, Get(s.c.regs, term.cond).value, term.values[n])
            && Target(term, c'.regs) == Some(term.targets[n])
  {
    hide OkRegs, SymRun, Run, Eval, SortOf, SatisfiesAll, RegsAgree, Predicts, Target, TermPushes, Diverges, OkProgram,
         OkTerm, StepPushes;
    var s, term := SymRun(p, i, c, t), p.blocks[b].term;
    TerminatorOk(p, s, b);
    QueryPushed(s, term, q);
    ModelAtStep(p, c, i, k, d, t, q);
    n := QueryReaches(s, Run(p, d.model, c, t), d.model, term, q);
  }

  lemma {:induction false} CaseTargetDefault(values: seq<Value>, targets: seq<Label>, default: Label, v: Value)
    requires |values| == |targets| && v !in values
    ensures CaseTarget(values, targets, default, v) == default
  {
    if |values| > 0 {
      CaseTargetDefault(values[1..], targets[1..], default, v);
    }
  }

  /** Every case constraint is in its batch. */
  lemma InBatch(cs: seq<Constraint>, n: nat) returns (m: nat)
    requires n < |cs|
    ensures m < |Batched(cs)| && Batched(cs)[m] == cs[n]
    ensures !cs[n].taken ==> m < |NonTaken(cs)|
  {
    hide NonTaken, Taken;
    BatchedOnce(cs);
    assert cs[n] in multiset(Batched(cs));
    m :| 0 <= m < |Batched(cs)| && Batched(cs)[m] == cs[n];
    if m >= |NonTaken(cs)| {
      TakenAre(cs, m - |NonTaken(cs)|);
    }
  }

  /** An input that satisfies the exclusions and violates the taken constraint takes none of the cases. */
  lemma NoCase(s: Sym, t: Terminator, m: Input, n: nat, v': Value)
    requires t.Switch? && ExprOf(s.exprs, t.cond).Some? && Target(t, s.c.regs).Some? && OkTerm(t) && n < |t.values|
    requires Denotes(ExprOf(s.exprs, t.cond).value, m, v')
    requires SortOfValue(v') == SortOfValue(Get(s.c.regs, t.cond).value)
    requires var e, v := ExprOf(s.exprs, t.cond).value, Get(s.c.regs, t.cond).value;
             var c := CaseConstraint(e, v, t.values[n]);
             if c.taken then Eval(c.expr, m) == Boolean(false) else Satisfies(m, c)
    ensures t.values[n] != v'
  {
    hide ValueExpr;
    CaseMeans(ExprOf(s.exprs, t.cond).value, t.values[n], m);
  }

  /** A model found for the case that the switch did take, which is asked for last, repeats
      the run to that switch and goes to the default target. */
  lemma DefaultModel(p: Program, c: State, i: Input, k: nat, d: Diverging, t: nat, b: Label)
    requires OkRun(p, i, c, k) && OkRegs(c.regs) && Diverges(d, SymRun(p, i, c, k).path, |i|)
    requires t < k && AtTerminator(p, SymRun(p, i, c, t), b)
    requires var s, term := SymRun(p, i, c, t), p.blocks[b].term;
             term.Switch? && Distinct(term.values) && ExprOf(s.exprs, term.cond).Some? && Target(term, s.c.regs).Some?
    requires var s, term := SymRun(p, i, c, t), p.blocks[b].term;
             var cs := CaseConstraints(ExprOf(s.exprs, term.cond).value, Get(s.c.regs, term.cond).value, term.values);
             |Taken(cs)| > 0 && d.number == |s.path| + |NonTaken(cs)|
    ensures var s, term, c' := SymRun(p, i, c, t), p.blocks[b].term, Run(p, d.model, c, t);
            Agrees(s, c', d.model) && c'.ctl == s.c.ctl && Target(term, c'.regs) == Some(term.default)
  {
    hide OkRegs, SymRun, Run, Eval, SortOf, SatisfiesAll, RegsAgree, Predicts, Diverges, OkProgram, OkTerm, StepPushes,
         NonTaken, Taken, Satisfies, Distinct, AtMostOneTaken;
    var s, term := SymRun(p, i, c, t), p.blocks[b].term;
    var e, v := ExprOf(s.exprs, term.cond).value, Get(s.c.regs, term.cond).value;
    var cs := CaseConstraints(e, v, term.values);
    TerminatorOk(p, s, b);
    ModelAtStep(p, c, i, k, d, t, |NonTaken(cs)|);
    var c' := Run(p, d.model, c, t);
    assert OkOperand(term.cond) by { SwitchOk(term); }
    GetPredicted(s, c', d.model, term.cond);
    var v' := Get(c'.regs, term.cond).value;
    DistinctAtMostOne(e, v, term.values);
    TakenAtMostOne(cs);
    TakenAre(cs, 0);
    forall n | 0 <= n < |term.values|
      ensures term.values[n] != v'
    {
      var m := InBatch(cs, n);
      assert cs[n].taken ==> m >= |NonTaken(cs)| by {
        if m < |NonTaken(cs)| {
          NonTakenAreNot(cs, m);
        }
      }
      NoCase(s, term, d.model, n, v');
    }
    CaseTargetDefault(term.values, term.targets, term.default, v');
  }

  lemma SwitchOk(t: Terminator)
    requires t.Switch? && OkTerm(t)
    ensures OkOperand(t.cond)
  {
  }

  // ----- a whole session -----

  /** Running the instrumented program against the backend: no assertion of the backend
      fires, each model it finds diverges from the run at the constraint it was found for, and
      a constraint has a model, and only one, exactly if some input of the same length
      satisfies all earlier constraints and violates it. */
  method Explore(p: Program, c: State, i: Input, k: nat, b: SimpleBackend)
    requires OkRun(p, i, c, k) && OkRegs(c.regs) && TypedRun(p, i, c, k)
    requires b.Valid(|i|) && Complete(b.oracle) && b.pushed == []
    modifies b
    ensures b.pushed == SymRun(p, i, c, k).path && AllDiverge(b.found, SymRun(p, i, c, k).path, |i|)
    ensures FoundExactly(b.found, SymRun(p, i, c, k).path, |i|)
    ensures forall m, t: nat :: 0 <= m < |b.found| && t <= k && |SymRun(p, i, c, t).path| <= b.found[m].number ==>
              Agrees(SymRun(p, i, c, t), Run(p, b.found[m].model, c, t), b.found[m].model)
  {
    hide Agrees, OkProgram, OkRegs, TypedRun, Complete, Sound, Mirrors, Diverges, Run, SymRun, SatisfiesAll, SortOf,
         FoundExactly;
    RunOwn(p, c, i, k);
    PushAll(b, SymRun(p, i, c, k).path, i);
    forall m, t: nat | 0 <= m < |b.found| && t <= k && |SymRun(p, i, c, t).path| <= b.found[m].number
      ensures Agrees(SymRun(p, i, c, t), Run(p, b.found[m].model, c, t), b.found[m].model)
    {
      ModelRepeats(p, c, i, k, b.found[m], t);
    }
  }
}
