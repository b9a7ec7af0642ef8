/** Operands that the pass has not visited when it visits their use: it takes them for
    concrete ones. What the code for such an instruction does is what the instrumented step
    would do without their expressions, and for every kind of instruction this is right
    under an exact condition on the state. */
module LateOperands {
  import opened Options
  import opened BitVectors
  import opened Expressions
  import opened FlatMemory
  import opened Constraints
  import opened SwitchBatch
  import opened Gep
  import opened Ir
  import opened Concolic
  import opened SymbolicCode
  import opened CodeFrame
  import opened PhiFinalization
  import opened Instrumentation
  import opened GepInstrumentation
  import opened Recording
  import opened Emission

  /** The state without the expressions of some registers. */
  function Forget(s: Sym, late: set<Reg>): Sym { s.(exprs := s.exprs - late) }

  /** The operand is symbolic, and its expression is forgotten. */
  predicate Lost(s: Sym, late: set<Reg>, o: Operand) { o.Var? && o.reg in late && o.reg in s.exprs }

  lemma ForgottenExpr(s: Sym, late: set<Reg>, o: Operand)
    ensures ExprOf(Forget(s, late).exprs, o) == if Lost(s, late, o) then None else ExprOf(s.exprs, o)
    ensures Lost(s, late, o) ==> ExprOf(s.exprs, o).Some?
  {
  }

  /** Both states push the same, and have the same shadow and result. */
  ghost predicate SameStep(p: Program, input: Input, s: Sym, u: Sym, i: Instr)
  {
    && Pushes(u, i) == Pushes(s, i) && ResultShadow(p, input, u, i) == ResultShadow(p, input, s, i)
    && (Dst(i).Some? ==> ResultExpr(p, u, i) == ResultExpr(p, s, i))
  }

  /** Both states agree but for expressions, which are the same for the operands of `i`. */
  ghost predicate SameUses(s: Sym, u: Sym, i: Instr)
  {
    u.c == s.c && u.shadow == s.shadow && forall o: Operand :: Uses(i, o) ==> ExprOf(u.exprs, o) == ExprOf(s.exprs, o)
  }

  lemma SameUse(s: Sym, u: Sym, i: Instr, o: Operand)
    requires SameUses(s, u, i) && Uses(i, o)
    ensures u.c == s.c && u.shadow == s.shadow && ExprOf(u.exprs, o) == ExprOf(s.exprs, o)
    ensures PinOperand(u, o) == PinOperand(s, o)
  {
  }

  lemma SameValues(p: Program, input: Input, s: Sym, u: Sym, i: Instr)
    requires SameUses(s, u, i) && (Binaryish(i) || i.CastInstr? || i.CopyInstr? || i.SelectInstr?)
    ensures SameStep(p, input, s, u, i)
  {
    hide Combine, CastExpr, ExprOf, SameUses;
    match i
    case BinInstr(_, _, a, b) => SameUse(s, u, i, a); SameUse(s, u, i, b);
    case BoolInstr(_, _, a, b) => SameUse(s, u, i, a); SameUse(s, u, i, b);
    case CmpInstr(_, _, a, b) => SameUse(s, u, i, a); SameUse(s, u, i, b);
    case CastInstr(_, _, a, _) => SameUse(s, u, i, a);
    case CopyInstr(_, a) => SameUse(s, u, i, a);
    case SelectInstr(_, cond, a, b) => SameUse(s, u, i, cond); SameUse(s, u, i, a); SameUse(s, u, i, b);
  }

  lemma SameMemory(p: Program, input: Input, s: Sym, u: Sym, i: Instr)
    requires SameUses(s, u, i) && (i.LoadInstr? || i.StoreInstr? || i.MoveInstr? || i.FillInstr? || i.ReadInstr?)
    ensures SameStep(p, input, s, u, i)
  {
    hide ReadMemory, WriteMemory, MoveShadow, FillShadow, MakeSymbolic, ExprOf, SameUses, PinOperand;
    match i
    case LoadInstr(_, addr, _) => SameUse(s, u, i, addr);
    case StoreInstr(addr, a, _) => SameUse(s, u, i, addr); SameUse(s, u, i, a);
    case MoveInstr(to, from, len) => SameUse(s, u, i, to); SameUse(s, u, i, from); SameUse(s, u, i, len);
    case FillInstr(to, a, len) => SameUse(s, u, i, to); SameUse(s, u, i, a); SameUse(s, u, i, len);
    case ReadInstr(_, addr, len) => SameUse(s, u, i, addr); SameUse(s, u, i, len);
  }

  /** What an instruction does depends on the expressions of its operands only. */
  lemma SameOperands(p: Program, input: Input, s: Sym, u: Sym, i: Instr)
    requires SameUses(s, u, i)
    ensures SameStep(p, input, s, u, i)
  {
    if Binaryish(i) || i.CastInstr? || i.CopyInstr? || i.SelectInstr? {
      SameValues(p, input, s, u, i);
    } else if i.GepInstr? {
      SameGep(p, input, s, u, i);
    } else {
      SameMemory(p, input, s, u, i);
    }
  }

  lemma SameGep(p: Program, input: Input, s: Sym, u: Sym, i: Instr)
    requires SameUses(s, u, i) && i.GepInstr?
    ensures SameStep(p, input, s, u, i)
  {
    hide GepExpr, ExprOf, ResolveSym;
    assert Uses(i, i.base);
    forall k | 0 <= k < |i.path| && i.path[k].Index?
      ensures ExprOf(u.exprs, i.path[k].operand) == ExprOf(s.exprs, i.path[k].operand)
    {
      assert Uses(i, i.path[k].operand);
    }
    SameResolved(s, u, i.path);
  }

  lemma {:induction false} SameResolved(s: Sym, u: Sym, path: seq<GepStep>)
    requires u.c == s.c
    requires forall k :: 0 <= k < |path| && path[k].Index? ==>
               ExprOf(u.exprs, path[k].operand) == ExprOf(s.exprs, path[k].operand)
    ensures ResolveSym(path, u.c.regs, u.exprs) == ResolveSym(path, s.c.regs, s.exprs)
  {
    hide IndexBits, ExprOf;
    if |path| > 0 {
      SameResolved(s, u, path[1..]);
    }
  }

  // ----- the code -----

  /** Every operand is known, or it is late and the pass does not track it. */
  ghost predicate KnownOrLate(sym: SymbolicExpressions, env: Env, exprs: Exprs, late: set<Reg>, o: Operand)
  {
    if o.Var? && o.reg in late then !Tracked(sym, o) else Known(sym, env, exprs, o)
  }

  lemma LateKnown(sym: SymbolicExpressions, env: Env, s: Sym, late: set<Reg>, o: Operand)
    requires KnownOrLate(sym, env, s.exprs, late, o)
    ensures Known(sym, env, Forget(s, late).exprs, o)
  {
    ForgottenExpr(s, late, o);
  }

  /** What code must leave behind for an instruction, relative to an instrumented state. */
  ghost predicate Leaves(p: Program, input: Input, e: Emitted, pass: Pass, w: World, w': World, s: Sym, i: Instr)
  {
    && Effect(w, w', pass.next, e.pass.next, Pushes(s, i), ResultShadow(p, input, s, i))
    && (Dst(i).Some? ==> Look(w'.m.env, OperandOf(e.pass.sym, Var(Dst(i).value))) == ResultExpr(p, s, i))
  }

  lemma DoesLeaves(p: Program, input: Input, e: Emitted, pass: Pass, w: World, s: Sym, i: Instr)
    requires !Exec(p, input, s.c, i).ctl.Fault?
    ensures Does(p, input, e, pass, w, s, i)
            <==> Leaves(p, input, e, pass, w, ExecOps(p, input, FinishAll(e.items), w, s.c), s, i)
  {
    hide Exec, ResultExpr, ResultShadow, Pushes, Effect, ExecOps, Look, Dst;
  }

  /** The code for an instruction with late operands does what the instrumented step does
      without their expressions. */
  lemma LateCode(p: Program, input: Input, types: Types, pass: Pass, w: World, s: Sym, late: set<Reg>, i: Instr)
    requires forall o: Operand :: Uses(i, o) ==> KnownOrLate(pass.sym, w.m.env, s.exprs, late, o)
    requires SymBelow(pass.sym, pass.next) && CastTyped(types, s.c.regs, i)
    requires Dst(i).Some? ==> Dst(i).value !in pass.sym
    requires !Exec(p, input, s.c, i).ctl.Fault? && w.shadow == s.shadow
    ensures var e := EmitInstr(types, pass, i);
            Leaves(p, input, e, pass, w, ExecOps(p, input, FinishAll(e.items), w, s.c), Forget(s, late), i)
  {
    hide Exec, EmitInstr, ExecOps, Uses, Known, KnownOrLate, SymBelow, CastTyped, Does, Leaves, FinishAll, Dst;
    var u := Forget(s, late);
    forall o: Operand | Uses(i, o)
      ensures Known(pass.sym, w.m.env, u.exprs, o)
    {
      LateKnown(pass.sym, w.m.env, s, late, o);
    }
    InstrDoes(p, input, types, pass, w, u, i);
    DoesLeaves(p, input, EmitInstr(types, pass, i), pass, w, u, i);
  }

  /** What code leaves behind is determined. */
  lemma LeavesOne(p: Program, input: Input, e: Emitted, pass: Pass, w: World, w': World, s: Sym, u: Sym, i: Instr)
    requires Leaves(p, input, e, pass, w, w', u, i)
    ensures Leaves(p, input, e, pass, w, w', s, i) <==> SameStep(p, input, s, u, i)
  {
    hide ResultExpr, ResultShadow, Pushes, PathOf, Look, Dst, KeepsOutside;
    var path := PathOf(w.m.log);
    assert path + Pushes(u, i) == path + Pushes(s, i) <==> Pushes(u, i) == Pushes(s, i) by {
      SameTail(path, Pushes(u, i), Pushes(s, i));
    }
  }

  lemma SameTail<T>(a: seq<T>, b: seq<T>, c: seq<T>)
    ensures a + b == a + c <==> b == c
  {
    if a + b == a + c {
      assert b == (a + b)[|a|..] == (a + c)[|a|..] == c;
    }
  }

  /** The code is right exactly if the forgotten expressions make no difference. */
  lemma LateExact(p: Program, input: Input, types: Types, pass: Pass, w: World, s: Sym, late: set<Reg>, i: Instr)
    requires forall o: Operand :: Uses(i, o) ==> KnownOrLate(pass.sym, w.m.env, s.exprs, late, o)
    requires SymBelow(pass.sym, pass.next) && CastTyped(types, s.c.regs, i)
    requires Dst(i).Some? ==> Dst(i).value !in pass.sym
    requires !Exec(p, input, s.c, i).ctl.Fault? && w.shadow == s.shadow
    ensures Does(p, input, EmitInstr(types, pass, i), pass, w, s, i) <==> SameStep(p, input, s, Forget(s, late), i)
  {
    hide Exec, EmitInstr, ExecOps, Uses, KnownOrLate, SymBelow, CastTyped, Does, Leaves, FinishAll, Dst, SameStep;
    var e := EmitInstr(types, pass, i);
    LateCode(p, input, types, pass, w, s, late, i);
    DoesLeaves(p, input, e, pass, w, s, i);
    LeavesOne(p, input, e, pass, w, ExecOps(p, input, FinishAll(e.items), w, s.c), s, Forget(s, late), i);
  }

  // ----- operators, comparisons and casts -----

  /** A lost operand does no harm to an operator exactly if the other one is still symbolic
      and the lost expression is that of the constant which is built instead. */
  predicate Replaceable(s: Sym, late: set<Reg>, lost: Operand, other: Operand)
    requires Get(s.c.regs, lost).Some?
  {
    ExprOf(Forget(s, late).exprs, other).Some? && ExprOf(s.exprs, lost) == Some(ValueExpr(Get(s.c.regs, lost).value))
  }

  lemma CombineForgotten(ea: SymExpr, x: Value, eb: SymExpr, y: Value, la: bool, lb: bool, build: (Expr, Expr) -> Expr)
    requires forall a, b, a', b' :: build(a, b) == build(a', b') ==> a == a' && b == b'
    requires (la ==> ea.Some?) && (lb ==> eb.Some?)
    ensures var fa, fb := if la then None else ea, if lb then None else eb;
            Combine(fa, x, fb, y, build) == Combine(ea, x, eb, y, build)
            <==> (la ==> fb.Some? && ea == Some(ValueExpr(x))) && (lb ==> fa.Some? && eb == Some(ValueExpr(y)))
  {
    hide ValueExpr;
    var fa, fb := if la then None else ea, if lb then None else eb;
    if !(fa.None? && fb.None?) {
      var a, b, a', b' := OperandExpr(fa, x), OperandExpr(fb, y), OperandExpr(ea, x), OperandExpr(eb, y);
      assert build(a, b) == build(a', b') <==> a == a' && b == b';
    }
  }

  lemma LateBinary(p: Program, input: Input, s: Sym, late: set<Reg>, i: Instr)
    requires Binaryish(i) && !Exec(p, input, s.c, i).ctl.Fault?
    ensures Get(s.c.regs, i.a).Some? && Get(s.c.regs, i.b).Some?
    ensures SameStep(p, input, s, Forget(s, late), i)
            <==> && (Lost(s, late, i.a) ==> Replaceable(s, late, i.a, i.b))
                 && (Lost(s, late, i.b) ==> Replaceable(s, late, i.b, i.a))
  {
    hide ValueExpr, Combine, Lost, Forget, BinValue, BoolValue, CmpValue;
    ForgottenExpr(s, late, i.a);
    ForgottenExpr(s, late, i.b);
    assert Forget(s, late).c == s.c && Forget(s, late).shadow == s.shadow by { ForgetKeeps(s, late); }
    var ea, eb := ExprOf(s.exprs, i.a), ExprOf(s.exprs, i.b);
    var x, y := Get(s.c.regs, i.a).value, Get(s.c.regs, i.b).value;
    var la, lb := Lost(s, late, i.a), Lost(s, late, i.b);
    match i
    case BinInstr(_, op, _, _) => CombineForgotten(ea, x, eb, y, la, lb, (a, b) => Binary(op, a, b));
    case BoolInstr(_, op, _, _) => CombineForgotten(ea, x, eb, y, la, lb, (a, b) => BoolBinary(op, a, b));
    case CmpInstr(_, pred, _, _) => CombineForgotten(ea, x, eb, y, la, lb, (a, b) => BuildCompare(pred, a, b));
  }

  lemma ForgetKeeps(s: Sym, late: set<Reg>)
    ensures Forget(s, late).c == s.c && Forget(s, late).shadow == s.shadow && Forget(s, late).path == s.path
  {
  }

  /** A cast, or a copy, is right exactly if its operand is not lost. */
  lemma LateUnary(p: Program, input: Input, s: Sym, late: set<Reg>, i: Instr)
    requires (i.CastInstr? || i.CopyInstr?) && !Exec(p, input, s.c, i).ctl.Fault?
    ensures SameStep(p, input, s, Forget(s, late), i) <==> !Lost(s, late, i.a)
  {
    ForgottenExpr(s, late, i.a);
    hide Lost, Forget, CastValue;
    ForgetKeeps(s, late);
  }

  // ----- select and memory -----

  /** A select is right exactly if neither its condition nor the operand it chooses is lost. */
  lemma LateSelect(p: Program, input: Input, s: Sym, late: set<Reg>, i: Instr)
    requires i.SelectInstr? && !Exec(p, input, s.c, i).ctl.Fault?
    ensures SameStep(p, input, s, Forget(s, late), i)
            <==> && !Lost(s, late, i.cond)
                 && !Lost(s, late, if Get(s.c.regs, i.cond) == Some(Boolean(true)) then i.a else i.b)
  {
    ForgottenExpr(s, late, i.cond);
    ForgottenExpr(s, late, i.a);
    ForgottenExpr(s, late, i.b);
    hide Lost, Forget;
    ForgetKeeps(s, late);
  }

  lemma PinForgotten(s: Sym, late: set<Reg>, o: Operand)
    requires AsSize(Get(s.c.regs, o)).Some?
    ensures |PinOperand(s, o)| <= 1
    ensures PinOperand(Forget(s, late), o) == if Lost(s, late, o) then [] else PinOperand(s, o)
    ensures Lost(s, late, o) ==> |PinOperand(s, o)| == 1
  {
    ForgottenExpr(s, late, o);
  }

  lemma LateLoad(p: Program, input: Input, s: Sym, late: set<Reg>, i: Instr)
    requires i.LoadInstr? && !Exec(p, input, s.c, i).ctl.Fault?
    ensures SameStep(p, input, s, Forget(s, late), i) <==> !Lost(s, late, i.addr)
  {
    PinForgotten(s, late, i.addr);
    ForgetKeeps(s, late);
    hide Lost, Forget, PinOperand, ReadMemory;
    assert PinOperand(s, i.addr) + PinOperand(s, i.addr) == [] <==> PinOperand(s, i.addr) == [];
  }

  lemma WrittenEntry(shadow: Shadow, e: Expr, a: nat, n: nat, le: bool)
    requires n > 0
    ensures WriteMemory(shadow, Some(e), a, n, le) != WriteMemory(shadow, None, a, n, le)
  {
    assert a in WriteMemory(shadow, Some(e), a, n, le) && a !in WriteMemory(shadow, None, a, n, le);
  }

  lemma LateStore(p: Program, input: Input, s: Sym, late: set<Reg>, i: Instr)
    requires i.StoreInstr? && !Exec(p, input, s.c, i).ctl.Fault?
    ensures SameStep(p, input, s, Forget(s, late), i) <==> !Lost(s, late, i.addr) && !Lost(s, late, i.a)
  {
    PinForgotten(s, late, i.addr);
    ForgottenExpr(s, late, i.a);
    ForgetKeeps(s, late);
    hide Lost, Forget, PinOperand, WriteMemory, StoreBits;
    assert PinOperand(s, i.addr) + PinOperand(s, i.addr) == [] <==> PinOperand(s, i.addr) == [];
    if Lost(s, late, i.a) {
      WrittenEntry(s.shadow, ExprOf(s.exprs, i.a).value, AsSize(Get(s.c.regs, i.addr)).value, i.bytes, p.le);
    }
  }

  lemma LateMove(p: Program, input: Input, s: Sym, late: set<Reg>, i: Instr)
    requires i.MoveInstr? && !Exec(p, input, s.c, i).ctl.Fault?
    ensures SameStep(p, input, s, Forget(s, late), i)
            <==> !Lost(s, late, i.to) && !Lost(s, late, i.from) && !Lost(s, late, i.len)
  {
    PinForgotten(s, late, i.to);
    PinForgotten(s, late, i.from);
    PinForgotten(s, late, i.len);
    ForgetKeeps(s, late);
    hide Lost, Forget, PinOperand, MoveShadow, MoveMemory;
  }

  lemma FilledEntry(shadow: Shadow, e: Expr, a: nat, n: nat)
    ensures FillShadow(shadow, a, n, Some(e)) == FillShadow(shadow, a, n, None) <==> n == 0
  {
    if n > 0 {
      assert a in FillShadow(shadow, a, n, Some(e)) && a !in FillShadow(shadow, a, n, None);
    } else {
      assert FillShadow(shadow, a, n, Some(e)) == FillShadow(shadow, a, n, None);
    }
  }

  lemma LateFill(p: Program, input: Input, s: Sym, late: set<Reg>, i: Instr)
    requires i.FillInstr? && !Exec(p, input, s.c, i).ctl.Fault?
    ensures SameStep(p, input, s, Forget(s, late), i)
            <==> && !Lost(s, late, i.to) && !Lost(s, late, i.len)
                 && (Lost(s, late, i.a) ==> AsSize(Get(s.c.regs, i.len)) == Some(0))
  {
    PinForgotten(s, late, i.to);
    PinForgotten(s, late, i.len);
    ForgottenExpr(s, late, i.a);
    ForgetKeeps(s, late);
    hide Lost, Forget, PinOperand, FillShadow, FillMemory;
    if Lost(s, late, i.a) {
      FilledEntry(s.shadow, ExprOf(s.exprs, i.a).value,
                  AsSize(Get(s.c.regs, i.to)).value, AsSize(Get(s.c.regs, i.len)).value);
    }
  }

  lemma LateRead(p: Program, input: Input, s: Sym, late: set<Reg>, i: Instr)
    requires i.ReadInstr? && !Exec(p, input, s.c, i).ctl.Fault?
    ensures SameStep(p, input, s, Forget(s, late), i) <==> !Lost(s, late, i.addr) && !Lost(s, late, i.len)
  {
    PinForgotten(s, late, i.addr);
    PinForgotten(s, late, i.len);
    ForgetKeeps(s, late);
    hide Lost, Forget, PinOperand, MakeSymbolic, InputMemory;
  }

  // ----- getelementptr -----

  /** The same index with another expression. */
  predicate SameIndex(a: GepArg, b: GepArg)
  {
    match a
    case MemberArg(_, _) => b == a
    case IndexArg(bits, _, constant, size) =>
      b.IndexArg? && b.bits == bits && b.constant == constant && b.elementSize == size
  }

  /** The operand expressions that go into the chain agree. */
  predicate SameArg(a: GepArg, b: GepArg)
  {
    a.IndexArg? && b.IndexArg? && !ConstantZero(a) ==>
      OperandExpr(a.expr, IndexValue(a.bits)) == OperandExpr(b.expr, IndexValue(b.bits))
  }

  lemma ExtendInjective(c: Expr, d: Expr, a: GepArg, b: GepArg)
    requires SameIndex(a, b)
    ensures Extend(c, a) == Extend(d, b) <==> c == d && SameArg(a, b)
  {
    hide BuildInteger, ValueExpr, ToNat, Unsigned32, Widening;
  }

  ghost predicate SameIndices(args: seq<GepArg>, brgs: seq<GepArg>)
  {
    |args| == |brgs| && forall k :: 0 <= k < |args| ==> SameIndex(args[k], brgs[k])
  }

  lemma {:induction false} ChainInjective(c: Expr, d: Expr, args: seq<GepArg>, brgs: seq<GepArg>)
    requires SameIndices(args, brgs)
    ensures Chain(c, args) == Chain(d, brgs) <==> c == d && forall k :: 0 <= k < |args| ==> SameArg(args[k], brgs[k])
    decreases |args|
  {
    hide Extend, SameIndex, SameArg;
    if |args| > 0 {
      assert SameIndex(args[0], brgs[0]);
      ChainInjective(Extend(c, args[0]), Extend(d, brgs[0]), args[1..], brgs[1..]);
      ExtendInjective(c, d, args[0], brgs[0]);
      if forall k :: 0 <= k < |args[1..]| ==> SameArg(args[1..][k], brgs[1..][k]) {
        if SameArg(args[0], brgs[0]) {
          forall k | 0 <= k < |args|
            ensures SameArg(args[k], brgs[k])
          {
            assert k > 0 ==> SameArg(args[1..][k - 1], brgs[1..][k - 1]);
          }
        }
      } else {
        var k :| 0 <= k < |args[1..]| && !SameArg(args[1..][k], brgs[1..][k]);
        assert !SameArg(args[k + 1], brgs[k + 1]);
      }
    }
  }

  /** What forgetting does to the arguments of an index path. */
  ghost predicate ForgottenArgs(s: Sym, late: set<Reg>, path: seq<GepStep>, args: seq<GepArg>, brgs: seq<GepArg>)
  {
    && |args| == |brgs| == |path| && SameIndices(args, brgs)
    && forall k :: 0 <= k < |path| ==>
         && (path[k].Index? <==> args[k].IndexArg?)
         && (path[k].Index? ==>
               && args[k].expr == ExprOf(s.exprs, path[k].operand)
               && args[k].constant == path[k].operand.Lit?
               && brgs[k].expr == if Lost(s, late, path[k].operand) then None else args[k].expr)
  }

  lemma {:induction false} ResolveForgotten(s: Sym, late: set<Reg>, path: seq<GepStep>)
    ensures var r, q := ResolveSym(path, s.c.regs, s.exprs), ResolveSym(path, s.c.regs, Forget(s, late).exprs);
            (r.Some? <==> q.Some?) && (r.Some? ==> ForgottenArgs(s, late, path, r.value, q.value))
  {
    hide IndexBits, Get, ExprOf, Lost, Forget, ForgottenArgs;
    if |path| > 0 {
      ResolveForgotten(s, late, path[1..]);
      if path[0].Index? {
        ForgottenExpr(s, late, path[0].operand);
      }
      var r, q := ResolveSym(path, s.c.regs, s.exprs), ResolveSym(path, s.c.regs, Forget(s, late).exprs);
      if r.Some? {
        assert r.value[1..] == ResolveSym(path[1..], s.c.regs, s.exprs).value;
        assert q.value[1..] == ResolveSym(path[1..], s.c.regs, Forget(s, late).exprs).value;
        ForgottenLength(s, late, path[1..], r.value[1..], q.value[1..]);
        ForgottenCons(s, late, path, r.value, q.value);
      }
    } else {
      assert ForgottenArgs(s, late, [], [], []) by { NoneForgotten(s, late); }
    }
  }

  lemma NoneForgotten(s: Sym, late: set<Reg>)
    ensures ForgottenArgs(s, late, [], [], [])
  {
  }

  lemma ForgottenCons(s: Sym, late: set<Reg>, path: seq<GepStep>, args: seq<GepArg>, brgs: seq<GepArg>)
    requires |path| == |args| == |brgs| > 0 && ForgottenArgs(s, late, path[1..], args[1..], brgs[1..])
    requires SameIndex(args[0], brgs[0]) && (path[0].Index? <==> args[0].IndexArg?)
    requires path[0].Index? ==>
               && args[0].expr == ExprOf(s.exprs, path[0].operand) && args[0].constant == path[0].operand.Lit?
               && brgs[0].expr == if Lost(s, late, path[0].operand) then None else args[0].expr
    ensures ForgottenArgs(s, late, path, args, brgs)
  {
    hide ExprOf, Lost, SameIndex;
    forall k | 0 < k < |path|
      ensures path[k] == path[1..][k - 1] && args[k] == args[1..][k - 1] && brgs[k] == brgs[1..][k - 1]
    {
    }
  }

  /** A lost index of a path. */
  predicate LostAt(s: Sym, late: set<Reg>, path: seq<GepStep>, k: nat)
    requires k < |path|
  {
    path[k].Index? && Lost(s, late, path[k].operand)
  }

  /** The constant built for a lost index is its expression. */
  predicate LostConstant(s: Sym, path: seq<GepStep>, k: nat)
    requires k < |path|
  {
    match path[k]
    case Index(o, width, _) =>
      var bits := IndexBits(Get(s.c.regs, o), width);
      bits.Some? && ExprOf(s.exprs, o) == Some(ValueExpr(IndexValue(bits.value)))
    case Member(_, _) => false
  }

  /** A path is right without its lost operands exactly if none is lost, or if some operand
      is still symbolic and every lost one had the expression of its constant. */
  ghost predicate PathUnharmed(s: Sym, late: set<Reg>, base: Operand, path: seq<GepStep>)
    requires Get(s.c.regs, base).Some?
  {
    var lostBase := Lost(s, late, base);
    || (!lostBase && forall k :: 0 <= k < |path| ==> !LostAt(s, late, path, k))
    || (&& ((ExprOf(s.exprs, base).Some? && !lostBase)
            || exists k :: 0 <= k < |path| && path[k].Index? && ExprOf(s.exprs, path[k].operand).Some?
                           && !LostAt(s, late, path, k))
        && (lostBase ==> ExprOf(s.exprs, base) == Some(ValueExpr(Get(s.c.regs, base).value))
                         && exists k :: 0 <= k < |path| && !StepZero(path[k]))
        && forall k :: 0 <= k < |path| && LostAt(s, late, path, k) ==> LostConstant(s, path, k))
  }

  lemma ZeroSteps(s: Sym, path: seq<GepStep>, args: seq<GepArg>)
    requires ResolveSym(path, s.c.regs, s.exprs) == Some(args)
    ensures AllZero(args) <==> forall k :: 0 <= k < |path| ==> StepZero(path[k])
  {
    hide ConstantZero, StepZero;
    ResolveArgs(path, s);
    ZeroSame(path, args, s);
  }

  lemma ZeroKept(args: seq<GepArg>, brgs: seq<GepArg>)
    requires SameIndices(args, brgs)
    ensures AllZero(args) <==> AllZero(brgs)
  {
    hide ToNat;
    forall k | 0 <= k < |args|
      ensures ConstantZero(args[k]) <==> ConstantZero(brgs[k])
    {
      assert SameIndex(args[k], brgs[k]);
    }
  }

  /** Which operands of the chain change when expressions are forgotten. */
  lemma ArgForgotten(s: Sym, late: set<Reg>, path: seq<GepStep>, args: seq<GepArg>, brgs: seq<GepArg>, k: nat)
    requires ResolveSym(path, s.c.regs, s.exprs) == Some(args) && ForgottenArgs(s, late, path, args, brgs) && k < |path|
    ensures SameArg(args[k], brgs[k]) <==> (LostAt(s, late, path, k) ==> LostConstant(s, path, k))
    ensures args[k].IndexArg? && brgs[k].expr.Some?
            <==> path[k].Index? && ExprOf(s.exprs, path[k].operand).Some? && !LostAt(s, late, path, k)
  {
    hide ValueExpr, IndexBits, IndexValue, ToNat, Get;
    ResolveArgs(path, s);
    assert StepArg(path[k], args[k], s) && SameIndex(args[k], brgs[k]);
    if path[k].Index? {
      LostIsVariable(s, late, path[k].operand);
    }
  }

  lemma LostIsVariable(s: Sym, late: set<Reg>, o: Operand)
    ensures Lost(s, late, o) ==> !o.Lit? && ExprOf(s.exprs, o).Some?
    ensures o.Lit? ==> ExprOf(s.exprs, o).None?
  {
  }

  lemma StillSymbolic(s: Sym, late: set<Reg>, path: seq<GepStep>, args: seq<GepArg>, brgs: seq<GepArg>)
    requires ResolveSym(path, s.c.regs, s.exprs) == Some(args) && ForgottenArgs(s, late, path, args, brgs)
    ensures !AllConcrete(brgs) <==>
              exists k :: 0 <= k < |path| && path[k].Index? && ExprOf(s.exprs, path[k].operand).Some?
                          && !LostAt(s, late, path, k)
  {
    hide LostAt, ExprOf, SameArg, LostConstant;
    forall k | 0 <= k < |path|
      ensures brgs[k].IndexArg? == args[k].IndexArg?
      ensures args[k].IndexArg? && brgs[k].expr.Some?
              <==> path[k].Index? && ExprOf(s.exprs, path[k].operand).Some? && !LostAt(s, late, path, k)
    {
      ArgForgotten(s, late, path, args, brgs, k);
      assert SameIndex(args[k], brgs[k]);
    }
  }

  lemma NoneLost(s: Sym, late: set<Reg>, path: seq<GepStep>, args: seq<GepArg>, brgs: seq<GepArg>)
    requires ForgottenArgs(s, late, path, args, brgs) && forall k :: 0 <= k < |path| ==> !LostAt(s, late, path, k)
    ensures args == brgs
  {
    forall k | 0 <= k < |args|
      ensures args[k] == brgs[k]
    {
      assert SameIndex(args[k], brgs[k]) && !LostAt(s, late, path, k);
    }
  }

  lemma LostNotZero(s: Sym, late: set<Reg>, path: seq<GepStep>, k: nat)
    requires k < |path| && LostAt(s, late, path, k)
    ensures !StepZero(path[k]) && ExprOf(s.exprs, path[k].operand).Some?
  {
  }

  lemma SymbolicSomewhere(s: Sym, late: set<Reg>, path: seq<GepStep>, args: seq<GepArg>, brgs: seq<GepArg>, k: nat)
    requires ForgottenArgs(s, late, path, args, brgs) && k < |path| && LostAt(s, late, path, k)
    ensures !AllConcrete(args)
  {
    LostNotZero(s, late, path, k);
    assert args[k].IndexArg? && args[k].expr.Some?;
  }

  /** The address expression, when something is lost from a path that builds a chain. */
  lemma ChainForgotten(s: Sym, late: set<Reg>, base: Bits, be: SymExpr, lostBase: bool, path: seq<GepStep>,
                       args: seq<GepArg>, brgs: seq<GepArg>)
    requires ResolveSym(path, s.c.regs, s.exprs) == Some(args) && ForgottenArgs(s, late, path, args, brgs)
    requires (lostBase ==> be.Some?) && !AllZero(args)
    requires lostBase || exists k :: 0 <= k < |path| && LostAt(s, late, path, k)
    ensures GepExpr(base, if lostBase then None else be, brgs) == GepExpr(base, be, args)
            <==> && ((be.Some? && !lostBase) || !AllConcrete(brgs))
                 && (lostBase ==> be == Some(ValueExpr(Bv(base))))
                 && forall k :: 0 <= k < |path| && LostAt(s, late, path, k) ==> LostConstant(s, path, k)
  {
    hide ValueExpr, LostAt, LostConstant, Chain, AllZero, AllConcrete, SameArg, ExprOf, GepExpr, OperandExpr,
         ForgottenArgs, SameIndices;
    hide ResolveSym;
    ForgottenIndices(s, late, path, args, brgs);
    ZeroKept(args, brgs);
    assert be.Some? || !AllConcrete(args) by {
      if !lostBase {
        var k :| 0 <= k < |path| && LostAt(s, late, path, k);
        SymbolicSomewhere(s, late, path, args, brgs, k);
      }
    }
    var fe := if lostBase then None else be;
    GepBuilds(base, be, args);
    GepBuilds(base, fe, brgs);
    ChainInjective(OperandExpr(be, Bv(base)), OperandExpr(fe, Bv(base)), args, brgs);
    assert OperandExpr(be, Bv(base)) == OperandExpr(fe, Bv(base))
           <==> (lostBase ==> be == Some(ValueExpr(Bv(base)))) by { BaseOperand(base, be, lostBase); }
    ArgsForgotten(s, late, path, args, brgs);
  }

  lemma ArgsForgotten(s: Sym, late: set<Reg>, path: seq<GepStep>, args: seq<GepArg>, brgs: seq<GepArg>)
    requires ResolveSym(path, s.c.regs, s.exprs) == Some(args) && ForgottenArgs(s, late, path, args, brgs)
    ensures |args| == |brgs| == |path|
    ensures (forall k :: 0 <= k < |args| ==> SameArg(args[k], brgs[k]))
            <==> forall k :: 0 <= k < |path| && LostAt(s, late, path, k) ==> LostConstant(s, path, k)
  {
    hide LostAt, LostConstant, SameArg, ForgottenArgs, SameIndices, ResolveSym;
    ForgottenLength(s, late, path, args, brgs);
    forall k | 0 <= k < |path|
      ensures SameArg(args[k], brgs[k]) <==> (LostAt(s, late, path, k) ==> LostConstant(s, path, k))
    {
      ArgForgotten(s, late, path, args, brgs, k);
    }
  }

  lemma BaseOperand(base: Bits, be: SymExpr, lostBase: bool)
    requires lostBase ==> be.Some?
    ensures OperandExpr(be, Bv(base)) == OperandExpr(if lostBase then None else be, Bv(base))
            <==> (lostBase ==> be == Some(ValueExpr(Bv(base))))
  {
    hide ValueExpr;
  }

  lemma ForgottenLength(s: Sym, late: set<Reg>, path: seq<GepStep>, args: seq<GepArg>, brgs: seq<GepArg>)
    requires ForgottenArgs(s, late, path, args, brgs)
    ensures |args| == |brgs| == |path|
  {
  }

  lemma ForgottenIndices(s: Sym, late: set<Reg>, path: seq<GepStep>, args: seq<GepArg>, brgs: seq<GepArg>)
    requires ForgottenArgs(s, late, path, args, brgs)
    ensures SameIndices(args, brgs)
  {
  }

  lemma GepBuilds(base: Bits, be: SymExpr, args: seq<GepArg>)
    requires !AllZero(args)
    ensures GepExpr(base, be, args)
            == if be.None? && AllConcrete(args) then None else Some(Chain(OperandExpr(be, Bv(base)), args))
  {
  }

  lemma LateGep(p: Program, input: Input, s: Sym, late: set<Reg>, i: Instr)
    requires i.GepInstr? && !Exec(p, input, s.c, i).ctl.Fault?
    ensures Get(s.c.regs, i.base).Some?
    ensures SameStep(p, input, s, Forget(s, late), i) <==> PathUnharmed(s, late, i.base, i.path)
  {
    hide Lost, Forget, GepExpr, Address, Resolve, ResolveSym, AllZero, AllConcrete, StepZero, LostAt, LostConstant,
         ExprOf, ForgottenArgs;
    ResolveBoth(i.path, s.c.regs, s.exprs);
    ResolveForgotten(s, late, i.path);
    ForgottenExpr(s, late, i.base);
    ForgetKeeps(s, late);
    var args := ResolveSym(i.path, s.c.regs, s.exprs).value;
    var brgs := ResolveSym(i.path, s.c.regs, Forget(s, late).exprs).value;
    var bits, be, lostBase := Get(s.c.regs, i.base).value.bits, ExprOf(s.exprs, i.base), Lost(s, late, i.base);
    ZeroSteps(s, i.path, args);
    StillSymbolic(s, late, i.path, args, brgs);
    if !lostBase && forall k :: 0 <= k < |i.path| ==> !LostAt(s, late, i.path, k) {
      NoneLost(s, late, i.path, args, brgs);
    } else {
      if k :| 0 <= k < |i.path| && LostAt(s, late, i.path, k) {
        LostNotZero(s, late, i.path, k);
      }
      if AllZero(args) {
        ForgottenIndices(s, late, i.path, args, brgs);
        ZeroLost(bits, be, args, brgs);
      } else {
        ChainForgotten(s, late, bits, be, lostBase, i.path, args, brgs);
      }
    }
  }

  lemma ZeroLost(base: Bits, be: SymExpr, args: seq<GepArg>, brgs: seq<GepArg>)
    requires AllZero(args) && be.Some? && SameIndices(args, brgs)
    ensures GepExpr(base, None, brgs) != GepExpr(base, be, args)
  {
    hide Chain;
    ZeroKept(args, brgs);
  }

  // ----- terminators -----

  /** The code before a branch pushes the branch's constraint exactly if the condition is
      not lost: a lost condition leaves the decision out of the path. */
  lemma LateBranch(s: Sym, late: set<Reg>, t: Terminator)
    requires t.CondBr? && Target(t, s.c.regs).Some?
    ensures TermPushes(Forget(s, late), t) == TermPushes(s, t) <==> !Lost(s, late, t.cond)
  {
    ForgottenExpr(s, late, t.cond);
  }

  lemma LateSwitch(s: Sym, late: set<Reg>, t: Terminator)
    requires t.Switch? && Target(t, s.c.regs).Some?
    ensures TermPushes(Forget(s, late), t) == TermPushes(s, t) <==> !Lost(s, late, t.cond) || t.values == []
  {
    hide Batched, Lost, Forget;
    ForgottenExpr(s, late, t.cond);
    ForgetKeeps(s, late);
    if Lost(s, late, t.cond) {
      var cs := CaseConstraints(ExprOf(s.exprs, t.cond).value, Get(s.c.regs, t.cond).value, t.values);
      BatchedOnce(cs);
      assert |multiset(Batched(cs))| == |multiset(cs)|;
    }
  }

  /** What the code before a terminator with a late operand pushes. */
  lemma LateTerm(p: Program, input: Input, pass: Pass, w: World, s: Sym, late: set<Reg>, t: Terminator)
    requires SymBelow(pass.sym, pass.next)
    requires forall o: Operand :: TermUses(t, o) ==> KnownOrLate(pass.sym, w.m.env, s.exprs, late, o)
    requires t.CondBr? ==> Target(t, s.c.regs).Some?
    ensures var e := EmitTerm(pass, t);
            var w' := ExecOps(p, input, FinishAll(e.items), w, s.c);
            Effect(w, w', pass.next, e.pass.next, TermPushes(Forget(s, late), t), w.shadow)
  {
    hide EmitTerm, ExecOps, TermUses, Known, KnownOrLate, SymBelow, FinishAll, Effect, TermPushes, Target;
    forall o: Operand | TermUses(t, o)
      ensures Known(pass.sym, w.m.env, Forget(s, late).exprs, o)
    {
      LateKnown(pass.sym, w.m.env, s, late, o);
    }
    TermDoes(p, input, pass, w, Forget(s, late), t);
  }
}
