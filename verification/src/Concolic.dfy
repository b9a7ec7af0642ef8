/** The instrumented execution: beside every concrete value travels an expression or null,
    beside memory its shadow, and each decision that depends on the input pushes a path
    constraint. */
module Concolic {
  import opened Options
  import opened Expressions
  import opened FlatMemory
  import opened Constraints
  import opened SwitchBatch
  import opened Gep
  import opened Ir

  type Exprs = map<Reg, Expr>

  datatype Sym = Sym(c: State, exprs: Exprs, shadow: Shadow, path: seq<Constraint>)

  function RegExpr(exprs: Exprs, r: Reg): SymExpr { if r in exprs then Some(exprs[r]) else None }

  function ExprOf(exprs: Exprs, o: Operand): SymExpr
  {
    match o
    case Var(r) => RegExpr(exprs, r)
    case Lit(_) => None
  }

  function SetExpr(exprs: Exprs, r: Reg, e: SymExpr): Exprs
  {
    match e
    case Some(x) => exprs[r := x]
    case None => exprs - {r}
  }

  // ----- expressions of results -----

  /** A computation with two symbolic inputs, after short-circuiting: null if both are
      null, otherwise built from both, with constants for the concrete ones. */
  function Combine(ea: SymExpr, x: Value, eb: SymExpr, y: Value, build: (Expr, Expr) -> Expr): SymExpr
  {
    if ea.None? && eb.None? then None else Some(build(OperandExpr(ea, x), OperandExpr(eb, y)))
  }

  function CastExpr(kind: CastKind, e: SymExpr, x: Value, width: nat): SymExpr
  {
    if e.None? then None
    else
      match x
      case Boolean(_) =>
        var bit := BoolToBit(e.value);
        var extra := if width > 0 then width - 1 else 0;
        Some(if kind == SignExtension then SExt(bit, extra) else ZExt(bit, extra))
      case Bv(bits) =>
        var extra := if |bits| <= width then width - |bits| else 0;
        (match kind
         case SignExtension => Some(SExt(e.value, extra))
         case ZeroExtension => Some(ZExt(e.value, extra))
         case Truncation => Some(Extract(e.value, width - 1, 0)))
  }

  function ResolveSym(path: seq<GepStep>, regs: Regs, exprs: Exprs): Option<seq<GepArg>>
  {
    if |path| == 0 then Some([])
    else
      var rest := ResolveSym(path[1..], regs, exprs);
      if rest.None? then None
      else
        match path[0]
        case Member(index, offset) => Some([MemberArg(index, offset)] + rest.value)
        case Index(o, width, elementSize) =>
          match IndexBits(Get(regs, o), width)
          case Some(bits) => Some([IndexArg(bits, ExprOf(exprs, o), o.Lit?, elementSize)] + rest.value)
          case None => None
  }

  function CombineOperands(s: Sym, a: Operand, b: Operand, build: (Expr, Expr) -> Expr): SymExpr
  {
    match (Get(s.c.regs, a), Get(s.c.regs, b))
    case (Some(x), Some(y)) => Combine(ExprOf(s.exprs, a), x, ExprOf(s.exprs, b), y, build)
    case _ => None
  }

  function GepResult(s: Sym, base: Operand, path: seq<GepStep>): SymExpr
  {
    match (Get(s.c.regs, base), ResolveSym(path, s.c.regs, s.exprs))
    case (Some(Bv(bits)), Some(args)) => GepExpr(bits, ExprOf(s.exprs, base), args)
    case _ => None
  }

  function SelectExpr(s: Sym, cond: Operand, a: Operand, b: Operand): SymExpr
  {
    match Get(s.c.regs, cond)
    case Some(Boolean(taken)) => if taken then ExprOf(s.exprs, a) else ExprOf(s.exprs, b)
    case _ => None
  }

  function LoadExpr(s: Sym, a: Option<nat>, n: nat, le: bool): SymExpr
  {
    if a.Some? && n > 0 then ReadMemory(s.shadow, s.c.mem, a.value, n, le) else None
  }

  /** The expression of the instruction's result. */
  function ResultExpr(p: Program, s: Sym, i: Instr): SymExpr
  {
    match i
    case BinInstr(_, op, a, b) => CombineOperands(s, a, b, (x, y) => Binary(op, x, y))
    case BoolInstr(_, op, a, b) => CombineOperands(s, a, b, (x, y) => BoolBinary(op, x, y))
    case CmpInstr(_, pred, a, b) => CombineOperands(s, a, b, (x, y) => BuildCompare(pred, x, y))
    case CastInstr(_, kind, a, width) =>
      (match Get(s.c.regs, a) case Some(x) => CastExpr(kind, ExprOf(s.exprs, a), x, width) case None => None)
    case CopyInstr(_, a) => ExprOf(s.exprs, a)
    case SelectInstr(_, cond, a, b) => SelectExpr(s, cond, a, b)
    case LoadInstr(_, addr, n) => LoadExpr(s, AsSize(Get(s.c.regs, addr)), n, p.le)
    case GepInstr(_, base, path) => GepResult(s, base, path)
    case _ => None
  }

  /** The shadow after the instruction. */
  function ResultShadow(p: Program, input: Input, s: Sym, i: Instr): Shadow
  {
    match i
    case StoreInstr(addr, a, n) =>
      (match AsSize(Get(s.c.regs, addr))
       case Some(x) => WriteMemory(s.shadow, ExprOf(s.exprs, a), x, n, p.le)
       case None => s.shadow)
    case MoveInstr(to, from, len) =>
      (match (AsSize(Get(s.c.regs, to)), AsSize(Get(s.c.regs, from)), AsSize(Get(s.c.regs, len)))
       case (Some(x), Some(y), Some(n)) => MoveShadow(s.shadow, x, y, n)
       case _ => s.shadow)
    case FillInstr(to, a, len) =>
      (match (AsSize(Get(s.c.regs, to)), AsSize(Get(s.c.regs, len)))
       case (Some(x), Some(n)) => FillShadow(s.shadow, x, n, ExprOf(s.exprs, a))
       case _ => s.shadow)
    case ReadInstr(_, addr, len) =>
      (match (AsSize(Get(s.c.regs, addr)), AsSize(Get(s.c.regs, len)))
       case (Some(x), Some(n)) => MakeSymbolic(s.shadow, x, Available(input, s.c.pos, n), s.c.pos)
       case _ => s.shadow)
    case _ => s.shadow
  }

  // ----- constraints -----

  function PinOperand(s: Sym, o: Operand): seq<Constraint>
  {
    match AsSize(Get(s.c.regs, o))
    case Some(x) => Concretize(ExprOf(s.exprs, o), x)
    case None => []
  }

  /** The outcome of a condition. */
  function PushCondition(e: SymExpr, v: Option<Value>): seq<Constraint>
  {
    match (e, v)
    case (Some(x), Some(Boolean(b))) => [Constraint(x, b)]
    case _ => []
  }

  /** The constraints an instruction pushes; loads and stores pin their address twice, once
      in the inserted code and once in the backend. */
  function Pushes(s: Sym, i: Instr): seq<Constraint>
  {
    match i
    case SelectInstr(_, cond, _, _) => PushCondition(ExprOf(s.exprs, cond), Get(s.c.regs, cond))
    case LoadInstr(_, addr, _) => PinOperand(s, addr) + PinOperand(s, addr)
    case StoreInstr(addr, _, _) => PinOperand(s, addr) + PinOperand(s, addr)
    case MoveInstr(to, from, len) => PinOperand(s, to) + PinOperand(s, from) + PinOperand(s, len)
    case FillInstr(to, _, len) => PinOperand(s, to) + PinOperand(s, len)
    case ReadInstr(_, addr, len) => PinOperand(s, addr) + PinOperand(s, len)
    case _ => []
  }

  function TermPushes(s: Sym, t: Terminator): seq<Constraint>
  {
    match t
    case CondBr(cond, _, _) => PushCondition(ExprOf(s.exprs, cond), Get(s.c.regs, cond))
    case Switch(cond, values, _, _) => SwitchPushes(ExprOf(s.exprs, cond), Get(s.c.regs, cond), values)
    case _ => []
  }

  // ----- steps -----

  function Dst(i: Instr): Option<Reg>
  {
    match i
    case StoreInstr(_, _, _) => None
    case MoveInstr(_, _, _) => None
    case FillInstr(_, _, _) => None
    case _ => Some(i.dst)
  }

  function SymExec(p: Program, input: Input, s: Sym, i: Instr): Sym
  {
    var c := Exec(p, input, s.c, i);
    var path := s.path + Pushes(s, i);
    if c.ctl.Fault? then Sym(c, s.exprs, s.shadow, path)
    else
      Sym(c,
          if Dst(i).Some? then SetExpr(s.exprs, Dst(i).value, ResultExpr(p, s, i)) else s.exprs,
          ResultShadow(p, input, s, i),
          path)
  }

  lemma SymExecState(p: Program, input: Input, s: Sym, i: Instr)
    ensures SymExec(p, input, s, i).c == Exec(p, input, s.c, i)
    ensures SymExec(p, input, s, i).path == s.path + Pushes(s, i)
  {
    hide Exec, Pushes, ResultExpr, ResultShadow;
  }

  function PhiExprs(phis: seq<Phi>, from: Label, before: Exprs, exprs: Exprs): Exprs
  {
    if |phis| == 0 then exprs
    else
      var rest := PhiExprs(phis[..|phis| - 1], from, before, exprs);
      var phi := phis[|phis| - 1];
      if from in phi.incoming then SetExpr(rest, phi.dst, ExprOf(before, phi.incoming[from])) else rest
  }

  function SymTerminate(p: Program, s: Sym, from: Label, t: Terminator): Sym
  {
    var c := Terminate(p, s.c, from, t);
    var path := s.path + TermPushes(s, t);
    var exprs := if c.ctl.Running? && c.ctl.block in p.blocks
                 then PhiExprs(p.blocks[c.ctl.block].phis, from, s.exprs, s.exprs) else s.exprs;
    Sym(c, exprs, s.shadow, path)
  }

  function SymStep(p: Program, input: Input, s: Sym): Sym
  {
    match s.c.ctl
    case Running(b, pc) =>
      if b !in p.blocks then s.(c := s.c.(ctl := Fault))
      else if pc < |p.blocks[b].body| then
        var s' := SymExec(p, input, s, p.blocks[b].body[pc]);
        s'.(c := Advance(s'.c))
      else SymTerminate(p, s, b, p.blocks[b].term)
    case _ => s
  }

  function SymRun(p: Program, input: Input, c: State, k: nat): Sym
  {
    if k == 0 then Sym(c, map[], map[], []) else SymStep(p, input, SymRun(p, input, c, k - 1))
  }

  /** The concrete part of the instrumented execution is the concrete execution. */
  lemma {:induction false} ConcreteUnchanged(p: Program, input: Input, c: State, k: nat)
    ensures SymRun(p, input, c, k).c == Run(p, input, c, k)
  {
    hide Exec, Pushes, ResultExpr, ResultShadow, Terminate, TermPushes, PhiExprs;
    if k > 0 {
      ConcreteUnchanged(p, input, c, k - 1);
    }
  }
}
