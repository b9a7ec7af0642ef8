/** A small SSA intermediate representation with the integer instructions that the compiler
    pass instruments, and its concrete execution on an input. */
module Ir {
  import opened Options
  import opened BitVectors
  import opened Expressions
  import opened FlatMemory
  import opened Gep

  type Reg = nat
  type Label = nat

  datatype Operand = Var(reg: Reg) | Lit(value: Value)

  datatype CastKind = SignExtension | ZeroExtension | Truncation

  datatype GepStep = Member(index: nat, offset: nat) | Index(operand: Operand, width: nat, elementSize: nat)

  datatype Instr =
    | BinInstr(dst: Reg, op: BinOp, a: Operand, b: Operand)
    | BoolInstr(dst: Reg, bop: BoolOp, a: Operand, b: Operand)
    | CmpInstr(dst: Reg, pred: Predicate, a: Operand, b: Operand)
    | CastInstr(dst: Reg, kind: CastKind, a: Operand, width: nat)
    | CopyInstr(dst: Reg, a: Operand)                   // pointer casts of unchanged width
    | SelectInstr(dst: Reg, cond: Operand, a: Operand, b: Operand)
    | LoadInstr(dst: Reg, addr: Operand, bytes: nat)
    | StoreInstr(addr: Operand, a: Operand, bytes: nat)
    | GepInstr(dst: Reg, base: Operand, path: seq<GepStep>)
    | MoveInstr(to: Operand, from: Operand, len: Operand) // memmove, and memcpy without overlap
    | FillInstr(to: Operand, a: Operand, len: Operand)    // memset
    | ReadInstr(dst: Reg, addr: Operand, len: Operand)    // the wrapped read() on the symbolic input

  /** The incoming operand for each predecessor. */
  datatype Phi = Phi(dst: Reg, incoming: map<Label, Operand>)

  datatype Terminator =
    | Jump(target: Label)
    | CondBr(cond: Operand, ifTrue: Label, ifFalse: Label)
    | Switch(cond: Operand, values: seq<Value>, targets: seq<Label>, default: Label)
    | Ret(result: Operand)

  datatype Block = Block(phis: seq<Phi>, body: seq<Instr>, term: Terminator)

  datatype Program = Program(blocks: map<Label, Block>, le: bool)

  datatype Control = Running(block: Label, pc: nat) | Returned(result: Operand) | Fault

  type Regs = map<Reg, Value>

  datatype State = State(ctl: Control, regs: Regs, mem: Memory, pos: nat)

  // ----- values -----

  function Get(regs: Regs, o: Operand): Option<Value>
  {
    match o
    case Var(r) => if r in regs then Some(regs[r]) else None
    case Lit(v) => Some(v)
  }

  function BinValue(op: BinOp, x: Value, y: Value): Option<Value>
  {
    match (x, y)
    case (Bv(a), Bv(b)) => if |a| == |b| then Some(Bv(Apply(op, a, b))) else None
    case _ => None
  }

  function BoolValue(op: BoolOp, x: Value, y: Value): Option<Value>
  {
    match (x, y)
    case (Boolean(a), Boolean(b)) => Some(Boolean(ApplyBool(op, a, b)))
    case _ => None
  }

  /** i1 operands can be compared for equality only. */
  function CmpValue(p: Predicate, x: Value, y: Value): Option<Value>
  {
    match (x, y)
    case (Bv(a), Bv(b)) => if |a| == |b| then Some(Boolean(Holds(p, a, b))) else None
    case (Boolean(a), Boolean(b)) =>
      if p == Eq then Some(Boolean(a == b)) else if p == Ne then Some(Boolean(a != b)) else None
    case _ => None
  }

  function CastValue(kind: CastKind, x: Value, width: nat): Option<Value>
  {
    match x
    case Boolean(b) =>
      if width < 2 || kind == Truncation then None
      else if kind == SignExtension then Some(Bv(Replicate(b, width)))
      else Some(Bv([b] + Replicate(false, width - 1)))
    case Bv(bits) =>
      if kind == Truncation then
        if !(0 < width < |bits|) then None
        else if width == 1 then Some(Boolean(bits[0]))
        else Some(Bv(bits[..width]))
      else if width < |bits| then None
      else if kind == SignExtension then Some(Bv(SignExtend(bits, width - |bits|)))
      else Some(Bv(ZeroExtend(bits, width - |bits|)))
  }

  /** A 64-bit operand as a number. */
  function AsSize(v: Option<Value>): Option<nat>
  {
    if v.Some? && v.value.Bv? && |v.value.bits| == 64 then Some(ToNat(v.value.bits)) else None
  }

  /** The bits of an index of the given type; i1 is the Boolean type. */
  function IndexBits(v: Option<Value>, width: nat): (r: Option<Bits>)
    ensures r.Some? ==> |r.value| == width && v == Some(IndexValue(r.value))
  {
    match v
    case Some(Bv(bits)) => if |bits| == width != 1 then Some(bits) else None
    case Some(Boolean(b)) => if width == 1 then Some([b]) else None
    case None => None
  }

  /** The index path of a getelementptr with run-time values. */
  function Resolve(path: seq<GepStep>, regs: Regs): Option<seq<GepArg>>
  {
    if |path| == 0 then Some([])
    else
      var rest := Resolve(path[1..], regs);
      if rest.None? then None
      else
        match path[0]
        case Member(index, offset) => Some([MemberArg(index, offset)] + rest.value)
        case Index(o, width, elementSize) =>
          match IndexBits(Get(regs, o), width)
          case Some(bits) => Some([IndexArg(bits, None, o.Lit?, elementSize)] + rest.value)
          case None => None
  }

  // ----- instructions -----

  function Define(c: State, dst: Reg, v: Option<Value>): State
  {
    match v
    case Some(x) => c.(regs := c.regs[dst := x])
    case None => c.(ctl := Fault)
  }

  function Bind(x: Option<Value>, y: Option<Value>, f: (Value, Value) -> Option<Value>): Option<Value>
  {
    if x.Some? && y.Some? then f(x.value, y.value) else None
  }

  function SelectValue(cond: Option<Value>, x: Option<Value>, y: Option<Value>): Option<Value>
  {
    if cond.Some? && cond.value.Boolean? && x.Some? && y.Some? && SortOfValue(x.value) == SortOfValue(y.value)
    then if cond.value.b then x else y
    else None
  }

  predicate InSpace(a: nat, n: nat) { a + n < ADDRESS_SPACE }

  function LoadValue(c: State, a: Option<nat>, n: nat, le: bool): Option<Value>
  {
    if a.Some? && n > 0 && InSpace(a.value, n) then Some(Bv(LoadBits(c.mem, a.value, n, le))) else None
  }

  function Store(c: State, a: Option<nat>, v: Option<Value>, n: nat, le: bool): State
  {
    if a.Some? && v.Some? && v.value.Bv? && |v.value.bits| == 8 * n && n > 0 && InSpace(a.value, n)
    then c.(mem := StoreBits(c.mem, v.value.bits, a.value, n, le))
    else c.(ctl := Fault)
  }

  function GepValue(regs: Regs, base: Option<Value>, path: seq<GepStep>): Option<Value>
  {
    var args := Resolve(path, regs);
    if args.Some? && base.Some? && base.value.Bv? && |base.value.bits| == 64
    then Some(Bv(Address(base.value.bits, args.value)))
    else None
  }

  function Move(c: State, to: Option<nat>, from: Option<nat>, n: Option<nat>): State
  {
    if to.Some? && from.Some? && n.Some? && InSpace(to.value, n.value) && InSpace(from.value, n.value)
    then c.(mem := MoveMemory(c.mem, to.value, from.value, n.value))
    else c.(ctl := Fault)
  }

  function Fill(c: State, to: Option<nat>, v: Option<Value>, n: Option<nat>): State
  {
    if to.Some? && n.Some? && InSpace(to.value, n.value) && v.Some? && v.value.Bv? && |v.value.bits| == 8
    then c.(mem := FillMemory(c.mem, to.value, n.value, v.value.bits))
    else c.(ctl := Fault)
  }

  /** How many of the requested bytes the input still has. */
  function Available(input: Input, pos: nat, n: nat): nat
  {
    if pos >= |input| then 0 else if n < |input| - pos then n else |input| - pos
  }

  function ReadInput(c: State, input: Input, dst: Reg, a: Option<nat>, n: Option<nat>): State
  {
    if a.Some? && n.Some? && InSpace(a.value, n.value) then
      var k := Available(input, c.pos, n.value);
      c.(mem := InputMemory(c.mem, a.value, k, input, c.pos),
         pos := c.pos + k,
         regs := c.regs[dst := Bv(FromInt(k, 64))])
    else c.(ctl := Fault)
  }

  function Exec(p: Program, input: Input, c: State, i: Instr): State
  {
    match i
    case BinInstr(dst, op, a, b) => Define(c, dst, Bind(Get(c.regs, a), Get(c.regs, b), (x, y) => BinValue(op, x, y)))
    case BoolInstr(dst, op, a, b) => Define(c, dst, Bind(Get(c.regs, a), Get(c.regs, b), (x, y) => BoolValue(op, x, y)))
    case CmpInstr(dst, pred, a, b) =>
      Define(c, dst, Bind(Get(c.regs, a), Get(c.regs, b), (x, y) => CmpValue(pred, x, y)))
    case CastInstr(dst, kind, a, width) =>
      Define(c, dst, if Get(c.regs, a).Some? then CastValue(kind, Get(c.regs, a).value, width) else None)
    case CopyInstr(dst, a) => Define(c, dst, Get(c.regs, a))
    case SelectInstr(dst, cond, a, b) =>
      Define(c, dst, SelectValue(Get(c.regs, cond), Get(c.regs, a), Get(c.regs, b)))
    case LoadInstr(dst, addr, n) => Define(c, dst, LoadValue(c, AsSize(Get(c.regs, addr)), n, p.le))
    case StoreInstr(addr, a, n) => Store(c, AsSize(Get(c.regs, addr)), Get(c.regs, a), n, p.le)
    case GepInstr(dst, base, path) => Define(c, dst, GepValue(c.regs, Get(c.regs, base), path))
    case MoveInstr(to, from, len) =>
      Move(c, AsSize(Get(c.regs, to)), AsSize(Get(c.regs, from)), AsSize(Get(c.regs, len)))
    case FillInstr(to, a, len) => Fill(c, AsSize(Get(c.regs, to)), Get(c.regs, a), AsSize(Get(c.regs, len)))
    case ReadInstr(dst, addr, len) =>
      ReadInput(c, input, dst, AsSize(Get(c.regs, addr)), AsSize(Get(c.regs, len)))
  }

  // ----- control flow -----

  /** All PHI nodes of a block read the registers as they were before the jump. */
  function PhiRegs(phis: seq<Phi>, from: Label, before: Regs, regs: Regs): Option<Regs>
  {
    if |phis| == 0 then Some(regs)
    else
      var rest := PhiRegs(phis[..|phis| - 1], from, before, regs);
      var phi := phis[|phis| - 1];
      if rest.Some? && from in phi.incoming && Get(before, phi.incoming[from]).Some?
      then Some(rest.value[phi.dst := Get(before, phi.incoming[from]).value])
      else None
  }

  function Enter(p: Program, c: State, from: Label, to: Label): State
  {
    if to !in p.blocks then c.(ctl := Fault)
    else
      match PhiRegs(p.blocks[to].phis, from, c.regs, c.regs)
      case Some(regs) => c.(ctl := Running(to, 0), regs := regs)
      case None => c.(ctl := Fault)
  }

  function CaseTarget(values: seq<Value>, targets: seq<Label>, default: Label, v: Value): Label
    requires |values| == |targets|
  {
    if |values| == 0 then default
    else if values[0] == v then targets[0]
    else CaseTarget(values[1..], targets[1..], default, v)
  }

  /** Where a terminator goes; `None` where its operand is not of the right type. */
  function Target(t: Terminator, regs: Regs): Option<Label>
    requires !t.Ret?
  {
    match t
    case Jump(l) => Some(l)
    case CondBr(cond, l, m) =>
      (match Get(regs, cond) case Some(Boolean(b)) => Some(if b then l else m) case _ => None)
    case Switch(cond, values, targets, default) =>
      if Get(regs, cond).Some? && |values| == |targets|
         && forall i :: 0 <= i < |values| ==> SortOfValue(values[i]) == SortOfValue(Get(regs, cond).value)
      then Some(CaseTarget(values, targets, default, Get(regs, cond).value))
      else None
  }

  function Terminate(p: Program, c: State, from: Label, t: Terminator): State
  {
    if t.Ret? then c.(ctl := if Get(c.regs, t.result).Some? then Returned(t.result) else Fault)
    else
      match Target(t, c.regs)
      case Some(to) => Enter(p, c, from, to)
      case None => c.(ctl := Fault)
  }

  function Advance(c: State): State
  {
    match c.ctl
    case Running(b, pc) => c.(ctl := Running(b, pc + 1))
    case _ => c
  }

  /** One step: the next instruction of the block, or its terminator. */
  function Step(p: Program, input: Input, c: State): State
  {
    match c.ctl
    case Running(b, pc) =>
      if b !in p.blocks then c.(ctl := Fault)
      else if pc < |p.blocks[b].body| then Advance(Exec(p, input, c, p.blocks[b].body[pc]))
      else Terminate(p, c, b, p.blocks[b].term)
    case _ => c
  }

  function Run(p: Program, input: Input, c: State, k: nat): State
  {
    if k == 0 then c else Step(p, input, Run(p, input, c, k - 1))
  }
}
