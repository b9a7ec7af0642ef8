/** The symbolic input as a stream: what the wrapped `read` delivers over a whole run, and
    that nothing is symbolic before it has delivered anything. */
module InputStream {
  import opened Options
  import opened BitVectors
  import opened BitVectorLaws
  import opened Expressions
  import opened FlatMemory
  import opened Gep
  import opened Ir
  import opened Concolic

  // ----- one read -----

  /** The number that a read has returned in its result register. */
  function Count(c: State, dst: Reg): nat
  {
    match Get(c.regs, Var(dst))
    case Some(Bv(bits)) => ToNat(bits)
    case _ => 0
  }

  /** The buffer is in the address space. */
  predicate GoodBuffer(c: State, i: Instr)
  {
    && i.ReadInstr? && AsSize(Get(c.regs, i.addr)).Some? && AsSize(Get(c.regs, i.len)).Some?
    && InSpace(AsSize(Get(c.regs, i.addr)).value, AsSize(Get(c.regs, i.len)).value)
  }

  /** Where a read puts its bytes. */
  function BufferOf(c: State, i: Instr): nat
    requires GoodBuffer(c, i)
  {
    AsSize(Get(c.regs, i.addr)).value
  }

  lemma SizeFits(v: Option<Value>)
    requires AsSize(v).Some?
    ensures AsSize(v).value < Pow2(64)
  {
    hide ToNat, Pow2;
    ToNatBound(v.value.bits);
  }

  /** What a read returns: at most what was asked for, and less only at the end of the input;
      the position moves on by just that much. */
  lemma ReadReturns(p: Program, input: Input, c: State, i: Instr)
    requires c.ctl.Running? && GoodBuffer(c, i)
    ensures var c', n := Exec(p, input, c, i), AsSize(Get(c.regs, i.len)).value;
            var k := Count(c', i.dst);
            && c'.ctl == c.ctl && c'.pos == c.pos + k && k <= n
            && (k > 0 ==> c'.pos <= |input|) && (k < n ==> c'.pos >= |input|)
            && forall r: Reg :: r != i.dst ==> Get(c'.regs, Var(r)) == Get(c.regs, Var(r))
  {
    hide ToNat, Pow2, FromInt, InputMemory, AsSize;
    var n := AsSize(Get(c.regs, i.len)).value;
    SizeFits(Get(c.regs, i.len));
    FromIntNat(Available(input, c.pos, n), 64);
  }

  /** What a read delivers: byte `x` of the buffer gets the input's byte and the variable at
      that position, its result no expression, and nothing else changes. */
  lemma ReadDelivers(p: Program, input: Input, s: Sym, i: Instr, x: nat)
    requires s.c.ctl.Running? && GoodBuffer(s.c, i)
    ensures var s', a := SymExec(p, input, s, i), BufferOf(s.c, i);
            var k := Count(s'.c, i.dst);
            && (a <= x < a + k ==>
                  && s.c.pos + (x - a) < |input| && MemAt(s'.c.mem, x) == input[s.c.pos + (x - a)]
                  && Lookup(s'.shadow, x) == Some(InputByte(s.c.pos + (x - a))))
            && (!(a <= x < a + k) ==>
                  MemAt(s'.c.mem, x) == MemAt(s.c.mem, x) && Lookup(s'.shadow, x) == Lookup(s.shadow, x))
            && RegExpr(s'.exprs, i.dst) == None
            && forall r: Reg :: r != i.dst ==> RegExpr(s'.exprs, r) == RegExpr(s.exprs, r)
  {
    hide ToNat, Pow2, FromInt, AsSize, Pushes, InputMemory, MakeSymbolic, MemAt, Lookup;
    var n := AsSize(Get(s.c.regs, i.len)).value;
    SizeFits(Get(s.c.regs, i.len));
    var k := Available(input, s.c.pos, n);
    FromIntNat(k, 64);
    EntryAfter(s, input, BufferOf(s.c, i), k, s.c.pos, x);
  }

  lemma EntryAfter(s: Sym, input: Input, a: nat, k: nat, pos: nat, x: nat)
    ensures MemAt(InputMemory(s.c.mem, a, k, input, pos), x)
            == if a <= x < a + k then ByteAt(input, pos + (x - a)) else MemAt(s.c.mem, x)
    ensures Lookup(MakeSymbolic(s.shadow, a, k, pos), x)
            == if a <= x < a + k then Some(InputByte(pos + (x - a))) else Lookup(s.shadow, x)
  {
  }

  // ----- a run -----

  /** The read that the state is about to execute. */
  function Reading(p: Program, c: State): (r: Option<Instr>)
    ensures r.Some? ==> GoodBuffer(c, r.value)
  {
    match c.ctl
    case Running(b, pc) =>
      if b in p.blocks && pc < |p.blocks[b].body| && GoodBuffer(c, p.blocks[b].body[pc])
      then Some(p.blocks[b].body[pc]) else None
    case _ => None
  }

  function BytesAt(m: Memory, a: nat, k: nat): seq<Byte> { seq<Byte>(k, i requires 0 <= i < k => MemAt(m, a + i)) }

  function EntriesAt(s: Shadow, a: nat, k: nat): seq<SymExpr> { seq(k, i requires 0 <= i < k => Lookup(s, a + i)) }

  /** The bytes that the program finds in its buffers after its reads, in the order of the reads. */
  function Delivered(p: Program, input: Input, c: State, k: nat): seq<Byte>
  {
    if k == 0 then []
    else
      var before, after := Run(p, input, c, k - 1), Run(p, input, c, k);
      Delivered(p, input, c, k - 1)
      + match Reading(p, before)
        case Some(i) => BytesAt(after.mem, BufferOf(before, i), Count(after, i.dst))
        case None => []
  }

  /** The expressions that shadow memory has for these bytes. */
  function DeliveredExprs(p: Program, input: Input, c: State, k: nat): seq<SymExpr>
  {
    if k == 0 then []
    else
      var before, after := SymRun(p, input, c, k - 1), SymRun(p, input, c, k);
      DeliveredExprs(p, input, c, k - 1)
      + match Reading(p, before.c)
        case Some(i) => EntriesAt(after.shadow, BufferOf(before.c, i), Count(after.c, i.dst))
        case None => []
  }

  /** The sum of the numbers that the reads have returned. */
  function Returned(p: Program, input: Input, c: State, k: nat): nat
  {
    if k == 0 then 0
    else
      Returned(p, input, c, k - 1)
      + match Reading(p, Run(p, input, c, k - 1))
        case Some(i) => Count(Run(p, input, c, k), i.dst)
        case None => 0
  }

  /** The variables of consecutive bytes. */
  function Variables(start: nat, k: nat): seq<SymExpr> { seq(k, i requires 0 <= i < k => Some(InputByte(start + i))) }

  /** Nothing but a read moves the position. */
  lemma OnlyReadsMove(p: Program, input: Input, c: State)
    requires Reading(p, c).None?
    ensures Step(p, input, c).pos == c.pos
  {
    hide BinValue, BoolValue, CmpValue, CastValue, SelectValue, GepValue, LoadBits, StoreBits, MoveMemory, FillMemory,
         InputMemory, AsSize, FromInt, Available, PhiRegs, Target;
  }

  lemma BytesAre(m: Memory, a: nat, k: nat, input: Input, pos: nat)
    requires pos + k <= |input| && forall x: nat :: a <= x < a + k ==> MemAt(m, x) == input[pos + (x - a)]
    ensures BytesAt(m, a, k) == input[pos..pos + k]
  {
    hide MemAt;
  }

  lemma EntriesAre(s: Shadow, a: nat, k: nat, pos: nat)
    requires forall x: nat :: a <= x < a + k ==> Lookup(s, x) == Some(InputByte(pos + (x - a)))
    ensures EntriesAt(s, a, k) == Variables(pos, k)
  {
    hide Lookup;
  }

  lemma ReadExec(p: Program, input: Input, s: Sym, i: Instr)
    requires i.ReadInstr? && s.c.ctl.Running? && GoodBuffer(s.c, i) && s.c.pos <= |input|
    ensures var s', a := SymExec(p, input, s, i), BufferOf(s.c, i);
            var k := Count(s'.c, i.dst);
            && s'.c.pos == s.c.pos + k <= |input|
            && BytesAt(s'.c.mem, a, k) == input[s.c.pos..s'.c.pos]
            && EntriesAt(s'.shadow, a, k) == Variables(s.c.pos, k)
  {
    hide *;
    ReadReturns(p, input, s.c, i);
    SymExecState(p, input, s, i);
    var s', a := SymExec(p, input, s, i), BufferOf(s.c, i);
    var k := Count(s'.c, i.dst);
    forall x: nat | a <= x < a + k
      ensures s.c.pos + (x - a) < |input| && MemAt(s'.c.mem, x) == input[s.c.pos + (x - a)]
      ensures Lookup(s'.shadow, x) == Some(InputByte(s.c.pos + (x - a)))
    {
      ReadDelivers(p, input, s, i, x);
    }
    BytesAre(s'.c.mem, a, k, input, s.c.pos);
    EntriesAre(s'.shadow, a, k, s.c.pos);
  }

  /** A step that reads: what it delivers is the next part of the input, with its variables. */
  lemma ReadStep(p: Program, input: Input, s: Sym)
    requires Reading(p, s.c).Some? && s.c.pos <= |input|
    ensures var s', i := SymStep(p, input, s), Reading(p, s.c).value;
            var k := Count(s'.c, i.dst);
            && s'.c == Step(p, input, s.c) && s'.c.pos == s.c.pos + k <= |input|
            && BytesAt(s'.c.mem, BufferOf(s.c, i), k) == input[s.c.pos..s'.c.pos]
            && EntriesAt(s'.shadow, BufferOf(s.c, i), k) == Variables(s.c.pos, k)
  {
    var i := Reading(p, s.c).value;
    hide Exec, Pushes, ResultExpr, ResultShadow, SetExpr, GoodBuffer, BufferOf, Count, BytesAt, EntriesAt, Variables;
    SymExecState(p, input, s, i);
    hide SymExec;
    ReadExec(p, input, s, i);
    AdvanceKeeps(Exec(p, input, s.c, i), i.dst);
  }

  lemma AdvanceKeeps(c: State, dst: Reg)
    ensures var c' := Advance(c);
            Count(c', dst) == Count(c, dst) && c'.pos == c.pos && c'.mem == c.mem && c'.regs == c.regs
  {
  }

  /** Over a whole run the reads deliver the input from the initial position on, byte by byte,
      in order, each once: the bytes found in the buffers are the part of the input up to the
      current position, their shadow entries the variables of those very bytes, and the
      numbers returned add up to its length. */
  lemma {:induction false} StreamInOrder(p: Program, input: Input, c: State, k: nat)
    requires c.pos <= |input|
    ensures var pos := Run(p, input, c, k).pos;
            && c.pos <= pos <= |input|
            && Delivered(p, input, c, k) == input[c.pos..pos]
            && DeliveredExprs(p, input, c, k) == Variables(c.pos, pos - c.pos)
            && Returned(p, input, c, k) == pos - c.pos
  {
    hide Step, SymStep, Reading, Count, BytesAt, EntriesAt, BufferOf;
    if k > 0 {
      StreamInOrder(p, input, c, k - 1);
      ConcreteUnchanged(p, input, c, k - 1);
      ConcreteUnchanged(p, input, c, k);
      var s := SymRun(p, input, c, k - 1);
      if Reading(p, s.c).Some? {
        ReadStep(p, input, s);
      } else {
        OnlyReadsMove(p, input, s.c);
      }
    }
  }

  // ----- before the first byte -----

  /** No register, no byte of memory and no constraint depends on the input. */
  predicate NothingSymbolic(s: Sym) { s.exprs == map[] && s.shadow == map[] && s.path == [] }

  lemma NoOperand(o: Operand)
    ensures ExprOf(map[], o).None?
  {
  }

  lemma {:induction false} NoIndices(path: seq<GepStep>, regs: Regs)
    ensures ResolveSym(path, regs, map[]).Some? ==> AllConcrete(ResolveSym(path, regs, map[]).value)
  {
    if |path| > 0 {
      NoIndices(path[1..], regs);
    }
  }

  lemma NoResult(p: Program, s: Sym, i: Instr)
    requires s.exprs == map[] && s.shadow == map[]
    ensures ResultExpr(p, s, i).None? && Pushes(s, i) == []
  {
    hide ExprOf, ResolveSym, GatherBytes, AsSize, BuildCompare, ValueExpr, Chain;
    match i
    case BinInstr(_, _, a, b) => NoOperand(a); NoOperand(b);
    case BoolInstr(_, _, a, b) => NoOperand(a); NoOperand(b);
    case CmpInstr(_, _, a, b) => NoOperand(a); NoOperand(b);
    case CastInstr(_, _, a, _) => NoOperand(a);
    case CopyInstr(_, a) => NoOperand(a);
    case SelectInstr(_, cond, a, b) => NoOperand(cond); NoOperand(a); NoOperand(b);
    case LoadInstr(_, addr, _) => NoOperand(addr);
    case GepInstr(_, base, path) => NoOperand(base); NoIndices(path, s.c.regs);
    case StoreInstr(addr, a, _) => NoOperand(addr);
    case MoveInstr(to, from, len) => NoOperand(to); NoOperand(from); NoOperand(len);
    case FillInstr(to, a, len) => NoOperand(to); NoOperand(len);
    case ReadInstr(_, addr, len) => NoOperand(addr); NoOperand(len);
  }

  lemma NoShadow(p: Program, input: Input, s: Sym, i: Instr)
    requires s.exprs == map[] && s.shadow == map[]
    requires GoodBuffer(s.c, i) ==> Available(input, s.c.pos, AsSize(Get(s.c.regs, i.len)).value) == 0
    requires !Exec(p, input, s.c, i).ctl.Fault?
    ensures ResultShadow(p, input, s, i) == map[]
  {
    hide AsSize, ExprOf, InputMemory, MoveMemory, FillMemory, StoreBits, Available;
    match i
    case StoreInstr(_, a, _) => NoOperand(a);
    case FillInstr(_, a, _) => NoOperand(a);
    case _ =>
  }

  lemma {:induction false} NoPhis(phis: seq<Phi>, from: Label)
    ensures PhiExprs(phis, from, map[], map[]) == map[]
  {
    if |phis| > 0 {
      NoPhis(phis[..|phis| - 1], from);
      if from in phis[|phis| - 1].incoming {
        NoOperand(phis[|phis| - 1].incoming[from]);
      }
    }
  }

  /** A step that delivers no input keeps everything concrete. */
  lemma ConcreteStep(p: Program, input: Input, s: Sym)
    requires NothingSymbolic(s) && Step(p, input, s.c).pos == s.c.pos
    ensures NothingSymbolic(SymStep(p, input, s))
  {
    hide Exec, Pushes, ResultExpr, ResultShadow, TermPushes, PhiExprs, Terminate;
    match s.c.ctl
    case Running(b, pc) =>
      if b in p.blocks {
        if pc < |p.blocks[b].body| {
          var i := p.blocks[b].body[pc];
          NoResult(p, s, i);
          if !Exec(p, input, s.c, i).ctl.Fault? {
            NothingRead(p, input, s.c, i);
            NoShadow(p, input, s, i);
          }
        } else {
          var t := p.blocks[b].term;
          NoTermPushes(s, t);
          var to := Terminate(p, s.c, b, t).ctl;
          if to.Running? && to.block in p.blocks {
            NoPhis(p.blocks[to.block].phis, b);
          }
        }
      }
    case _ =>
  }

  lemma NothingRead(p: Program, input: Input, c: State, i: Instr)
    requires Advance(Exec(p, input, c, i)).pos == c.pos
    ensures GoodBuffer(c, i) ==> Available(input, c.pos, AsSize(Get(c.regs, i.len)).value) == 0
  {
    hide AsSize, InputMemory, FromInt;
  }

  lemma NoTermPushes(s: Sym, t: Terminator)
    requires s.exprs == map[]
    ensures TermPushes(s, t) == []
  {
    match t
    case CondBr(cond, _, _) => NoOperand(cond);
    case Switch(cond, _, _, _) => NoOperand(cond);
    case _ =>
  }

  /** As long as no input byte has been delivered, nothing in the program is symbolic: no
      register has an expression, shadow memory is empty and no constraint was pushed. */
  lemma {:induction false} ConcreteUntilRead(p: Program, input: Input, c: State, k: nat)
    requires c.pos <= |input| && Delivered(p, input, c, k) == []
    ensures NothingSymbolic(SymRun(p, input, c, k))
  {
    hide Step, SymStep;
    if k > 0 {
      StreamInOrder(p, input, c, k - 1);
      StreamInOrder(p, input, c, k);
      ConcreteUnchanged(p, input, c, k - 1);
      assert Delivered(p, input, c, k - 1) == [];
      ConcreteUntilRead(p, input, c, k - 1);
      ConcreteStep(p, input, SymRun(p, input, c, k - 1));
    }
  }
}
