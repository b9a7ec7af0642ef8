/** What the concrete machine computes, said without its own definitions: casts as numbers,
    loads as bytes with their weights, the simultaneous reading of PHI nodes, and the
    instructions of a block one after the other. */
module MachineLaws {
  import opened Options
  import opened BitVectors
  import opened BitVectorLaws
  import opened Expressions
  import opened FlatMemory
  import opened Gep
  import opened Ir
  import opened Concolic
  import opened PathSoundness
  import opened SwitchBatch
  import opened Divergence

  // ----- truth values and casts -----

  /** The bitwise operator of a Boolean one. */
  function OnBits(op: BoolOp): BinOp { match op case BAnd => And case BOr => Or case BXor => Xor }

  /** The Boolean operators are the bitwise ones on single bits. */
  lemma BooleanOperators(op: BoolOp, a: bool, b: bool)
    ensures Apply(OnBits(op), [a], [b]) == [ApplyBool(op, a, b)]
  {
    BitwiseBits([a], [b], 0);
  }

  /** The readings of a value as a number; an i1 is one bit wide. */
  function Unsigned(v: Value): nat { match v case Boolean(b) => Bit(b) case Bv(bits) => ToNat(bits) }

  function Signed(v: Value): int { match v case Boolean(b) => 0 - Bit(b) case Bv(bits) => ToInt(bits) }

  function SortOfWidth(width: nat): Sort { if width == 1 then BoolSort else BvSort(width) }

  /** Zero extension keeps the unsigned number, sign extension the signed one, and
      truncation the unsigned one modulo a power of two. */
  lemma CastMeans(kind: CastKind, x: Value, width: nat)
    requires OkValue(x) && CastValue(kind, x, width).Some?
    ensures var r := CastValue(kind, x, width).value;
            && SortOfValue(r) == SortOfWidth(width)
            && match kind
               case ZeroExtension => Unsigned(r) == Unsigned(x)
               case SignExtension => Signed(r) == Signed(x)
               case Truncation => Unsigned(r) == Unsigned(x) % Pow2(width)
  {
    hide ToNat, ToInt, Pow2, Replicate, ZeroExtend, SignExtend;
    match x
    case Boolean(b) =>
      OneBit(b);
      AllSign(b, width);
      ZeroExtendValue([b], width - 1);
      assert ZeroExtend([b], width - 1) == [b] + Replicate(false, width - 1) by { OneBitExtended(b, width - 1); }
    case Bv(bits) =>
      match kind {
        case ZeroExtension => ZeroExtendValue(bits, width - |bits|);
        case SignExtension => SignExtendKeeps(bits, width - |bits|);
        case Truncation =>
          TruncateValue(bits, width);
          if width == 1 {
            assert bits[..1] == [bits[0]];
            OneBit(bits[0]);
          }
      }
  }

  lemma OneBitExtended(b: bool, n: nat)
    ensures ZeroExtend([b], n) == [b] + Replicate(false, n)
  {
  }

  // ----- computations -----

  /** An arithmetic instruction applies its operator to its operands in their order; so does
      its expression, on every input, to what the operands' expressions evaluate to. */
  lemma BinaryInstruction(p: Program, i: Input, s: Sym, j: Input, dst: Reg, op: BinOp, a: Operand, b: Operand,
                          x: Bits, y: Bits, x': Bits, y': Bits)
    requires s.c.ctl.Running? && Get(s.c.regs, a) == Some(Bv(x)) && Get(s.c.regs, b) == Some(Bv(y)) && |x| == |y|
    requires |x'| == |y'| && Denotes(OperandExpr(ExprOf(s.exprs, a), Bv(x)), j, Bv(x'))
    requires Denotes(OperandExpr(ExprOf(s.exprs, b), Bv(y)), j, Bv(y'))
    ensures Get(Exec(p, i, s.c, BinInstr(dst, op, a, b)).regs, Var(dst)) == Some(Bv(Apply(op, x, y)))
    ensures var e := ResultExpr(p, s, BinInstr(dst, op, a, b));
            (e.None? <==> ExprOf(s.exprs, a).None? && ExprOf(s.exprs, b).None?)
            && (e.Some? ==> Denotes(e.value, j, Bv(Apply(op, x', y'))))
  {
    hide SortOf, Eval, Apply, OperandExpr;
    BinaryDenotes(op, OperandExpr(ExprOf(s.exprs, a), Bv(x)), OperandExpr(ExprOf(s.exprs, b), Bv(y)), j, x', y');
  }

  /** So does a comparison. */
  lemma CompareInstruction(p: Program, i: Input, s: Sym, j: Input, dst: Reg, q: Predicate, a: Operand, b: Operand,
                           x: Bits, y: Bits, x': Bits, y': Bits)
    requires s.c.ctl.Running? && Get(s.c.regs, a) == Some(Bv(x)) && Get(s.c.regs, b) == Some(Bv(y)) && |x| == |y|
    requires |x'| == |y'| && Denotes(OperandExpr(ExprOf(s.exprs, a), Bv(x)), j, Bv(x'))
    requires Denotes(OperandExpr(ExprOf(s.exprs, b), Bv(y)), j, Bv(y'))
    ensures Get(Exec(p, i, s.c, CmpInstr(dst, q, a, b)).regs, Var(dst)) == Some(Boolean(Holds(q, x, y)))
    ensures var e := ResultExpr(p, s, CmpInstr(dst, q, a, b));
            (e.None? <==> ExprOf(s.exprs, a).None? && ExprOf(s.exprs, b).None?)
            && (e.Some? ==> Denotes(e.value, j, Boolean(Holds(q, x', y'))))
  {
    hide SortOf, Eval, Holds, OperandExpr, BuildCompare;
    var ea, eb := OperandExpr(ExprOf(s.exprs, a), Bv(x)), OperandExpr(ExprOf(s.exprs, b), Bv(y));
    CompareDenotes(q, ea, eb, j, Bv(x'), Bv(y'));
  }

  // ----- loads and stores -----

  /** In little-endian order the byte at the lowest address is the least significant one. */
  lemma {:induction false} LittleEndian(m: Memory, a: nat, n: nat)
    requires n > 0
    ensures ToNat(LoadBits(m, a, n, true)) == ToNat(MemAt(m, a)) + Pow2(8) * ToNat(LoadBits(m, a + 1, n - 1, true))
  {
    hide ToNat, Pow2, MemAt;
    LoadFirst(m, a, n, true);
    ToNatConcat(MemAt(m, a), LoadBits(m, a + 1, n - 1, true));
  }

  /** In big-endian order it is the most significant one. */
  lemma BigEndian(m: Memory, a: nat, n: nat)
    requires n > 0
    ensures ToNat(LoadBits(m, a, n, false))
            == Pow2(8 * (n - 1)) * ToNat(MemAt(m, a)) + ToNat(LoadBits(m, a + 1, n - 1, false))
  {
    hide ToNat, Pow2, MemAt;
    LoadFirst(m, a, n, false);
    ToNatConcat(LoadBits(m, a + 1, n - 1, false), MemAt(m, a));
  }

  lemma {:induction false} LoadFirst(m: Memory, a: nat, n: nat, le: bool)
    requires n > 0
    ensures LoadBits(m, a, n, le)
            == if le then MemAt(m, a) + LoadBits(m, a + 1, n - 1, le) else LoadBits(m, a + 1, n - 1, le) + MemAt(m, a)
  {
    if n > 1 {
      LoadFirst(m, a, n - 1, le);
    }
  }

  /** A load of any part of what was stored gives the bytes of that part, and bytes outside
      keep their value. */
  lemma {:induction false} StoreThenLoad(m: Memory, bits: Bits, a: nat, n: nat, le: bool, i: nat, k: nat)
    requires |bits| == 8 * n && i + k <= n
    ensures LoadBits(StoreBits(m, bits, a, n, le), a + i, k, le) == ByteSliceRange(bits, i, k, n, le)
  {
    hide StoreBits, ByteSliceRange, ByteSlice;
    if k == 0 {
    } else {
      StoreThenLoad(m, bits, a, n, le, i, k - 1);
      StoredByte(m, bits, a, n, le, a + (i + k - 1));
      SliceSplit(bits, i, k, n, le);
    }
  }

  lemma StoredByte(m: Memory, bits: Bits, a: nat, n: nat, le: bool, x: nat)
    requires |bits| == 8 * n
    ensures MemAt(StoreBits(m, bits, a, n, le), x)
            == if a <= x < a + n then ByteSlice(bits, x - a, n, le) else MemAt(m, x)
  {
  }

  /** A load of the whole gives back what was stored; a load elsewhere is not affected. */
  lemma StoreThenLoadWhole(m: Memory, bits: Bits, a: nat, n: nat, le: bool, b: nat, k: nat)
    requires |bits| == 8 * n
    ensures LoadBits(StoreBits(m, bits, a, n, le), a, n, le) == bits
    ensures b + k <= a || a + n <= b ==> LoadBits(StoreBits(m, bits, a, n, le), b, k, le) == LoadBits(m, b, k, le)
  {
    hide StoreBits, LoadBits, ByteSlice;
    StoreThenLoad(m, bits, a, n, le, 0, n);
    assert ByteSliceRange(bits, 0, n, n, le) == bits;
    if b + k <= a || a + n <= b {
      forall x | b <= x < b + k
        ensures MemAt(StoreBits(m, bits, a, n, le), x) == MemAt(m, x)
      {
        StoredByte(m, bits, a, n, le, x);
      }
      LoadSame(StoreBits(m, bits, a, n, le), m, b, k, le);
    }
  }

  // ----- PHI nodes -----

  /** No two PHI nodes of a block define the same register. */
  predicate DistinctPhis(phis: seq<Phi>)
  {
    forall k, l :: 0 <= k < l < |phis| ==> phis[k].dst != phis[l].dst
  }

  predicate Defined(phis: seq<Phi>, r: Reg) { exists k :: 0 <= k < |phis| && phis[k].dst == r }

  /** Every PHI node takes the value and the expression that its incoming operand had before
      the jump, whatever the other nodes do, and every other register keeps its own. */
  lemma {:induction false} PhisRead(phis: seq<Phi>, from: Label, s: Sym, r: Reg)
    requires DistinctPhis(phis) && PhiRegs(phis, from, s.c.regs, s.c.regs).Some?
    ensures var regs, exprs := PhiRegs(phis, from, s.c.regs, s.c.regs).value, PhiExprs(phis, from, s.exprs, s.exprs);
            && (forall k :: 0 <= k < |phis| ==>
                  from in phis[k].incoming
                  && Get(regs, Var(phis[k].dst)) == Get(s.c.regs, phis[k].incoming[from])
                  && RegExpr(exprs, phis[k].dst) == ExprOf(s.exprs, phis[k].incoming[from]))
            && (!Defined(phis, r) ==>
                  Get(regs, Var(r)) == Get(s.c.regs, Var(r)) && RegExpr(exprs, r) == RegExpr(s.exprs, r))
  {
    if |phis| > 0 {
      var front, phi := phis[..|phis| - 1], phis[|phis| - 1];
      PhisRead(front, from, s, r);
      var regs, exprs := PhiRegs(phis, from, s.c.regs, s.c.regs).value, PhiExprs(phis, from, s.exprs, s.exprs);
      forall k | 0 <= k < |phis|
        ensures from in phis[k].incoming
        ensures Get(regs, Var(phis[k].dst)) == Get(s.c.regs, phis[k].incoming[from])
        ensures RegExpr(exprs, phis[k].dst) == ExprOf(s.exprs, phis[k].incoming[from])
      {
        if k < |front| {
          assert front[k] == phis[k];
        }
      }
      if !Defined(phis, r) {
        assert phi.dst != r;
        assert forall k :: 0 <= k < |front| ==> front[k] == phis[k];
        assert !Defined(front, r);
      }
    }
  }

  // ----- a block -----

  /** The effect of instructions one after the other, up to a fault. */
  function ExecAll(p: Program, input: Input, c: State, body: seq<Instr>): State
  {
    if |body| == 0 then c
    else
      var before := ExecAll(p, input, c, body[..|body| - 1]);
      if before.ctl.Fault? then before else Exec(p, input, before, body[|body| - 1])
  }

  /** An instruction either faults or leaves control to the step, and does not depend on it. */
  lemma ExecControl(p: Program, input: Input, c: State, ctl: Control, i: Instr)
    requires !ctl.Fault? && !c.ctl.Fault?
    ensures var e, f := Exec(p, input, c, i), Exec(p, input, c.(ctl := ctl), i);
            if e.ctl.Fault? then f.ctl.Fault? else e.ctl == c.ctl && f == e.(ctl := ctl)
  {
    hide BinValue, BoolValue, CmpValue, CastValue, SelectValue, GepValue, LoadBits, StoreBits, MoveMemory, FillMemory,
         InputMemory, AsSize, FromInt, Available;
  }

  /** A block entered at its first instruction executes all of them in order, each once, and
      then its terminator, unless one faults. */
  lemma {:induction false} BlockRuns(p: Program, input: Input, c: State, b: Label, k: nat)
    requires c.ctl == Running(b, 0) && b in p.blocks && k <= |p.blocks[b].body|
    ensures var r, e := Run(p, input, c, k), ExecAll(p, input, c, p.blocks[b].body[..k]);
            if e.ctl.Fault? then r.ctl.Fault? else e.ctl == c.ctl && r == e.(ctl := Running(b, k))
    ensures var r := Run(p, input, c, k);
            !r.ctl.Fault? && k == |p.blocks[b].body|
            ==> Run(p, input, c, k + 1) == Terminate(p, r, b, p.blocks[b].term)
  {
    hide Exec, Terminate;
    var body := p.blocks[b].body;
    if k > 0 {
      BlockRuns(p, input, c, b, k - 1);
      assert body[..k][..k - 1] == body[..k - 1];
      var e := ExecAll(p, input, c, body[..k - 1]);
      if !e.ctl.Fault? {
        ExecControl(p, input, e, Running(b, k - 1), body[k - 1]);
      }
    }
  }

  /** Where control goes from a terminator, for the value of its operand. */
  predicate Leads(t: Terminator, regs: Regs, to: Label)
  {
    match t
    case Jump(l) => to == l
    case CondBr(cond, l, m) =>
      (Get(regs, cond) == Some(Boolean(true)) && to == l) || (Get(regs, cond) == Some(Boolean(false)) && to == m)
    case Switch(cond, values, targets, default) =>
      && Get(regs, cond).Some? && |values| == |targets| && Distinct(values)
      && (forall k :: 0 <= k < |values| ==> SortOfValue(values[k]) == SortOfValue(Get(regs, cond).value))
      && ((Get(regs, cond).value !in values && to == default)
          || exists k :: 0 <= k < |values| && values[k] == Get(regs, cond).value && targets[k] == to)
    case Ret(_) => false
  }

  lemma TargetIs(t: Terminator, regs: Regs, to: Label)
    requires Leads(t, regs, to)
    ensures Target(t, regs) == Some(to)
  {
    match t
    case Switch(cond, values, targets, default) =>
      var v := Get(regs, cond).value;
      if v in values {
        var k :| 0 <= k < |values| && values[k] == v && targets[k] == to;
        CaseTargetIs(values, targets, default, k);
      } else {
        CaseTargetDefault(values, targets, default, v);
      }
    case _ =>
  }

  /** A terminator enters the block that its operand selects at the first instruction, with
      the block's PHI nodes read, and leaves memory and input alone; a return only stops the
      function, with the operand to return. */
  lemma TerminatorDoes(p: Program, c: State, from: Label, t: Terminator, to: Label)
    requires c.ctl.Running?
    ensures t.Ret? && Get(c.regs, t.result).Some? ==> Terminate(p, c, from, t) == c.(ctl := Returned(t.result))
    ensures Leads(t, c.regs, to) && to in p.blocks ==>
              match PhiRegs(p.blocks[to].phis, from, c.regs, c.regs)
              case Some(regs) => Terminate(p, c, from, t) == c.(ctl := Running(to, 0), regs := regs)
              case None => Terminate(p, c, from, t).ctl.Fault?
  {
    hide PhiRegs, Leads, Target;
    if Leads(t, c.regs, to) {
      assert !t.Ret? by { NoReturnLeads(t, c.regs, to); }
      TargetIs(t, c.regs, to);
    }
  }

  lemma NoReturnLeads(t: Terminator, regs: Regs, to: Label)
    requires Leads(t, regs, to)
    ensures !t.Ret?
  {
  }
}
