/** Well-typed programs keep well-typed registers: what the compiler's type checker
    guarantees about the widths that the pass looks up. */
module Typing {
  import opened Options
  import opened BitVectors
  import opened Expressions
  import opened FlatMemory
  import opened Gep
  import opened Ir
  import opened Instrumentation
  import opened Emission

  /** A value of an integer type; one bit is the Boolean type. */
  predicate ValueTyped(w: nat, v: Value) { WidthOf(v) == w && (v.Bv? ==> |v.bits| > 1) }

  ghost predicate RegsTyped(types: Types, regs: Regs)
  {
    forall r :: r in regs ==> r in types && ValueTyped(types[r], regs[r])
  }

  predicate LiteralTyped(o: Operand) { o.Lit? && o.value.Bv? ==> |o.value.bits| > 1 }

  predicate HasType(types: Types, r: Reg, w: nat) { r in types && types[r] == w }

  predicate InstrTyped(types: Types, i: Instr)
  {
    match i
    case BinInstr(dst, _, a, _) => LiteralTyped(a) && HasType(types, dst, TypeOf(types, a))
    case BoolInstr(dst, _, _, _) => HasType(types, dst, 1)
    case CmpInstr(dst, _, _, _) => HasType(types, dst, 1)
    case CastInstr(dst, _, a, width) => LiteralTyped(a) && HasType(types, dst, width)
    case CopyInstr(dst, a) => LiteralTyped(a) && HasType(types, dst, TypeOf(types, a))
    case SelectInstr(dst, _, a, b) =>
      LiteralTyped(a) && LiteralTyped(b) && TypeOf(types, a) == TypeOf(types, b)
        && HasType(types, dst, TypeOf(types, a))
    case LoadInstr(dst, _, n) => HasType(types, dst, 8 * n)
    case GepInstr(dst, _, _) => HasType(types, dst, PTR_BITS)
    case ReadInstr(dst, _, _) => HasType(types, dst, 64)
    case _ => true
  }

  predicate PhiTyped(types: Types, phi: Phi)
  {
    forall l :: l in phi.incoming ==>
      LiteralTyped(phi.incoming[l]) && HasType(types, phi.dst, TypeOf(types, phi.incoming[l]))
  }

  predicate ProgramTyped(types: Types, p: Program)
  {
    forall l :: l in p.blocks ==>
      && (forall k :: 0 <= k < |p.blocks[l].body| ==> InstrTyped(types, p.blocks[l].body[k]))
      && (forall k :: 0 <= k < |p.blocks[l].phis| ==> PhiTyped(types, p.blocks[l].phis[k]))
  }

  lemma GetTyped(types: Types, regs: Regs, o: Operand)
    requires RegsTyped(types, regs) && LiteralTyped(o) && Get(regs, o).Some?
    ensures ValueTyped(TypeOf(types, o), Get(regs, o).value)
  {
  }

  lemma DefineTyped(types: Types, regs: Regs, dst: Reg, v: Value)
    requires RegsTyped(types, regs) && dst in types && ValueTyped(types[dst], v)
    ensures RegsTyped(types, regs[dst := v])
  {
  }

  lemma CastTypedIs(types: Types, regs: Regs, i: Instr)
    requires RegsTyped(types, regs) && InstrTyped(types, i)
    ensures CastTyped(types, regs, i)
  {
    if i.CastInstr? && Get(regs, i.a).Some? {
      GetTyped(types, regs, i.a);
    }
  }

  lemma CastValueTyped(kind: CastKind, v: Value, width: nat)
    requires CastValue(kind, v, width).Some? && (v.Bv? ==> |v.bits| > 1)
    ensures ValueTyped(width, CastValue(kind, v, width).value)
  {
  }

  lemma ExecTyped(types: Types, p: Program, input: Input, c: State, i: Instr)
    requires RegsTyped(types, c.regs) && InstrTyped(types, i) && !Exec(p, input, c, i).ctl.Fault?
    ensures RegsTyped(types, Exec(p, input, c, i).regs)
  {
    hide RegsTyped, Apply, Holds, CastValue, Address, LoadBits, Available, StoreBits, MoveMemory, FillMemory,
         InputMemory;
    match i
    case BinInstr(dst, op, a, b) =>
      GetTyped(types, c.regs, a);
      DefineTyped(types, c.regs, dst, BinValue(op, Get(c.regs, a).value, Get(c.regs, b).value).value);
    case BoolInstr(dst, op, a, b) =>
      DefineTyped(types, c.regs, dst, BoolValue(op, Get(c.regs, a).value, Get(c.regs, b).value).value);
    case CmpInstr(dst, pred, a, b) =>
      DefineTyped(types, c.regs, dst, CmpValue(pred, Get(c.regs, a).value, Get(c.regs, b).value).value);
    case CastInstr(dst, kind, a, width) =>
      GetTyped(types, c.regs, a);
      CastValueTyped(kind, Get(c.regs, a).value, width);
      DefineTyped(types, c.regs, dst, CastValue(kind, Get(c.regs, a).value, width).value);
    case CopyInstr(dst, a) =>
      GetTyped(types, c.regs, a);
      DefineTyped(types, c.regs, dst, Get(c.regs, a).value);
    case SelectInstr(dst, cond, a, b) =>
      GetTyped(types, c.regs, a);
      GetTyped(types, c.regs, b);
      DefineTyped(types, c.regs, dst, SelectValue(Get(c.regs, cond), Get(c.regs, a), Get(c.regs, b)).value);
    case LoadInstr(dst, addr, n) =>
      DefineTyped(types, c.regs, dst, LoadValue(c, AsSize(Get(c.regs, addr)), n, p.le).value);
    case GepInstr(dst, base, path) =>
      DefineTyped(types, c.regs, dst, GepValue(c.regs, Get(c.regs, base), path).value);
    case ReadInstr(dst, addr, len) =>
      var k := Available(input, c.pos, AsSize(Get(c.regs, len)).value);
      DefineTyped(types, c.regs, dst, Bv(FromInt(k, 64)));
    case _ =>
  }

  lemma {:induction false} PhisTyped(types: Types, phis: seq<Phi>, from: Label, regs: Regs)
    requires RegsTyped(types, regs) && forall k :: 0 <= k < |phis| ==> PhiTyped(types, phis[k])
    requires PhiRegs(phis, from, regs, regs).Some?
    ensures RegsTyped(types, PhiRegs(phis, from, regs, regs).value)
  {
    hide RegsTyped, ValueTyped, LiteralTyped;
    if |phis| > 0 {
      var front, phi := phis[..|phis| - 1], phis[|phis| - 1];
      PhisTyped(types, front, from, regs);
      assert PhiTyped(types, phi);
      GetTyped(types, regs, phi.incoming[from]);
      DefineTyped(types, PhiRegs(front, from, regs, regs).value, phi.dst, Get(regs, phi.incoming[from]).value);
    }
  }

  lemma TerminateTyped(types: Types, p: Program, c: State, from: Label, t: Terminator)
    requires ProgramTyped(types, p) && RegsTyped(types, c.regs)
    ensures RegsTyped(types, Terminate(p, c, from, t).regs)
  {
    hide RegsTyped, Target;
    if !t.Ret? && Target(t, c.regs).Some? {
      var to := Target(t, c.regs).value;
      if to in p.blocks && PhiRegs(p.blocks[to].phis, from, c.regs, c.regs).Some? {
        PhisTyped(types, p.blocks[to].phis, from, c.regs);
      }
    }
  }
}
