/** Address arithmetic: the expression that the pass builds for a getelementptr
    instruction, against the address that the instruction computes. */
module Gep {
  import opened Options
  import opened BitVectors
  import opened Expressions
  import opened FlatMemory

  const PTR_BITS: nat := 64

  /** One index of a getelementptr, with its run-time value and expression. A struct member
      is always a constant; `constant` says that an array index is one, too. A single bit
      stands for an index of type i1. */
  datatype GepArg =
    | MemberArg(index: nat, offset: nat)
    | IndexArg(bits: Bits, expr: SymExpr, constant: bool, elementSize: nat)

  /** The run-time value of an index; i1 is the Boolean type. */
  function IndexValue(bits: Bits): Value { if |bits| == 1 then Boolean(bits[0]) else Bv(bits) }

  /** The number of bits to add, which passes through an 8-bit constant. */
  function Widening(w: nat): nat { (PTR_BITS - w) % 256 }

  /** The offset and element size pass through a 32-bit `unsigned`. */
  function Unsigned32(x: nat): nat { x % Pow2(32) }

  // ----- the address -----

  function Contribution(a: GepArg): int
  {
    match a
    case MemberArg(_, offset) => offset
    case IndexArg(bits, _, _, elementSize) => ToInt(bits) * elementSize
  }

  function Offset(args: seq<GepArg>): int
  {
    if |args| == 0 then 0 else Contribution(args[0]) + Offset(args[1..])
  }

  /** base + member offsets + sign-extended index * element size, modulo 2^64. */
  function Address(base: Bits, args: seq<GepArg>): (r: Bits)
    ensures |r| == PTR_BITS
  {
    FromInt(ToNat(base) + Offset(args), PTR_BITS)
  }

  // ----- the expression -----

  /** The expression of an operand once a symbolic operand is known to exist. */
  function OperandExpr(e: SymExpr, v: Value): Expr
  {
    if e.Some? then e.value else ValueExpr(v)
  }

  predicate ConstantZero(a: GepArg)
  {
    match a
    case MemberArg(index, _) => index == 0
    case IndexArg(bits, _, constant, _) => constant && ToNat(bits) == 0
  }

  /** Struct members and array indices as the loop of `visitGetElementPtrInst` treats them. */
  function Extend(current: Expr, a: GepArg): Expr
  {
    match a
    case MemberArg(_, offset) => Binary(Add, BuildInteger(Unsigned32(offset), PTR_BITS), current)
    case IndexArg(bits, expr, constant, elementSize) =>
      if constant && ToNat(bits) == 0 then current
      else
        var index := OperandExpr(expr, IndexValue(bits));
        var wide := if |bits| != PTR_BITS then SExt(index, Widening(|bits|)) else index;
        Binary(Add, Binary(Mul, wide, BuildInteger(Unsigned32(elementSize), PTR_BITS)), current)
  }

  function Chain(current: Expr, args: seq<GepArg>): Expr
    decreases |args|
  {
    if |args| == 0 then current else Chain(Extend(current, args[0]), args[1..])
  }

  predicate AllConcrete(args: seq<GepArg>)
  {
    forall i :: 0 <= i < |args| ==> args[i].IndexArg? ==> args[i].expr.None?
  }

  predicate AllZero(args: seq<GepArg>)
  {
    forall i :: 0 <= i < |args| ==> ConstantZero(args[i])
  }

  /** The expression that the instrumented instruction yields. */
  function GepExpr(base: Bits, baseExpr: SymExpr, args: seq<GepArg>): SymExpr
  {
    if baseExpr.None? && AllConcrete(args) then None
    else if AllZero(args) then baseExpr
    else Some(Chain(OperandExpr(baseExpr, Bv(base)), args))
  }

  // ----- modular arithmetic -----

  lemma AddFromInt(x: int, y: int, w: nat)
    ensures Apply(Add, FromInt(x, w), FromInt(y, w)) == FromInt(x + y, w)
  {
    hide ToNat, FromNat, Pow2;
    FromIntToNat(x, w);
    FromIntToNat(y, w);
    ModAdd(x, y % Pow2(w), Pow2(w));
    ModAdd(x, y, Pow2(w));
  }

  lemma MulFromInt(x: int, y: int, w: nat)
    ensures Apply(Mul, FromInt(x, w), FromInt(y, w)) == FromInt(x * y, w)
  {
    hide ToNat, FromNat, Pow2;
    FromIntToNat(x, w);
    FromIntToNat(y, w);
    ModMul(x, y % Pow2(w), Pow2(w));
    ModMul(x, y, Pow2(w));
  }

  /** A bit vector is the residue of its signed value. */
  lemma SignedResidue(b: Bits)
    ensures FromInt(ToInt(b), |b|) == b
  {
    hide ToNat, FromNat, Pow2;
    ToNatIsResidue(b);
    FromToNat(b);
  }

  lemma SignExtendResidue(b: Bits, w: nat)
    requires 0 < |b| <= w
    ensures SignExtend(b, w - |b|) == FromInt(ToInt(b), w)
  {
    hide ToNat, FromNat, Pow2, ToInt;
    SignExtendKeeps(b, w - |b|);
    SignedResidue(SignExtend(b, w - |b|));
  }

  // ----- what the expression evaluates to -----

  /** What argument `a` becomes on another input. */
  ghost predicate ArgPredicted(a: GepArg, j: Input, a': GepArg)
  {
    match a
    case MemberArg(_, _) => a' == a
    case IndexArg(bits, expr, constant, elementSize) =>
      && a'.IndexArg? && a'.elementSize == elementSize && |a'.bits| == |bits|
      && ValuePredicted(expr, IndexValue(bits), j, IndexValue(a'.bits))
      && (constant ==> expr.None?)
  }

  /** The indices for which the pass builds well-sorted expressions. */
  predicate Sortable(a: GepArg) { a.IndexArg? && !ConstantZero(a) ==> 2 <= |a.bits| <= PTR_BITS }

  /** What the built expression adds for an argument. */
  function BuiltContribution(a: GepArg): int
  {
    match a
    case MemberArg(_, offset) => Unsigned32(offset)
    case IndexArg(bits, _, _, elementSize) => ToInt(bits) * Unsigned32(elementSize)
  }

  function BuiltOffset(args: seq<GepArg>): int
  {
    if |args| == 0 then 0 else BuiltContribution(args[0]) + BuiltOffset(args[1..])
  }

  lemma OperandDenotes(e: SymExpr, v: Value, j: Input, v': Value)
    requires ValuePredicted(e, v, j, v') && (v.Bv? ==> PlainWidth(|v.bits|))
    ensures Denotes(OperandExpr(e, v), j, v')
  {
    ValueExprExact(v, j);
  }

  lemma BinaryDenotes(op: BinOp, a: Expr, b: Expr, j: Input, x: Bits, y: Bits)
    requires Denotes(a, j, Bv(x)) && Denotes(b, j, Bv(y)) && |x| == |y|
    ensures Denotes(Binary(op, a, b), j, Bv(Apply(op, x, y)))
  {
    hide Apply;
  }

  lemma SExtDenotes(a: Expr, n: nat, j: Input, x: Bits)
    requires Denotes(a, j, Bv(x))
    ensures Denotes(SExt(a, n), j, Bv(SignExtend(x, n)))
  {
  }

  lemma ConstantDenotes(value: nat, j: Input)
    ensures Denotes(BuildInteger(value, PTR_BITS), j, Bv(FromInt(value, PTR_BITS)))
  {
  }

  lemma Small32(x: nat)
    requires x < Pow2(32)
    ensures Unsigned32(x) == x
  {
    ModUnique(x, Pow2(32), x, 0);
  }

  lemma IndexDenotes(bits: Bits, expr: SymExpr, j: Input, bits': Bits)
    requires 2 <= |bits| == |bits'| <= PTR_BITS && ValuePredicted(expr, IndexValue(bits), j, IndexValue(bits'))
    ensures var index := OperandExpr(expr, IndexValue(bits));
            var wide := if |bits| != PTR_BITS then SExt(index, Widening(|bits|)) else index;
            Denotes(wide, j, Bv(FromInt(ToInt(bits'), PTR_BITS)))
  {
    hide ToInt, FromInt, ValueExpr;
    var index := OperandExpr(expr, Bv(bits));
    OperandDenotes(expr, Bv(bits), j, Bv(bits'));
    if |bits| != PTR_BITS {
      SExtDenotes(index, PTR_BITS - |bits|, j, bits');
      SignExtendResidue(bits', PTR_BITS);
    } else {
      SignedResidue(bits');
    }
  }

  /** One step of the loop adds what is built for the argument. */
  lemma ExtendDenotes(current: Expr, a: GepArg, a': GepArg, j: Input, acc: int)
    requires Denotes(current, j, Bv(FromInt(acc, PTR_BITS)))
    requires Sortable(a) && ArgPredicted(a, j, a')
    ensures Denotes(Extend(current, a), j, Bv(FromInt(acc + BuiltContribution(a'), PTR_BITS)))
  {
    hide FromInt, Apply, Eval, SortOf, Pow2, ToInt, Unsigned32, ToNat, OperandExpr;
    match a
    case MemberArg(_, offset) =>
      var x := Unsigned32(offset);
      ConstantDenotes(x, j);
      AddFromInt(x, acc, PTR_BITS);
      BinaryDenotes(Add, BuildInteger(x, PTR_BITS), current, j, FromInt(x, PTR_BITS), FromInt(acc, PTR_BITS));
    case IndexArg(bits, expr, constant, elementSize) =>
      if constant && ToNat(bits) == 0 {
        SameBits(bits, a'.bits, j);
        ZeroSigned(bits);
      } else {
        IndexStep(current, bits, expr, constant, elementSize, a'.bits, j, acc);
      }
  }

  lemma SameBits(bits: Bits, bits': Bits, j: Input)
    requires |bits| == |bits'| && ValuePredicted(None, IndexValue(bits), j, IndexValue(bits'))
    ensures bits == bits'
  {
  }

  lemma IndexStep(current: Expr, bits: Bits, expr: SymExpr, constant: bool, elementSize: nat,
                  bits': Bits, j: Input, acc: int)
    requires Denotes(current, j, Bv(FromInt(acc, PTR_BITS)))
    requires 2 <= |bits| == |bits'| <= PTR_BITS && !(constant && ToNat(bits) == 0)
    requires ValuePredicted(expr, IndexValue(bits), j, IndexValue(bits'))
    ensures Denotes(Extend(current, IndexArg(bits, expr, constant, elementSize)), j,
                    Bv(FromInt(acc + ToInt(bits') * Unsigned32(elementSize), PTR_BITS)))
  {
    hide FromInt, Apply, Eval, SortOf, ToNat, Pow2, OperandExpr, Unsigned32;
    var u := Unsigned32(elementSize);
    var index := OperandExpr(expr, IndexValue(bits));
    var wide := if |bits| != PTR_BITS then SExt(index, Widening(|bits|)) else index;
    var size := BuildInteger(u, PTR_BITS);
    var x := ToInt(bits');
    IndexDenotes(bits, expr, j, bits');
    ConstantDenotes(u, j);
    BinaryDenotes(Mul, wide, size, j, FromInt(x, PTR_BITS), FromInt(u, PTR_BITS));
    MulFromInt(x, u, PTR_BITS);
    BinaryDenotes(Add, Binary(Mul, wide, size), current, j, FromInt(x * u, PTR_BITS), FromInt(acc, PTR_BITS));
    AddFromInt(x * u, acc, PTR_BITS);
  }

  lemma ZeroSigned(b: Bits)
    requires ToNat(b) == 0
    ensures ToInt(b) == 0
  {
    if |b| > 0 && b[|b| - 1] {
      TopBit(b);
    }
  }

  lemma {:induction false} TopBit(b: Bits)
    requires |b| > 0 && b[|b| - 1]
    ensures ToNat(b) > 0
  {
    if |b| > 1 {
      TopBit(b[1..]);
    }
  }

  ghost predicate ArgsPredicted(args: seq<GepArg>, j: Input, args': seq<GepArg>)
  {
    |args| == |args'| && forall i :: 0 <= i < |args| ==> ArgPredicted(args[i], j, args'[i])
  }

  predicate AllSortable(args: seq<GepArg>)
  {
    forall i :: 0 <= i < |args| ==> Sortable(args[i])
  }

  /** The chain evaluates to the base plus everything that was built. */
  lemma {:induction false} ChainDenotes(current: Expr, args: seq<GepArg>, args': seq<GepArg>, j: Input, acc: int)
    requires Denotes(current, j, Bv(FromInt(acc, PTR_BITS)))
    requires AllSortable(args) && ArgsPredicted(args, j, args')
    ensures Denotes(Chain(current, args), j, Bv(FromInt(acc + BuiltOffset(args'), PTR_BITS)))
    decreases |args|
  {
    hide FromInt, Eval, SortOf, Extend, BuiltContribution, ArgPredicted, Sortable;
    if |args| > 0 {
      ExtendDenotes(current, args[0], args'[0], j, acc);
      ChainDenotes(Extend(current, args[0]), args[1..], args'[1..], j, acc + BuiltContribution(args'[0]));
    }
  }

  // ----- when that is the address -----

  /** Members are laid out from offset 0 on. */
  predicate LaidOut(args: seq<GepArg>)
  {
    forall i :: 0 <= i < |args| && args[i].MemberArg? && args[i].index == 0 ==> args[i].offset == 0
  }

  lemma {:induction false} ZeroOffset(args: seq<GepArg>, args': seq<GepArg>, j: Input)
    requires AllZero(args) && LaidOut(args) && ArgsPredicted(args, j, args')
    ensures Offset(args') == 0
  {
    hide ToNat, ToInt;
    if |args| > 0 {
      ZeroOffset(args[1..], args'[1..], j);
      assert ConstantZero(args[0]) && ArgPredicted(args[0], j, args'[0]);
      if args[0].IndexArg? {
        SameBits(args[0].bits, args'[0].bits, j);
        ZeroSigned(args[0].bits);
      }
    }
  }

  lemma {:induction false} ConcreteOffset(args: seq<GepArg>, args': seq<GepArg>, j: Input)
    requires AllConcrete(args) && ArgsPredicted(args, j, args')
    ensures Offset(args') == Offset(args)
  {
    hide ToInt;
    if |args| > 0 {
      ConcreteOffset(args[1..], args'[1..], j);
      assert ArgPredicted(args[0], j, args'[0]);
      if args[0].IndexArg? {
        SameBits(args[0].bits, args'[0].bits, j);
      }
    }
  }

  lemma ZeroConcrete(args: seq<GepArg>, args': seq<GepArg>, j: Input)
    requires AllZero(args) && ArgsPredicted(args, j, args')
    ensures AllConcrete(args)
  {
    forall i | 0 <= i < |args| && args[i].IndexArg?
      ensures args[i].expr.None?
    {
      assert ConstantZero(args[i]) && ArgPredicted(args[i], j, args'[i]);
    }
  }

  /** By how much the built offset misses the real one. */
  function Error(args: seq<GepArg>): int { Offset(args) - BuiltOffset(args) }

  /** For every choice of symbolic operands: the built expression is the address on every
      input on which the built offset is right modulo 2^64, and where none is built the
      address cannot change. */
  lemma GepIsRight(base: Bits, baseExpr: SymExpr, args: seq<GepArg>, j: Input, base': Bits, args': seq<GepArg>)
    requires |base| == |base'| == PTR_BITS && ValuePredicted(baseExpr, Bv(base), j, Bv(base'))
    requires LaidOut(args) && ArgsPredicted(args, j, args')
    requires AllZero(args) || (AllSortable(args) && Error(args') % Pow2(PTR_BITS) == 0)
    ensures ValuePredicted(GepExpr(base, baseExpr, args), Bv(Address(base, args)), j, Bv(Address(base', args')))
  {
    hide FromInt, Eval, SortOf, Extend, AllSortable, ArgsPredicted, ValueExpr, LaidOut, Pow2, ToNat;
    ToNatIsResidue(base');
    if baseExpr.None? && AllConcrete(args) {
      ConcreteOffset(args, args', j);
    } else if AllZero(args) {
      ZeroOffset(args, args', j);
      if baseExpr.None? {
        ZeroConcrete(args, args', j);
      }
    } else {
      OperandDenotes(baseExpr, Bv(base), j, Bv(base'));
      ChainDenotes(OperandExpr(baseExpr, Bv(base)), args, args', j, ToNat(base'));
      SameResidue(ToNat(base') + Offset(args'), ToNat(base') + BuiltOffset(args'), PTR_BITS);
    }
  }

  lemma SameResidue(x: int, y: int, w: nat)
    ensures FromInt(x, w) == FromInt(y, w) <==> (x - y) % Pow2(w) == 0
  {
    hide ToNat, Pow2, FromNat;
    FromIntToNat(x, w);
    FromIntToNat(y, w);
    EqualResidues(x, y, Pow2(w));
  }

  lemma EqualResidues(x: int, y: int, m: int)
    requires m > 0
    ensures x % m == y % m <==> (x - y) % m == 0
  {
    ModAdd(x - y, y, m);
    if (x - y) % m == 0 {
      assert x % m == (0 + y) % m;
    } else {
      var r := (x - y) % m;
      if x % m == y % m {
        var a, b := x / m, y / m;
        MulDistributes(m, a, -b);
        assert x - y == (a - b) * m;
        ModUnique(x - y, m, 0, a - b);
      }
    }
  }

  // ----- small numbers -----

  /** Small numbers are their own signed value. */
  lemma SmallSigned(x: nat, w: nat)
    requires w > 0 && x < Pow2(w - 1)
    ensures ToInt(FromInt(x, w)) == x
  {
    var b := FromInt(x, w);
    assert Pow2(w) == 2 * Pow2(w - 1);
    hide ToNat, Pow2, FromInt;
    FromIntToNat(x, w);
    ModUnique(x, Pow2(w), x, 0);
    if b[w - 1] {
      TopBitLarge(b);
    }
  }

  lemma {:induction false} TopBitLarge(b: Bits)
    requires |b| > 0 && b[|b| - 1]
    ensures ToNat(b) >= Pow2(|b| - 1)
  {
    if |b| > 1 {
      TopBitLarge(b[1..]);
    }
  }
}
