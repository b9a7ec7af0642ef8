/** Symbolic expressions as the simple backend builds them, their sorts, and their
    value on an input. A null expression pointer is `None` of type `SymExpr`. */
module Expressions {
  import opened Options
  import opened BitVectors

  const ZERO_BYTE: Bits := [false, false, false, false, false, false, false, false]

  type Byte = b: Bits | |b| == 8 witness [false, false, false, false, false, false, false, false]

  /** The bytes the program reads; the expression `InputByte(k)` is the variable for byte k. */
  type Input = seq<Byte>

  datatype Value = Bv(bits: Bits) | Boolean(b: bool)

  datatype Sort = BvSort(width: nat) | BoolSort

  function SortOfValue(v: Value): Sort
  {
    match v
    case Bv(bits) => BvSort(|bits|)
    case Boolean(_) => BoolSort
  }

  datatype BoolOp = BAnd | BOr | BXor

  predicate ApplyBool(op: BoolOp, a: bool, b: bool)
  {
    match op
    case BAnd => a && b
    case BOr => a || b
    case BXor => a != b
  }

  datatype Expr =
    | InputByte(offset: nat)
    | Integer(bits: Bits)
    | BoolConst(b: bool)
    | Binary(op: BinOp, left: Expr, right: Expr)
    | Cmp(pred: Predicate, left: Expr, right: Expr)
    | BoolBinary(bop: BoolOp, left: Expr, right: Expr)
    | Not(arg: Expr)
    | SExt(arg: Expr, extra: nat)
    | ZExt(arg: Expr, extra: nat)
    | Extract(arg: Expr, first: int, last: int)
    | Concat(high: Expr, low: Expr)
    | BoolToBit(arg: Expr)

  type SymExpr = Option<Expr>

  /** The sort the solver assigns; `None` where it would report a sort error. */
  function SortOf(e: Expr): Option<Sort>
  {
    match e
    case InputByte(_) => Some(BvSort(8))
    case Integer(bits) => Some(BvSort(|bits|))
    case BoolConst(_) => Some(BoolSort)
    case Binary(_, a, b) =>
      (match (SortOf(a), SortOf(b))
       case (Some(BvSort(m)), Some(BvSort(n))) => if m == n then Some(BvSort(m)) else None
       case _ => None)
    case Cmp(p, a, b) =>
      (match (SortOf(a), SortOf(b))
       case (Some(BvSort(m)), Some(BvSort(n))) => if m == n then Some(BoolSort) else None
       case (Some(BoolSort), Some(BoolSort)) => if p == Eq then Some(BoolSort) else None
       case _ => None)
    case BoolBinary(_, a, b) =>
      if SortOf(a) == Some(BoolSort) && SortOf(b) == Some(BoolSort) then Some(BoolSort) else None
    case Not(a) => if SortOf(a) == Some(BoolSort) then Some(BoolSort) else None
    case SExt(a, n) =>
      (match SortOf(a) case Some(BvSort(m)) => Some(BvSort(m + n)) case _ => None)
    case ZExt(a, n) =>
      (match SortOf(a) case Some(BvSort(m)) => Some(BvSort(m + n)) case _ => None)
    case Extract(a, first, last) =>
      (match SortOf(a)
       case Some(BvSort(m)) => if 0 <= last <= first < m then Some(BvSort(first - last + 1)) else None
       case _ => None)
    case Concat(a, b) =>
      (match (SortOf(a), SortOf(b))
       case (Some(BvSort(m)), Some(BvSort(n))) => Some(BvSort(m + n))
       case _ => None)
    case BoolToBit(a) => if SortOf(a) == Some(BoolSort) then Some(BvSort(1)) else None
  }

  function ByteAt(input: Input, k: nat): Byte
  {
    if k < |input| then input[k] else ZERO_BYTE
  }

  /** The value of an expression on an input; arbitrary (false) where the sorts do not fit. */
  function Eval(e: Expr, input: Input): Value
  {
    match e
    case InputByte(k) => Bv(ByteAt(input, k))
    case Integer(bits) => Bv(bits)
    case BoolConst(b) => Boolean(b)
    case Binary(op, a, b) =>
      (match (Eval(a, input), Eval(b, input))
       case (Bv(x), Bv(y)) => if |x| == |y| then Bv(Apply(op, x, y)) else Boolean(false)
       case _ => Boolean(false))
    case Cmp(p, a, b) =>
      (match (Eval(a, input), Eval(b, input))
       case (Bv(x), Bv(y)) => Boolean(Holds(p, x, y))
       case (Boolean(x), Boolean(y)) => Boolean(x == y)
       case _ => Boolean(false))
    case BoolBinary(op, a, b) =>
      (match (Eval(a, input), Eval(b, input))
       case (Boolean(x), Boolean(y)) => Boolean(ApplyBool(op, x, y))
       case _ => Boolean(false))
    case Not(a) =>
      (match Eval(a, input) case Boolean(x) => Boolean(!x) case _ => Boolean(false))
    case SExt(a, n) =>
      (match Eval(a, input) case Bv(x) => Bv(SignExtend(x, n)) case _ => Boolean(false))
    case ZExt(a, n) =>
      (match Eval(a, input) case Bv(x) => Bv(ZeroExtend(x, n)) case _ => Boolean(false))
    case Extract(a, first, last) =>
      (match Eval(a, input)
       case Bv(x) => if 0 <= last <= first < |x| then Bv(x[last..first + 1]) else Boolean(false)
       case _ => Boolean(false))
    case Concat(a, b) =>
      (match (Eval(a, input), Eval(b, input))
       case (Bv(x), Bv(y)) => Bv(y + x)
       case _ => Boolean(false))
    case BoolToBit(a) =>
      (match Eval(a, input) case Boolean(x) => Bv([x]) case _ => Boolean(false))
  }

  /** A well-sorted expression has a value of its sort on every input. */
  lemma {:induction false} EvalHasSort(e: Expr, input: Input)
    requires SortOf(e).Some?
    ensures SortOfValue(Eval(e, input)) == SortOf(e).value
  {
    match e
    case InputByte(_) =>
    case Integer(_) =>
    case BoolConst(_) =>
    case Binary(_, a, b) => EvalHasSort(a, input); EvalHasSort(b, input);
    case Cmp(_, a, b) => EvalHasSort(a, input); EvalHasSort(b, input);
    case BoolBinary(_, a, b) => EvalHasSort(a, input); EvalHasSort(b, input);
    case Not(a) => EvalHasSort(a, input);
    case SExt(a, _) => EvalHasSort(a, input);
    case ZExt(a, _) => EvalHasSort(a, input);
    case Extract(a, _, _) => EvalHasSort(a, input);
    case Concat(a, b) => EvalHasSort(a, input); EvalHasSort(b, input);
    case BoolToBit(a) => EvalHasSort(a, input);
  }

  /** `_sym_bits_helper`: the width of a bit-vector expression (0 where there is none). */
  function Width(e: Expr): nat
  {
    match SortOf(e)
    case Some(BvSort(w)) => w
    case _ => 0
  }

  ghost predicate IsBv(e: Expr, w: nat) { SortOf(e) == Some(BvSort(w)) }

  /** The bits of a bit-vector expression on an input. */
  function BitsOn(e: Expr, input: Input): (r: Bits)
    requires SortOf(e).Some? && SortOf(e).value.BvSort?
    ensures |r| == Width(e) && Eval(e, input) == Bv(r)
  {
    EvalHasSort(e, input);
    Eval(e, input).bits
  }

  /** `e` is well sorted and its value on `input` is `v`. */
  ghost predicate Denotes(e: Expr, input: Input, v: Value)
  {
    SortOf(e) == Some(SortOfValue(v)) && Eval(e, input) == v
  }

  lemma InputDenotes(k: nat, input: Input)
    ensures Denotes(InputByte(k), input, Bv(ByteAt(input, k)))
  {
  }

  lemma ConcatDenotes(high: Expr, low: Expr, input: Input, x: Bits, y: Bits)
    requires Denotes(high, input, Bv(x)) && Denotes(low, input, Bv(y))
    ensures Denotes(Concat(high, low), input, Bv(y + x))
  {
  }

  lemma ExtractDenotes(e: Expr, input: Input, x: Bits, first: int, last: int)
    requires Denotes(e, input, Bv(x)) && 0 <= last <= first < |x|
    ensures Denotes(Extract(e, first, last), input, Bv(x[last..first + 1]))
  {
  }

  lemma WellSortedDenotes(e: Expr, w: nat, input: Input)
    requires IsBv(e, w)
    ensures |BitsOn(e, input)| == w && Denotes(e, input, Bv(BitsOn(e, input)))
  {
  }

  /** `_sym_build_not_equal` negates an equality; the other predicates are direct. */
  function BuildCompare(p: Predicate, a: Expr, b: Expr): Expr
  {
    if p == Ne then Not(Cmp(Eq, a, b)) else Cmp(p, a, b)
  }

  /** `_sym_build_integer(value, bits)`: the solver keeps the value modulo 2^bits. */
  function BuildInteger(value: nat, width: nat): (e: Expr)
    ensures IsBv(e, width)
  {
    Integer(FromInt(value, width))
  }

  // ----- createValueExpression -----

  /** Widths for which `createValueExpression` builds a constant of the value's own width. */
  predicate PlainWidth(w: nat) { w <= 64 || w == 128 }

  /** The expression built for a concrete value: a Boolean for i1, one constant up to 64
      bits, and two concatenated 64-bit halves above that, whatever the real width. */
  function ValueExpr(v: Value): Expr
  {
    match v
    case Boolean(b) => BoolConst(b)
    case Bv(bits) =>
      if |bits| <= 64 then BuildInteger(ToNat(bits), |bits|)
      else
        Concat(BuildInteger(ToNat(bits) / Pow2(64) % Pow2(64), 64),
               BuildInteger(ToNat(bits) % Pow2(64), 64))
  }

  lemma ConcatOfHalves(bits: Bits)
    requires |bits| == 128
    ensures ToNat(bits) == ToNat(bits[..64]) + Pow2(64) * ToNat(bits[64..])
    ensures ToNat(bits) % Pow2(64) == ToNat(bits[..64])
    ensures ToNat(bits) / Pow2(64) % Pow2(64) == ToNat(bits[64..])
  {
    hide ToNat, Pow2;
    var lo, hi := bits[..64], bits[64..];
    assert bits == lo + hi;
    ToNatConcat(lo, hi);
    ToNatBound(lo);
    ToNatBound(hi);
    QuotientRemainder(ToNat(lo), ToNat(hi), Pow2(64));
  }

  lemma QuotientRemainder(r: nat, q: nat, m: nat)
    requires m > 0 && r < m && q < m
    ensures (r + m * q) % m == r && (r + m * q) / m % m == q
  {
    ModUnique(r + m * q, m, r, q);
    var d := (r + m * q) / m;
    assert r + m * q == d * m + r;
    assert m * (d - q) == 0;
    assert d == q;
    ModUnique(q, m, q, 0);
  }

  /** The constant has the value's sort and value exactly when the width is plain:
      for 65 to 127 bits (or more than 128) the expression is 128 bits wide instead. */
  lemma ValueExprExact(v: Value, input: Input)
    ensures SortOf(ValueExpr(v)).Some?
    ensures Eval(ValueExpr(v), input) == v <==> (v.Bv? ==> PlainWidth(|v.bits|))
    ensures SortOf(ValueExpr(v)) == Some(SortOfValue(v)) <==> (v.Bv? ==> PlainWidth(|v.bits|))
  {
    hide ToNat, Pow2, FromNat;
    if v.Bv? {
      if |v.bits| <= 64 {
        ToNatIsResidue(v.bits);
      } else {
        EvalHasSort(ValueExpr(v), input);
        if |v.bits| == 128 {
          ConcatOfHalves(v.bits);
          ToNatIsResidue(v.bits[..64]);
          ToNatIsResidue(v.bits[64..]);
          assert v.bits == v.bits[..64] + v.bits[64..];
        }
      }
    }
  }
}
