/** Concrete memory and its byte-wise shadow as flat maps, and the run-time library's
    memory operations on them. The paged shadow of module `PagedShadow` refines these. */
module FlatMemory {
  import opened Options
  import opened BitVectors
  import opened Expressions

  /** Addresses are 64-bit; objects end below the last address, so ends never wrap. */
  const ADDRESS_SPACE: nat := 0x1_0000_0000_0000_0000

  /** Concrete bytes by address (zero where nothing was stored). */
  type Memory = map<nat, Byte>

  /** Byte expressions by address; an absent address is a null entry (concrete byte). */
  type Shadow = map<nat, Expr>

  function MemAt(m: Memory, a: nat): Byte { if a in m then m[a] else ZERO_BYTE }

  function Lookup(s: Shadow, a: nat): SymExpr { if a in s then Some(s[a]) else None }

  predicate InRange(x: int, a: int, n: int) { a <= x < a + n }

  /** The addresses of an `n`-byte region. */
  function Region(a: nat, n: nat): (r: set<nat>)
    ensures forall x :: x in r <==> a <= x < a + n
  {
    set x: nat | a <= x < a + n && InRange(x, a, n)
  }

  predicate Concrete(s: Shadow, a: nat, n: nat)
  {
    forall x :: a <= x < a + n ==> x !in s
  }

  // ----- operations on the concrete memory -----

  function LoadBits(m: Memory, a: nat, n: nat, le: bool): (r: Bits)
    ensures |r| == 8 * n
  {
    if n == 0 then []
    else
      Join(LoadBits(m, a, n - 1, le), MemAt(m, a + n - 1), le)
  }

  /** Add the byte at the next higher address to an integer. */
  function Join(rest: Bits, b: Bits, le: bool): Bits
  {
    if le then rest + b else b + rest
  }

  /** Bit position of byte `i` (in address order) of an `n`-byte integer. */
  function BytePos(i: nat, n: nat, le: bool): nat
    requires i < n
  {
    if le then 8 * i else 8 * (n - i - 1)
  }

  function ByteSlice(bits: Bits, i: nat, n: nat, le: bool): Byte
    requires |bits| == 8 * n && i < n
  {
    bits[BytePos(i, n, le)..BytePos(i, n, le) + 8]
  }

  function StoreBits(m: Memory, bits: Bits, a: nat, n: nat, le: bool): Memory
    requires |bits| == 8 * n
  {
    m + map x | x in Region(a, n) :: ByteSlice(bits, x - a, n, le)
  }

  function MoveMemory(m: Memory, dst: nat, src: nat, n: nat): Memory
  {
    m + map x | x in Region(dst, n) :: MemAt(m, src + (x - dst))
  }

  function FillMemory(m: Memory, dst: nat, n: nat, b: Byte): Memory
  {
    m + map x | x in Region(dst, n) :: b
  }

  function InputMemory(m: Memory, dst: nat, n: nat, input: Input, offset: nat): Memory
  {
    m + map x | x in Region(dst, n) :: ByteAt(input, offset + (x - dst))
  }

  // ----- operations on the shadow -----

  /** `NonNullReadShadowIterator::operator*` */
  function ByteExpr(s: Shadow, m: Memory, a: nat): Expr
  {
    if a in s then s[a] else BuildInteger(ToNat(MemAt(m, a)), 8)
  }

  /** The accumulation of `_sym_read_memory` over a region that is not concrete. */
  function GatherBytes(s: Shadow, m: Memory, a: nat, n: nat, le: bool): Expr
    requires n > 0
  {
    var b := ByteExpr(s, m, a + n - 1);
    if n == 1 then b else JoinExpr(GatherBytes(s, m, a, n - 1, le), b, le)
  }

  function JoinExpr(rest: Expr, b: Expr, le: bool): Expr
  {
    if le then Concat(b, rest) else Concat(rest, b)
  }

  lemma JoinDenotes(rest: Expr, b: Expr, le: bool, j: Input, x: Bits, y: Bits)
    requires Denotes(rest, j, Bv(x)) && Denotes(b, j, Bv(y))
    ensures Denotes(JoinExpr(rest, b, le), j, Bv(Join(x, y, le)))
  {
    ConcatDenotes(b, rest, j, y, x);
    ConcatDenotes(rest, b, j, x, y);
  }

  function ReadMemory(s: Shadow, m: Memory, a: nat, n: nat, le: bool): SymExpr
    requires n > 0
  {
    if Concrete(s, a, n) then None else Some(GatherBytes(s, m, a, n, le))
  }

  /** The extract that `_sym_write_memory` stores for byte `i`. */
  function ByteOf(e: Expr, i: nat, n: nat, le: bool): Expr
    requires i < n
  {
    if le then Extract(e, 8 * (i + 1) - 1, 8 * i)
    else Extract(e, (n - i) * 8 - 1, (n - i - 1) * 8)
  }

  function Clear(s: Shadow, a: nat, n: nat): Shadow
  {
    map x | x in s && !(a <= x < a + n) :: s[x]
  }

  function WriteMemory(s: Shadow, e: SymExpr, a: nat, n: nat, le: bool): Shadow
  {
    match e
    case None => Clear(s, a, n)
    case Some(v) => s + map x | x in Region(a, n) :: ByteOf(v, x - a, n, le)
  }

  function MoveShadow(s: Shadow, dst: nat, src: nat, n: nat): Shadow
  {
    Clear(s, dst, n) + map x | x in Region(dst, n) && src + (x - dst) in s :: s[src + (x - dst)]
  }

  function FillShadow(s: Shadow, dst: nat, n: nat, e: SymExpr): Shadow
  {
    match e
    case None => Clear(s, dst, n)
    case Some(v) => s + map x | x in Region(dst, n) :: v
  }

  function MakeSymbolic(s: Shadow, a: nat, n: nat, offset: nat): Shadow
  {
    s + map x | x in Region(a, n) :: InputByte(offset + (x - a))
  }

  // ----- what the shadow says about another input -----

  /** The byte `b'` is what the shadow predicts at `a` for input `j`. */
  ghost predicate PredictsAt(s: Shadow, m: Memory, j: Input, a: nat, b': Byte)
  {
    if a in s then Denotes(s[a], j, Bv(b')) else b' == MemAt(m, a)
  }

  /** Every non-null entry is an 8-bit expression, and `m'` is the memory that the shadow
      `s` over the concrete memory `m` predicts for input `j`. */
  ghost predicate Predicts(s: Shadow, m: Memory, j: Input, m': Memory)
  {
    forall a: nat :: PredictsAt(s, m, j, a, MemAt(m', a))
  }

  lemma ByteExprDenotes(s: Shadow, m: Memory, j: Input, a: nat, b': Byte)
    requires PredictsAt(s, m, j, a, b')
    ensures Denotes(ByteExpr(s, m, a), j, Bv(b'))
  {
    ToNatIsResidue(MemAt(m, a));
  }

  /** A gathered read has the full width and evaluates to the integer in the predicted memory. */
  lemma {:induction false} GatherDenotes(s: Shadow, m: Memory, j: Input, m': Memory, a: nat, n: nat, le: bool)
    requires n > 0 && Predicts(s, m, j, m')
    ensures Denotes(GatherBytes(s, m, a, n, le), j, Bv(LoadBits(m', a, n, le)))
  {
    hide Eval, SortOf, MemAt, ByteExpr;
    var b, b' := ByteExpr(s, m, a + n - 1), MemAt(m', a + n - 1);
    assert PredictsAt(s, m, j, a + n - 1, b');
    ByteExprDenotes(s, m, j, a + n - 1, b');
    if n == 1 {
      assert Join([], b', le) == b';
    } else {
      GatherDenotes(s, m, j, m', a, n - 1, le);
      JoinDenotes(GatherBytes(s, m, a, n - 1, le), b, le, j, LoadBits(m', a, n - 1, le), b');
    }
  }

  /** Memories that agree on a region load the same integer from it. */
  lemma {:induction false} LoadSame(m: Memory, m': Memory, a: nat, n: nat, le: bool)
    requires forall x :: a <= x < a + n ==> MemAt(m, x) == MemAt(m', x)
    ensures LoadBits(m, a, n, le) == LoadBits(m', a, n, le)
  {
    if n > 0 {
      LoadSame(m, m', a, n - 1, le);
    }
  }

  /** The value `v'` is what value `v` with expression `e` becomes on input `j`. */
  ghost predicate ValuePredicted(e: SymExpr, v: Value, j: Input, v': Value)
  {
    match e
    case None => v' == v
    case Some(x) => SortOfValue(v') == SortOfValue(v) && Denotes(x, j, v')
  }

  /** A read returns null only on a concrete region, whose integer no input can change;
      otherwise its expression is that integer on every input. */
  lemma ReadIsRight(s: Shadow, m: Memory, j: Input, m': Memory, a: nat, n: nat, le: bool)
    requires n > 0 && Predicts(s, m, j, m')
    ensures ValuePredicted(ReadMemory(s, m, a, n, le), Bv(LoadBits(m, a, n, le)), j, Bv(LoadBits(m', a, n, le)))
  {
    if Concrete(s, a, n) {
      forall x | a <= x < a + n
        ensures MemAt(m, x) == MemAt(m', x)
      {
        assert PredictsAt(s, m, j, x, MemAt(m', x));
      }
      LoadSame(m, m', a, n, le);
    } else {
      GatherDenotes(s, m, j, m', a, n, le);
    }
  }

  /** A read is null if and only if every byte of its region has a null entry. */
  lemma ReadNull(s: Shadow, m: Memory, a: nat, n: nat, le: bool)
    requires n > 0
    ensures ReadMemory(s, m, a, n, le) == None <==> forall x: nat :: a <= x < a + n ==> Lookup(s, x) == None
  {
    hide GatherBytes;
    if forall x: nat :: a <= x < a + n ==> Lookup(s, x) == None {
      forall x | a <= x < a + n
        ensures x !in s
      {
        assert Lookup(s, x) == None;
      }
    }
  }

  // ----- each operation keeps the prediction -----

  lemma ByteOfDenotes(e: Expr, j: Input, bits: Bits, i: nat, n: nat, le: bool)
    requires |bits| == 8 * n && Denotes(e, j, Bv(bits)) && i < n
    ensures Denotes(ByteOf(e, i, n, le), j, Bv(ByteSlice(bits, i, n, le)))
  {
    var p := BytePos(i, n, le);
    ExtractDenotes(e, j, bits, p + 7, p);
  }

  lemma WriteKeepsAt(s: Shadow, m: Memory, j: Input, m': Memory,
                     e: SymExpr, v: Bits, v': Bits, a: nat, n: nat, le: bool, x: nat)
    requires PredictsAt(s, m, j, x, MemAt(m', x))
    requires |v| == |v'| == 8 * n && ValuePredicted(e, Bv(v), j, Bv(v'))
    ensures PredictsAt(WriteMemory(s, e, a, n, le), StoreBits(m, v, a, n, le), j, x,
                       MemAt(StoreBits(m', v', a, n, le), x))
  {
    hide Eval, SortOf, ByteSlice, ByteOf;
    if a <= x < a + n && e.Some? {
      ByteOfDenotes(e.value, j, v', x - a, n, le);
    }
  }

  lemma WriteKeeps(s: Shadow, m: Memory, j: Input, m': Memory,
                   e: SymExpr, v: Bits, v': Bits, a: nat, n: nat, le: bool)
    requires Predicts(s, m, j, m')
    requires |v| == |v'| == 8 * n && ValuePredicted(e, Bv(v), j, Bv(v'))
    ensures Predicts(WriteMemory(s, e, a, n, le), StoreBits(m, v, a, n, le), j, StoreBits(m', v', a, n, le))
  {
    hide Eval, SortOf, WriteMemory, StoreBits, MemAt;
    forall x: nat
      ensures PredictsAt(WriteMemory(s, e, a, n, le), StoreBits(m, v, a, n, le), j, x,
                         MemAt(StoreBits(m', v', a, n, le), x))
    {
      assert PredictsAt(s, m, j, x, MemAt(m', x));
      WriteKeepsAt(s, m, j, m', e, v, v', a, n, le, x);
    }
  }

  lemma MoveKeeps(s: Shadow, m: Memory, j: Input, m': Memory, dst: nat, src: nat, n: nat)
    requires Predicts(s, m, j, m')
    ensures Predicts(MoveShadow(s, dst, src, n), MoveMemory(m, dst, src, n), j, MoveMemory(m', dst, src, n))
  {
    hide PredictsAt, MoveShadow, MoveMemory;
    forall x: nat
      ensures PredictsAt(MoveShadow(s, dst, src, n), MoveMemory(m, dst, src, n), j, x,
                         MemAt(MoveMemory(m', dst, src, n), x))
    {
      var y := if dst <= x < dst + n then src + (x - dst) else x;
      MoveKeepsAt(s, m, j, m', dst, src, n, x, y);
    }
  }

  lemma MoveKeepsAt(s: Shadow, m: Memory, j: Input, m': Memory, dst: nat, src: nat, n: nat, x: nat, y: nat)
    requires y == (if dst <= x < dst + n then src + (x - dst) else x) && PredictsAt(s, m, j, y, MemAt(m', y))
    ensures PredictsAt(MoveShadow(s, dst, src, n), MoveMemory(m, dst, src, n), j, x,
                       MemAt(MoveMemory(m', dst, src, n), x))
  {
    hide Denotes, MoveShadow, MoveMemory, MemAt;
    MovedShadow(s, dst, src, n, x, y);
    MovedMemory(m, dst, src, n, x, y);
    MovedMemory(m', dst, src, n, x, y);
  }

  lemma MovedShadow(s: Shadow, dst: nat, src: nat, n: nat, x: nat, y: nat)
    requires y == if dst <= x < dst + n then src + (x - dst) else x
    ensures var t := MoveShadow(s, dst, src, n); (x in t <==> y in s) && (x in t ==> t[x] == s[y])
  {
  }

  lemma MovedMemory(m: Memory, dst: nat, src: nat, n: nat, x: nat, y: nat)
    requires y == if dst <= x < dst + n then src + (x - dst) else x
    ensures MemAt(MoveMemory(m, dst, src, n), x) == MemAt(m, y)
  {
  }

  lemma FillKeeps(s: Shadow, m: Memory, j: Input, m': Memory, e: SymExpr, b: Byte, b': Byte, dst: nat, n: nat)
    requires Predicts(s, m, j, m') && ValuePredicted(e, Bv(b), j, Bv(b'))
    ensures Predicts(FillShadow(s, dst, n, e), FillMemory(m, dst, n, b), j, FillMemory(m', dst, n, b'))
  {
    hide Eval, SortOf;
    forall x: nat
      ensures PredictsAt(FillShadow(s, dst, n, e), FillMemory(m, dst, n, b), j, x,
                         MemAt(FillMemory(m', dst, n, b'), x))
    {
      assert PredictsAt(s, m, j, x, MemAt(m', x));
    }
  }

  lemma MakeSymbolicKeeps(s: Shadow, m: Memory, i: Input, j: Input, m': Memory, a: nat, n: nat, offset: nat)
    requires Predicts(s, m, j, m')
    ensures Predicts(MakeSymbolic(s, a, n, offset), InputMemory(m, a, n, i, offset), j,
                     InputMemory(m', a, n, j, offset))
  {
    hide PredictsAt, MakeSymbolic, InputMemory;
    forall x: nat
      ensures PredictsAt(MakeSymbolic(s, a, n, offset), InputMemory(m, a, n, i, offset), j, x,
                         MemAt(InputMemory(m', a, n, j, offset), x))
    {
      MakeSymbolicKeepsAt(s, m, i, j, m', a, n, offset, x);
    }
  }

  lemma MakeSymbolicKeepsAt(s: Shadow, m: Memory, i: Input, j: Input, m': Memory, a: nat, n: nat, offset: nat, x: nat)
    requires PredictsAt(s, m, j, x, MemAt(m', x))
    ensures PredictsAt(MakeSymbolic(s, a, n, offset), InputMemory(m, a, n, i, offset), j, x,
                       MemAt(InputMemory(m', a, n, j, offset), x))
  {
    hide Denotes;
    var t := MakeSymbolic(s, a, n, offset);
    if a <= x < a + n {
      InputDenotes(offset + (x - a), j);
      assert x in t && t[x] == InputByte(offset + (x - a));
      assert MemAt(InputMemory(m', a, n, j, offset), x) == ByteAt(j, offset + (x - a));
    } else {
      assert x in t <==> x in s;
      assert MemAt(InputMemory(m', a, n, j, offset), x) == MemAt(m', x);
      assert MemAt(InputMemory(m, a, n, i, offset), x) == MemAt(m, x);
    }
  }
  // ----- write/read round trip -----

  /** Bytes `i` to `i+k` (in address order) of an `n`-byte integer. */
  function ByteSliceRange(bits: Bits, i: nat, k: nat, n: nat, le: bool): (r: Bits)
    requires |bits| == 8 * n && i + k <= n
    ensures |r| == 8 * k
  {
    if le then bits[8 * i..8 * (i + k)] else bits[8 * (n - i - k)..8 * (n - i)]
  }

  lemma SliceSplit(bits: Bits, i: nat, k: nat, n: nat, le: bool)
    requires |bits| == 8 * n && i + k <= n && k > 0
    ensures ByteSliceRange(bits, i, k, n, le)
            == Join(ByteSliceRange(bits, i, k - 1, n, le), ByteSlice(bits, i + k - 1, n, le), le)
  {
    if le {
      JoinSlices(bits, 8 * i, 8 * (i + k - 1), 8 * (i + k));
    } else {
      JoinSlices(bits, 8 * (n - i - k), 8 * (n - i - k + 1), 8 * (n - i));
    }
  }

  lemma JoinSlices(bits: Bits, x: nat, y: nat, z: nat)
    requires x <= y <= z <= |bits|
    ensures bits[x..z] == bits[x..y] + bits[y..z]
  {
  }

  lemma WrittenByte(s: Shadow, m: Memory, e: Expr, a: nat, n: nat, le: bool, i: nat)
    requires i < n
    ensures ByteExpr(WriteMemory(s, Some(e), a, n, le), m, a + i) == ByteOf(e, i, n, le)
  {
  }

  lemma {:induction false} GatherWritten(s: Shadow, m: Memory, e: Expr, a: nat, n: nat, le: bool,
                                         i: nat, k: nat, j: Input, bits: Bits)
    requires |bits| == 8 * n && Denotes(e, j, Bv(bits)) && 0 < k && i + k <= n
    ensures Denotes(GatherBytes(WriteMemory(s, Some(e), a, n, le), m, a + i, k, le), j,
                    Bv(ByteSliceRange(bits, i, k, n, le)))
  {
    hide Eval, SortOf, WriteMemory, ByteExpr, ByteSlice, ByteSliceRange, ByteOf;
    var t := WriteMemory(s, Some(e), a, n, le);
    var b := ByteExpr(t, m, a + i + k - 1);
    WrittenByte(s, m, e, a, n, le, i + k - 1);
    ByteOfDenotes(e, j, bits, i + k - 1, n, le);
    SliceSplit(bits, i, k, n, le);
    if k == 1 {
      assert Join([], ByteSlice(bits, i, n, le), le) == ByteSlice(bits, i, n, le);
    } else {
      GatherWritten(s, m, e, a, n, le, i, k - 1, j, bits);
      JoinDenotes(GatherBytes(t, m, a + i, k - 1, le), b, le, j,
                  ByteSliceRange(bits, i, k - 1, n, le), ByteSlice(bits, i + k - 1, n, le));
    }
  }

  /** Reading any sub-range of what was just written gives, on every input, the matching
      bit slice of the written expression. */
  lemma WriteThenRead(s: Shadow, m: Memory, e: Expr, a: nat, n: nat, le: bool, i: nat, k: nat, j: Input)
    requires IsBv(e, 8 * n) && k > 0 && i + k <= n
    ensures var r := ReadMemory(WriteMemory(s, Some(e), a, n, le), m, a + i, k, le);
            r.Some? && Denotes(r.value, j, Bv(ByteSliceRange(BitsOn(e, j), i, k, n, le)))
  {
    hide Eval, SortOf, GatherBytes, ByteOf, ByteSliceRange;
    assert a + i in WriteMemory(s, Some(e), a, n, le);
    WellSortedDenotes(e, 8 * n, j);
    GatherWritten(s, m, e, a, n, le, i, k, j, BitsOn(e, j));
  }

  /** Reading the whole range gives an expression equal to the one written, on every input. */
  lemma WriteThenReadWhole(s: Shadow, m: Memory, e: Expr, a: nat, n: nat, le: bool, j: Input)
    requires IsBv(e, 8 * n) && n > 0
    ensures var r := ReadMemory(WriteMemory(s, Some(e), a, n, le), m, a, n, le);
            r.Some? && SortOf(r.value) == SortOf(e) && Eval(r.value, j) == Eval(e, j)
  {
    hide SortOf, WriteMemory, ReadMemory;
    WriteThenRead(s, m, e, a, n, le, 0, n, j);
    assert ByteSliceRange(BitsOn(e, j), 0, n, n, le) == BitsOn(e, j);
  }
}
