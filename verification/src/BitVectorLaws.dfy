/** What the operators, orders and extensions of bit vectors mean as arithmetic on their
    unsigned and signed readings, for every width. */
module BitVectorLaws {
  import opened BitVectors

  // ----- division with remainder -----

  lemma DivUnique(n: int, m: int, q: int, r: int)
    requires 0 <= r < m && n == r + q * m
    ensures n / m == q && n % m == r
  {
    ModUnique(n, m, r, q);
    var k := n / m;
    assert n == k * m + r;
    MulDistributes(m, q, 0 - k);
    if q > k {
      MulAtLeast(q - k, m);
    } else if q < k {
      MulAtLeast(k - q, m);
    }
  }

  lemma DivMod(n: nat, m: nat)
    requires m > 0
    ensures n == (n / m) * m + n % m && 0 <= n % m < m && 0 <= n / m <= n
  {
    var q := n / m;
    MulAtLeast(m, if q > 0 then q else 1);
  }

  // ----- the range of both readings -----

  lemma {:induction false} TopBitValue(b: Bits)
    requires |b| > 0
    ensures b[|b| - 1] <==> ToNat(b) >= Pow2(|b| - 1)
  {
    var lo, hi := b[..|b| - 1], b[|b| - 1..];
    assert b == lo + hi && hi == [b[|b| - 1]];
    ToNatConcat(lo, hi);
    ToNatBound(lo);
    assert hi[1..] == [];
    assert ToNat(hi) == Bit(b[|b| - 1]);
    hide ToNat, Pow2;
  }

  lemma ToIntRange(b: Bits)
    requires |b| > 0
    ensures 0 - Pow2(|b| - 1) <= ToInt(b) < Pow2(|b| - 1)
  {
    TopBitValue(b);
    ToNatBound(b);
    assert Pow2(|b|) == 2 * Pow2(|b| - 1);
    hide ToNat, Pow2;
  }

  lemma FromIntNat(n: nat, w: nat)
    requires n < Pow2(w)
    ensures ToNat(FromInt(n, w)) == n
  {
    hide ToNat, Pow2, FromNat;
    FromIntToNat(n, w);
    ModUnique(n, Pow2(w), n, 0);
  }

  /** Numbers in the signed range are their own signed reading. */
  lemma FromIntSigned(n: int, w: nat)
    requires w > 0 && 0 - Pow2(w - 1) <= n < Pow2(w - 1)
    ensures ToInt(FromInt(n, w)) == n
  {
    var b := FromInt(n, w);
    TopBitValue(b);
    assert Pow2(w) == 2 * Pow2(w - 1);
    hide ToNat, Pow2, FromNat;
    FromIntToNat(n, w);
    ModUnique(n, Pow2(w), if n < 0 then n + Pow2(w) else n, if n < 0 then -1 else 0);
  }

  // ----- addition and subtraction -----

  lemma AddValue(a: Bits, b: Bits)
    requires |a| == |b|
    ensures ToNat(Apply(Add, a, b)) == (ToNat(a) + ToNat(b)) % Pow2(|a|)
    ensures ToNat(Apply(Sub, a, b)) == (ToNat(a) - ToNat(b)) % Pow2(|a|)
    ensures ToNat(Apply(Mul, a, b)) == (ToNat(a) * ToNat(b)) % Pow2(|a|)
  {
    hide ToNat, Pow2, FromNat;
    FromIntToNat(ToNat(a) + ToNat(b), |a|);
    FromIntToNat(ToNat(a) - ToNat(b), |a|);
    FromIntToNat(ToNat(a) * ToNat(b), |a|);
  }

  /** Subtraction undoes addition, and addition undoes subtraction. */
  lemma SubUndoesAdd(a: Bits, b: Bits)
    requires |a| == |b|
    ensures Apply(Sub, Apply(Add, a, b), b) == a
    ensures Apply(Add, Apply(Sub, a, b), b) == a
  {
    hide ToNat, Pow2, FromNat, Apply;
    AddValue(a, b);
    AddValue(Apply(Add, a, b), b);
    AddValue(Apply(Sub, a, b), b);
    ModAdd(ToNat(a) + ToNat(b), 0 - ToNat(b), Pow2(|a|));
    ModAdd(ToNat(a) - ToNat(b), ToNat(b), Pow2(|a|));
    ToNatIsResidue(a);
    SameValue(Apply(Sub, Apply(Add, a, b), b), a);
    SameValue(Apply(Add, Apply(Sub, a, b), b), a);
  }

  lemma SameValue(a: Bits, b: Bits)
    requires |a| == |b| && ToNat(a) == ToNat(b)
    ensures a == b
  {
    FromToNat(a);
    FromToNat(b);
  }

  // ----- unsigned division -----

  /** Quotient times divisor plus remainder is the dividend, and the remainder is below the
      divisor; by zero, the quotient is all ones and the remainder the dividend. */
  lemma UnsignedDivision(a: Bits, b: Bits)
    requires |a| == |b|
    ensures var q, r := ToNat(Apply(UDiv, a, b)), ToNat(Apply(URem, a, b));
            if ToNat(b) == 0 then q == Pow2(|a|) - 1 && r == ToNat(a)
            else q * ToNat(b) + r == ToNat(a) && r < ToNat(b)
  {
    hide ToNat, Pow2, FromNat;
    var x, y := ToNat(a), ToNat(b);
    ToNatReplicate(true, |a|);
    if y != 0 {
      DivMod(x, y);
      ToNatBound(a);
      ToNatBound(b);
      FromIntNat(x / y, |a|);
      FromIntNat(x % y, |a|);
    }
  }

  // ----- signed division -----

  /** The dividend is the most negative number and the divisor -1. */
  predicate Overflows(a: Bits, b: Bits) { |a| > 0 && ToInt(a) == 0 - Pow2(|a| - 1) && ToInt(b) == -1 }

  lemma TruncLaws(x: int, y: int)
    requires y != 0
    ensures TruncDiv(x, y) * y + TruncRem(x, y) == x
    ensures Abs(TruncRem(x, y)) < Abs(y) && (TruncRem(x, y) != 0 ==> (TruncRem(x, y) < 0 <==> x < 0))
    ensures Abs(TruncDiv(x, y)) <= Abs(x)
    ensures Abs(TruncDiv(x, y)) == Abs(x) > 0 ==> Abs(y) == 1
    ensures TruncDiv(x, y) > 0 ==> (x < 0 <==> y < 0)
  {
    DivMod(Abs(x), Abs(y));
    if Abs(x) / Abs(y) == Abs(x) > 0 {
      SmallQuotient(Abs(x), Abs(y));
    }
    SignedProduct(Abs(x) / Abs(y), y);
  }

  lemma SmallQuotient(n: nat, m: nat)
    requires m > 0 && n / m == n > 0
    ensures m == 1
  {
    DivMod(n, m);
    MulAtLeast(n, m);
    if m >= 2 {
      MulDistributes(n, m - 1, 1);
      MulAtLeast(n, m - 1);
    }
  }

  lemma SignedProduct(q: nat, y: int)
    ensures q * Abs(y) == if y < 0 then (0 - q) * y else q * y
    ensures (0 - q) * Abs(y) == if y < 0 then q * y else (0 - q) * y
  {
  }

  /** Rounding is towards zero, and the remainder has the dividend's sign; only the quotient
      of the most negative number by -1 wraps around, to the dividend itself. By zero, the
      quotient is 1 or -1 against the dividend's sign, and the remainder the dividend. */
  lemma SignedDivision(a: Bits, b: Bits)
    requires |a| == |b| > 0
    ensures var x, y := ToInt(a), ToInt(b);
            var q, r := ToInt(Apply(SDiv, a, b)), ToInt(Apply(SRem, a, b));
            if y == 0 then Apply(SDiv, a, b) == FromInt(if x < 0 then 1 else -1, |a|) && r == x
            else
              && Abs(r) < Abs(y) && (r != 0 ==> (r < 0 <==> x < 0))
              && if Overflows(a, b) then q == x && r == 0 else q * y + r == x
  {
    hide ToNat, Pow2, FromInt, ToInt, TruncDiv, TruncRem, Overflows;
    if ToInt(b) != 0 {
      SignedRemainder(a, b);
      SignedQuotient(a, b);
      TruncLaws(ToInt(a), ToInt(b));
      if Overflows(a, b) {
        assert ToInt(b) == -1 && ToInt(a) < 0 by { OverflowIs(a, b); }
        OverflowQuotient(ToInt(a));
      }
    }
  }

  lemma OverflowIs(a: Bits, b: Bits)
    requires |a| > 0 && Overflows(a, b)
    ensures ToInt(b) == -1 && ToInt(a) == 0 - Pow2(|a| - 1) && ToInt(a) < 0
  {
    hide ToNat, Pow2, ToInt;
  }

  lemma SignedRemainder(a: Bits, b: Bits)
    requires |a| == |b| > 0 && ToInt(b) != 0
    ensures ToInt(FromInt(TruncRem(ToInt(a), ToInt(b)), |a|)) == TruncRem(ToInt(a), ToInt(b))
  {
    hide ToNat, Pow2, FromInt, ToInt, TruncDiv, TruncRem;
    TruncLaws(ToInt(a), ToInt(b));
    ToIntRange(b);
    FromIntSigned(TruncRem(ToInt(a), ToInt(b)), |a|);
  }

  lemma NoOverflow(x: int, y: int, q: int, m: nat)
    requires 0 - m <= x < m && Abs(q) <= Abs(x) && (q > 0 ==> (x < 0 <==> y < 0))
    requires (Abs(q) == Abs(x) > 0 ==> Abs(y) == 1) && !(x == 0 - m && y == -1)
    ensures 0 - m <= q < m
  {
  }

  lemma SignedQuotient(a: Bits, b: Bits)
    requires |a| == |b| > 0 && ToInt(b) != 0
    ensures ToInt(FromInt(TruncDiv(ToInt(a), ToInt(b)), |a|))
            == if Overflows(a, b) then ToInt(a) else TruncDiv(ToInt(a), ToInt(b))
  {
    var w, q := |a|, TruncDiv(ToInt(a), ToInt(b));
    assert Pow2(w) == 2 * Pow2(w - 1);
    hide ToNat, Pow2, FromInt, ToInt, TruncDiv, TruncRem;
    TruncLaws(ToInt(a), ToInt(b));
    ToIntRange(a);
    if Overflows(a, b) {
      OverflowQuotient(ToInt(a));
      SameResidues(Pow2(w - 1), 0 - Pow2(w - 1), w);
      FromIntSigned(0 - Pow2(w - 1), w);
    } else {
      NoOverflow(ToInt(a), ToInt(b), q, Pow2(w - 1));
      FromIntSigned(q, w);
    }
  }

  lemma OverflowQuotient(x: int)
    requires x < 0
    ensures TruncDiv(x, -1) == -x && TruncRem(x, -1) == 0
  {
    DivUnique(-x, 1, -x, 0);
  }

  lemma SameResidues(x: int, y: int, w: nat)
    requires x - y == Pow2(w)
    ensures FromInt(x, w) == FromInt(y, w)
  {
    hide Pow2, FromNat;
    ModShift(y, 1, Pow2(w));
  }

  // ----- shifts -----

  lemma {:induction false} Pow2Larger(m: nat, n: nat)
    requires m <= n
    ensures Pow2(m) <= Pow2(n)
  {
    if m < n {
      Pow2Larger(m, n - 1);
    }
  }

  lemma SplitValue(a: Bits, s: nat)
    requires s <= |a|
    ensures ToNat(a) == ToNat(a[..s]) + Pow2(s) * ToNat(a[s..]) && ToNat(a[..s]) < Pow2(s)
  {
    assert a == a[..s] + a[s..];
    ToNatConcat(a[..s], a[s..]);
    ToNatBound(a[..s]);
  }

  /** Shifting left multiplies by a power of two. */
  lemma ShiftLeft(a: Bits, b: Bits)
    requires |a| == |b|
    ensures ToNat(Apply(Shl, a, b)) == (ToNat(a) * Pow2(ToNat(b))) % Pow2(|a|)
  {
    var w, s := |a|, ToNat(b);
    hide ToNat, Pow2, Replicate;
    if s >= w {
      ToNatReplicate(false, w);
      Vanishes(ToNat(a), s, w);
    } else {
      ShiftedIn(a, s);
    }
  }

  lemma Vanishes(n: nat, s: nat, w: nat)
    requires s >= w
    ensures (n * Pow2(s)) % Pow2(w) == 0
  {
    hide Pow2;
    Pow2Add(s - w, w);
    MulAssoc(n, Pow2(s - w), Pow2(w));
    ModUnique(n * Pow2(s), Pow2(w), 0, n * Pow2(s - w));
  }

  lemma ShiftedIn(a: Bits, s: nat)
    requires s < |a|
    ensures ToNat(Replicate(false, s) + a[..|a| - s]) == (ToNat(a) * Pow2(s)) % Pow2(|a|)
  {
    hide ToNat, Pow2, Replicate;
    var k := |a| - s;
    SplitValue(a, k);
    Pow2Add(k, s);
    ToNatReplicate(false, s);
    ToNatConcat(Replicate(false, s), a[..k]);
    ShiftedProduct(ToNat(a[..k]), ToNat(a[k..]), Pow2(k), Pow2(s));
    ModUnique(ToNat(a) * Pow2(s), Pow2(|a|), Pow2(s) * ToNat(a[..k]), ToNat(a[k..]));
  }

  lemma ShiftedProduct(lo: nat, hi: nat, p: nat, s: nat)
    requires lo < p && s > 0
    ensures (lo + p * hi) * s == s * lo + hi * (p * s) && s * lo < p * s
  {
    MulDistributes(s, lo, p * hi);
    MulAssoc(hi, p, s);
    MulAtLeast(p - lo, s);
    MulDistributes(s, p, 0 - lo);
  }

  /** Shifting right logically divides by a power of two. */
  lemma ShiftRight(a: Bits, b: Bits)
    requires |a| == |b|
    ensures ToNat(Apply(LShr, a, b)) == ToNat(a) / Pow2(ToNat(b))
  {
    var w, s := |a|, ToNat(b);
    hide ToNat, Pow2, Replicate;
    if s >= w {
      ToNatReplicate(false, w);
      ToNatBound(a);
      Pow2Larger(w, s);
      DivUnique(ToNat(a), Pow2(s), 0, ToNat(a));
    } else {
      ShiftedOut(a, s);
    }
  }

  lemma ShiftedOut(a: Bits, s: nat)
    requires s < |a|
    ensures ToNat(a[s..] + Replicate(false, s)) == ToNat(a) / Pow2(s)
  {
    hide ToNat, Pow2, Replicate;
    SplitValue(a, s);
    ToNatReplicate(false, s);
    ToNatConcat(a[s..], Replicate(false, s));
    DivUnique(ToNat(a), Pow2(s), ToNat(a[s..]), ToNat(a[..s]));
  }

  /** The signed reading of the upper part. */
  lemma SplitSigned(a: Bits, s: nat)
    requires s < |a|
    ensures ToInt(a) == ToNat(a[..s]) + Pow2(s) * ToInt(a[s..])
  {
    hide ToNat, ToInt, Pow2;
    SplitValue(a, s);
    Pow2Add(s, |a| - s);
    SignedValue(a);
    SignedValue(a[s..]);
    SignedParts(ToNat(a[..s]), ToNat(a[s..]), Pow2(s), Pow2(|a| - s), a[|a| - 1]);
  }

  lemma SignedParts(lo: int, hi: int, p: int, q: int, sign: bool)
    ensures lo + p * hi - (if sign then p * q else 0) == lo + p * (hi - if sign then q else 0)
  {
    MulDistributes(p, hi, -q);
  }

  lemma SignedValue(a: Bits)
    requires |a| > 0
    ensures ToInt(a) == ToNat(a) - if a[|a| - 1] then Pow2(|a|) else 0
  {
    hide ToNat, Pow2;
  }

  /** Shifting right arithmetically divides by a power of two, rounding down. */
  lemma ShiftArithmetic(a: Bits, b: Bits)
    requires |a| == |b| > 0
    ensures ToInt(Apply(AShr, a, b)) == ToInt(a) / Pow2(ToNat(b))
  {
    var w, s := |a|, ToNat(b);
    hide ToNat, ToInt, Pow2, Replicate;
    if s >= w {
      OnlySign(a, s);
    } else {
      SignShiftedOut(a, s);
    }
  }

  lemma OnlySign(a: Bits, s: nat)
    requires s >= |a| > 0
    ensures ToInt(Replicate(a[|a| - 1], |a|)) == ToInt(a) / Pow2(s)
  {
    AllSign(a[|a| - 1], |a|);
    hide ToNat, Pow2, Replicate;
    ToIntRange(a);
    Pow2Larger(|a| - 1, s);
    ToNatBound(a);
    hide ToInt;
    SignIs(a);
    if a[|a| - 1] {
      DivUnique(ToInt(a), Pow2(s), -1, ToInt(a) + Pow2(s));
    } else {
      DivUnique(ToInt(a), Pow2(s), 0, ToInt(a));
    }
  }

  lemma SignIs(a: Bits)
    requires |a| > 0
    ensures a[|a| - 1] <==> ToInt(a) < 0
  {
    hide ToNat, Pow2;
    ToNatBound(a);
  }

  lemma SignShiftedOut(a: Bits, s: nat)
    requires s < |a|
    ensures ToInt(a[s..] + Replicate(a[|a| - 1], s)) == ToInt(a) / Pow2(s)
  {
    hide ToNat, ToInt, Pow2, Replicate;
    SplitValue(a, s);
    SplitSigned(a, s);
    assert SignExtend(a[s..], s) == a[s..] + Replicate(a[|a| - 1], s);
    hide SignExtend;
    SignExtendKeeps(a[s..], s);
    DivUnique(ToInt(a), Pow2(s), ToInt(a[s..]), ToNat(a[..s]));
  }

  lemma AllSign(sign: bool, w: nat)
    requires w > 0
    ensures ToInt(Replicate(sign, w)) == if sign then -1 else 0
  {
    hide ToNat, Pow2;
    ToNatReplicate(sign, w);
  }

  // ----- bitwise operators -----

  /** Every bit of the result is that operator on the bits of the operands. */
  lemma BitwiseBits(a: Bits, b: Bits, i: nat)
    requires |a| == |b| && i < |a|
    ensures Apply(And, a, b)[i] <==> a[i] && b[i]
    ensures Apply(Or, a, b)[i] <==> a[i] || b[i]
    ensures Apply(Xor, a, b)[i] <==> a[i] != b[i]
  {
  }

  /** Conjunction and disjunction sum to the operands, and the exclusive or is their difference. */
  lemma {:induction false} BitwiseSums(a: Bits, b: Bits)
    requires |a| == |b|
    ensures ToNat(Apply(And, a, b)) + ToNat(Apply(Or, a, b)) == ToNat(a) + ToNat(b)
    ensures ToNat(Apply(Xor, a, b)) == ToNat(Apply(Or, a, b)) - ToNat(Apply(And, a, b))
    ensures ToNat(Apply(And, a, b)) <= ToNat(a) <= ToNat(Apply(Or, a, b))
  {
    if |a| > 0 {
      BitwiseSums(a[1..], b[1..]);
      BitwiseTail(a, b);
    }
  }

  lemma BitwiseTail(a: Bits, b: Bits)
    requires |a| == |b| > 0
    ensures Apply(And, a, b)[1..] == Apply(And, a[1..], b[1..])
    ensures Apply(Or, a, b)[1..] == Apply(Or, a[1..], b[1..])
    ensures Apply(Xor, a, b)[1..] == Apply(Xor, a[1..], b[1..])
  {
  }

  // ----- orders -----

  /** `a` is below `b` in the highest bit in which they differ. */
  predicate BelowInBits(a: Bits, b: Bits)
    requires |a| == |b|
  {
    exists i :: 0 <= i < |a| && !a[i] && b[i] && a[i + 1..] == b[i + 1..]
  }

  lemma BelowAt(a: Bits, b: Bits, i: nat)
    requires |a| == |b| && i < |a| && !a[i] && b[i] && a[i + 1..] == b[i + 1..]
    ensures ToNat(a) < ToNat(b)
  {
    hide Pow2;
    SplitValue(a, i);
    SplitValue(b, i);
    assert a[i..][1..] == a[i + 1..] == b[i..][1..];
    assert ToNat(b[i..]) == ToNat(a[i..]) + 1;
    hide ToNat;
    MulDistributes(Pow2(i), ToNat(a[i..]), 1);
  }

  lemma {:induction false} DifferentBits(a: Bits, b: Bits) returns (i: nat)
    requires |a| == |b| && a != b
    ensures i < |a| && a[i] != b[i] && a[i + 1..] == b[i + 1..]
  {
    i := |a| - 1;
    if a[i] == b[i] {
      var c, d := a[..i], b[..i];
      assert a == c + [a[i]] && b == d + [b[i]];
      var k := DifferentBits(c, d);
      assert a[k + 1..] == c[k + 1..] + [a[i]];
      assert b[k + 1..] == d[k + 1..] + [b[i]];
      i := k;
    }
  }

  /** The unsigned order is the lexicographic one from the highest bit down. */
  lemma UnsignedOrder(a: Bits, b: Bits)
    requires |a| == |b|
    ensures Holds(Ult, a, b) <==> BelowInBits(a, b)
    ensures Holds(Ugt, a, b) == BelowInBits(b, a)
    ensures Holds(Ule, a, b) == !BelowInBits(b, a) && Holds(Uge, a, b) == !BelowInBits(a, b)
  {
    hide ToNat;
    if a != b {
      var i := DifferentBits(a, b);
      if b[i] {
        BelowAt(a, b, i);
        assert BelowInBits(a, b);
        NotBoth(a, b);
      } else {
        BelowAt(b, a, i);
        assert BelowInBits(b, a);
        NotBoth(b, a);
      }
    } else {
      NotBelowItself(a);
    }
  }

  lemma NotBoth(a: Bits, b: Bits)
    requires |a| == |b| && ToNat(a) < ToNat(b)
    ensures !BelowInBits(b, a)
  {
    hide ToNat;
    forall i | 0 <= i < |a| && !b[i] && a[i] && b[i + 1..] == a[i + 1..]
      ensures false
    {
      BelowAt(b, a, i);
    }
  }

  lemma NotBelowItself(a: Bits)
    ensures !BelowInBits(a, a)
  {
  }

  function FlipTop(b: Bits): (r: Bits)
    requires |b| > 0
    ensures |r| == |b|
  {
    b[|b| - 1 := !b[|b| - 1]]
  }

  lemma FlipTopValue(b: Bits)
    requires |b| > 0
    ensures ToNat(FlipTop(b)) == ToInt(b) + Pow2(|b| - 1)
  {
    var n := |b| - 1;
    TopAndRest(b);
    TopAndRest(FlipTop(b));
    assert FlipTop(b)[..n] == b[..n];
    SignedValue(b);
    assert Pow2(|b|) == 2 * Pow2(n);
    hide ToNat, ToInt, Pow2;
  }

  lemma TopAndRest(b: Bits)
    requires |b| > 0
    ensures ToNat(b) == ToNat(b[..|b| - 1]) + if b[|b| - 1] then Pow2(|b| - 1) else 0
  {
    hide ToNat, Pow2;
    var n := |b| - 1;
    OneBit(b[n]);
    SplitValue(b, n);
    assert b[n..] == [b[n]];
    BitTimes(Pow2(n), b[n]);
  }

  lemma BitTimes(n: nat, b: bool)
    ensures n * Bit(b) == if b then n else 0
  {
  }

  lemma OneBit(b: bool)
    ensures ToNat([b]) == Bit(b)
  {
    assert [b][1..] == [];
  }

  /** The signed order is the unsigned one with the top bits flipped. */
  lemma SignedOrder(a: Bits, b: Bits)
    requires |a| == |b| > 0
    ensures Holds(Slt, a, b) <==> Holds(Ult, FlipTop(a), FlipTop(b))
    ensures Holds(Sle, a, b) <==> Holds(Ule, FlipTop(a), FlipTop(b))
    ensures Holds(Sgt, a, b) <==> Holds(Ugt, FlipTop(a), FlipTop(b))
    ensures Holds(Sge, a, b) <==> Holds(Uge, FlipTop(a), FlipTop(b))
  {
    hide ToNat, ToInt, Pow2, FlipTop;
    FlipTopValue(a);
    FlipTopValue(b);
  }

  /** Equality is equality of both readings. */
  lemma EqualityOrder(a: Bits, b: Bits)
    requires |a| == |b|
    ensures Holds(Eq, a, b) <==> ToNat(a) == ToNat(b)
    ensures Holds(Ne, a, b) <==> !Holds(Eq, a, b)
    ensures |a| > 0 ==> (Holds(Eq, a, b) <==> ToInt(a) == ToInt(b))
  {
    if ToNat(a) == ToNat(b) {
      SameValue(a, b);
    }
    if |a| > 0 && ToInt(a) == ToInt(b) {
      SignedSame(a, b);
    }
  }

  lemma SignedSame(a: Bits, b: Bits)
    requires |a| == |b| > 0 && ToInt(a) == ToInt(b)
    ensures a == b
  {
    hide ToNat, ToInt, Pow2, FlipTop;
    FlipTopValue(a);
    FlipTopValue(b);
    SameValue(FlipTop(a), FlipTop(b));
    assert FlipTop(FlipTop(a)) == a && FlipTop(FlipTop(b)) == b by { FlipTwice(a); FlipTwice(b); }
  }

  lemma FlipTwice(b: Bits)
    requires |b| > 0
    ensures FlipTop(FlipTop(b)) == b
  {
  }

  // ----- widths -----

  /** Zero extension keeps the unsigned value. */
  lemma ZeroExtendValue(b: Bits, n: nat)
    ensures ToNat(ZeroExtend(b, n)) == ToNat(b)
  {
    hide ToNat, Pow2, Replicate;
    ToNatExtend(b, false, n);
  }

  /** Truncation keeps the value modulo a power of two. */
  lemma TruncateValue(b: Bits, w: nat)
    requires w <= |b|
    ensures ToNat(b[..w]) == ToNat(b) % Pow2(w)
  {
    hide ToNat, Pow2;
    SplitValue(b, w);
    ModUnique(ToNat(b), Pow2(w), ToNat(b[..w]), ToNat(b[w..]));
  }

  // ----- truth values -----

  /** The Boolean operators are the bitwise ones on single bits. */
  lemma SingleBits(a: Bits, b: Bits)
    requires |a| == |b| == 1
    ensures Apply(And, a, b) == [a[0] && b[0]] && Apply(Or, a, b) == [a[0] || b[0]]
    ensures Apply(Xor, a, b) == [a[0] != b[0]]
  {
  }
}
