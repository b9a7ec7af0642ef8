/** Fixed-width bit vectors, least significant bit first, and the arithmetic the
    solver's bit-vector theory gives them. */
module BitVectors {

  type Bits = seq<bool>

  function Pow2(n: nat): (r: nat)
    ensures r > 0
  {
    if n == 0 then 1 else 2 * Pow2(n - 1)
  }

  lemma {:induction false} Pow2Add(m: nat, n: nat)
    ensures Pow2(m + n) == Pow2(m) * Pow2(n)
  {
    if m == 0 {
    } else {
      Pow2Add(m - 1, n);
      assert Pow2(m + n) == 2 * Pow2(m - 1 + n);
    }
  }

  lemma MulAssoc(a: int, b: int, c: int)
    ensures a * (b * c) == (a * b) * c
  {
  }

  lemma MulDistributes(a: int, b: int, c: int)
    ensures a * (b + c) == a * b + a * c
    ensures (b + c) * a == b * a + c * a
  {
  }

  lemma MulAtLeast(k: int, m: int)
    requires k >= 1 && m > 0
    ensures k * m >= m
  {
  }

  function Bit(b: bool): nat { if b then 1 else 0 }

  /** The unsigned reading of a bit vector. */
  function ToNat(b: Bits): nat
  {
    if |b| == 0 then 0 else Bit(b[0]) + 2 * ToNat(b[1..])
  }

  function FromNat(n: nat, w: nat): (b: Bits)
    ensures |b| == w
  {
    if w == 0 then [] else [n % 2 == 1] + FromNat(n / 2, w - 1)
  }

  function Replicate(b: bool, n: nat): (r: Bits)
    ensures |r| == n && forall i :: 0 <= i < n ==> r[i] == b
  {
    seq(n, i => b)
  }

  /** The two's-complement reading of a bit vector. */
  function ToInt(b: Bits): int
  {
    if |b| > 0 && b[|b| - 1] then ToNat(b) - Pow2(|b|) else ToNat(b)
  }

  /** The bit vector of width `w` congruent to `n` modulo 2^w, for any integer. */
  function FromInt(n: int, w: nat): (b: Bits)
    ensures |b| == w
  {
    FromNat(n % Pow2(w), w)
  }

  lemma {:induction false} ToNatBound(b: Bits)
    ensures ToNat(b) < Pow2(|b|)
  {
    if |b| > 0 {
      ToNatBound(b[1..]);
    }
  }

  lemma {:induction false} FromToNat(b: Bits)
    ensures FromNat(ToNat(b), |b|) == b
  {
    if |b| > 0 {
      FromToNat(b[1..]);
      assert ToNat(b) % 2 == Bit(b[0]);
      assert ToNat(b) / 2 == ToNat(b[1..]);
    }
  }

  lemma {:induction false} ToFromNatSmall(n: nat, w: nat)
    requires n < Pow2(w)
    ensures ToNat(FromNat(n, w)) == n
  {
    if w > 0 {
      ToFromNatSmall(n / 2, w - 1);
      assert FromNat(n, w)[1..] == FromNat(n / 2, w - 1);
    }
  }

  lemma {:induction false} ToNatConcat(lo: Bits, hi: Bits)
    ensures ToNat(lo + hi) == ToNat(lo) + Pow2(|lo|) * ToNat(hi)
  {
    if |lo| == 0 {
      assert lo + hi == hi;
    } else {
      ToNatConcat(lo[1..], hi);
      assert (lo + hi)[1..] == lo[1..] + hi && (lo + hi)[0] == lo[0];
      calc {
        ToNat(lo + hi);
        Bit(lo[0]) + 2 * ToNat(lo[1..] + hi);
        Bit(lo[0]) + 2 * (ToNat(lo[1..]) + Pow2(|lo| - 1) * ToNat(hi));
        Bit(lo[0]) + 2 * ToNat(lo[1..]) + 2 * (Pow2(|lo| - 1) * ToNat(hi));
        { MulAssoc(2, Pow2(|lo| - 1), ToNat(hi)); }
        ToNat(lo) + Pow2(|lo|) * ToNat(hi);
      }
    }
  }

  lemma {:induction false} ToNatReplicate(b: bool, n: nat)
    ensures ToNat(Replicate(b, n)) == if b then Pow2(n) - 1 else 0
  {
    if n > 0 {
      ToNatReplicate(b, n - 1);
      assert Replicate(b, n)[1..] == Replicate(b, n - 1);
    }
  }

  lemma ModUnique(n: int, m: int, r: int, k: int)
    requires 0 <= r < m && n == r + k * m
    ensures n % m == r
  {
    var q, s := n / m, n % m;
    assert n == q * m + s && 0 <= s < m;
    MulDistributes(m, q, -k);
    MulDistributes(m, k, -q);
    if q > k {
      MulAtLeast(q - k, m);
    } else if q < k {
      MulAtLeast(k - q, m);
    }
  }

  lemma ModShift(n: int, k: int, m: int)
    requires m > 0
    ensures (n + k * m) % m == n % m
  {
    assert n + k * m == n % m + (n / m + k) * m;
    ModUnique(n + k * m, m, n % m, n / m + k);
  }

  /** Residues may be taken before adding or multiplying. */
  lemma ModAdd(a: int, b: int, m: int)
    requires m > 0
    ensures (a % m + b) % m == (a + b) % m
    ensures (a + b % m) % m == (a + b) % m
  {
    assert a + b == (a % m + b) + (a / m) * m;
    ModShift(a % m + b, a / m, m);
    assert a + b == (a + b % m) + (b / m) * m;
    ModShift(a + b % m, b / m, m);
  }

  lemma ModMul(a: int, b: int, m: int)
    requires m > 0
    ensures (a % m * b) % m == (a * b) % m
    ensures (a * (b % m)) % m == (a * b) % m
  {
    var q, r := a / m, a % m;
    assert a * b == r * b + (q * b) * m;
    ModShift(r * b, q * b, m);
    var u, v := b / m, b % m;
    assert a * b == a * v + (a * u) * m;
    ModShift(a * v, a * u, m);
  }

  /** A bit vector is determined by, and determines, its residue modulo 2^w. */
  lemma FromIntToNat(n: int, w: nat)
    ensures ToNat(FromInt(n, w)) == n % Pow2(w)
  {
    ToFromNatSmall(n % Pow2(w), w);
  }

  lemma ToNatIsResidue(b: Bits)
    ensures ToNat(b) == ToNat(b) % Pow2(|b|)
    ensures ToInt(b) % Pow2(|b|) == ToNat(b)
    ensures FromInt(ToNat(b), |b|) == b
  {
    ToNatBound(b);
    FromToNat(b);
    ModUnique(ToNat(b), Pow2(|b|), ToNat(b), 0);
    if |b| > 0 && b[|b| - 1] {
      ModUnique(ToInt(b), Pow2(|b|), ToNat(b), -1);
    }
  }

  function SignExtend(b: Bits, n: nat): (r: Bits)
    ensures |r| == |b| + n
  {
    b + Replicate(|b| > 0 && b[|b| - 1], n)
  }

  function ZeroExtend(b: Bits, n: nat): (r: Bits)
    ensures |r| == |b| + n
  {
    b + Replicate(false, n)
  }

  lemma OnesAbove(m: nat, n: nat)
    ensures Pow2(m) * (Pow2(n) - 1) == Pow2(m + n) - Pow2(m)
  {
    Pow2Add(m, n);
    MulDistributes(Pow2(m), Pow2(n), -1);
  }

  lemma ToNatExtend(b: Bits, s: bool, n: nat)
    ensures ToNat(b + Replicate(s, n)) == ToNat(b) + if s then Pow2(|b| + n) - Pow2(|b|) else 0
  {
    hide ToNat, Pow2;
    var r := Replicate(s, n);
    ToNatReplicate(s, n);
    ToNatConcat(b, r);
    OnesAbove(|b|, n);
  }

  /** A wider vector with the same top bit and that much more to its unsigned value. */
  lemma SameSignedValue(b: Bits, e: Bits, s: bool)
    requires 0 < |b| <= |e| && b[|b| - 1] == e[|e| - 1] == s
    requires ToNat(e) == ToNat(b) + if s then Pow2(|e|) - Pow2(|b|) else 0
    ensures ToInt(e) == ToInt(b)
  {
    hide ToNat, Pow2;
  }

  lemma SignExtendTop(b: Bits, n: nat)
    requires |b| > 0
    ensures SignExtend(b, n)[|b| + n - 1] == b[|b| - 1]
  {
    if n == 0 {
      assert SignExtend(b, n) == b;
    } else {
      assert SignExtend(b, n)[|b| + n - 1] == Replicate(b[|b| - 1], n)[n - 1];
    }
  }

  lemma SignExtendToNat(b: Bits, n: nat)
    requires |b| > 0
    ensures ToNat(SignExtend(b, n)) == ToNat(b) + if b[|b| - 1] then Pow2(|b| + n) - Pow2(|b|) else 0
  {
    hide ToNat, Pow2, Replicate;
    ToNatExtend(b, b[|b| - 1], n);
  }

  /** Sign extension keeps the two's-complement value. */
  lemma SignExtendKeeps(b: Bits, n: nat)
    requires |b| > 0
    ensures ToInt(SignExtend(b, n)) == ToInt(b)
  {
    hide ToNat, Pow2, ToInt, SignExtend, Replicate;
    SignExtendToNat(b, n);
    SignExtendTop(b, n);
    SameSignedValue(b, SignExtend(b, n), b[|b| - 1]);
  }

  // ----- the binary operators of the bit-vector theory (SMT-LIB, so total) -----

  datatype BinOp =
    | Add | Sub | Mul | UDiv | URem | SDiv | SRem
    | Shl | LShr | AShr | And | Or | Xor

  function Abs(x: int): nat { if x < 0 then -x else x }

  /** Division rounding towards zero, and the remainder with the dividend's sign. */
  function TruncDiv(x: int, y: int): int
    requires y != 0
  {
    var q := Abs(x) / Abs(y);
    if (x < 0) == (y < 0) then q else -q
  }

  function TruncRem(x: int, y: int): int
    requires y != 0
  {
    var r := Abs(x) % Abs(y);
    if x < 0 then -r else r
  }

  function Apply(op: BinOp, a: Bits, b: Bits): (r: Bits)
    requires |a| == |b|
    ensures |r| == |a|
  {
    var w := |a|;
    match op
    case Add => FromInt(ToNat(a) + ToNat(b), w)
    case Sub => FromInt(ToNat(a) - ToNat(b), w)
    case Mul => FromInt(ToNat(a) * ToNat(b), w)
    case UDiv => if ToNat(b) == 0 then Replicate(true, w) else FromInt(ToNat(a) / ToNat(b), w)
    case URem => if ToNat(b) == 0 then a else FromInt(ToNat(a) % ToNat(b), w)
    case SDiv =>
      if ToInt(b) == 0 then FromInt(if ToInt(a) < 0 then 1 else -1, w)
      else FromInt(TruncDiv(ToInt(a), ToInt(b)), w)
    case SRem => if ToInt(b) == 0 then a else FromInt(TruncRem(ToInt(a), ToInt(b)), w)
    case Shl =>
      var s := ToNat(b);
      if s >= w then Replicate(false, w) else Replicate(false, s) + a[..w - s]
    case LShr =>
      var s := ToNat(b);
      if s >= w then Replicate(false, w) else a[s..] + Replicate(false, s)
    case AShr =>
      var s := ToNat(b);
      var sign := w > 0 && a[w - 1];
      if s >= w then Replicate(sign, w) else a[s..] + Replicate(sign, s)
    case And => seq(w, i requires 0 <= i < w => a[i] && b[i])
    case Or => seq(w, i requires 0 <= i < w => a[i] || b[i])
    case Xor => seq(w, i requires 0 <= i < w => a[i] != b[i])
  }

  datatype Predicate = Eq | Ne | Ult | Ule | Ugt | Uge | Slt | Sle | Sgt | Sge

  predicate Holds(p: Predicate, a: Bits, b: Bits)
  {
    match p
    case Eq => a == b
    case Ne => a != b
    case Ult => ToNat(a) < ToNat(b)
    case Ule => ToNat(a) <= ToNat(b)
    case Ugt => ToNat(a) > ToNat(b)
    case Uge => ToNat(a) >= ToNat(b)
    case Slt => ToInt(a) < ToInt(b)
    case Sle => ToInt(a) <= ToInt(b)
    case Sgt => ToInt(a) > ToInt(b)
    case Sge => ToInt(a) >= ToInt(b)
  }
}
