/** `_sym_build_extract`, `_sym_build_insert` and `_sym_build_bswap`: structures in SSA
    registers as one bit vector, whose most significant byte is the byte at offset 0. */
module Aggregates {
  import opened Options
  import opened BitVectors
  import opened Expressions

  // ----- the bytes of a bit vector in memory order -----

  /** Byte `k` in memory order. */
  function MemByte(bits: Bits, k: nat): (b: Bits)
    requires |bits| % 8 == 0 && 8 * (k + 1) <= |bits|
    ensures |b| == 8
  {
    bits[|bits| - 8 * (k + 1)..|bits| - 8 * k]
  }

  function MemBytes(bits: Bits): (r: seq<Bits>)
    requires |bits| % 8 == 0
    ensures |r| == |bits| / 8
  {
    seq(|bits| / 8, k requires 0 <= k < |bits| / 8 => MemByte(bits, k))
  }

  function Reverse<T>(s: seq<T>): (r: seq<T>)
    ensures |r| == |s|
  {
    seq(|s|, i requires 0 <= i < |s| => s[|s| - 1 - i])
  }

  /** The bytes in memory order determine the bit vector. */
  lemma MemBytesInjective(x: Bits, y: Bits)
    requires |x| % 8 == 0 && |y| % 8 == 0 && MemBytes(x) == MemBytes(y)
    ensures x == y
  {
    var n := |x| / 8;
    assert |MemBytes(x)| == n && |MemBytes(y)| == |y| / 8;
    forall i | 0 <= i < |x|
      ensures x[i] == y[i]
    {
      var k := n - 1 - i / 8;
      assert MemBytes(x)[k] == MemBytes(y)[k];
      assert MemByte(x, k)[i % 8] == x[i] && MemByte(y, k)[i % 8] == y[i];
    }
  }

  /** Concatenation: the high part comes first in memory. */
  lemma MemBytesConcat(high: Bits, low: Bits)
    requires |high| % 8 == 0 && |low| % 8 == 0
    ensures MemBytes(low + high) == MemBytes(high) + MemBytes(low)
  {
    var all := low + high;
    forall k | 0 <= k < |all| / 8
      ensures MemBytes(all)[k] == (MemBytes(high) + MemBytes(low))[k]
    {
      if k < |high| / 8 {
        HighByte(high, low, k);
      } else {
        LowByte(high, low, k - |high| / 8);
      }
    }
  }

  lemma HighByte(high: Bits, low: Bits, k: nat)
    requires |high| % 8 == 0 && |low| % 8 == 0 && 8 * (k + 1) <= |high|
    ensures MemByte(low + high, k) == MemByte(high, k)
  {
    var first, last := |high| - 8 * (k + 1), |high| - 8 * k;
    PartOfHigh(low, high, first, last);
    assert |low + high| - 8 * (k + 1) == |low| + first && |low + high| - 8 * k == |low| + last;
  }

  lemma PartOfHigh(low: Bits, high: Bits, first: nat, last: nat)
    requires first <= last <= |high|
    ensures (low + high)[|low| + first..|low| + last] == high[first..last]
  {
  }

  lemma LowByte(high: Bits, low: Bits, k: nat)
    requires |high| % 8 == 0 && |low| % 8 == 0 && 8 * (k + 1) <= |low|
    ensures MemByte(low + high, |high| / 8 + k) == MemByte(low, k)
  {
    var n := |high| / 8;
    var first, last := |low| - 8 * (k + 1), |low| - 8 * k;
    PartOfLow(low, high, first, last);
    assert |low + high| - 8 * (n + k + 1) == first && |low + high| - 8 * (n + k) == last;
  }

  lemma PartOfLow(low: Bits, high: Bits, first: nat, last: nat)
    requires first <= last <= |low|
    ensures (low + high)[first..last] == low[first..last]
  {
  }

  lemma MemBytesSlice(bits: Bits, offset: nat, length: nat)
    requires |bits| % 8 == 0 && 8 * (offset + length) <= |bits|
    ensures MemBytes(bits[|bits| - 8 * (offset + length)..|bits| - 8 * offset])
            == MemBytes(bits)[offset..offset + length]
  {
    var part := bits[|bits| - 8 * (offset + length)..|bits| - 8 * offset];
    assert |part| == 8 * length;
    forall k | 0 <= k < length
      ensures MemBytes(part)[k] == MemBytes(bits)[offset + k]
    {
      SliceByte(bits, offset, length, k);
    }
  }

  lemma SliceByte(bits: Bits, offset: nat, length: nat, k: nat)
    requires |bits| % 8 == 0 && 8 * (offset + length) <= |bits| && k < length
    ensures var part := bits[|bits| - 8 * (offset + length)..|bits| - 8 * offset];
            |part| == 8 * length && MemByte(part, k) == MemByte(bits, offset + k)
  {
    var lo, hi := |bits| - 8 * (offset + length), |bits| - 8 * offset;
    var first, last := 8 * length - 8 * (k + 1), 8 * length - 8 * k;
    PartOfPart(bits, lo, hi, first, last);
    assert |bits| - 8 * (offset + k + 1) == lo + first && |bits| - 8 * (offset + k) == lo + last;
  }

  lemma PartOfPart(bits: Bits, lo: nat, hi: nat, first: nat, last: nat)
    requires lo <= hi <= |bits| && first <= last <= hi - lo
    ensures bits[lo..hi][first..last] == bits[lo + first..lo + last]
  {
    forall k: nat | k < last - first
      ensures bits[lo..hi][first..last][k] == bits[lo + first..lo + last][k]
    {
      assert bits[lo..hi][first + k] == bits[lo + (first + k)];
    }
  }

  lemma MemBytesOne(b: Bits)
    requires |b| == 8
    ensures MemBytes(b) == [b]
  {
    assert MemByte(b, 0) == b;
  }

  // ----- the builders -----

  /** The single byte at `offset`, as `_sym_build_extract` takes it. */
  function ByteAtOffset(e: Expr, offset: nat): Expr
  {
    var total := Width(e);
    Extract(e, total - offset * 8 - 1, total - (offset + 1) * 8)
  }

  /** The little-endian case: bytes from `offset` on, each above the ones before. */
  function GatherLittle(e: Expr, offset: nat, length: nat): Expr
    requires length > 0
  {
    if length == 1 then ByteAtOffset(e, offset)
    else Concat(ByteAtOffset(e, offset + length - 1), GatherLittle(e, offset, length - 1))
  }

  function BuildExtract(e: Expr, offset: nat, length: nat, le: bool): Expr
    requires length > 0
  {
    var total := Width(e);
    if le then GatherLittle(e, offset, length)
    else Extract(e, total - offset * 8 - 1, total - (offset + length) * 8)
  }

  /** The loop of `_sym_build_extract`. */
  method BuildExtractLoop(e: Expr, offset: nat, length: nat, le: bool) returns (result: Expr)
    requires length > 0
    ensures result == BuildExtract(e, offset, length, le)
  {
    var totalBits := Width(e);
    if le {
      result := Extract(e, totalBits - offset * 8 - 1, totalBits - offset * 8 - 8);
      var i := 1;
      while i < length
        invariant 1 <= i <= length
        invariant result == GatherLittle(e, offset, i)
      {
        result := Concat(Extract(e, totalBits - (offset + i) * 8 - 1, totalBits - (offset + i + 1) * 8), result);
        i := i + 1;
      }
    } else {
      result := Extract(e, totalBits - offset * 8 - 1, totalBits - (offset + length) * 8);
    }
  }

  /** `None` where the function's assertion (a multiple of 16 bits) fails. */
  function BuildBswap(e: Expr): SymExpr
  {
    if Width(e) % 16 == 0 && Width(e) > 0 then Some(BuildExtract(e, 0, Width(e) / 8, true)) else None
  }

  function BuildInsert(target: Expr, toInsert: Expr, offset: nat, le: bool): SymExpr
    requires offset + Width(toInsert) / 8 <= Width(target) / 8
  {
    var n := Width(toInsert) / 8;
    var before := if offset == 0 then None else Some(BuildExtract(target, 0, offset, false));
    var piece := if le then BuildBswap(toInsert) else Some(toInsert);
    var afterLen := Width(target) / 8 - offset - n;
    var after := if afterLen == 0 then None else Some(BuildExtract(target, offset + n, afterLen, false));
    if piece.None? then None
    else
      var head := if before.None? then piece.value else Concat(before.value, piece.value);
      Some(if after.None? then head else Concat(head, after.value))
  }

  // ----- what they compute, in memory order -----

  ghost predicate WholeBytes(e: Expr) { Width(e) % 8 == 0 && Width(e) > 0 && IsBv(e, Width(e)) }

  /** The bytes of `e` on an input, in memory order. */
  ghost function BytesOn(e: Expr, input: Input): seq<Bits>
    requires WholeBytes(e)
  {
    MemBytes(BitsOn(e, input))
  }

  lemma ExtractBig(e: Expr, input: Input, bits: Bits, offset: nat, length: nat) returns (r: Bits)
    requires |bits| % 8 == 0 && Denotes(e, input, Bv(bits)) && length > 0 && 8 * (offset + length) <= |bits|
    ensures |r| == 8 * length && Denotes(BuildExtract(e, offset, length, false), input, Bv(r))
    ensures MemBytes(r) == MemBytes(bits)[offset..offset + length]
  {
    hide MemBytes;
    var t := |bits|;
    ExtractDenotes(e, input, bits, t - offset * 8 - 1, t - (offset + length) * 8);
    MemBytesSlice(bits, offset, length);
    r := bits[t - (offset + length) * 8..t - offset * 8];
  }

  lemma ByteAtDenotes(e: Expr, input: Input, bits: Bits, k: nat)
    requires |bits| % 8 == 0 && Denotes(e, input, Bv(bits)) && 8 * (k + 1) <= |bits|
    ensures Denotes(ByteAtOffset(e, k), input, Bv(MemByte(bits, k)))
  {
    var first, last := |bits| - k * 8 - 1, |bits| - (k + 1) * 8;
    assert Width(e) == |bits|;
    hide SortOf, Eval;
    ExtractDenotes(e, input, bits, first, last);
    assert ByteAtOffset(e, k) == Extract(e, first, last);
    assert MemByte(bits, k) == bits[last..first + 1];
  }

  lemma ReverseNext<T>(s: seq<T>, offset: nat, length: nat)
    requires offset + length < |s|
    ensures Reverse(s[offset..offset + length + 1]) == [s[offset + length]] + Reverse(s[offset..offset + length])
  {
  }

  lemma {:induction false} GatherLittleBytes(e: Expr, input: Input, bits: Bits, offset: nat, length: nat)
    returns (r: Bits)
    requires |bits| % 8 == 0 && Denotes(e, input, Bv(bits)) && length > 0 && 8 * (offset + length) <= |bits|
    ensures |r| == 8 * length && Denotes(GatherLittle(e, offset, length), input, Bv(r))
    ensures MemBytes(r) == Reverse(MemBytes(bits)[offset..offset + length])
  {
    hide SortOf, Eval, Reverse;
    var last := offset + length - 1;
    var b := MemByte(bits, last);
    ByteAtDenotes(e, input, bits, last);
    MemBytesOne(b);
    assert MemBytes(bits)[last] == b;
    ReverseNext(MemBytes(bits), offset, length - 1);
    if length == 1 {
      r := b;
      assert Reverse(MemBytes(bits)[offset..offset]) == [] by { ReverseEmpty(MemBytes(bits)[offset..offset]); }
    } else {
      var rest := GatherLittleBytes(e, input, bits, offset, length - 1);
      r := rest + b;
      ConcatDenotes(ByteAtOffset(e, last), GatherLittle(e, offset, length - 1), input, b, rest);
      MemBytesConcat(b, rest);
    }
  }

  lemma ReverseEmpty<T>(s: seq<T>)
    requires |s| == 0
    ensures Reverse(s) == []
  {
  }

  /** The bits of a well-sorted expression are the ones it denotes. */
  lemma DenotedBits(e: Expr, input: Input, bits: Bits)
    requires Denotes(e, input, Bv(bits)) && |bits| % 8 == 0 && |bits| > 0
    ensures WholeBytes(e) && Width(e) == |bits| && BitsOn(e, input) == bits
  {
  }

  /** Extracting takes a slice of the bytes, reversed for a little-endian member. */
  lemma ExtractIsSlice(e: Expr, offset: nat, length: nat, le: bool, input: Input)
    requires WholeBytes(e) && length > 0 && 8 * (offset + length) <= Width(e)
    ensures var r := BuildExtract(e, offset, length, le);
            WholeBytes(r) && Width(r) == 8 * length
            && BytesOn(r, input) == if le then Reverse(BytesOn(e, input)[offset..offset + length])
                                    else BytesOn(e, input)[offset..offset + length]
  {
    hide SortOf, Eval, Reverse, MemBytes;
    var bits := BitsOn(e, input);
    WellSortedDenotes(e, Width(e), input);
    if le {
      var r := GatherLittleBytes(e, input, bits, offset, length);
      DenotedBits(GatherLittle(e, offset, length), input, r);
    } else {
      var r := ExtractBig(e, input, bits, offset, length);
      DenotedBits(BuildExtract(e, offset, length, false), input, r);
    }
  }

  /** bswap applies exactly to multiples of 16 bits, where it reverses the bytes. */
  lemma BswapReverses(e: Expr, input: Input)
    requires WholeBytes(e)
    ensures BuildBswap(e).Some? <==> Width(e) % 16 == 0
    ensures BuildBswap(e).Some? ==>
              var r := BuildBswap(e).value;
              WholeBytes(r) && Width(r) == Width(e) && BytesOn(r, input) == Reverse(BytesOn(e, input))
  {
    hide SortOf, Eval, Reverse, BuildExtract;
    if Width(e) % 16 == 0 {
      ExtractIsSlice(e, 0, Width(e) / 8, true, input);
      assert BytesOn(e, input)[0..Width(e) / 8] == BytesOn(e, input);
    }
  }

  lemma ReverseTwice<T>(s: seq<T>)
    ensures Reverse(Reverse(s)) == s
  {
  }

  /** bswap is its own inverse on every input. */
  lemma BswapInvolutive(e: Expr, input: Input)
    requires WholeBytes(e) && Width(e) % 16 == 0
    ensures BuildBswap(e).Some? && BuildBswap(BuildBswap(e).value).Some?
    ensures var r := BuildBswap(BuildBswap(e).value).value;
            WholeBytes(r) && BitsOn(r, input) == BitsOn(e, input)
  {
    hide SortOf, Eval, Reverse, BuildBswap, MemBytes;
    BswapReverses(e, input);
    var once := BuildBswap(e).value;
    BswapReverses(once, input);
    var twice := BuildBswap(once).value;
    ReverseTwice(BytesOn(e, input));
    MemBytesInjective(BitsOn(twice, input), BitsOn(e, input));
  }

  lemma ConcatBytes(a: Expr, b: Expr, input: Input)
    requires WholeBytes(a) && WholeBytes(b)
    ensures WholeBytes(Concat(a, b)) && Width(Concat(a, b)) == Width(a) + Width(b)
    ensures BytesOn(Concat(a, b), input) == BytesOn(a, input) + BytesOn(b, input)
  {
    hide MemBytes;
    WellSortedDenotes(a, Width(a), input);
    WellSortedDenotes(b, Width(b), input);
    ConcatDenotes(a, b, input, BitsOn(a, input), BitsOn(b, input));
    MemBytesConcat(BitsOn(a, input), BitsOn(b, input));
    DenotedBits(Concat(a, b), input, BitsOn(b, input) + BitsOn(a, input));
  }

  /** The bytes of an inserted member in the aggregate. */
  ghost function PieceOn(x: Expr, le: bool, input: Input): seq<Bits>
    requires WholeBytes(x)
  {
    if le then Reverse(BytesOn(x, input)) else BytesOn(x, input)
  }

  ghost predicate Insertable(t: Expr, x: Expr, offset: nat)
  {
    WholeBytes(t) && WholeBytes(x) && offset + Width(x) / 8 <= Width(t) / 8
  }

  /** The bytes before the insertion, if any, and the inserted piece. */
  function Headed(t: Expr, piece: Expr, offset: nat): Expr
  {
    if offset == 0 then piece else Concat(BuildExtract(t, 0, offset, false), piece)
  }

  lemma HeadedBytes(t: Expr, piece: Expr, offset: nat, input: Input)
    requires WholeBytes(t) && WholeBytes(piece) && offset + Width(piece) / 8 <= Width(t) / 8
    ensures var head := Headed(t, piece, offset);
            WholeBytes(head) && Width(head) == 8 * offset + Width(piece)
            && BytesOn(head, input) == BytesOn(t, input)[..offset] + BytesOn(piece, input)
  {
    hide SortOf, Eval, MemBytes, BuildExtract, BitsOn;
    if offset > 0 {
      ExtractIsSlice(t, 0, offset, false, input);
      ConcatBytes(BuildExtract(t, 0, offset, false), piece, input);
    } else {
      assert BytesOn(t, input)[..0] + BytesOn(piece, input) == BytesOn(piece, input);
    }
  }

  /** The bytes from `done` on follow, if there are any. */
  lemma TailBytes(t: Expr, head: Expr, done: nat, input: Input)
    requires WholeBytes(t) && WholeBytes(head) && Width(head) == 8 * done && done <= Width(t) / 8
    ensures var rest := Width(t) / 8 - done;
            var r := if rest == 0 then head else Concat(head, BuildExtract(t, done, rest, false));
            WholeBytes(r) && Width(r) == Width(t) && BytesOn(r, input)
              == BytesOn(head, input) + BytesOn(t, input)[done..]
  {
    hide SortOf, Eval, MemBytes, BuildExtract, BitsOn;
    var bs, rest := BytesOn(t, input), Width(t) / 8 - done;
    if rest > 0 {
      ExtractIsSlice(t, done, rest, false, input);
      ConcatBytes(head, BuildExtract(t, done, rest, false), input);
      assert bs[done..done + rest] == bs[done..];
    } else {
      assert BytesOn(head, input) + bs[done..] == BytesOn(head, input);
    }
  }

  lemma InsertParts(t: Expr, x: Expr, piece: Expr, offset: nat, le: bool, input: Input, r: Expr)
    requires Insertable(t, x, offset) && BuildInsert(t, x, offset, le) == Some(r)
    requires piece == if le then BuildExtract(x, 0, Width(x) / 8, true) else x
    requires WholeBytes(piece) && Width(piece) == Width(x)
    ensures WholeBytes(r) && Width(r) == Width(t)
    ensures BytesOn(r, input)
            == BytesOn(t, input)[..offset] + BytesOn(piece, input) + BytesOn(t, input)[offset + Width(x) / 8..]
  {
    hide WholeBytes, BytesOn, BuildExtract;
    assert offset + Width(piece) / 8 <= Width(t) / 8 by { InsertableFits(t, x, offset); }
    HeadedBytes(t, piece, offset, input);
    EightTimes(x, piece, offset);
    TailBytes(t, Headed(t, piece, offset), offset + Width(x) / 8, input);
  }

  lemma InsertableFits(t: Expr, x: Expr, offset: nat)
    requires Insertable(t, x, offset)
    ensures WholeBytes(t) && WholeBytes(x) && offset + Width(x) / 8 <= Width(t) / 8
  {
  }

  lemma EightTimes(x: Expr, piece: Expr, offset: nat)
    requires WholeBytes(piece) && Width(piece) == Width(x)
    ensures 8 * offset + Width(piece) == 8 * (offset + Width(x) / 8)
  {
  }

  /** Inserting replaces exactly the member's bytes; it fails exactly for a little-endian
      member that is not a multiple of 16 bits. */
  lemma InsertIsSplice(t: Expr, x: Expr, offset: nat, le: bool, input: Input)
    requires Insertable(t, x, offset)
    ensures BuildInsert(t, x, offset, le).Some? <==> (le ==> Width(x) % 16 == 0)
    ensures BuildInsert(t, x, offset, le).Some? ==>
              var r := BuildInsert(t, x, offset, le).value;
              WholeBytes(r) && Width(r) == Width(t)
              && BytesOn(r, input)
                 == BytesOn(t, input)[..offset] + PieceOn(x, le, input) + BytesOn(t, input)[offset + Width(x) / 8..]
  {
    hide SortOf, Eval, MemBytes, BuildExtract, Reverse, BitsOn;
    if BuildInsert(t, x, offset, le).Some? {
      var r := BuildInsert(t, x, offset, le).value;
      if le {
        BswapReverses(x, input);
        InsertParts(t, x, BuildBswap(x).value, offset, le, input, r);
      } else {
        InsertParts(t, x, x, offset, le, input, r);
      }
    }
  }

  // ----- the lens laws -----

  /** Extracting what was just inserted gives it back, on every input. */
  lemma ExtractAfterInsert(t: Expr, x: Expr, offset: nat, le: bool, input: Input)
    requires Insertable(t, x, offset) && (le ==> Width(x) % 16 == 0)
    ensures BuildInsert(t, x, offset, le).Some?
    ensures var r := BuildExtract(BuildInsert(t, x, offset, le).value, offset, Width(x) / 8, le);
            WholeBytes(r) && BitsOn(r, input) == BitsOn(x, input)
  {
    hide SortOf, Eval, MemBytes, BuildExtract, BuildInsert, Reverse, BitsOn;
    InsertIsSplice(t, x, offset, le, input);
    var u := BuildInsert(t, x, offset, le).value;
    var n := Width(x) / 8;
    ExtractIsSlice(u, offset, n, le, input);
    var r := BuildExtract(u, offset, n, le);
    assert BytesOn(u, input)[offset..offset + n] == PieceOn(x, le, input) by {
      SpliceMiddle(BytesOn(t, input), PieceOn(x, le, input), offset);
    }
    ReverseTwice(BytesOn(x, input));
    MemBytesInjective(BitsOn(r, input), BitsOn(x, input));
  }

  lemma SpliceMiddle<T>(s: seq<T>, p: seq<T>, offset: nat)
    requires offset + |p| <= |s|
    ensures (s[..offset] + p + s[offset + |p|..])[offset..offset + |p|] == p
  {
  }

  lemma SpliceOutside<T>(s: seq<T>, p: seq<T>, offset: nat, o: nat, n: nat)
    requires offset + |p| <= |s| && o + n <= |s| && (o + n <= offset || offset + |p| <= o)
    ensures (s[..offset] + p + s[offset + |p|..])[o..o + n] == s[o..o + n]
  {
  }

  /** Members outside the inserted one are unchanged. */
  lemma ExtractElsewhere(t: Expr, x: Expr, offset: nat, le: bool, o: nat, n: nat, le': bool, input: Input)
    requires Insertable(t, x, offset) && (le ==> Width(x) % 16 == 0)
    requires n > 0 && 8 * (o + n) <= Width(t) && (o + n <= offset || offset + Width(x) / 8 <= o)
    ensures BuildInsert(t, x, offset, le).Some?
    ensures var r, q := BuildExtract(BuildInsert(t, x, offset, le).value, o, n, le'), BuildExtract(t, o, n, le');
            WholeBytes(r) && WholeBytes(q) && BitsOn(r, input) == BitsOn(q, input)
  {
    hide SortOf, Eval, MemBytes, BuildExtract, BuildInsert, Reverse, BitsOn;
    InsertIsSplice(t, x, offset, le, input);
    var u := BuildInsert(t, x, offset, le).value;
    ExtractIsSlice(u, o, n, le', input);
    ExtractIsSlice(t, o, n, le', input);
    SpliceOutside(BytesOn(t, input), PieceOn(x, le, input), offset, o, n);
    MemBytesInjective(BitsOn(BuildExtract(u, o, n, le'), input), BitsOn(BuildExtract(t, o, n, le'), input));
  }

  lemma ThreeParts<T>(s: seq<T>, offset: nat, n: nat)
    requires offset + n <= |s|
    ensures s[..offset] + s[offset..offset + n] + s[offset + n..] == s
  {
  }

  /** Inserting what was extracted changes nothing. */
  lemma InsertExtracted(t: Expr, offset: nat, n: nat, le: bool, input: Input)
    requires WholeBytes(t) && n > 0 && 8 * (offset + n) <= Width(t) && (le ==> n % 2 == 0)
    ensures var x := BuildExtract(t, offset, n, le);
            Insertable(t, x, offset) && BuildInsert(t, x, offset, le).Some?
            && WholeBytes(BuildInsert(t, x, offset, le).value)
            && BitsOn(BuildInsert(t, x, offset, le).value, input) == BitsOn(t, input)
  {
    hide SortOf, Eval, MemBytes, BuildExtract, BuildInsert, Reverse, BitsOn;
    var x := BuildExtract(t, offset, n, le);
    ExtractIsSlice(t, offset, n, le, input);
    InsertIsSplice(t, x, offset, le, input);
    var u := BuildInsert(t, x, offset, le).value;
    var bs := BytesOn(t, input);
    ReverseTwice(bs[offset..offset + n]);
    ThreeParts(bs, offset, n);
    MemBytesInjective(BitsOn(u, input), BitsOn(t, input));
  }
}
