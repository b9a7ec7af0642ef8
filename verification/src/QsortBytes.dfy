/** The byte-level moves of libc_harness/qsort.c, each proved to be one move of whole elements. */
module QsortBytes {
  import opened QsortSpec
  import BitVectors

  /** A byte range of `n` elements of `size` bytes each. */
  ghost predicate Shaped(a: array<bv8>, size: nat, n: nat)
  {
    size >= 1 && a.Length == size * n
  }

  /** The byte offset of element `i`: what the C code holds as a pointer. */
  function Ptr(size: nat, i: int): int { size * i }

  lemma PtrNext(size: nat, i: int)
    ensures Ptr(size, i) + size == Ptr(size, i + 1)
    ensures Ptr(size, i) - size == Ptr(size, i - 1)
  {
  }

  /** Pointers compare as the elements they point at. */
  lemma PtrCompare(size: nat, i: int, j: int)
    requires size >= 1
    ensures Ptr(size, i) < Ptr(size, j) <==> i < j
    ensures Ptr(size, i) == Ptr(size, j) <==> i == j
  {
    PtrOrder(size, i, j);
  }

  lemma PtrOrder(size: nat, i: int, j: int)
    requires size >= 1
    ensures size * i < size * j <==> i < j
    ensures size * i == size * j <==> i == j
    ensures i < j ==> size * i + size <= size * j
  {
    if i < j {
      PtrBelow(size, i, j);
    } else if j < i {
      PtrBelow(size, j, i);
    }
  }

  lemma PtrBelow(size: nat, i: int, j: int)
    requires size >= 1 && i < j
    ensures size * i + size <= size * j
  {
    var d := j - i - 1;
    assert size * j == size * i + size + size * d;
    assert size * d >= 0;
  }

  lemma PtrFits(size: nat, n: nat, i: nat)
    requires i < n
    ensures 0 <= size * i && size * i + size <= size * n
  {
    if size >= 1 {
      PtrBelow(size, i, n);
    }
  }

  /** The elements of an array of bytes. */
  ghost function Blocks(s: seq<bv8>, size: nat, n: nat): (r: seq<Element>)
    requires |s| == size * n
    ensures |r| == n && Sized(r, size)
  {
    seq(n, i requires 0 <= i < n => BlockOf(s, size, n, i))
  }

  ghost function BlockOf(s: seq<bv8>, size: nat, n: nat, i: nat): (e: Element)
    requires |s| == size * n && i < n
    ensures |e| == size
  {
    PtrFits(size, n, i);
    s[size * i..size * i + size]
  }

  // ----- comparison -----

  method CompareElements(a: array<bv8>, p: int, q: int, size: nat, cmp: Cmp, ghost n: nat, ghost i: nat, ghost j: nat)
    returns (c: int)
    requires Shaped(a, size, n) && i < n && j < n && p == Ptr(size, i) && q == Ptr(size, j)
    ensures c == cmp(Blocks(a[..], size, n)[i], Blocks(a[..], size, n)[j])
  {
    PtrFits(size, n, i);
    PtrFits(size, n, j);
    c := cmp(a[p..p + size], a[q..q + size]);
    assert a[p..p + size] == a[..][p..p + size] && a[q..q + size] == a[..][q..q + size];
  }

  // ----- SWAP -----

  /** Where the byte now at `x` came from, when `done` bytes of two elements are exchanged. */
  function SwappedFrom(x: int, p: int, q: int, done: int): int
  {
    if p <= x < p + done then q + (x - p)
    else if q <= x < q + done then p + (x - q)
    else x
  }

  ghost predicate BytesSwapped(s: seq<bv8>, s': seq<bv8>, p: int, q: int, size: nat)
  {
    && |s| == |s'| && 0 <= p && p + size <= |s| && 0 <= q && q + size <= |s|
    && forall x :: 0 <= x < |s| ==> s'[x] == s[SwappedFrom(x, p, q, size)]
  }

  method SwapBytes(a: array<bv8>, p: int, q: int, size: nat)
    requires size >= 1 && 0 <= p && p + size <= a.Length && 0 <= q && q + size <= a.Length
    requires p + size <= q || q + size <= p
    modifies a
    ensures BytesSwapped(old(a[..]), a[..], p, q, size)
  {
    var left, x, y := size, p, q;
    while left > 0
      invariant 0 <= left <= size && x == p + (size - left) && y == q + (size - left)
      invariant forall z :: 0 <= z < a.Length ==> a[z] == old(a[..])[SwappedFrom(z, p, q, size - left)]
    {
      var tmp := a[x];
      a[x] := a[y];
      a[y] := tmp;
      x, y, left := x + 1, y + 1, left - 1;
    }
  }

  lemma SwapBlock(s: seq<bv8>, s': seq<bv8>, size: nat, n: nat, i: nat, j: nat, k: nat)
    requires size >= 1 && |s| == size * n && i < n && j < n && i != j && k < n
    requires BytesSwapped(s, s', size * i, size * j, size)
    ensures BlockOf(s', size, n, k)
            == BlockOf(s, size, n, if k == i then j else if k == j then i else k)
  {
    PtrFits(size, n, k);
    PtrOrder(size, k, i);
    PtrOrder(size, k, j);
    PtrOrder(size, i, k);
    PtrOrder(size, j, k);
    PtrOrder(size, i, j);
    PtrOrder(size, j, i);
    var o := if k == i then j else if k == j then i else k;
    PtrFits(size, n, o);
    forall b | 0 <= b < size
      ensures BlockOf(s', size, n, k)[b] == BlockOf(s, size, n, o)[b]
    {
      assert s'[size * k + b] == s[SwappedFrom(size * k + b, size * i, size * j, size)];
    }
  }

  method SwapElements(a: array<bv8>, p: int, q: int, size: nat, ghost n: nat, ghost i: nat, ghost j: nat)
    requires Shaped(a, size, n) && i < n && j < n && i != j && p == Ptr(size, i) && q == Ptr(size, j)
    modifies a
    ensures Blocks(a[..], size, n) == SwapAt(old(Blocks(a[..], size, n)), i, j)
  {
    PtrFits(size, n, i);
    PtrFits(size, n, j);
    PtrOrder(size, i, j);
    PtrOrder(size, j, i);
    ghost var s := a[..];
    SwapBytes(a, p, q, size);
    forall k | 0 <= k < n
      ensures Blocks(a[..], size, n)[k] == SwapAt(Blocks(s, size, n), i, j)[k]
    {
      SwapBlock(s, a[..], size, n, i, j, k);
    }
  }

  // ----- the strided rotation of the insertion step -----

  /** Where the byte now at `x` came from, when the element at byte `run` moves down to `tmp`. */
  function RotatedFrom(x: int, tmp: int, run: int, size: nat): int
  {
    if x < tmp || run + size <= x then x
    else if x < tmp + size then x + (run - tmp)
    else x - size
  }

  ghost predicate BytesRotated(s: seq<bv8>, s': seq<bv8>, tmp: int, run: int, size: nat)
  {
    && |s| == |s'| && 0 <= tmp <= run && run + size <= |s|
    && forall x :: 0 <= x < |s| ==>
         0 <= RotatedFrom(x, tmp, run, size) < |s| && s'[x] == s[RotatedFrom(x, tmp, run, size)]
  }

  /** The byte of the run element in whose column `x` lies. */
  function Column(x: int, run: int, size: nat): int
    requires size >= 1
  {
    run + (x - run) % size
  }

  lemma ColumnStep(x: int, run: int, size: nat)
    requires size >= 1
    ensures Column(x - size, run, size) == Column(x, run, size)
  {
    BitVectors.ModShift(x - size - run, 1, size);
  }

  lemma ColumnOwn(x: int, run: int, size: nat)
    requires size >= 1 && run <= x < run + size
    ensures Column(x, run, size) == x
  {
    BitVectors.ModUnique(x - run, size, x - run, 0);
  }

  /** Two bytes of one column are at least one element apart. */
  lemma ColumnGap(x: int, y: int, run: int, size: nat)
    requires size >= 1 && x < y && Column(x, run, size) == Column(y, run, size)
    ensures x + size <= y
  {
    if y < x + size {
      var m := (x - run) % size;
      var k := (x - run) / size;
      assert x - run == m + k * size;
      var m2 := (y - run) % size;
      var k2 := (y - run) / size;
      assert y - run == m2 + k2 * size;
      assert y - x == (k2 - k) * size by { BitVectors.MulDistributes(size, k2, -k); }
      if k2 - k >= 1 {
        BitVectors.MulAtLeast(k2 - k, size);
      } else if k - k2 >= 1 {
        BitVectors.MulAtLeast(k - k2, size);
        BitVectors.MulDistributes(size, k2 - k, k - k2);
      }
    }
  }

  /** Within the lowest element, the column fixes the byte. */
  lemma ColumnLowest(x: int, tmp: int, run: int, size: nat, d: nat)
    requires size >= 1 && run == tmp + d * size && tmp <= x < tmp + size
    ensures Column(x, run, size) == x + (run - tmp)
  {
    var e: int := d;
    BitVectors.ModUnique(x - run, size, x - tmp, -e);
  }

  /** The state while column `trav` is shifted: columns above it are done, and in it the
      bytes above `hi` have moved up. */
  function ShiftedFrom(x: int, tmp: int, run: int, size: nat, trav: int, hi: int): int
    requires size >= 1
  {
    if tmp <= x < run + size && Column(x, run, size) > trav then RotatedFrom(x, tmp, run, size)
    else if Column(x, run, size) == trav && hi < x <= trav then x - size
    else x
  }

  lemma ShiftStep(x: int, tmp: int, run: int, size: nat, trav: int, hi: int)
    requires size >= 1 && run <= trav < run + size && Column(hi, run, size) == trav && hi <= trav
    ensures x != hi ==> ShiftedFrom(x, tmp, run, size, trav, hi - size) == ShiftedFrom(x, tmp, run, size, trav, hi)
    ensures ShiftedFrom(hi, tmp, run, size, trav, hi - size) == hi - size
    ensures ShiftedFrom(hi - size, tmp, run, size, trav, hi) == hi - size
  {
    ColumnStep(hi, run, size);
    if hi - size < x < hi && Column(x, run, size) == trav {
      ColumnGap(x, hi, run, size);
    }
  }

  lemma ShiftDone(x: int, tmp: int, run: int, size: nat, trav: int, hi: int, d: nat)
    requires size >= 1 && run == tmp + d * size && d >= 1
    requires run <= trav < run + size && Column(hi, run, size) == trav
    requires tmp <= hi <= trav && hi - size < tmp
    ensures x != hi ==> ShiftedFrom(x, tmp, run, size, trav, hi) == ShiftedFrom(x, tmp, run, size, trav - 1, run + size)
    ensures ShiftedFrom(hi, tmp, run, size, trav - 1, run + size) == trav
  {
    BitVectors.MulAtLeast(d, size);
    ColumnLowest(hi, tmp, run, size, d);
    if Column(x, run, size) == trav && x != hi {
      ColumnOwn(trav, run, size);
      if trav < x {
        ColumnGap(trav, x, run, size);
      } else if hi < x {
        ColumnGap(hi, x, run, size);
      } else {
        ColumnGap(x, hi, run, size);
      }
    }
  }

  lemma ShiftAll(x: int, tmp: int, run: int, size: nat)
    requires size >= 1
    ensures ShiftedFrom(x, tmp, run, size, run - 1, run + size) == RotatedFrom(x, tmp, run, size)
    ensures ShiftedFrom(x, tmp, run, size, run + size - 1, run + size) == x
  {
  }

  ghost predicate ShiftState(s: seq<bv8>, s': seq<bv8>, tmp: int, run: int, size: nat, trav: int, hi: int)
    requires size >= 1
  {
    && |s| == |s'|
    && forall x :: 0 <= x < |s| ==>
         0 <= ShiftedFrom(x, tmp, run, size, trav, hi) < |s| && s'[x] == s[ShiftedFrom(x, tmp, run, size, trav, hi)]
  }

  /** One column: every byte moves up by one element, the run element's byte goes to the bottom. */
  method ShiftColumn(a: array<bv8>, tmp: int, run: int, size: nat, trav: int, ghost d: nat, ghost s: seq<bv8>)
    requires size >= 1 && 0 <= tmp && run + size <= a.Length && run == tmp + d * size && d >= 1
    requires run <= trav < run + size
    requires ShiftState(s, a[..], tmp, run, size, trav, run + size)
    modifies a
    ensures ShiftState(s, a[..], tmp, run, size, trav - 1, run + size)
  {
    hide Column;
    BitVectors.MulAtLeast(d, size);
    ColumnOwn(trav, run, size);
    var c := a[trav];
    var hi, lo := trav, trav;
    lo := lo - size;
    assert ShiftState(s, a[..], tmp, run, size, trav, trav);
    while lo >= tmp
      invariant lo == hi - size && tmp <= hi <= trav && Column(hi, run, size) == trav
      invariant c == s[trav]
      invariant |s| == a.Length && ShiftState(s, a[..], tmp, run, size, trav, hi)
    {
      ghost var before := a[..];
      a[hi] := a[lo];
      forall x | 0 <= x < |s|
        ensures 0 <= ShiftedFrom(x, tmp, run, size, trav, lo) < |s|
        ensures a[x] == s[ShiftedFrom(x, tmp, run, size, trav, lo)]
      {
        ShiftStep(x, tmp, run, size, trav, hi);
        assert a[x] == if x == hi then before[lo] else before[x];
      }
      ColumnStep(hi, run, size);
      hi := lo;
      lo := lo - size;
    }
    ghost var before := a[..];
    a[hi] := c;
    forall x | 0 <= x < |s|
      ensures 0 <= ShiftedFrom(x, tmp, run, size, trav - 1, run + size) < |s|
              && a[x] == s[ShiftedFrom(x, tmp, run, size, trav - 1, run + size)]
    {
      ShiftDone(x, tmp, run, size, trav, hi, d);
      assert x != hi ==> a[x] == before[x];
    }
  }

  lemma ShiftStart(s: seq<bv8>, tmp: int, run: int, size: nat)
    requires size >= 1
    ensures ShiftState(s, s, tmp, run, size, run + size - 1, run + size)
  {
    hide Column, ShiftedFrom;
    var trav, hi := run + size - 1, run + size;
    forall x | 0 <= x < |s|
      ensures ShiftedFrom(x, tmp, run, size, trav, hi) == x
    {
      ShiftAll(x, tmp, run, size);
    }
  }

  lemma ShiftEnd(s: seq<bv8>, s': seq<bv8>, tmp: int, run: int, size: nat)
    requires size >= 1 && 0 <= tmp <= run && run + size <= |s|
    requires ShiftState(s, s', tmp, run, size, run - 1, run + size)
    ensures BytesRotated(s, s', tmp, run, size)
  {
    hide Column, ShiftedFrom;
    forall x | 0 <= x < |s|
      ensures 0 <= RotatedFrom(x, tmp, run, size) < |s| && s'[x] == s[RotatedFrom(x, tmp, run, size)]
    {
      ShiftAll(x, tmp, run, size);
    }
  }

  method RotateBytes(a: array<bv8>, tmp: int, run: int, size: nat, ghost d: nat)
    requires size >= 1 && 0 <= tmp && run + size <= a.Length && run == tmp + d * size && d >= 1
    modifies a
    ensures BytesRotated(old(a[..]), a[..], tmp, run, size)
  {
    hide ShiftState, BytesRotated;
    ghost var s := a[..];
    var trav := run + size;
    trav := trav - 1;
    ShiftStart(s, tmp, run, size);
    while trav >= run
      invariant run - 1 <= trav < run + size
      invariant ShiftState(s, a[..], tmp, run, size, trav, run + size)
    {
      ShiftColumn(a, tmp, run, size, trav, d, s);
      trav := trav - 1;
    }
    BitVectors.MulAtLeast(d, size);
    ShiftEnd(s, a[..], tmp, run, size);
  }

  /** Which element lands at position `k` when the one at `r` moves down to `t`. */
  function RotatedElement(k: nat, t: nat, r: nat): nat
  {
    if k == t then r else if t < k <= r then k - 1 else k
  }

  lemma RotateByte(size: nat, t: nat, r: nat, k: nat, b: nat)
    requires size >= 1 && t < r && b < size
    ensures RotatedFrom(size * k + b, size * t, size * r, size) == size * RotatedElement(k, t, r) + b
  {
    PtrOrder(size, k, t);
    PtrOrder(size, t, k);
    PtrOrder(size, k, r);
    PtrOrder(size, r, k);
  }

  lemma RotateBlock(s: seq<bv8>, s': seq<bv8>, size: nat, n: nat, t: nat, r: nat, k: nat)
    requires size >= 1 && |s| == size * n && t < r < n && k < n
    requires BytesRotated(s, s', size * t, size * r, size)
    ensures BlockOf(s', size, n, k) == BlockOf(s, size, n, RotatedElement(k, t, r))
  {
    hide RotatedFrom;
    var o := RotatedElement(k, t, r);
    PtrFits(size, n, k);
    PtrFits(size, n, o);
    forall b | 0 <= b < size
      ensures BlockOf(s', size, n, k)[b] == BlockOf(s, size, n, o)[b]
    {
      RotateByte(size, t, r, k, b);
      assert s'[size * k + b] == s[RotatedFrom(size * k + b, size * t, size * r, size)];
    }
  }

  lemma RotateAtIndex(e: seq<Element>, t: nat, r: nat, k: nat)
    requires t < r < |e| && k < |e|
    ensures RotateAt(e, t, r)[k] == e[RotatedElement(k, t, r)]
  {
  }

  lemma RotateBlocks(s: seq<bv8>, s': seq<bv8>, size: nat, n: nat, t: nat, r: nat)
    requires size >= 1 && |s| == size * n && t < r < n
    requires BytesRotated(s, s', size * t, size * r, size)
    ensures Blocks(s', size, n) == RotateAt(Blocks(s, size, n), t, r)
  {
    hide RotateAt, BytesRotated;
    assert |s'| == |s| by { RotatedLength(s, s', size * t, size * r, size); }
    forall k | 0 <= k < n
      ensures Blocks(s', size, n)[k] == RotateAt(Blocks(s, size, n), t, r)[k]
    {
      RotateBlock(s, s', size, n, t, r, k);
      RotateAtIndex(Blocks(s, size, n), t, r, k);
    }
  }

  lemma RotatedLength(s: seq<bv8>, s': seq<bv8>, tmp: int, run: int, size: nat)
    requires BytesRotated(s, s', tmp, run, size)
    ensures |s'| == |s|
  {
  }

  method RotateElements(a: array<bv8>, tmp: int, run: int, size: nat, ghost n: nat, ghost t: nat, ghost r: nat)
    requires Shaped(a, size, n) && t < r < n && tmp == Ptr(size, t) && run == Ptr(size, r)
    modifies a
    ensures Blocks(a[..], size, n) == RotateAt(old(Blocks(a[..], size, n)), t, r)
  {
    hide BytesRotated, RotateAt, Blocks;
    PtrFits(size, n, r);
    PtrFits(size, n, t);
    ghost var down: int := t;
    BitVectors.MulDistributes(size, r, -down);
    ghost var s := a[..];
    RotateBytes(a, tmp, run, size, r - t);
    RotateBlocks(s, a[..], size, n, t, r);
  }
}
