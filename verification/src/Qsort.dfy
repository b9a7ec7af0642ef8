/** The non-recursive quicksort of libc_harness/qsort.c on an array of bytes: explicit
    stack, median of three, unguarded scans, a cut-off and a sentinel insertion sort. */
module Qsort {
  import opened BitVectors
  import opened QsortSpec
  import opened QsortPending
  import opened QsortBytes

  // ----- median of three -----

  /** Exchange the elements at `p` and `q`, with q before p, if they are out of order. */
  method OrderPair(a: array<bv8>, p: int, q: int, size: nat, cmp: Cmp,
                   ghost n: nat, ghost i: nat, ghost j: nat, ghost l: nat, ghost h: nat)
    returns (swapped: bool)
    requires Shaped(a, size, n) && Comparator(cmp, size) && l <= j < i <= h < n
    requires p == Ptr(size, i) && q == Ptr(size, j)
    modifies a
    ensures var e, e' := old(Blocks(a[..], size, n)), Blocks(a[..], size, n);
            Rearranged(e, e', l, h) && Le(cmp, e'[j], e'[i])
            && e' == if swapped then SwapAt(e, i, j) else e
    ensures swapped ==> Le(cmp, old(Blocks(a[..], size, n))[i], old(Blocks(a[..], size, n))[j])
  {
    hide Comparator, Rearranged, Blocks, Le, Ptr;
    ghost var e := Blocks(a[..], size, n);
    LeTotal(cmp, size, e[i], e[j]);
    var c := CompareElements(a, p, q, size, cmp, n, i, j);
    swapped := c < 0;
    if swapped {
      SwapElements(a, p, q, size, n, i, j);
      SwapRearranges(e, i, j, l, h);
    } else {
      RearrangedRefl(e, l, h);
    }
  }

  /** Order the elements at `lo`, `mid` and `hi` among themselves. */
  method MedianOfThree(a: array<bv8>, lo: int, mid: int, hi: int, size: nat, cmp: Cmp,
                       ghost n: nat, ghost l: nat, ghost m: nat, ghost h: nat)
    requires Shaped(a, size, n) && Comparator(cmp, size) && l < m < h < n
    requires lo == Ptr(size, l) && mid == Ptr(size, m) && hi == Ptr(size, h)
    modifies a
    ensures Rearranged(old(Blocks(a[..], size, n)), Blocks(a[..], size, n), l, h)
    ensures var e := Blocks(a[..], size, n); Le(cmp, e[l], e[m]) && Le(cmp, e[m], e[h])
    ensures var e, e' := old(Blocks(a[..], size, n)), Blocks(a[..], size, n);
            forall k :: 0 <= k < n && k != l && k != m && k != h ==> e'[k] == e[k]
  {
    hide Comparator, Rearranged, Blocks, Le, Ptr;
    ghost var e0 := Blocks(a[..], size, n);
    var swapped := OrderPair(a, mid, lo, size, cmp, n, m, l, l, h);
    ghost var e1 := Blocks(a[..], size, n);
    swapped := OrderPair(a, hi, mid, size, cmp, n, h, m, l, h);
    ghost var e2 := Blocks(a[..], size, n);
    RearrangedTrans(e0, e1, e2, l, h);
    if swapped {
      ThreeSwapped(e1, e2, l, m, h);
      swapped := OrderPair(a, mid, lo, size, cmp, n, m, l, l, h);
      ghost var e3 := Blocks(a[..], size, n);
      if swapped {
        ThreeSwapped(e2, e3, h, m, l);
      }
      RearrangedTrans(e0, e2, e3, l, h);
    }
  }

  lemma ThreeSwapped(e: seq<Element>, e': seq<Element>, k: nat, m: nat, h: nat)
    requires k < |e| && m < |e| && h < |e| && k != m && k != h && m != h
    requires e' == SwapAt(e, h, m) || e' == SwapAt(e, m, h)
    ensures |e'| == |e| && e'[k] == e[k] && e'[m] == e[h] && e'[h] == e[m]
  {
  }

  lemma RearrangedRefl(s: seq<Element>, lo: nat, hi: nat)
    requires lo <= hi < |s|
    ensures Rearranged(s, s, lo, hi)
  {
  }

  // ----- the inner scans -----

  /** Move right over elements smaller than the pivot; `stop` is an element that ends the scan. */
  method ScanLeft(a: array<bv8>, start: int, mid: int, size: nat, cmp: Cmp,
                  ghost n: nat, ghost s: nat, ghost m: nat, ghost stop: nat)
    returns (left: int, ghost lf: nat)
    requires Shaped(a, size, n) && Comparator(cmp, size) && s <= stop < n && m < n
    requires start == Ptr(size, s) && mid == Ptr(size, m)
    requires Le(cmp, Blocks(a[..], size, n)[m], Blocks(a[..], size, n)[stop])
    ensures left == Ptr(size, lf) && s <= lf <= stop
    ensures var e := Blocks(a[..], size, n);
            Le(cmp, e[m], e[lf]) && forall k :: s <= k < lf ==> cmp(e[k], e[m]) < 0
  {
    hide Comparator, Blocks, Le, Ptr;
    ghost var e := Blocks(a[..], size, n);
    left, lf := start, s;
    while true
      invariant left == Ptr(size, lf) && s <= lf <= stop
      invariant forall k :: s <= k < lf ==> cmp(e[k], e[m]) < 0
      decreases stop - lf
    {
      PtrCompare(size, lf, m);
      LeTotal(cmp, size, e[lf], e[m]);
      if left == mid {
        break;
      }
      var c := CompareElements(a, left, mid, size, cmp, n, lf, m);
      if !(c < 0) {
        break;
      }
      LeTotal(cmp, size, e[stop], e[m]);
      PtrNext(size, lf);
      left := left + size;
      lf := lf + 1;
    }
  }

  /** Move left over elements greater than the pivot; `stop` is an element that ends the scan. */
  method ScanRight(a: array<bv8>, start: int, mid: int, size: nat, cmp: Cmp,
                   ghost n: nat, ghost s: nat, ghost m: nat, ghost stop: nat)
    returns (right: int, ghost rt: nat)
    requires Shaped(a, size, n) && Comparator(cmp, size) && stop <= s < n && m < n
    requires start == Ptr(size, s) && mid == Ptr(size, m)
    requires Le(cmp, Blocks(a[..], size, n)[stop], Blocks(a[..], size, n)[m])
    ensures right == Ptr(size, rt) && stop <= rt <= s
    ensures var e := Blocks(a[..], size, n);
            Le(cmp, e[rt], e[m]) && forall k :: rt < k <= s ==> cmp(e[m], e[k]) < 0
  {
    hide Comparator, Blocks, Le, Ptr;
    ghost var e := Blocks(a[..], size, n);
    right, rt := start, s;
    while true
      invariant right == Ptr(size, rt) && stop <= rt <= s
      invariant forall k :: rt < k <= s ==> cmp(e[m], e[k]) < 0
      decreases rt - stop
    {
      PtrCompare(size, rt, m);
      LeTotal(cmp, size, e[m], e[rt]);
      if mid == right {
        break;
      }
      var c := CompareElements(a, mid, right, size, cmp, n, m, rt);
      if !(c < 0) {
        break;
      }
      LeTotal(cmp, size, e[m], e[stop]);
      PtrNext(size, rt);
      right := right - size;
      rt := rt - 1;
    }
  }

  // ----- partition -----

  /** Everything before `lf` is at most the pivot, everything after `rt` at least. */
  ghost predicate Parts(e: seq<Element>, cmp: Cmp, l: nat, h: nat, lf: nat, rt: nat, p: Element)
  {
    && l < lf <= h < |e| && l <= rt < h
    && (forall k :: l <= k < lf ==> Le(cmp, e[k], p))
    && (forall k :: rt < k <= h ==> Le(cmp, p, e[k]))
  }

  /** Exchanging a pair that stopped the scans moves both walls inwards. */
  lemma PartsSwap(e: seq<Element>, cmp: Cmp, l: nat, h: nat, lf: nat, rt: nat, p: Element)
    requires Parts(e, cmp, l, h, lf, rt, p) && lf < rt && Le(cmp, e[rt], p) && Le(cmp, p, e[lf])
    ensures Parts(SwapAt(e, lf, rt), cmp, l, h, lf + 1, rt - 1, p)
  {
    hide Le;
  }

  /** Once the walls have crossed, the two parts are separated by cuts. */
  lemma PartsSplit(e: seq<Element>, cmp: Cmp, l: nat, h: nat, lf: nat, rt: nat, p: Element, size: nat)
    requires Comparator(cmp, size) && Sized(e, size) && |p| == size
    requires Parts(e, cmp, l, h, lf, rt, p) && rt < lf <= rt + 2
    ensures Split(e, cmp, l, h, lf, rt)
  {
    hide Comparator, Le;
    forall i, j | l <= i <= rt < j <= h
      ensures Le(cmp, e[i], e[j])
    {
      LeTrans(cmp, size, e[i], p, e[j]);
    }
    forall i, j | l <= i < lf <= j <= h
      ensures Le(cmp, e[i], e[j])
    {
      LeTrans(cmp, size, e[i], p, e[j]);
    }
  }

  lemma Halfway(size: nat, l: nat, h: nat)
    requires size >= 1 && l <= h
    ensures (size * h - size * l) / size == h - l
  {
    var d: int := h - l;
    assert size * h - size * l == size * d by {
      var m: int := l;
      MulDistributes(size, h, -m);
    }
    QuotientOf(size, d);
  }

  lemma QuotientOf(size: nat, d: nat)
    requires size >= 1
    ensures size * d / size == d
  {
    var q := size * d / size;
    ModUnique(size * d, size, 0, d);
    assert size * d == q * size;
    if q < d {
      PtrOrder(size, q, d);
    } else if d < q {
      PtrOrder(size, d, q);
    }
  }

  /** Both scans: each wall is a sentinel for the other, so neither leaves `l..h`. */
  method ScanBoth(a: array<bv8>, left0: int, mid: int, right0: int, size: nat, cmp: Cmp,
                  ghost n: nat, ghost l: nat, ghost h: nat, ghost lf0: nat, ghost m: nat, ghost rt0: nat)
    returns (left: int, right: int, ghost lf: nat, ghost rt: nat)
    requires Shaped(a, size, n) && Comparator(cmp, size) && m < n && lf0 <= rt0
    requires left0 == Ptr(size, lf0) && mid == Ptr(size, m) && right0 == Ptr(size, rt0)
    requires Parts(Blocks(a[..], size, n), cmp, l, h, lf0, rt0, Blocks(a[..], size, n)[m])
    ensures left == Ptr(size, lf) && right == Ptr(size, rt) && lf0 <= lf <= rt + 1 && rt <= rt0
    ensures var e := Blocks(a[..], size, n);
            Parts(e, cmp, l, h, lf, rt, e[m]) && Le(cmp, e[rt], e[m]) && Le(cmp, e[m], e[lf])
  {
    hide Comparator, Blocks;
    left, lf := ScanLeft(a, left0, mid, size, cmp, n, lf0, m, rt0 + 1);
    right, rt := ScanRight(a, right0, mid, size, cmp, n, rt0, m, lf - 1);
  }

  /** Exchange the pair that stopped the scans, following the pivot. */
  method ExchangePair(a: array<bv8>, left: int, mid0: int, right: int, size: nat, cmp: Cmp,
                      ghost n: nat, ghost l: nat, ghost h: nat, ghost lf: nat, ghost m0: nat, ghost rt: nat)
    returns (mid: int, ghost m: nat)
    requires Shaped(a, size, n) && l <= m0 <= h < n && lf < rt
    requires left == Ptr(size, lf) && mid0 == Ptr(size, m0) && right == Ptr(size, rt)
    requires var e := Blocks(a[..], size, n);
             Parts(e, cmp, l, h, lf, rt, e[m0]) && Le(cmp, e[rt], e[m0]) && Le(cmp, e[m0], e[lf])
    modifies a
    ensures mid == Ptr(size, m) && l <= m <= h
    ensures var e, e' := old(Blocks(a[..], size, n)), Blocks(a[..], size, n);
            e'[m] == e[m0] && Rearranged(e, e', l, h) && Parts(e', cmp, l, h, lf + 1, rt - 1, e[m0])
  {
    hide Rearranged, Blocks, Le, SwapAt, Ptr;
    ghost var e := Blocks(a[..], size, n);
    PartsSwap(e, cmp, l, h, lf, rt, e[m0]);
    PtrCompare(size, m0, lf);
    PtrCompare(size, m0, rt);
    SwapRearranges(e, lf, rt, l, h);
    SwapMiddle(e, lf, rt, m0);
    SwapElements(a, left, right, size, n, lf, rt);
    mid, m := mid0, m0;
    if mid == left {
      mid, m := right, rt;
    } else if mid == right {
      mid, m := left, lf;
    }
  }

  /** The state of the ``collapse the walls'' loop between two rounds. */
  ghost predicate Walls(e: seq<Element>, cmp: Cmp, l: nat, h: nat, lf: nat, rt: nat, m: nat, p: Element, again: bool)
  {
    && Parts(e, cmp, l, h, lf, rt, p) && l <= m <= h && e[m] == p
    && if again then lf <= rt else rt < lf <= rt + 2
  }

  /** One round of the loop: scan from both ends, exchange the pair found, move on. */
  method WallRound(a: array<bv8>, left0: int, mid0: int, right0: int, size: nat, cmp: Cmp, ghost n: nat,
                   ghost l: nat, ghost h: nat, ghost lf0: nat, ghost m0: nat, ghost rt0: nat, ghost p: Element)
    returns (left: int, mid: int, right: int, again: bool, ghost lf: nat, ghost m: nat, ghost rt: nat)
    requires Shaped(a, size, n) && Comparator(cmp, size) && h < n
    requires left0 == Ptr(size, lf0) && mid0 == Ptr(size, m0) && right0 == Ptr(size, rt0)
    requires Walls(Blocks(a[..], size, n), cmp, l, h, lf0, rt0, m0, p, true)
    modifies a
    ensures left == Ptr(size, lf) && mid == Ptr(size, m) && right == Ptr(size, rt)
    ensures Rearranged(old(Blocks(a[..], size, n)), Blocks(a[..], size, n), l, h)
    ensures Walls(Blocks(a[..], size, n), cmp, l, h, lf, rt, m, p, again)
    ensures again ==> rt - lf < rt0 - lf0
  {
    hide Comparator, Rearranged, Blocks, Le, Ptr;
    left, right, lf, rt := ScanBoth(a, left0, mid0, right0, size, cmp, n, l, h, lf0, m0, rt0);
    mid, m := mid0, m0;
    PtrCompare(size, lf, rt);
    PtrNext(size, lf);
    PtrNext(size, rt);
    if left < right {
      mid, m := ExchangePair(a, left, mid, right, size, cmp, n, l, h, lf, m, rt);
      left, right := left + size, right - size;
      lf, rt := lf + 1, rt - 1;
      PtrCompare(size, rt, lf);
      again := left <= right;
    } else {
      RearrangedRefl(Blocks(a[..], size, n), l, h);
      again := false;
      if left == right {
        PartsMeet(Blocks(a[..], size, n), cmp, l, h, lf, p);
        left, right := left + size, right - size;
        lf, rt := lf + 1, rt - 1;
      }
    }
  }

  /** The ``collapse the walls'' loop, once the outer elements are sentinels for the scans. */
  method CollapseWalls(a: array<bv8>, lo: int, mid0: int, hi: int, size: nat, cmp: Cmp,
                       ghost n: nat, ghost l: nat, ghost m0: nat, ghost h: nat)
    returns (left: int, right: int, ghost lf: nat, ghost rt: nat)
    requires Shaped(a, size, n) && Comparator(cmp, size) && l < m0 < h < n
    requires lo == Ptr(size, l) && mid0 == Ptr(size, m0) && hi == Ptr(size, h)
    requires var e := Blocks(a[..], size, n); Le(cmp, e[l], e[m0]) && Le(cmp, e[m0], e[h])
    modifies a
    ensures left == Ptr(size, lf) && right == Ptr(size, rt)
    ensures Rearranged(old(Blocks(a[..], size, n)), Blocks(a[..], size, n), l, h)
    ensures Split(Blocks(a[..], size, n), cmp, l, h, lf, rt)
  {
    hide Comparator, Rearranged, Blocks, Le, Split, Ptr, Parts;
    ghost var e0 := Blocks(a[..], size, n);
    PartsStart(e0, cmp, l, m0, h);
    RearrangedRefl(e0, l, h);
    PtrNext(size, l);
    PtrNext(size, h);
    var mid, again := mid0, true;
    ghost var m, p := m0, e0[m0];
    left, right := lo + size, hi - size;
    lf, rt := l + 1, h - 1;
    while again
      invariant left == Ptr(size, lf) && right == Ptr(size, rt) && mid == Ptr(size, m)
      invariant Rearranged(e0, Blocks(a[..], size, n), l, h)
      invariant Walls(Blocks(a[..], size, n), cmp, l, h, lf, rt, m, p, again)
      decreases again, rt - lf
    {
      ghost var e := Blocks(a[..], size, n);
      left, mid, right, again, lf, m, rt := WallRound(a, left, mid, right, size, cmp, n, l, h, lf, m, rt, p);
      RearrangedTrans(e0, e, Blocks(a[..], size, n), l, h);
    }
    PartsSplit(Blocks(a[..], size, n), cmp, l, h, lf, rt, p, size);
  }

  lemma PartsStart(e: seq<Element>, cmp: Cmp, l: nat, m: nat, h: nat)
    requires l < m < h < |e| && Le(cmp, e[l], e[m]) && Le(cmp, e[m], e[h])
    ensures Parts(e, cmp, l, h, l + 1, h - 1, e[m])
  {
    hide Le;
  }

  lemma PartsMeet(e: seq<Element>, cmp: Cmp, l: nat, h: nat, k: nat, p: Element)
    requires Parts(e, cmp, l, h, k, k, p) && Le(cmp, e[k], p) && Le(cmp, p, e[k])
    ensures Parts(e, cmp, l, h, k + 1, k - 1, p)
  {
    hide Le;
  }

  lemma SwapMiddle(e: seq<Element>, i: nat, j: nat, m: nat)
    requires i < |e| && j < |e| && m < |e|
    ensures SwapAt(e, i, j)[if m == i then j else if m == j then i else m] == e[m]
  {
  }

  method Partition(a: array<bv8>, lo: int, hi: int, size: nat, cmp: Cmp, ghost n: nat, ghost l: nat, ghost h: nat)
    returns (left: int, right: int, ghost lf: nat, ghost rt: nat)
    requires Shaped(a, size, n) && Comparator(cmp, size) && l + 2 <= h < n
    requires lo == Ptr(size, l) && hi == Ptr(size, h)
    modifies a
    ensures left == Ptr(size, lf) && right == Ptr(size, rt)
    ensures Rearranged(old(Blocks(a[..], size, n)), Blocks(a[..], size, n), l, h)
    ensures Split(Blocks(a[..], size, n), cmp, l, h, lf, rt)
  {
    hide Comparator, Rearranged, Blocks, Split;
    Halfway(size, l, h);
    var mid := lo + size * ((hi - lo) / size / 2);
    ghost var m := l + (h - l) / 2;
    assert mid == Ptr(size, m) by { MulDistributes(size, l, (h - l) / 2); }
    ghost var e0 := Blocks(a[..], size, n);
    MedianOfThree(a, lo, mid, hi, size, cmp, n, l, m, h);
    ghost var e1 := Blocks(a[..], size, n);
    left, right, lf, rt := CollapseWalls(a, lo, mid, hi, size, cmp, n, l, m, h);
    RearrangedTrans(e0, e1, Blocks(a[..], size, n), l, h);
  }

  // ----- the quicksort phase -----

  const NULL: int := -1

  /** Conversion to size_t. */
  function SizeT(x: int): int { x % Pow2(64) }

  /** The objects C can hold: every pointer difference fits in ptrdiff_t. */
  ghost predicate FitsPtrdiff(size: nat, n: nat) { size * n < Pow2(63) }

  lemma SmallIsSizeT(x: int)
    requires 0 <= x < Pow2(64)
    ensures SizeT(x) == x
  {
    hide Pow2;
    ModUnique(x, Pow2(64), x, 0);
  }

  lemma InsideFits(size: nat, n: nat, k: nat)
    requires size >= 1 && k < n && FitsPtrdiff(size, n)
    ensures 0 <= size * k < Pow2(64)
  {
    PtrOrder(size, k, n);
    PtrOrder(size, 0, k);
    assert Pow2(64) == 2 * Pow2(63);
  }

  /** Pointer differences inside one range do not wrap as size_t and compare as index differences. */
  lemma PtrDifference(size: nat, n: nat, i: nat, j: nat)
    requires size >= 1 && i <= j < n && FitsPtrdiff(size, n) && n > MAX_THRESH
    ensures SizeT(Ptr(size, j) - Ptr(size, i)) == Ptr(size, j) - Ptr(size, i) >= 0
    ensures Ptr(size, j) - Ptr(size, i) <= SizeT(MAX_THRESH * size) <==> j - i <= MAX_THRESH
  {
    hide SizeT, Pow2, FitsPtrdiff;
    var low: int := i;
    var d := size * (j - i);
    assert size * j - size * i == d by { MulDistributes(size, j, -low); }
    InsideFits(size, n, j - i);
    InsideFits(size, n, MAX_THRESH);
    SmallIsSizeT(d);
    SmallIsSizeT(size * MAX_THRESH);
    assert MAX_THRESH * size == size * MAX_THRESH;
    PtrOrder(size, MAX_THRESH, j - i);
    PtrOrder(size, j - i, MAX_THRESH);
  }

  lemma PtrLonger(size: nat, i: nat, j: nat, k: nat, l: nat)
    requires size >= 1
    ensures Ptr(size, j) - Ptr(size, i) > Ptr(size, l) - Ptr(size, k) <==> j - i > l - k
  {
    var i': int, k': int := i, k;
    MulDistributes(size, j, -i');
    MulDistributes(size, l, -k');
    PtrOrder(size, j - i', l - k');
    PtrOrder(size, l - k', j - i');
  }

  /** Slot 0 holds the NULL sentinel; slot k the range pending at depth k - 1. */
  ghost predicate StackHolds(stack: seq<(int, int)>, size: nat, todo: seq<Range>)
  {
    && |stack| == STACK_SIZE && |todo| <= STACK_SIZE
    && forall k :: 1 <= k < |todo| ==> stack[k] == (Ptr(size, todo[k - 1].lo), Ptr(size, todo[k - 1].hi))
  }

  /** `lo` and `hi` point at the ends of the range being worked on, if there is one. */
  ghost predicate Current(lo: int, hi: int, size: nat, todo: seq<Range>)
  {
    |todo| > 0 ==> lo == Ptr(size, todo[|todo| - 1].lo) && hi == Ptr(size, todo[|todo| - 1].hi)
  }

  lemma StackPop(stack: seq<(int, int)>, size: nat, rest: seq<Range>, cur: Range)
    requires StackHolds(stack, size, rest + [cur])
    ensures |rest| < STACK_SIZE == |stack| && StackHolds(stack, size, rest)
    ensures Current(stack[|rest|].0, stack[|rest|].1, size, rest)
  {
    var todo := rest + [cur];
    forall k | 1 <= k <= |rest|
      ensures stack[k] == (Ptr(size, rest[k - 1].lo), Ptr(size, rest[k - 1].hi))
    {
      assert todo[k - 1] == rest[k - 1];
    }
  }

  lemma StackReplace(stack: seq<(int, int)>, size: nat, rest: seq<Range>, cur: Range, r: Range)
    requires StackHolds(stack, size, rest + [cur])
    ensures StackHolds(stack, size, rest + [r])
  {
    forall k | 1 <= k <= |rest|
      ensures stack[k] == (Ptr(size, (rest + [r])[k - 1].lo), Ptr(size, (rest + [r])[k - 1].hi))
    {
      assert (rest + [cur])[k - 1] == (rest + [r])[k - 1];
    }
  }

  lemma StackPush(stack: seq<(int, int)>, size: nat, rest: seq<Range>, cur: Range, large: Range, small: Range)
    requires StackHolds(stack, size, rest + [cur]) && |rest| + 1 < STACK_SIZE
    ensures StackHolds(stack[|rest| + 1 := (Ptr(size, large.lo), Ptr(size, large.hi))], size, rest + [large, small])
  {
    var stack' := stack[|rest| + 1 := (Ptr(size, large.lo), Ptr(size, large.hi))];
    var todo' := rest + [large, small];
    forall k | 1 <= k < |todo'|
      ensures stack'[k] == (Ptr(size, todo'[k - 1].lo), Ptr(size, todo'[k - 1].hi))
    {
      if k <= |rest| {
        assert todo'[k - 1] == rest[k - 1] == (rest + [cur])[k - 1];
      }
    }
  }

  /** What scheduling the next range leaves: the large parts pending, within all bounds. */
  ghost predicate Scheduled(rest: seq<Range>, cur: Range, lf: nat, rt: nat, kids: seq<Range>, n: nat)
  {
    && Kept(kids, cur.lo, cur.hi, lf, rt)
    && DepthBound(rest + kids, n)
    && Work(rest + kids) < Work(rest + [cur])
  }

  lemma ScheduledNone(rest: seq<Range>, cur: Range, lf: nat, rt: nat, n: nat)
    requires DepthBound(rest + [cur], n) && cur.lo <= rt < lf <= cur.hi
    requires rt - cur.lo <= MAX_THRESH && cur.hi - lf <= MAX_THRESH
    ensures Scheduled(rest, cur, lf, rt, [], n) && rest + [] == rest
  {
    assert rest + [] == rest;
    DepthPop(rest, cur, n);
    WorkAppend(rest, cur);
  }

  lemma ScheduledOne(rest: seq<Range>, cur: Range, lf: nat, rt: nat, r: Range, n: nat)
    requires DepthBound(rest + [cur], n) && cur.lo <= rt < lf <= cur.hi
    requires r == Range(cur.lo, rt) || r == Range(lf, cur.hi)
    requires r.hi - r.lo > MAX_THRESH
    requires r == Range(cur.lo, rt) ==> cur.hi - lf <= MAX_THRESH
    requires r == Range(lf, cur.hi) ==> rt - cur.lo <= MAX_THRESH
    ensures Scheduled(rest, cur, lf, rt, [r], n)
  {
    DepthSame(rest, cur, r, n);
    WorkAppend(rest, cur);
    WorkAppend(rest, r);
    assert r in [r];
  }

  lemma ScheduledTwo(rest: seq<Range>, cur: Range, lf: nat, rt: nat, large: Range, small: Range, n: nat)
    requires DepthBound(rest + [cur], n) && cur.lo <= rt < lf <= cur.hi
    requires rt - cur.lo > MAX_THRESH && cur.hi - lf > MAX_THRESH
    requires {large, small} == {Range(cur.lo, rt), Range(lf, cur.hi)} && Size(small) <= Size(large)
    ensures Scheduled(rest, cur, lf, rt, [large, small], n)
  {
    assert large in {large, small} && small in {large, small};
    assert Range(cur.lo, rt) in {large, small} && Range(lf, cur.hi) in {large, small};
    DepthPush(rest, cur, large, small, n);
    WorkAppend(rest, cur);
    WorkAppendTwo(rest, large, small);
    assert large in [large, small] && small in [large, small];
  }

  /** Decide what to sort next: ignore small parts, push the larger, go on with the smaller. */
  method NextRange(stack: array<(int, int)>, top0: nat, lo0: int, hi0: int, left: int, right: int, size: nat,
                   maxThresh: int, ghost n: nat, ghost rest: seq<Range>, ghost cur: Range, ghost lf: nat, ghost rt: nat)
    returns (top: nat, lo: int, hi: int, ghost kids: seq<Range>)
    requires size >= 1 && n > MAX_THRESH && FitsPtrdiff(size, n) && maxThresh == SizeT(MAX_THRESH * size)
    requires top0 == |rest| + 1 && cur.lo <= rt < lf <= cur.hi < n
    requires lo0 == Ptr(size, cur.lo) && hi0 == Ptr(size, cur.hi) && left == Ptr(size, lf) && right == Ptr(size, rt)
    requires stack.Length == STACK_SIZE && StackHolds(stack[..], size, rest + [cur])
    requires DepthBound(rest + [cur], n)
    modifies stack
    ensures Scheduled(rest, cur, lf, rt, kids, n)
    ensures top == |rest + kids| && StackHolds(stack[..], size, rest + kids) && Current(lo, hi, size, rest + kids)
  {
    hide Ptr, StackHolds, Scheduled, DepthBound, Kept, SizeT, FitsPtrdiff;
    PtrDifference(size, n, cur.lo, rt);
    PtrDifference(size, n, lf, cur.hi);
    PtrLonger(size, cur.lo, rt, lf, cur.hi);
    top, lo, hi := top0, lo0, hi0;
    if SizeT(right - lo) <= maxThresh {
      if SizeT(hi - left) <= maxThresh {
        kids := [];
        ScheduledNone(rest, cur, lf, rt, n);
        StackPop(stack[..], size, rest, cur);
        top := top - 1;
        lo, hi := stack[top].0, stack[top].1;
      } else {
        kids := [Range(lf, cur.hi)];
        ScheduledOne(rest, cur, lf, rt, Range(lf, cur.hi), n);
        StackReplace(stack[..], size, rest, cur, Range(lf, cur.hi));
        lo := left;
      }
    } else if SizeT(hi - left) <= maxThresh {
      kids := [Range(cur.lo, rt)];
      ScheduledOne(rest, cur, lf, rt, Range(cur.lo, rt), n);
      StackReplace(stack[..], size, rest, cur, Range(cur.lo, rt));
      hi := right;
    } else {
      DepthRoom(rest, cur, size, n);
      if right - lo > hi - left {
        kids := [Range(cur.lo, rt), Range(lf, cur.hi)];
        ScheduledTwo(rest, cur, lf, rt, Range(cur.lo, rt), Range(lf, cur.hi), n);
        StackPush(stack[..], size, rest, cur, Range(cur.lo, rt), Range(lf, cur.hi));
        stack[top] := (lo, right);
        lo := left;
      } else {
        kids := [Range(lf, cur.hi), Range(cur.lo, rt)];
        ScheduledTwo(rest, cur, lf, rt, Range(lf, cur.hi), Range(cur.lo, rt), n);
        StackPush(stack[..], size, rest, cur, Range(lf, cur.hi), Range(cur.lo, rt));
        stack[top] := (left, hi);
        hi := right;
      }
      top := top + 1;
    }
  }

  /** The push that follows finds a free slot among the STACK_SIZE. */
  lemma DepthRoom(rest: seq<Range>, cur: Range, size: nat, n: nat)
    requires size >= 1 && FitsPtrdiff(size, n) && DepthBound(rest + [cur], n) && Size(cur) >= 2
    ensures |rest| + 1 < STACK_SIZE
  {
    PtrOrder(1, 0, n);
    MulMono(1, size, n);
    assert Pow2(64) == 2 * Pow2(63);
    DepthFits(rest, cur, n);
  }

  /** The quicksort phase: terminates with the array cut into blocks of at most
      MAX_THRESH + 1 elements, and never uses more than STACK_SIZE stack slots. */
  method QuicksortPhase(a: array<bv8>, size: nat, cmp: Cmp, n: nat, maxThresh: int)
    requires Shaped(a, size, n) && Comparator(cmp, size) && n > MAX_THRESH && FitsPtrdiff(size, n)
    requires maxThresh == SizeT(MAX_THRESH * size)
    modifies a
    ensures Inv(Blocks(a[..], size, n), cmp, [])
    ensures multiset(Blocks(a[..], size, n)) == multiset(old(Blocks(a[..], size, n)))
  {
    hide Comparator, Rearranged, Blocks, Le, Ptr, StackHolds, Split, DepthBound, Kept, SizeT, FitsPtrdiff;
    hide RangesGood, RangesApart, WindowsSplit;
    var lo, hi := 0, size * (n - 1);
    var stack := new (int, int)[STACK_SIZE](_ => (NULL, NULL));
    var top := 0;
    stack[top] := (NULL, NULL);
    top := top + 1;
    ghost var todo := [Range(0, n - 1)];
    InvStart(Blocks(a[..], size, n), cmp);
    StartPointers(stack[..], size, n);
    while top > 0
      invariant top == |todo| && Inv(Blocks(a[..], size, n), cmp, todo)
      invariant stack.Length == STACK_SIZE && StackHolds(stack[..], size, todo) && Current(lo, hi, size, todo)
      invariant multiset(Blocks(a[..], size, n)) == multiset(old(Blocks(a[..], size, n)))
      decreases Work(todo)
    {
      ghost var e, rest, cur := Blocks(a[..], size, n), todo[..top - 1], todo[top - 1];
      assert todo == rest + [cur];
      CurrentGood(e, cmp, todo);
      WorkPositive(e, cmp, todo);
      var left, right;
      ghost var lf, rt;
      left, right, lf, rt := Partition(a, lo, hi, size, cmp, n, cur.lo, cur.hi);
      ghost var e' := Blocks(a[..], size, n);
      RearrangedMultiset(e, e', cur.lo, cur.hi);
      SplitBounds(e', cmp, cur.lo, cur.hi, lf, rt);
      ghost var kids;
      top, lo, hi, kids := NextRange(stack, top, lo, hi, left, right, size, maxThresh, n, rest, cur, lf, rt);
      Step(e, e', cmp, rest, cur, lf, rt, kids);
      todo := rest + kids;
    }
    assert todo == [];
  }

  lemma StartPointers(stack: seq<(int, int)>, size: nat, n: nat)
    requires |stack| == STACK_SIZE && n > 0
    ensures StackHolds(stack, size, [Range(0, n - 1)]) && Current(0, size * (n - 1), size, [Range(0, n - 1)])
  {
  }

  lemma CurrentGood(e: seq<Element>, cmp: Cmp, todo: seq<Range>)
    requires RangesGood(e, cmp, todo) && |todo| > 0
    ensures var cur := todo[|todo| - 1]; cur.lo + MAX_THRESH <= cur.hi < |e|
  {
    assert GoodRange(e, cmp, todo[|todo| - 1]);
  }

  lemma WorkPositive(e: seq<Element>, cmp: Cmp, todo: seq<Range>)
    requires RangesGood(e, cmp, todo)
    ensures Work(todo) >= 0
  {
    forall k | 0 <= k < |todo|
      ensures Size(todo[k]) > 0
    {
      assert GoodRange(e, cmp, todo[k]);
    }
    WorkNonNegative(todo);
  }

  lemma SplitBounds(e: seq<Element>, cmp: Cmp, lo: nat, hi: nat, left: nat, right: nat)
    requires Split(e, cmp, lo, hi, left, right)
    ensures lo <= right < left <= hi
  {
  }
}
