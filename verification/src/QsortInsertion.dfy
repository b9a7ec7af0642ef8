/** The insertion sort that finishes libc_harness/qsort.c, and the whole function. */
module QsortInsertion {
  import opened BitVectors
  import opened QsortSpec
  import opened QsortPending
  import opened QsortBytes
  import opened Qsort

  /** Elements more than MAX_THRESH apart are in order. */
  ghost predicate NearlySorted(e: seq<Element>, cmp: Cmp)
  {
    forall i, j :: 0 <= i && i + MAX_THRESH < j < |e| ==> Le(cmp, e[i], e[j])
  }

  ghost predicate SmallestFirst(e: seq<Element>, cmp: Cmp)
  {
    forall k :: 0 <= k < |e| ==> Le(cmp, e[0], e[k])
  }

  function Min(x: int, y: int): int { if x < y then x else y }

  // ----- pointers near the top of memory -----

  /** The array, and the address after it, lie within memory. */
  ghost predicate InMemory(base: nat, size: nat, n: nat) { base + size * n < Pow2(64) }

  /** For up to four elements the code forms addresses beyond the array: those of element
      MAX_THRESH, or of element 2 for a single one. They must not wrap around either. */
  ghost predicate Roomy(base: nat, size: nat, n: nat)
  {
    && (n == 1 ==> base + 2 * size < Pow2(64))
    && (1 < n <= MAX_THRESH ==> base + MAX_THRESH * size < Pow2(64))
  }

  /** `min(end_ptr, base_ptr + max_thresh)`, relative to the array. */
  function Threshold(base: nat, size: nat, n: nat): int
  {
    Min(size * (n - 1), SizeT(base + SizeT(MAX_THRESH * size)) - base)
  }

  /** For two elements and more, `thresh` points at the last of the first MAX_THRESH + 1
      elements if and only if there is room; otherwise it points below the array. */
  lemma ThreshPointer(base: nat, size: nat, n: nat)
    requires size >= 1 && n >= 2 && FitsPtrdiff(size, n) && InMemory(base, size, n)
    ensures Threshold(base, size, n) == Ptr(size, Min(n - 1, MAX_THRESH)) <==> Roomy(base, size, n)
    ensures !Roomy(base, size, n) ==> Threshold(base, size, n) < 0
  {
    hide Pow2, SizeT, FitsPtrdiff, InMemory, Threshold;
    ThresholdIs(base, size, n);
    PtrMultiples(size, n);
    assert n > MAX_THRESH ==> base + MAX_THRESH * size < Pow2(64) by {
      InsideMemory(base, size, n);
    }
  }

  lemma InsideMemory(base: nat, size: nat, n: nat)
    requires InMemory(base, size, n)
    ensures base < Pow2(64) && (n > MAX_THRESH ==> base + MAX_THRESH * size < Pow2(64))
  {
    hide Pow2;
    PtrMultiples(size, n + 1);
  }

  lemma ThresholdIs(base: nat, size: nat, n: nat)
    requires size >= 1 && n >= 2 && FitsPtrdiff(size, n) && InMemory(base, size, n)
    ensures MAX_THRESH * size < Pow2(64)
    ensures var reach := MAX_THRESH * size - if base + MAX_THRESH * size < Pow2(64) then 0 else Pow2(64);
            Threshold(base, size, n) == Min(size * (n - 1), reach)
  {
    var four, end := MAX_THRESH * size, size * (n - 1);
    ThreshFits(size, n);
    InsideMemory(base, size, n);
    hide *;
    NestedSize(base, four);
    ThresholdDef(base, size, n, four, end);
  }

  lemma ThresholdDef(base: nat, size: nat, n: nat, four: nat, end: int)
    requires four == MAX_THRESH * size && end == size * (n - 1)
    ensures Threshold(base, size, n) == Min(end, SizeT(base + SizeT(four)) - base)
  {
    hide Pow2, SizeT, Min;
  }

  lemma NestedSize(base: nat, y: nat)
    requires base < Pow2(64) && y < Pow2(64)
    ensures SizeT(base + SizeT(y)) == base + y - if base + y < Pow2(64) then 0 else Pow2(64)
  {
    hide Pow2, SizeT;
    SmallIsSizeT(y);
    if base + y < Pow2(64) {
      SmallIsSizeT(base + y);
    } else {
      WrapsOnce(base + y);
    }
  }

  lemma PtrMultiples(size: nat, n: nat)
    requires n >= 1
    ensures 0 <= size * (n - 1)
    ensures if n > MAX_THRESH then MAX_THRESH * size <= size * (n - 1) else size * (n - 1) <= MAX_THRESH * size
  {
  }

  lemma ThreshFits(size: nat, n: nat)
    requires n >= 2 && FitsPtrdiff(size, n)
    ensures 2 * size < Pow2(63) && MAX_THRESH * size < Pow2(64)
  {
    TopPower();
    hide Pow2;
    PtrTwice(size, n);
  }

  lemma PtrTwice(size: nat, n: nat)
    requires n >= 2
    ensures 2 * size <= size * n
  {
  }

  lemma WrapsOnce(x: nat)
    requires Pow2(64) <= x < 2 * Pow2(64)
    ensures SizeT(x) == x - Pow2(64)
  {
    hide Pow2;
    ModUnique(x, Pow2(64), x - Pow2(64), 1);
  }

  /** For a single element `thresh` is not above it, whatever wraps around. */
  lemma SingleThreshold(base: nat, size: nat)
    ensures Threshold(base, size, 1) <= 0
  {
  }

  /** The insertion scan starts at element 2, relative to the array. */
  function FirstRun(base: nat, size: nat): int { SizeT(base + 2 * size) - base }

  /** The scan starts behind a single element if and only if there is room; otherwise below it. */
  lemma RunPointer(base: nat, size: nat, n: nat)
    requires size >= 1 && n >= 1 && FitsPtrdiff(size, n) && InMemory(base, size, n)
    ensures n > 1 || Roomy(base, size, n) ==> FirstRun(base, size) == Ptr(size, 2)
    ensures n == 1 && !Roomy(base, size, n) ==> FirstRun(base, size) < 0
  {
    var x := base + 2 * size;
    SizeFits(size, n);
    assert base < Pow2(64) && (n > 1 ==> x < Pow2(64)) by {
      if n > 1 {
        PtrTwice(size, n);
      }
    }
    hide Pow2, SizeT, FitsPtrdiff, InMemory;
    if x < Pow2(64) {
      SmallIsSizeT(x);
    } else {
      WrapsOnce(x);
    }
  }

  lemma SizeFits(size: nat, n: nat)
    requires n >= 1 && FitsPtrdiff(size, n)
    ensures 2 * size < Pow2(64)
  {
    TopPower();
    hide Pow2;
    PtrOnce(size, n);
  }

  lemma TopPower()
    ensures Pow2(64) == 2 * Pow2(63)
  {
  }

  lemma PtrOnce(size: nat, n: nat)
    requires n >= 1
    ensures size <= size * n
  {
  }

  lemma SmallestOfAll(e: seq<Element>, cmp: Cmp, size: nat, t: nat)
    requires Comparator(cmp, size) && Sized(e, size) && NearlySorted(e, cmp) && t < |e|
    requires forall k :: 0 <= k <= Min(|e| - 1, MAX_THRESH) ==> Le(cmp, e[t], e[k])
    ensures forall k :: 0 <= k < |e| ==> Le(cmp, e[t], e[k])
  {
    hide Comparator, Le;
    forall k | 0 <= k < |e|
      ensures Le(cmp, e[t], e[k])
    {
      if k > MAX_THRESH {
        LeTrans(cmp, size, e[t], e[0], e[k]);
      }
    }
  }

  lemma SwapSmallest(e: seq<Element>, cmp: Cmp, t: nat)
    requires 0 < t < |e| && forall k :: 0 <= k < |e| ==> Le(cmp, e[t], e[k])
    ensures SmallestFirst(SwapAt(e, t, 0), cmp) && multiset(SwapAt(e, t, 0)) == multiset(e)
  {
    hide Le;
    SwapSame(e, t, 0);
  }

  /** The threshold lets the search for the smallest element reach element `last`. */
  ghost predicate Reaches(thresh: int, size: nat, n: nat, last: nat)
  {
    last <= Min(n - 1, MAX_THRESH) && (thresh == Ptr(size, last) || (last == 0 && thresh <= 0))
  }

  lemma ReachesTo(thresh: int, size: nat, n: nat, last: nat, r: nat)
    requires size >= 1 && n >= 1 && Reaches(thresh, size, n, last) && r >= 1
    ensures Ptr(size, r) <= thresh <==> r <= last
  {
    PtrCompare(size, last, r);
    PtrCompare(size, 0, r);
    PtrZero(size);
  }

  /** The smallest of the first elements; if the threshold reaches far enough, it is the
      smallest of all. */
  method FindSmallest(a: array<bv8>, size: nat, cmp: Cmp, thresh: int, ghost n: nat, ghost last: nat)
    returns (tmp: int, ghost t: nat)
    requires Shaped(a, size, n) && Comparator(cmp, size) && n >= 1 && Reaches(thresh, size, n, last)
    requires NearlySorted(Blocks(a[..], size, n), cmp)
    ensures tmp == Ptr(size, t) && t <= last <= Min(n - 1, MAX_THRESH)
    ensures var e := Blocks(a[..], size, n);
            last == Min(n - 1, MAX_THRESH) ==> forall k :: 0 <= k < n ==> Le(cmp, e[t], e[k])
  {
    hide Comparator, Blocks, Le, Ptr, NearlySorted;
    ghost var e := Blocks(a[..], size, n);
    PtrZero(size);
    PtrNext(size, 0);
    LeTotal(cmp, size, e[0], e[0]);
    var run := 0 + size;
    tmp, t := 0, 0;
    ghost var r: nat := 1;
    ReachesTo(thresh, size, n, last, r);
    hide Reaches;
    while run <= thresh
      invariant tmp == Ptr(size, t) && run == Ptr(size, r) && t < r <= last + 1 <= n
      invariant run <= thresh <==> r <= last
      invariant forall k :: 0 <= k < r ==> Le(cmp, e[t], e[k])
      decreases last + 1 - r
    {
      var c := CompareElements(a, run, tmp, size, cmp, n, r, t);
      LeTotal(cmp, size, e[r], e[t]);
      if c < 0 {
        SmallerStill(e, cmp, size, r, t);
        LeTotal(cmp, size, e[r], e[r]);
        tmp, t := run, r;
      }
      PtrNext(size, r);
      run := run + size;
      r := r + 1;
      ReachesTo(thresh, size, n, last, r);
    }
    if last == Min(n - 1, MAX_THRESH) {
      SmallestOfAll(e, cmp, size, t);
    }
  }

  /** Bring the smallest element to the front, as the sentinel of the insertion scans. If the
      threshold does not reach beyond element 0, nothing moves. */
  method PlaceSmallest(a: array<bv8>, size: nat, cmp: Cmp, thresh: int, ghost n: nat, ghost last: nat)
    requires Shaped(a, size, n) && Comparator(cmp, size) && n >= 1 && Reaches(thresh, size, n, last)
    requires NearlySorted(Blocks(a[..], size, n), cmp)
    modifies a
    ensures last == Min(n - 1, MAX_THRESH) ==> SmallestFirst(Blocks(a[..], size, n), cmp)
    ensures last == 0 ==> a[..] == old(a[..])
    ensures multiset(Blocks(a[..], size, n)) == multiset(old(Blocks(a[..], size, n)))
  {
    hide Comparator, Blocks, Le, Ptr, NearlySorted, SmallestFirst, SwapAt, Reaches;
    ghost var e := Blocks(a[..], size, n);
    var tmp;
    ghost var t;
    tmp, t := FindSmallest(a, size, cmp, thresh, n, last);
    PtrZero(size);
    PtrCompare(size, t, 0);
    if tmp != 0 {
      SwapElements(a, tmp, 0, size, n, t, 0);
      SwapSame(e, t, 0);
      if last == Min(n - 1, MAX_THRESH) {
        SwapSmallest(e, cmp, t);
      }
    } else if last == Min(n - 1, MAX_THRESH) {
      AlreadyFirst(e, cmp);
    }
  }

  lemma PtrZero(size: nat)
    ensures Ptr(size, 0) == 0
  {
  }

  lemma AlreadyFirst(e: seq<Element>, cmp: Cmp)
    requires |e| > 0 && forall k :: 0 <= k < |e| ==> Le(cmp, e[0], e[k])
    ensures SmallestFirst(e, cmp)
  {
  }

  lemma SmallerStill(e: seq<Element>, cmp: Cmp, size: nat, r: nat, t: nat)
    requires Comparator(cmp, size) && Sized(e, size) && t < r < |e| && Le(cmp, e[r], e[t])
    requires forall k :: 0 <= k < r ==> Le(cmp, e[t], e[k])
    ensures forall k :: 0 <= k < r ==> Le(cmp, e[r], e[k])
  {
    hide Comparator, Le;
    forall k | 0 <= k < r
      ensures Le(cmp, e[r], e[k])
    {
      LeTrans(cmp, size, e[r], e[t], e[k]);
    }
  }

  // ----- insertion -----

  ghost predicate SortedTo(e: seq<Element>, cmp: Cmp, r: nat)
  {
    r <= |e| && forall i, j :: 0 <= i < j < r ==> Le(cmp, e[i], e[j])
  }

  /** Moving the element at `r` down to where it belongs extends the sorted prefix. */
  lemma InsertKeeps(e: seq<Element>, cmp: Cmp, size: nat, t: nat, r: nat)
    requires Comparator(cmp, size) && Sized(e, size) && 1 <= t <= r < |e|
    requires SortedTo(e, cmp, r) && SmallestFirst(e, cmp)
    requires Le(cmp, e[t - 1], e[r]) && forall k :: t <= k < r ==> Le(cmp, e[r], e[k])
    ensures SortedTo(RotateAt(e, t, r), cmp, r + 1)
  {
    hide Comparator, Le;
    var q := RotateAt(e, t, r);
    forall i, j | 0 <= i < j < r + 1
      ensures Le(cmp, q[i], q[j])
    {
      if i < t && j == t {
        if i < t - 1 {
          LeTrans(cmp, size, e[i], e[t - 1], e[r]);
        }
      } else if i == t && t < j {
        assert q[j] == e[j - 1];
      } else if t < i {
        assert q[i] == e[i - 1] && q[j] == e[j - 1];
      } else if i < t && t < j {
        assert q[j] == e[j - 1];
      }
    }
  }

  lemma RotateFirst(e: seq<Element>, cmp: Cmp, t: nat, r: nat)
    requires 1 <= t <= r < |e| && SmallestFirst(e, cmp)
    ensures SmallestFirst(RotateAt(e, t, r), cmp)
  {
    hide Le;
    var q := RotateAt(e, t, r);
    forall k | 0 <= k < |q|
      ensures Le(cmp, q[0], q[k])
    {
      assert q[k] == e[if k < t then k else if k == t then r else if k <= r then k - 1 else k];
    }
  }

  lemma RotateNone(e: seq<Element>, r: nat)
    requires r < |e|
    ensures RotateAt(e, r, r) == e
  {
  }

  /** Scan down for the place of the run element; the smallest element is the sentinel. */
  method FindPlace(a: array<bv8>, run: int, size: nat, cmp: Cmp, ghost n: nat, ghost r: nat)
    returns (tmp: int, ghost t: nat)
    requires Shaped(a, size, n) && Comparator(cmp, size) && 1 <= r < n && run == Ptr(size, r)
    requires SmallestFirst(Blocks(a[..], size, n), cmp)
    ensures tmp == Ptr(size, t) && 1 <= t <= r
    ensures var e := Blocks(a[..], size, n);
            Le(cmp, e[t - 1], e[r]) && forall k :: t <= k < r ==> Le(cmp, e[r], e[k])
  {
    hide Comparator, Blocks, Le, Ptr;
    ghost var e := Blocks(a[..], size, n);
    PtrNext(size, r);
    tmp, t := run - size, r - 1;
    while true
      invariant tmp == Ptr(size, t) && 0 <= t < r
      invariant forall k :: t < k < r ==> Le(cmp, e[r], e[k])
      decreases t
    {
      var c := CompareElements(a, run, tmp, size, cmp, n, r, t);
      LeTotal(cmp, size, e[r], e[t]);
      PtrNext(size, t);
      if !(c < 0) {
        break;
      }
      if t == 0 {
        SentinelStops(e, cmp, size, r);
      }
      tmp := tmp - size;
      t := t - 1;
    }
    tmp := tmp + size;
    t := t + 1;
  }

  lemma SentinelStops(e: seq<Element>, cmp: Cmp, size: nat, r: nat)
    requires Comparator(cmp, size) && Sized(e, size) && r < |e| && SmallestFirst(e, cmp)
    ensures cmp(e[r], e[0]) >= 0
  {
    LeTotal(cmp, size, e[r], e[0]);
  }

  method InsertOne(a: array<bv8>, run: int, size: nat, cmp: Cmp, ghost n: nat, ghost r: nat)
    requires Shaped(a, size, n) && Comparator(cmp, size) && 1 <= r < n && run == Ptr(size, r)
    requires SmallestFirst(Blocks(a[..], size, n), cmp) && SortedTo(Blocks(a[..], size, n), cmp, r)
    modifies a
    ensures SmallestFirst(Blocks(a[..], size, n), cmp) && SortedTo(Blocks(a[..], size, n), cmp, r + 1)
    ensures multiset(Blocks(a[..], size, n)) == multiset(old(Blocks(a[..], size, n)))
  {
    hide Comparator, Blocks, Le, Ptr, SortedTo, SmallestFirst, RotateAt;
    ghost var e := Blocks(a[..], size, n);
    var tmp;
    ghost var t;
    tmp, t := FindPlace(a, run, size, cmp, n, r);
    InsertKeeps(e, cmp, size, t, r);
    RotateFirst(e, cmp, t, r);
    RotateSame(e, t, r);
    RotateNone(e, r);
    PtrCompare(size, t, r);
    if tmp != run {
      RotateElements(a, tmp, run, size, n, t, r);
    }
  }

  lemma SortedStart(e: seq<Element>, cmp: Cmp)
    requires SmallestFirst(e, cmp)
    ensures SortedTo(e, cmp, Min(2, |e|))
  {
  }

  /** Put the elements in order one by one, from the second to the last. With up to two
      elements there is nothing to do. */
  method InsertAll(a: array<bv8>, size: nat, cmp: Cmp, end: int, start: int, ghost n: nat)
    requires Shaped(a, size, n) && Comparator(cmp, size) && n >= 1 && end == Ptr(size, n - 1) && start == Ptr(size, 2)
    requires n <= 2 || SmallestFirst(Blocks(a[..], size, n), cmp)
    modifies a
    ensures old(SmallestFirst(Blocks(a[..], size, n), cmp)) ==> SortedTo(Blocks(a[..], size, n), cmp, n)
    ensures n <= 2 ==> a[..] == old(a[..])
    ensures multiset(Blocks(a[..], size, n)) == multiset(old(Blocks(a[..], size, n)))
  {
    hide Comparator, Blocks, Le, Ptr, SmallestFirst, SortedTo;
    ghost var first := SmallestFirst(Blocks(a[..], size, n), cmp);
    if first {
      SortedStart(Blocks(a[..], size, n), cmp);
    }
    var run := start;
    ghost var r := 2;
    PtrCompare(size, n - 1, r);
    while run <= end
      invariant run == Ptr(size, r) && 2 <= r && (run <= end <==> r <= n - 1) && r <= Max(n, 2)
      invariant first ==> SmallestFirst(Blocks(a[..], size, n), cmp) && SortedTo(Blocks(a[..], size, n), cmp, Min(r, n))
      invariant n <= 2 ==> a[..] == old(a[..])
      invariant multiset(Blocks(a[..], size, n)) == multiset(old(Blocks(a[..], size, n)))
      decreases n - r
    {
      InsertOne(a, run, size, cmp, n, r);
      PtrNext(size, r);
      run := run + size;
      r := r + 1;
      PtrCompare(size, n - 1, r);
    }
  }

  function Max(x: int, y: int): int { if x < y then y else x }

  lemma PtrIs(size: nat, i: int)
    ensures size * i == Ptr(size, i)
  {
  }

  /** Where the search for the smallest element ends, with the array at address `base`. */
  ghost function LastReached(base: nat, size: nat, n: nat): nat
    requires n >= 1
  {
    if Roomy(base, size, n) then Min(n - 1, MAX_THRESH) else 0
  }

  lemma ThresholdReaches(base: nat, size: nat, n: nat)
    requires size >= 1 && n >= 1 && FitsPtrdiff(size, n) && InMemory(base, size, n)
    ensures Reaches(Threshold(base, size, n), size, n, LastReached(base, size, n))
  {
    if n == 1 {
      SingleThreshold(base, size);
    } else {
      ThreshPointer(base, size, n);
    }
  }

  /** The insertion sort on an array at address `base`. For two elements it needs no room,
      but then does nothing. */
  method InsertionPhase(a: array<bv8>, base: nat, size: nat, cmp: Cmp, n: nat, maxThresh: int)
    requires Shaped(a, size, n) && Comparator(cmp, size) && n >= 1 && FitsPtrdiff(size, n) && InMemory(base, size, n)
    requires maxThresh == SizeT(MAX_THRESH * size) && (Roomy(base, size, n) || n == 2)
    requires NearlySorted(Blocks(a[..], size, n), cmp)
    modifies a
    ensures Roomy(base, size, n) ==> Sorted(Blocks(a[..], size, n), cmp)
    ensures !Roomy(base, size, n) ==> a[..] == old(a[..])
    ensures multiset(Blocks(a[..], size, n)) == multiset(old(Blocks(a[..], size, n)))
  {
    PtrIs(size, n - 1);
    ThresholdReaches(base, size, n);
    RunPointer(base, size, n);
    var end := size * (n - 1);
    var thresh := Min(end, SizeT(base + maxThresh) - base);
    assert thresh == Threshold(base, size, n);
    hide Comparator, Blocks, Le, Ptr, NearlySorted, SmallestFirst, FitsPtrdiff, SizeT, Roomy, InMemory, Threshold,
         Reaches;
    ghost var last := LastReached(base, size, n);
    PlaceSmallest(a, size, cmp, thresh, n, last);
    var start := SizeT(base + 2 * size) - base;
    InsertAll(a, size, cmp, end, start, n);
  }

  // ----- the whole function -----

  lemma NearlyFromCuts(e: seq<Element>, cmp: Cmp)
    requires Inv(e, cmp, [])
    ensures NearlySorted(e, cmp)
  {
    forall i, j | 0 <= i && i + MAX_THRESH < j < |e|
      ensures Le(cmp, e[i], e[j])
    {
      InvEnd(e, cmp, i, j);
    }
  }

  /** `_quicksort` on an array at address `base`: for every element count, every element size
      of at least one byte and every total-preorder comparator, the array ends up sorted and
      its elements, as byte blocks, are a permutation of the original ones, if there is room
      behind a short array; otherwise two elements are left as they are. */
  method Quicksort(a: array<bv8>, base: nat, total: nat, size: nat, cmp: Cmp)
    requires size >= 1 && a.Length == size * total && FitsPtrdiff(size, total) && Comparator(cmp, size)
    requires InMemory(base, size, total) && (Roomy(base, size, total) || total == 2)
    modifies a
    ensures Roomy(base, size, total) ==> Sorted(Blocks(a[..], size, total), cmp)
    ensures !Roomy(base, size, total) ==> a[..] == old(a[..])
    ensures multiset(Blocks(a[..], size, total)) == multiset(old(Blocks(a[..], size, total)))
  {
    hide Comparator, Blocks, Le, FitsPtrdiff, Inv, Roomy, InMemory;
    var maxThresh := SizeT(MAX_THRESH * size);
    if total == 0 {
      assert Roomy(base, size, 0) by { EmptyRoomy(base, size); }
      return;
    }
    if total > MAX_THRESH {
      QuicksortPhase(a, size, cmp, total, maxThresh);
      NearlyFromCuts(Blocks(a[..], size, total), cmp);
      assert Roomy(base, size, total) by { LongRoomy(base, size, total); }
    }
    InsertionPhase(a, base, size, cmp, total, maxThresh);
  }

  lemma EmptyRoomy(base: nat, size: nat)
    ensures Roomy(base, size, 0)
  {
  }

  lemma LongRoomy(base: nat, size: nat, n: nat)
    requires n > MAX_THRESH
    ensures Roomy(base, size, n)
  {
  }
}
