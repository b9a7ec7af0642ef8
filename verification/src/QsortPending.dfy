/** The invariant of the quicksort phase: which ranges are still pending on the explicit
    stack, what is already ordered, and why the stack cannot overflow. */
module QsortPending {
  import opened BitVectors
  import opened QsortSpec

  datatype Range = Range(lo: nat, hi: nat)

  function Size(r: Range): int { r.hi - r.lo + 1 }

  /** Some cut separates positions `i` and `i + MAX_THRESH + 1`. */
  ghost predicate CutNear(s: seq<Element>, cmp: Cmp, i: int)
  {
    exists c: nat :: i < c <= i + MAX_THRESH + 1 && Cut(s, cmp, c)
  }

  ghost predicate Covers(r: Range, i: int) { r.lo <= i && i + MAX_THRESH + 1 <= r.hi }

  ghost predicate Pending(todo: seq<Range>, i: int)
  {
    exists k :: 0 <= k < |todo| && Covers(todo[k], i)
  }

  predicate Apart(r: Range, q: Range) { r.hi < q.lo || q.hi < r.lo }

  /** A pending range has more than MAX_THRESH elements and lies between two cuts. */
  ghost predicate GoodRange(s: seq<Element>, cmp: Cmp, r: Range)
  {
    r.lo + MAX_THRESH <= r.hi < |s| && Cut(s, cmp, r.lo) && Cut(s, cmp, r.hi + 1)
  }

  /** The range at depth d covers at most total_elems / 2^d elements. */
  ghost predicate DepthBound(todo: seq<Range>, n: nat)
  {
    forall d :: 0 <= d < |todo| ==> Size(todo[d]) * Pow2(d) <= n
  }

  ghost predicate RangesGood(s: seq<Element>, cmp: Cmp, todo: seq<Range>)
  {
    forall k :: 0 <= k < |todo| ==> GoodRange(s, cmp, todo[k])
  }

  ghost predicate RangesApart(todo: seq<Range>)
  {
    forall i, j :: 0 <= i < j < |todo| ==> Apart(todo[i], todo[j])
  }

  /** Any MAX_THRESH + 2 neighbours are split by a cut or wait in one pending range. */
  ghost predicate WindowsSplit(s: seq<Element>, cmp: Cmp, todo: seq<Range>)
  {
    forall i :: 0 <= i && i + MAX_THRESH + 1 < |s| ==> CutNear(s, cmp, i) || Pending(todo, i)
  }

  /** The last range of `todo` is the one being partitioned; the others are on the stack. */
  ghost predicate Inv(s: seq<Element>, cmp: Cmp, todo: seq<Range>)
  {
    && RangesGood(s, cmp, todo)
    && RangesApart(todo)
    && WindowsSplit(s, cmp, todo)
    && DepthBound(todo, |s|)
  }

  lemma InvStart(s: seq<Element>, cmp: Cmp)
    requires |s| > MAX_THRESH
    ensures Inv(s, cmp, [Range(0, |s| - 1)])
  {
    var todo := [Range(0, |s| - 1)];
    forall i | 0 <= i && i + MAX_THRESH + 1 < |s|
      ensures Pending(todo, i)
    {
      assert Covers(todo[0], i);
    }
  }

  /** With nothing pending, elements more than MAX_THRESH apart are in order. */
  lemma InvEnd(s: seq<Element>, cmp: Cmp, i: nat, j: nat)
    requires Inv(s, cmp, []) && i + MAX_THRESH < j < |s|
    ensures Le(cmp, s[i], s[j])
  {
    assert CutNear(s, cmp, i);
    var c: nat :| i < c <= i + MAX_THRESH + 1 && Cut(s, cmp, c);
    CutAt(s, cmp, c, i, j);
  }

  // ----- one partition step -----

  /** What a partition of `lo..hi` leaves: cuts at `right + 1` and `left`, at most one
      element between the two parts. */
  ghost predicate Split(s: seq<Element>, cmp: Cmp, lo: nat, hi: nat, left: nat, right: nat)
  {
    && lo <= right < left <= hi < |s| && left <= right + 2
    && (forall i, j :: lo <= i <= right < j <= hi ==> Le(cmp, s[i], s[j]))
    && (forall i, j :: lo <= i < left <= j <= hi ==> Le(cmp, s[i], s[j]))
  }

  /** The parts that stay pending: those with more than MAX_THRESH + 1 elements. */
  ghost predicate Kept(kids: seq<Range>, lo: nat, hi: nat, left: nat, right: nat)
  {
    && (forall k :: 0 <= k < |kids| ==> kids[k] == Range(lo, right) || kids[k] == Range(left, hi))
    && (forall k :: 0 <= k < |kids| ==> kids[k].lo + MAX_THRESH <= kids[k].hi)
    && (forall i, j :: 0 <= i < j < |kids| ==> Apart(kids[i], kids[j]))
    && (right - lo > MAX_THRESH ==> Range(lo, right) in kids)
    && (hi - left > MAX_THRESH ==> Range(left, hi) in kids)
  }

  lemma StepCuts(s: seq<Element>, s': seq<Element>, cmp: Cmp, lo: nat, hi: nat, left: nat, right: nat)
    requires Rearranged(s, s', lo, hi) && Cut(s, cmp, lo) && Cut(s, cmp, hi + 1)
    requires Split(s', cmp, lo, hi, left, right)
    ensures Cut(s', cmp, lo) && Cut(s', cmp, hi + 1) && Cut(s', cmp, right + 1) && Cut(s', cmp, left)
  {
    CutKept(s, s', cmp, lo, hi, lo);
    CutKept(s, s', cmp, lo, hi, hi + 1);
    CutInside(s', cmp, lo, hi, right + 1);
    CutInside(s', cmp, lo, hi, left);
  }

  lemma StepRange(s: seq<Element>, s': seq<Element>, cmp: Cmp, cur: Range, r: Range)
    requires Rearranged(s, s', cur.lo, cur.hi) && GoodRange(s, cmp, r) && Apart(r, cur)
    ensures GoodRange(s', cmp, r)
  {
    CutKept(s, s', cmp, cur.lo, cur.hi, r.lo);
    CutKept(s, s', cmp, cur.lo, cur.hi, r.hi + 1);
  }

  lemma StepWindow(s: seq<Element>, s': seq<Element>, cmp: Cmp, todo: seq<Range>, cur: Range,
                   left: nat, right: nat, kids: seq<Range>, i: nat)
    requires Rearranged(s, s', cur.lo, cur.hi) && i + MAX_THRESH + 1 < |s|
    requires CutNear(s, cmp, i) || Pending(todo + [cur], i)
    requires Split(s', cmp, cur.lo, cur.hi, left, right)
    requires Cut(s', cmp, cur.lo) && Cut(s', cmp, cur.hi + 1) && Cut(s', cmp, right + 1) && Cut(s', cmp, left)
    requires Kept(kids, cur.lo, cur.hi, left, right)
    ensures CutNear(s', cmp, i) || Pending(todo + kids, i)
  {
    var w := MAX_THRESH + 1;
    if cur.lo <= i && i + w <= cur.hi {
      if i <= right < i + w {
        assert CutNear(s', cmp, i) by { assert i < right + 1 <= i + w; }
      } else if i + w <= right {
        PendingKid(todo, kids, Range(cur.lo, right), i);
      } else if i < left {
        assert CutNear(s', cmp, i) by { assert i < left <= i + w; }
      } else {
        PendingKid(todo, kids, Range(left, cur.hi), i);
      }
    } else if i < cur.lo <= i + w {
      assert CutNear(s', cmp, i);
    } else if i <= cur.hi < i + w {
      assert CutNear(s', cmp, i) by { assert i < cur.hi + 1 <= i + w; }
    } else if CutNear(s, cmp, i) {
      var c: nat :| i < c <= i + w && Cut(s, cmp, c);
      CutKept(s, s', cmp, cur.lo, cur.hi, c);
    } else {
      var k :| 0 <= k < |todo + [cur]| && Covers((todo + [cur])[k], i);
      assert k < |todo| && (todo + kids)[k] == todo[k];
    }
  }

  lemma PendingKid(todo: seq<Range>, kids: seq<Range>, r: Range, i: int)
    requires r in kids && Covers(r, i)
    ensures Pending(todo + kids, i)
  {
    var k :| 0 <= k < |kids| && kids[k] == r;
    assert (todo + kids)[|todo| + k] == r;
  }

  lemma StepGood(s: seq<Element>, s': seq<Element>, cmp: Cmp, todo: seq<Range>, cur: Range,
                 left: nat, right: nat, kids: seq<Range>)
    requires RangesGood(s, cmp, todo + [cur]) && RangesApart(todo + [cur])
    requires Rearranged(s, s', cur.lo, cur.hi) && Split(s', cmp, cur.lo, cur.hi, left, right)
    requires Cut(s', cmp, cur.lo) && Cut(s', cmp, cur.hi + 1) && Cut(s', cmp, right + 1) && Cut(s', cmp, left)
    requires Kept(kids, cur.lo, cur.hi, left, right)
    ensures RangesGood(s', cmp, todo + kids)
  {
    hide Cut, Rearranged;
    forall k | 0 <= k < |todo + kids|
      ensures GoodRange(s', cmp, (todo + kids)[k])
    {
      if k < |todo| {
        var both := todo + [cur];
        assert both[k] == todo[k] && both[|todo|] == cur;
        assert GoodRange(s, cmp, both[k]) && Apart(both[k], both[|todo|]);
        StepRange(s, s', cmp, cur, todo[k]);
      } else {
        assert kids[k - |todo|].lo + MAX_THRESH <= kids[k - |todo|].hi;
      }
    }
  }

  lemma StepApart(todo: seq<Range>, cur: Range, left: nat, right: nat, kids: seq<Range>)
    requires RangesApart(todo + [cur])
    requires cur.lo <= right < left <= cur.hi && Kept(kids, cur.lo, cur.hi, left, right)
    ensures RangesApart(todo + kids)
  {
    var both, all := todo + [cur], todo + kids;
    forall i, j | 0 <= i < j < |all|
      ensures Apart(all[i], all[j])
    {
      if j < |todo| {
        assert Apart(both[i], both[j]);
      } else if i < |todo| {
        assert Apart(both[i], both[|todo|]);
        assert all[j] == kids[j - |todo|];
      } else {
        assert Apart(kids[i - |todo|], kids[j - |todo|]);
      }
    }
  }

  /** Partitioning the current range and keeping its large parts pending keeps all but the
      depth bound, whatever the order of the parts. */
  lemma Step(s: seq<Element>, s': seq<Element>, cmp: Cmp, todo: seq<Range>, cur: Range,
             left: nat, right: nat, kids: seq<Range>)
    requires RangesGood(s, cmp, todo + [cur]) && RangesApart(todo + [cur]) && WindowsSplit(s, cmp, todo + [cur])
    requires Rearranged(s, s', cur.lo, cur.hi) && Split(s', cmp, cur.lo, cur.hi, left, right)
    requires Kept(kids, cur.lo, cur.hi, left, right)
    ensures RangesGood(s', cmp, todo + kids) && RangesApart(todo + kids) && WindowsSplit(s', cmp, todo + kids)
  {
    hide Cut, Rearranged, CutNear, Pending, Kept;
    assert (todo + [cur])[|todo|] == cur;
    assert GoodRange(s, cmp, cur);
    StepCuts(s, s', cmp, cur.lo, cur.hi, left, right);
    StepGood(s, s', cmp, todo, cur, left, right, kids);
    StepApart(todo, cur, left, right, kids);
    RearrangedLength(s, s', cur.lo, cur.hi);
    forall i | 0 <= i && i + MAX_THRESH + 1 < |s'|
      ensures CutNear(s', cmp, i) || Pending(todo + kids, i)
    {
      assert CutNear(s, cmp, i) || Pending(todo + [cur], i);
      StepWindow(s, s', cmp, todo, cur, left, right, kids, i);
    }
  }

  lemma RearrangedLength(s: seq<Element>, s': seq<Element>, lo: nat, hi: nat)
    requires Rearranged(s, s', lo, hi)
    ensures |s| == |s'|
  {
  }

  // ----- depth of the stack -----

  lemma MulMono(a: int, b: int, m: nat)
    requires a <= b
    ensures a * m <= b * m
  {
  }

  /** Replacing the current range by a smaller one keeps the depth bound. */
  lemma DepthSame(todo: seq<Range>, cur: Range, r: Range, n: nat)
    requires DepthBound(todo + [cur], n) && Size(r) <= Size(cur)
    ensures DepthBound(todo + [r], n)
  {
    forall d | 0 <= d < |todo| + 1
      ensures Size((todo + [r])[d]) * Pow2(d) <= n
    {
      assert Size((todo + [cur])[d]) * Pow2(d) <= n;
      if d == |todo| {
        MulMono(Size(r), Size(cur), Pow2(d));
      }
    }
  }

  lemma DepthPop(todo: seq<Range>, cur: Range, n: nat)
    requires DepthBound(todo + [cur], n)
    ensures DepthBound(todo, n)
  {
    forall d | 0 <= d < |todo|
      ensures Size(todo[d]) * Pow2(d) <= n
    {
      assert (todo + [cur])[d] == todo[d];
    }
  }

  /** Pushing the larger part and going on with the smaller one keeps the depth bound. */
  lemma DepthPush(todo: seq<Range>, cur: Range, large: Range, small: Range, n: nat)
    requires DepthBound(todo + [cur], n) && Size(small) <= Size(large)
    requires Size(small) + Size(large) <= Size(cur) && Size(small) >= 0
    ensures DepthBound(todo + [large, small], n)
  {
    DepthSame(todo, cur, large, n);
    var t, all := |todo|, todo + [large, small];
    forall d | 0 <= d < |all|
      ensures Size(all[d]) * Pow2(d) <= n
    {
      if d <= t {
        assert all[d] == (todo + [large])[d];
      } else {
        assert all[t + 1] == small && (todo + [cur])[t] == cur;
        assert Size(cur) * Pow2(t) <= n;
        MulMono(2 * Size(small), Size(cur), Pow2(t));
        DoubleOut(Size(small), Pow2(t));
      }
    }
  }

  lemma DoubleOut(a: int, p: int)
    ensures a * (2 * p) == (2 * a) * p
  {
  }

  lemma {:induction false} Pow2Mono(a: nat, b: nat)
    requires a <= b
    ensures Pow2(a) <= Pow2(b)
  {
    if a < b {
      Pow2Mono(a, b - 1);
    }
  }

  /** With at least two elements at depth d, d + 1 is below STACK_SIZE: a push always fits. */
  lemma DepthFits(todo: seq<Range>, cur: Range, n: nat)
    requires DepthBound(todo + [cur], n) && n < Pow2(STACK_SIZE) && Size(cur) >= 2
    ensures |todo| + 1 < STACK_SIZE
  {
    var t := |todo|;
    assert (todo + [cur])[t] == cur;
    assert Size(cur) * Pow2(t) <= n;
    MulMono(2, Size(cur), Pow2(t));
    if STACK_SIZE <= t + 1 {
      Pow2Mono(STACK_SIZE, t + 1);
    }
  }

  // ----- termination -----

  /** Bounds the number of partition steps left. */
  ghost function Work(todo: seq<Range>): int
  {
    if |todo| == 0 then 0
    else Work(todo[..|todo| - 1]) + 2 * Size(todo[|todo| - 1]) - 1
  }

  lemma WorkAppend(todo: seq<Range>, r: Range)
    ensures Work(todo + [r]) == Work(todo) + 2 * Size(r) - 1
  {
    assert (todo + [r])[..|todo|] == todo;
  }

  lemma WorkAppendTwo(todo: seq<Range>, r: Range, q: Range)
    ensures Work(todo + [r, q]) == Work(todo) + 2 * Size(r) + 2 * Size(q) - 2
  {
    assert todo + [r, q] == (todo + [r]) + [q];
    WorkAppend(todo + [r], q);
    WorkAppend(todo, r);
  }

  lemma {:induction false} WorkNonNegative(todo: seq<Range>)
    requires forall k :: 0 <= k < |todo| ==> Size(todo[k]) > 0
    ensures Work(todo) >= |todo|
  {
    if |todo| > 0 {
      WorkNonNegative(todo[..|todo| - 1]);
    }
  }
}
