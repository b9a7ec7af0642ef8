/** Elements, orderings and cuts: the facts about element sequences that the
    quicksort of libc_harness/qsort.c rests on. */
module QsortSpec {

  /** One array element: `size` bytes. */
  type Element = seq<bv8>

  type Cmp = (Element, Element) -> int

  const MAX_THRESH: nat := 4
  const STACK_SIZE: nat := 64

  // ----- the comparator contract -----

  /** The comparison function orders `size`-byte elements as a total preorder. */
  ghost predicate Comparator(cmp: Cmp, size: nat)
  {
    && (forall x: Element, y: Element :: |x| == size && |y| == size ==> (cmp(x, y) < 0 <==> cmp(y, x) > 0))
    && (forall x: Element, y: Element, z: Element ::
          |x| == size && |y| == size && |z| == size && cmp(x, y) <= 0 && cmp(y, z) <= 0 ==> cmp(x, z) <= 0)
  }

  predicate Le(cmp: Cmp, x: Element, y: Element) { cmp(x, y) <= 0 }

  lemma LeTrans(cmp: Cmp, size: nat, x: Element, y: Element, z: Element)
    requires Comparator(cmp, size) && |x| == |y| == |z| == size
    requires Le(cmp, x, y) && Le(cmp, y, z)
    ensures Le(cmp, x, z)
  {
  }

  /** `cmp(x, y) < 0` fails exactly when `y` is no greater than `x`. */
  lemma LeTotal(cmp: Cmp, size: nat, x: Element, y: Element)
    requires Comparator(cmp, size) && |x| == |y| == size
    ensures cmp(x, y) >= 0 <==> Le(cmp, y, x)
    ensures cmp(x, y) < 0 ==> Le(cmp, x, y)
    ensures Le(cmp, x, x)
  {
  }

  // ----- element sequences -----

  ghost predicate Sized(s: seq<Element>, size: nat)
  {
    forall i :: 0 <= i < |s| ==> |s[i]| == size
  }

  ghost predicate Sorted(s: seq<Element>, cmp: Cmp)
  {
    forall i, j :: 0 <= i < j < |s| ==> Le(cmp, s[i], s[j])
  }

  function SwapAt(s: seq<Element>, i: nat, j: nat): (r: seq<Element>)
    requires i < |s| && j < |s|
    ensures |r| == |s|
  {
    s[i := s[j]][j := s[i]]
  }

  /** The element at `r` moves down to `t`; those in between move up by one. */
  function RotateAt(s: seq<Element>, t: nat, r: nat): (q: seq<Element>)
    requires t <= r < |s|
    ensures |q| == |s|
  {
    s[..t] + [s[r]] + s[t..r] + s[r + 1..]
  }

  /** `s'` rearranges the elements of `s` at positions `lo` to `hi` and changes nothing else. */
  ghost predicate Rearranged(s: seq<Element>, s': seq<Element>, lo: nat, hi: nat)
  {
    && |s| == |s'| && lo <= hi < |s|
    && s'[..lo] == s[..lo] && s'[hi + 1..] == s[hi + 1..]
    && multiset(s'[lo..hi + 1]) == multiset(s[lo..hi + 1])
  }

  lemma RearrangedMultiset(s: seq<Element>, s': seq<Element>, lo: nat, hi: nat)
    requires Rearranged(s, s', lo, hi)
    ensures multiset(s') == multiset(s)
  {
    assert s == s[..lo] + s[lo..hi + 1] + s[hi + 1..];
    assert s' == s'[..lo] + s'[lo..hi + 1] + s'[hi + 1..];
  }

  /** Every element now in the range was in the range before. */
  lemma RearrangedOrigin(s: seq<Element>, s': seq<Element>, lo: nat, hi: nat, i: nat) returns (k: nat)
    requires Rearranged(s, s', lo, hi) && lo <= i <= hi
    ensures lo <= k <= hi && s'[i] == s[k]
  {
    var w, w' := s[lo..hi + 1], s'[lo..hi + 1];
    assert s'[i] == w'[i - lo];
    assert w'[i - lo] in multiset(w');
    assert s'[i] in w;
    var d :| 0 <= d < |w| && w[d] == s'[i];
    k := lo + d;
  }

  lemma RearrangedOutside(s: seq<Element>, s': seq<Element>, lo: nat, hi: nat, i: nat)
    requires Rearranged(s, s', lo, hi) && i < |s| && (i < lo || hi < i)
    ensures s'[i] == s[i]
  {
    if i < lo {
      assert s'[i] == s'[..lo][i] && s[i] == s[..lo][i];
    } else {
      assert s'[i] == s'[hi + 1..][i - hi - 1] && s[i] == s[hi + 1..][i - hi - 1];
    }
  }

  lemma RearrangedTrans(s: seq<Element>, t: seq<Element>, u: seq<Element>, lo: nat, hi: nat)
    requires Rearranged(s, t, lo, hi) && Rearranged(t, u, lo, hi)
    ensures Rearranged(s, u, lo, hi)
  {
  }

  lemma SwapSame(s: seq<Element>, i: nat, j: nat)
    requires i < |s| && j < |s|
    ensures multiset(SwapAt(s, i, j)) == multiset(s)
  {
  }

  lemma SwapRearranges(s: seq<Element>, i: nat, j: nat, lo: nat, hi: nat)
    requires lo <= i <= hi < |s| && lo <= j <= hi
    ensures Rearranged(s, SwapAt(s, i, j), lo, hi)
  {
    var r := SwapAt(s, i, j);
    assert r[lo..hi + 1] == SwapAt(s[lo..hi + 1], i - lo, j - lo);
    SwapSame(s[lo..hi + 1], i - lo, j - lo);
  }

  lemma RotateSame(s: seq<Element>, t: nat, r: nat)
    requires t <= r < |s|
    ensures multiset(RotateAt(s, t, r)) == multiset(s)
  {
    assert s == s[..t] + s[t..r] + [s[r]] + s[r + 1..];
  }

  // ----- cuts -----

  /** No element before `c` is greater than one at or after `c`. */
  ghost predicate Cut(s: seq<Element>, cmp: Cmp, c: nat)
  {
    forall i, j :: 0 <= i < c <= j < |s| ==> Le(cmp, s[i], s[j])
  }

  lemma CutAt(s: seq<Element>, cmp: Cmp, c: nat, i: nat, j: nat)
    requires Cut(s, cmp, c) && i < c <= j < |s|
    ensures Le(cmp, s[i], s[j])
  {
  }

  /** Rearranging between two cuts keeps every cut that is not strictly inside. */
  lemma CutKept(s: seq<Element>, s': seq<Element>, cmp: Cmp, lo: nat, hi: nat, c: nat)
    requires Rearranged(s, s', lo, hi) && Cut(s, cmp, c) && (c <= lo || hi < c)
    ensures Cut(s', cmp, c)
  {
    forall i, j | 0 <= i < c <= j < |s'|
      ensures Le(cmp, s'[i], s'[j])
    {
      var i', j' := i, j;
      if lo <= i <= hi { i' := RearrangedOrigin(s, s', lo, hi, i); } else { RearrangedOutside(s, s', lo, hi, i); }
      if lo <= j <= hi { j' := RearrangedOrigin(s, s', lo, hi, j); } else { RearrangedOutside(s, s', lo, hi, j); }
      CutAt(s, cmp, c, i', j');
    }
  }

  /** A cut of the range `lo..hi`, which itself lies between cuts, is a cut of the whole. */
  lemma CutInside(s: seq<Element>, cmp: Cmp, lo: nat, hi: nat, c: nat)
    requires lo <= hi < |s| && lo <= c <= hi + 1 && Cut(s, cmp, lo) && Cut(s, cmp, hi + 1)
    requires forall i, j :: lo <= i < c <= j <= hi ==> Le(cmp, s[i], s[j])
    ensures Cut(s, cmp, c)
  {
    forall i, j | 0 <= i < c <= j < |s|
      ensures Le(cmp, s[i], s[j])
    {
      if i < lo {
        CutAt(s, cmp, lo, i, j);
      } else if hi < j {
        CutAt(s, cmp, hi + 1, i, j);
      }
    }
  }
}
