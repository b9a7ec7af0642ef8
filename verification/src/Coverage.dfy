/** The coverage accumulator of the fuzzing helper: AflMap::merge, the processing of new
    test cases, and what holds over a whole run. */
module Coverage {
  import opened Options

  const MAP_SIZE: nat := 65536

  type Bitmap = s: seq<bv8> | |s| == MAP_SIZE witness seq(MAP_SIZE, _ => 0)

  function Empty(): Bitmap { seq(MAP_SIZE, _ => 0) }

  /** AflMap::load: a short file is padded with zeros, a long one is an error. */
  function Load(file: seq<bv8>): (r: Option<Bitmap>)
    ensures r.Some? <==> |file| <= MAP_SIZE
    ensures r.Some? ==> file <= r.value && forall i :: |file| <= i < MAP_SIZE ==> r.value[i] == 0
  {
    if |file| > MAP_SIZE then None else Some(file + seq(MAP_SIZE - |file|, _ => 0))
  }

  /** Bytewise OR. */
  function Or(a: seq<bv8>, b: seq<bv8>): (r: seq<bv8>)
    requires |a| == |b|
    ensures |r| == |a|
  {
    seq(|a|, i requires 0 <= i < |a| => a[i] | b[i])
  }

  // ----- counting bits -----

  function One(b: bool): nat { if b then 1 else 0 }

  function PopCount(b: bv8): (n: nat)
    ensures n <= 8
  {
    One(b & 1 != 0) + One(b & 2 != 0) + One(b & 4 != 0) + One(b & 8 != 0)
    + One(b & 16 != 0) + One(b & 32 != 0) + One(b & 64 != 0) + One(b & 128 != 0)
  }

  /** Setting new bits in a byte raises its count. */
  lemma PopCountOr(a: bv8, b: bv8)
    ensures PopCount(a | b) >= PopCount(a)
    ensures a | b != a ==> PopCount(a | b) > PopCount(a)
  {
  }

  function Count(s: seq<bv8>): (n: nat)
    ensures n <= 8 * |s|
  {
    if |s| == 0 then 0 else PopCount(s[0]) + Count(s[1..])
  }

  lemma {:induction false} CountOr(a: seq<bv8>, b: seq<bv8>)
    requires |a| == |b|
    ensures Count(Or(a, b)) >= Count(a)
    ensures Or(a, b) != a ==> Count(Or(a, b)) > Count(a)
  {
    hide PopCount, Or;
    if |a| > 0 {
      OrFirst(a, b);
      PopCountOr(a[0], b[0]);
      CountOr(a[1..], b[1..]);
    } else {
      assert Or(a, b) == a;
    }
  }

  lemma OrFirst(a: seq<bv8>, b: seq<bv8>)
    requires |a| == |b| > 0
    ensures Or(a, b)[0] == a[0] | b[0] && Or(a, b)[1..] == Or(a[1..], b[1..])
    ensures Or(a, b) == a <==> Or(a, b)[0] == a[0] && Or(a[1..], b[1..]) == a[1..]
  {
    var r := Or(a, b);
    var rest := Or(a[1..], b[1..]);
    assert r[1..] == rest;
    assert r == [r[0]] + r[1..] && a == [a[0]] + a[1..];
  }

  // ----- the helper's state -----

  datatype Showmap = Success(coverage: Bitmap) | Hang | Crash

  /** One generated test case: what afl-showmap says (none if it failed) and whether
      copying to the crash directory and to the queue succeeds. */
  datatype Testcase = Testcase(showmap: Option<Showmap>, crashCopy: bool, queueCopy: bool)

  datatype Result = Uninteresting | New | HangFound | CrashFound | Error

  class Helper {
    const bitmap: array<bv8>
    var queueId: nat
    var crashId: nat

    ghost predicate Valid() { bitmap.Length == MAP_SIZE }

    constructor ()
      ensures Valid() && fresh(bitmap) && bitmap[..] == Empty() && queueId == 0 && crashId == 0
    {
      bitmap := new bv8[MAP_SIZE](_ => 0);
      queueId, crashId := 0, 0;
    }

    /** AflMap::merge: the map becomes the bytewise OR; true exactly when it changed. */
    method Merge(other: Bitmap) returns (interesting: bool)
      requires Valid()
      modifies bitmap
      ensures bitmap[..] == Or(old(bitmap[..]), other)
      ensures interesting <==> bitmap[..] != old(bitmap[..])
    {
      interesting := false;
      var i := 0;
      while i < MAP_SIZE
        invariant 0 <= i <= MAP_SIZE
        invariant forall k :: 0 <= k < i ==> bitmap[k] == old(bitmap[..])[k] | other[k]
        invariant forall k :: i <= k < MAP_SIZE ==> bitmap[k] == old(bitmap[..])[k]
        invariant interesting <==> exists k :: 0 <= k < i && bitmap[k] != old(bitmap[..])[k]
      {
        if bitmap[i] != bitmap[i] | other[i] {
          bitmap[i] := bitmap[i] | other[i];
          interesting := true;
        }
        i := i + 1;
      }
      if interesting {
        ghost var k :| 0 <= k < MAP_SIZE && bitmap[k] != old(bitmap[..])[k];
        assert bitmap[..][k] != old(bitmap[..])[k];
      }
    }

    /** process_new_testcase: a failed copy reports an error after the map is merged. */
    method Process(t: Testcase) returns (r: Result)
      requires Valid()
      modifies this, bitmap
      ensures bitmap[..] == Covered(old(bitmap[..]), t)
      ensures r == Outcome(old(bitmap[..]), t)
      ensures r == New <==> bitmap[..] != old(bitmap[..]) && t.queueCopy
      ensures r == Uninteresting <==> t.showmap.Some? && t.showmap.value.Success? && bitmap[..] == old(bitmap[..])
      ensures r == HangFound <==> t.showmap == Some(Hang)
      ensures r == CrashFound <==> t.showmap == Some(Crash) && t.crashCopy && t.queueCopy
      ensures queueId == old(queueId) + One(r == New || r == CrashFound)
      ensures crashId == old(crashId) + One(t.showmap == Some(Crash) && t.crashCopy)
    {
      match t.showmap
      case None =>
        return Error;
      case Some(Success(coverage)) =>
        var interesting := Merge(coverage);
        if interesting {
          if !t.queueCopy {
            return Error;
          }
          queueId := queueId + 1;
          return New;
        }
        return Uninteresting;
      case Some(Hang) =>
        return HangFound;
      case Some(Crash) =>
        if !t.crashCopy {
          return Error;
        }
        crashId := crashId + 1;
        if !t.queueCopy {
          return Error;
        }
        queueId := queueId + 1;
        return CrashFound;
    }

    /** All test cases of a run, one after the other. */
    method ProcessAll(ts: seq<Testcase>) returns (rs: seq<Result>)
      requires Valid() && bitmap[..] == Empty()
      modifies this, bitmap
      ensures |rs| == |ts| && bitmap[..] == CoveredAll(ts)
      ensures NewCount(rs) <= Count(bitmap[..])
      ensures forall i :: 0 <= i < |ts| ==> rs[i] == ResultAt(ts, i)
    {
      hide Count, Covered, Outcome;
      rs := [];
      var i := 0;
      while i < |ts|
        invariant 0 <= i <= |ts| && |rs| == i
        invariant bitmap[..] == CoveredAll(ts[..i])
        invariant NewCount(rs) <= Count(bitmap[..])
        invariant forall k :: 0 <= k < i ==> rs[k] == ResultAt(ts, k)
      {
        ghost var before := bitmap[..];
        var r := Process(ts[i]);
        CoveredGrows(before, ts[i]);
        NewCountNext(rs, r);
        assert ts[..i + 1][..i] == ts[..i];
        rs := rs + [r];
        i := i + 1;
      }
      assert ts[..i] == ts;
    }
  }

  /** What becomes of a test case when the map so far is `s`. */
  function Outcome(s: Bitmap, t: Testcase): Result
  {
    match t.showmap
    case None => Error
    case Some(Success(coverage)) => if Or(s, coverage) == s then Uninteresting else if t.queueCopy then New else Error
    case Some(Hang) => HangFound
    case Some(Crash) => if t.crashCopy && t.queueCopy then CrashFound else Error
  }

  /** The result of test case `i` of a run. */
  function ResultAt(ts: seq<Testcase>, i: nat): Result
    requires i < |ts|
  {
    Outcome(CoveredAll(ts[..i]), ts[i])
  }

  /** The map after one test case: only a successful showmap contributes. */
  function Covered(s: Bitmap, t: Testcase): (r: Bitmap)
  {
    if t.showmap.Some? && t.showmap.value.Success? then Or(s, t.showmap.value.coverage) else s
  }

  lemma CoveredGrows(s: Bitmap, t: Testcase)
    ensures Count(Covered(s, t)) >= Count(s)
    ensures Covered(s, t) != s ==> Count(Covered(s, t)) > Count(s)
  {
    hide Count;
    if t.showmap.Some? && t.showmap.value.Success? {
      CountOr(s, t.showmap.value.coverage);
    }
  }

  /** The OR of all successful maps. */
  function CoveredAll(ts: seq<Testcase>): Bitmap
  {
    if |ts| == 0 then Empty() else Covered(CoveredAll(ts[..|ts| - 1]), ts[|ts| - 1])
  }

  function NewCount(rs: seq<Result>): nat
  {
    if |rs| == 0 then 0 else NewCount(rs[..|rs| - 1]) + One(rs[|rs| - 1] == New)
  }

  lemma NewCountNext(rs: seq<Result>, r: Result)
    ensures NewCount(rs + [r]) == NewCount(rs) + One(r == New)
  {
    assert (rs + [r])[..|rs|] == rs;
  }

  /** The byte has one of the bits of `mask`. */
  predicate Has(b: bv8, mask: bv8) { b & mask != 0 }

  /** Byte `b` has a bit that byte `a` lacks. */
  predicate HasNew(a: bv8, b: bv8) { b & !a != 0 }

  /** The test case's map has one of the bits of `mask` in byte `k`. */
  predicate HasBit(t: Testcase, k: nat, mask: bv8)
    requires k < MAP_SIZE
  {
    t.showmap.Some? && t.showmap.value.Success? && Has(t.showmap.value.coverage[k], mask)
  }

  ghost predicate Seen(ts: seq<Testcase>, k: nat, mask: bv8)
    requires k < MAP_SIZE
  {
    exists i :: 0 <= i < |ts| && HasBit(ts[i], k, mask)
  }

  lemma SeenNext(front: seq<Testcase>, last: Testcase, k: nat, mask: bv8)
    requires k < MAP_SIZE
    ensures Seen(front + [last], k, mask) <==> Seen(front, k, mask) || HasBit(last, k, mask)
  {
    hide HasBit;
    var ts := front + [last];
    assert ts[|front|] == last;
    if Seen(front, k, mask) {
      var i :| 0 <= i < |front| && HasBit(front[i], k, mask);
      assert ts[i] == front[i];
    }
  }

  lemma OrBit(a: bv8, b: bv8, mask: bv8)
    ensures Has(a | b, mask) <==> Has(a, mask) || Has(b, mask)
  {
  }

  lemma CoveredNext(s: Bitmap, t: Testcase, k: nat, mask: bv8)
    requires k < MAP_SIZE
    ensures Has(Covered(s, t)[k], mask) <==> Has(s[k], mask) || HasBit(t, k, mask)
  {
    hide Or, Has;
    match t.showmap
    case Some(Success(coverage)) =>
      assert Covered(s, t) == Or(s, coverage);
      MergedBit(s, coverage, k, mask);
    case _ =>
  }

  lemma MergedBit(s: Bitmap, coverage: Bitmap, k: nat, mask: bv8)
    requires k < MAP_SIZE
    ensures Has(Or(s, coverage)[k], mask) <==> Has(s[k], mask) || Has(coverage[k], mask)
  {
    hide Or, Has;
    OrAt(s, coverage, k, mask);
  }

  lemma OrAt(a: seq<bv8>, b: seq<bv8>, k: nat, mask: bv8)
    requires |a| == |b| && k < |a|
    ensures Has(Or(a, b)[k], mask) <==> Has(a[k], mask) || Has(b[k], mask)
  {
    hide Has;
    OrBit(a[k], b[k], mask);
  }

  /** A bit is covered at the end exactly when some successful map has it. */
  lemma {:induction false} CoveredBit(ts: seq<Testcase>, k: nat, mask: bv8)
    requires k < MAP_SIZE
    ensures Has(CoveredAll(ts)[k], mask) <==> Seen(ts, k, mask)
  {
    hide HasBit, Covered, Seen;
    if |ts| > 0 {
      var front, last := ts[..|ts| - 1], ts[|ts| - 1];
      CoveredBit(front, k, mask);
      assert ts == front + [last];
      SeenNext(front, last, k, mask);
      CoveredNext(CoveredAll(front), last, k, mask);
    } else {
      NothingCovered(k, mask);
    }
  }

  lemma NothingCovered(k: nat, mask: bv8)
    requires k < MAP_SIZE
    ensures !Has(Empty()[k], mask) && !Seen([], k, mask)
  {
  }

  /** The map changes exactly when the new one has a bit that was not seen before. */
  lemma OrChanges(a: seq<bv8>, b: seq<bv8>)
    requires |a| == |b|
    ensures Or(a, b) != a <==> exists k :: 0 <= k < |a| && HasNew(a[k], b[k])
  {
    if Or(a, b) != a {
      var k :| 0 <= k < |a| && Or(a, b)[k] != a[k];
      assert HasNew(a[k], b[k]);
    }
    if exists k :: 0 <= k < |a| && HasNew(a[k], b[k]) {
      var k :| 0 <= k < |a| && HasNew(a[k], b[k]);
      assert Or(a, b)[k] != a[k];
    }
  }

  lemma MaskOfNew(a: bv8, b: bv8, mask: bv8)
    ensures Has(b, mask) && !Has(a, mask) ==> HasNew(a, b)
  {
  }

  /** A successful map changes the bitmap of the run exactly if it has a bit not seen before. */
  lemma ChangesByUnseen(ts: seq<Testcase>, i: nat)
    requires i < |ts| && ts[i].showmap.Some? && ts[i].showmap.value.Success?
    ensures var s := CoveredAll(ts[..i]);
            Or(s, ts[i].showmap.value.coverage) != s
            <==> exists k: nat, mask: bv8 :: k < MAP_SIZE && HasBit(ts[i], k, mask) && !Seen(ts[..i], k, mask)
  {
    hide Or, Seen, CoveredAll, Has, HasNew;
    var s, coverage := CoveredAll(ts[..i]), ts[i].showmap.value.coverage;
    OrChanges(s, coverage);
    if Or(s, coverage) != s {
      var k: nat :| k < MAP_SIZE && HasNew(s[k], coverage[k]);
      UnseenMask(ts, i, k);
    } else {
      forall k: nat, mask: bv8 | k < MAP_SIZE && HasBit(ts[i], k, mask)
        ensures Seen(ts[..i], k, mask)
      {
        assert !HasNew(s[k], coverage[k]);
        MaskOfNew(s[k], coverage[k], mask);
        CoveredBit(ts[..i], k, mask);
      }
    }
  }

  lemma UnseenMask(ts: seq<Testcase>, i: nat, k: nat)
    requires i < |ts| && ts[i].showmap.Some? && ts[i].showmap.value.Success? && k < MAP_SIZE
    requires HasNew(CoveredAll(ts[..i])[k], ts[i].showmap.value.coverage[k])
    ensures exists mask: bv8 :: HasBit(ts[i], k, mask) && !Seen(ts[..i], k, mask)
  {
    hide Seen, CoveredAll, HasBit, Has, HasNew;
    var mask := NewMask(CoveredAll(ts[..i])[k], ts[i].showmap.value.coverage[k]);
    CoveredBit(ts[..i], k, mask);
    HasBitIs(ts[i], k, mask);
  }

  lemma NewMask(a: bv8, b: bv8) returns (mask: bv8)
    requires HasNew(a, b)
    ensures Has(b, mask) && !Has(a, mask)
  {
    mask := b & !a;
  }

  lemma HasBitIs(t: Testcase, k: nat, mask: bv8)
    requires t.showmap.Some? && t.showmap.value.Success? && k < MAP_SIZE
    ensures HasBit(t, k, mask) <==> Has(t.showmap.value.coverage[k], mask)
  {
  }

  /** A test case of a run is New exactly if it is copied and has a bit that no earlier
      successful test case had, copied or not. */
  lemma NewExactly(ts: seq<Testcase>, i: nat)
    requires i < |ts|
    ensures ResultAt(ts, i) == New <==>
              ts[i].queueCopy && exists k: nat, mask: bv8 ::
                k < MAP_SIZE && HasBit(ts[i], k, mask) && !Seen(ts[..i], k, mask)
  {
    hide Or, Seen, CoveredAll, Has, HasNew;
    var t := ts[i];
    if t.showmap.Some? && t.showmap.value.Success? {
      hide HasBit;
      ChangesByUnseen(ts, i);
    }
  }

  // ----- test cases that are lost -----

  predicate Submits(t: Testcase, coverage: Bitmap) { t.showmap == Some(Success(coverage)) }

  lemma SeenEarlier(ts: seq<Testcase>, i: nat, j: nat, k: nat, mask: bv8)
    requires i < j <= |ts| && k < MAP_SIZE && HasBit(ts[i], k, mask)
    ensures Seen(ts[..j], k, mask)
  {
    assert ts[..j][i] == ts[i];
  }

  lemma SameBits(t: Testcase, u: Testcase, coverage: Bitmap, k: nat, mask: bv8)
    requires Submits(t, coverage) && Submits(u, coverage) && k < MAP_SIZE
    ensures HasBit(t, k, mask) == HasBit(u, k, mask)
  {
  }

  /** A map that was submitted before is never New again, whatever became of it. */
  lemma Resubmitted(ts: seq<Testcase>, i: nat, j: nat, coverage: Bitmap)
    requires i < j < |ts| && Submits(ts[i], coverage) && Submits(ts[j], coverage)
    ensures ResultAt(ts, j) == Uninteresting
  {
    hide Or, Seen, CoveredAll, HasBit, Has, HasNew;
    ChangesByUnseen(ts, j);
    forall k: nat, mask: bv8 | k < MAP_SIZE && HasBit(ts[j], k, mask)
      ensures Seen(ts[..j], k, mask)
    {
      SameBits(ts[i], ts[j], coverage, k, mask);
      SeenEarlier(ts, i, j, k, mask);
    }
  }

  /** After a failed copy a test case with new coverage is lost: it is reported as an error,
      and no later submission of the same map is New. */
  lemma LostForever(ts: seq<Testcase>, i: nat, coverage: Bitmap)
    requires i < |ts| && Submits(ts[i], coverage) && !ts[i].queueCopy
    requires Or(CoveredAll(ts[..i]), coverage) != CoveredAll(ts[..i])
    ensures ResultAt(ts, i) == Error
    ensures forall j :: i < j < |ts| && Submits(ts[j], coverage) ==> ResultAt(ts, j) == Uninteresting
  {
    hide Or, CoveredAll;
    forall j | i < j < |ts| && Submits(ts[j], coverage)
      ensures ResultAt(ts, j) == Uninteresting
    {
      Resubmitted(ts, i, j, coverage);
    }
  }

  /** Some submission of a map is New if and only if its first one is: if that one's copy
      succeeds and it has a bit that was not seen before. */
  lemma QueuedIff(ts: seq<Testcase>, first: nat, coverage: Bitmap)
    requires first < |ts| && Submits(ts[first], coverage) && forall j :: 0 <= j < first ==> !Submits(ts[j], coverage)
    ensures (exists j :: 0 <= j < |ts| && Submits(ts[j], coverage) && ResultAt(ts, j) == New)
            <==> ts[first].queueCopy && exists k: nat, mask: bv8 ::
                   k < MAP_SIZE && HasBit(ts[first], k, mask) && !Seen(ts[..first], k, mask)
  {
    hide Seen, ResultAt, HasBit;
    NewExactly(ts, first);
    forall j | 0 <= j < |ts| && Submits(ts[j], coverage) && j != first
      ensures ResultAt(ts, j) != New
    {
      Resubmitted(ts, first, j, coverage);
    }
  }

  /** Every covered bit was first seen in a test case that is New or whose copy failed. */
  lemma {:induction false} BitOrigin(ts: seq<Testcase>, k: nat, mask: bv8) returns (i: nat)
    requires k < MAP_SIZE && Has(CoveredAll(ts)[k], mask)
    ensures i < |ts| && HasBit(ts[i], k, mask) && !Seen(ts[..i], k, mask)
    ensures if ts[i].queueCopy then ResultAt(ts, i) == New else ResultAt(ts, i) == Error
  {
    hide CoveredAll, Or, Has;
    CoveredBit(ts, k, mask);
    i := FirstSeen(ts, k, mask);
    NewExactly(ts, i);
    UnseenChanges(ts, i, k, mask);
  }

  lemma {:induction false} FirstSeen(ts: seq<Testcase>, k: nat, mask: bv8) returns (i: nat)
    requires k < MAP_SIZE && Seen(ts, k, mask)
    ensures i < |ts| && HasBit(ts[i], k, mask) && !Seen(ts[..i], k, mask)
  {
    hide HasBit;
    i :| i < |ts| && HasBit(ts[i], k, mask);
    if Seen(ts[..i], k, mask) {
      i := FirstSeen(ts[..i], k, mask);
    }
  }

  /** A bit not seen before changes the map. */
  lemma UnseenChanges(ts: seq<Testcase>, i: nat, k: nat, mask: bv8)
    requires i < |ts| && k < MAP_SIZE && HasBit(ts[i], k, mask) && !Seen(ts[..i], k, mask)
    ensures ResultAt(ts, i) != Uninteresting && ts[i].showmap.value.Success?
  {
    hide CoveredAll, Or, Seen, Has;
    var s, coverage := CoveredAll(ts[..i]), ts[i].showmap.value.coverage;
    CoveredBit(ts[..i], k, mask);
    OrAt(s, coverage, k, mask);
  }

  /** A run that loses a test case: the first copy fails, the second submission of the same
      map comes too late, and its bit is covered without a test case in the queue. */
  lemma LosingRun()
    ensures var coverage: Bitmap := Empty()[0 := 1];
            var ts := [Testcase(Some(Success(coverage)), true, false), Testcase(Some(Success(coverage)), true, true)];
            ResultAt(ts, 0) == Error && ResultAt(ts, 1) == Uninteresting && Has(CoveredAll(ts)[0], 1)
  {
    hide Or;
    var coverage: Bitmap := Empty()[0 := 1];
    var ts := [Testcase(Some(Success(coverage)), true, false), Testcase(Some(Success(coverage)), true, true)];
    assert ts[..0] == [] && CoveredAll(ts[..0]) == Empty();
    OrAt(Empty(), coverage, 0, 1);
    assert Or(Empty(), coverage) != Empty();
    LostForever(ts, 0, coverage);
    assert HasBit(ts[0], 0, 1);
    CoveredBit(ts, 0, 1);
  }

  /** Over a whole run, at most 65536 * 8 results are New: those of test cases that are copied
      and have a bit which no earlier one had. */
  method RunHelper(ts: seq<Testcase>) returns (rs: seq<Result>)
    ensures |rs| == |ts| && NewCount(rs) <= MAP_SIZE * 8
    ensures forall i :: 0 <= i < |ts| ==>
              (rs[i] == New <==> ts[i].queueCopy && exists k: nat, mask: bv8 ::
                                   k < MAP_SIZE && HasBit(ts[i], k, mask) && !Seen(ts[..i], k, mask))
  {
    var h := new Helper();
    rs := h.ProcessAll(ts);
    hide HasBit, Seen, ResultAt;
    forall i | 0 <= i < |ts|
      ensures rs[i] == New <==> ts[i].queueCopy && exists k: nat, mask: bv8 ::
                k < MAP_SIZE && HasBit(ts[i], k, mask) && !Seen(ts[..i], k, mask)
    {
      NewExactly(ts, i);
    }
  }
}
