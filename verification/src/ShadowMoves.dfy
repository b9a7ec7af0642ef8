/** The loops that the run-time library runs over shadow iterators (std::copy,
    std::copy_backward, std::fill, std::generate, std::all_of), on the paged shadow. */
module ShadowMoves {
  import opened Options
  import opened Expressions
  import opened FlatMemory
  import opened PagedShadow

  /** Shadows with the same entries are equal. */
  lemma SameEntries(s: Shadow, t: Shadow)
    requires forall a :: Lookup(s, a) == Lookup(t, a)
    ensures s == t
  {
    forall a
      ensures a in s <==> a in t
      ensures a in s ==> s[a] == t[a]
    {
      assert Lookup(s, a) == Lookup(t, a);
    }
  }

  lemma MoveEntry(s: Shadow, dst: nat, src: nat, n: nat, x: nat)
    ensures Lookup(MoveShadow(s, dst, src, n), x)
            == if dst <= x < dst + n then Lookup(s, src + (x - dst)) else Lookup(s, x)
  {
  }

  /** The entry at `x` when the part `from..to` of a move has been done. */
  ghost function Moved(s: Shadow, dst: nat, src: nat, from: nat, to: nat, x: nat): SymExpr
  {
    if dst + from <= x < dst + to then Lookup(s, src + (x - dst)) else Lookup(s, x)
  }

  lemma MovedAll(table: PageTable, s: Shadow, dst: nat, src: nat, n: nat)
    requires table.Valid() && MovedTo(table, s, dst, src, 0, n)
    ensures table.Flat() == MoveShadow(s, dst, src, n)
  {
    hide MoveShadow;
    forall x
      ensures Lookup(table.Flat(), x) == Lookup(MoveShadow(s, dst, src, n), x)
    {
      assert Lookup(table.Flat(), x) == table.At(x);
      MoveEntry(s, dst, src, n, x);
    }
    SameEntries(table.Flat(), MoveShadow(s, dst, src, n));
  }

  /** A null pointer, stale or not, tells the truth about the entries still to be read. */
  ghost predicate Truthful(it: ReadIterator, s: Shadow, lo: nat, hi: nat)
    reads it
  {
    it.page == null ==> forall x :: lo <= x < hi && PageStart(x) == PageStart(it.address) ==> Lookup(s, x) == None
  }

  /** The part of the source still to be read has not been written to yet. */
  lemma SourceKept(s: Shadow, dst: nat, src: nat, k: nat, n: nat, x: nat)
    requires (dst <= src || src + n <= dst) && src + k <= x < src + n
    ensures Moved(s, dst, src, 0, k, x) == Lookup(s, x)
  {
  }

  lemma MovedNext(s: Shadow, dst: nat, src: nat, k: nat, x: nat)
    ensures Moved(s, dst, src, 0, k + 1, x) == if x == dst + k then Lookup(s, src + k) else Moved(s, dst, src, 0, k, x)
  {
  }

  ghost predicate MovedTo(table: PageTable, s: Shadow, dst: nat, src: nat, from: nat, to: nat)
    requires table.Valid()
    reads table, table.pages.Values
  {
    forall x: nat :: table.At(x) == Moved(s, dst, src, from, to, x)
  }

  /** What a truthful iterator shows is the old entry. */
  lemma SeenForward(it: ReadIterator, s: Shadow, dst: nat, src: nat, k: nat, n: nat)
    requires it.Ready() && it.address == src + k && k < n && (dst <= src || src + n <= dst)
    requires Truthful(it, s, src + k, src + n) && MovedTo(it.table, s, dst, src, 0, k)
    ensures it.Seen() == Lookup(s, src + k)
  {
    SourceKept(s, dst, src, k, n, src + k);
    assert it.table.At(src + k) == Moved(s, dst, src, 0, k, src + k);
  }

  /** A pointer looked up now is truthful. */
  lemma LookedUpForward(it: ReadIterator, s: Shadow, dst: nat, src: nat, k: nat, n: nat)
    requires it.Ready() && it.address == src + k && k <= n && (dst <= src || src + n <= dst)
    requires it.page == null <==> PageStart(it.address) !in it.table.pages
    requires MovedTo(it.table, s, dst, src, 0, k)
    ensures Truthful(it, s, src + k, src + n)
  {
    if it.page == null {
      forall x | src + k <= x < src + n && PageStart(x) == PageStart(it.address)
        ensures Lookup(s, x) == None
      {
        SourceKept(s, dst, src, k, n, x);
        assert it.table.At(x) == Moved(s, dst, src, 0, k, x);
      }
    }
  }

  /** One step of std::copy. */
  method CopyStep(first: ReadIterator, result: WriteIterator, ghost s: Shadow,
                  ghost dst: nat, ghost src: nat, ghost k: nat, ghost n: nat)
    requires first.Ready() && result.Ready() && first.table == result.table
    requires first.address == src + k && result.address == dst + k && k < n && (dst <= src || src + n <= dst)
    requires Truthful(first, s, src + k, src + n) && MovedTo(first.table, s, dst, src, 0, k)
    modifies first, result, first.table, first.table.pages.Values
    ensures first.Ready() && result.Ready()
    ensures first.address == src + (k + 1) && result.address == dst + (k + 1)
    ensures fresh(first.table.pages.Values - old(first.table.pages.Values))
    ensures Truthful(first, s, src + (k + 1), src + n) && MovedTo(first.table, s, dst, src, 0, k + 1)
  {
    hide PageStart, PageOffset, Lookup, Moved;
    var e := first.Get();
    SeenForward(first, s, dst, src, k, n);
    ghost var table := first.table;
    result.Set(e);
    result.Increment();
    assert MovedTo(table, s, dst, src, 0, k + 1) by {
      forall x: nat
        ensures table.At(x) == Moved(s, dst, src, 0, k + 1, x)
      {
        MovedNext(s, dst, src, k, x);
      }
    }
    first.Increment();
    if first.page == null && PageStart(first.address) !in table.pages {
      LookedUpForward(first, s, dst, src, k + 1, n);
    }
  }

  /** std::copy */
  method StdCopy(first: ReadIterator, last: nat, result: WriteIterator, ghost s: Shadow,
                 ghost dst: nat, ghost src: nat, ghost n: nat)
    requires first.Ready() && result.Ready() && first.table == result.table
    requires first.address == src && last == src + n && result.address == dst && (dst <= src || src + n <= dst)
    requires Truthful(first, s, src, src + n) && MovedTo(first.table, s, dst, src, 0, 0)
    modifies first, result, first.table, first.table.pages.Values
    ensures first.table.Valid() && MovedTo(first.table, s, dst, src, 0, n)
    ensures fresh(first.table.pages.Values - old(first.table.pages.Values))
  {
    hide PageStart, PageOffset, MovedTo, Truthful, Attached, Lookup;
    ghost var k := 0;
    while first.address != last
      invariant first.Ready() && result.Ready()
      invariant fresh(first.table.pages.Values - old(first.table.pages.Values))
      invariant k <= n && first.address == src + k && result.address == dst + k
      invariant Truthful(first, s, src + k, src + n) && MovedTo(first.table, s, dst, src, 0, k)
      decreases n - k
    {
      CopyStep(first, result, s, dst, src, k, n);
      k := k + 1;
    }
  }

  /** Copying forwards is right whenever no source byte is overwritten before it is read. */
  method CopyForward(table: PageTable, dst: nat, src: nat, n: nat)
    requires table.Valid() && (dst <= src || src + n <= dst)
    modifies table, table.pages.Values
    ensures table.Valid() && table.Flat() == MoveShadow(old(table.Flat()), dst, src, n)
    ensures fresh(table.pages.Values - old(table.pages.Values))
  {
    hide PageStart, PageOffset, MovedTo, MoveShadow, Lookup, Truthful;
    ghost var s := table.Flat();
    MovedNone(table, s, dst, src, 0);
    var first := new ReadIterator(table, src);
    LookedUpForward(first, s, dst, src, 0, n);
    var result := new WriteIterator(table, dst);
    MovedNone(table, s, dst, src, 0);
    StdCopy(first, src + n, result, s, dst, src, n);
    MovedAll(table, s, dst, src, n);
  }

  lemma MovedNone(table: PageTable, s: Shadow, dst: nat, src: nat, k: nat)
    requires table.Valid() && forall x :: table.At(x) == Lookup(s, x)
    ensures MovedTo(table, s, dst, src, k, k)
  {
  }

  // ----- backwards -----

  lemma SourceKeptBack(s: Shadow, dst: nat, src: nat, k: nat, n: nat, x: nat)
    requires src <= dst && src <= x < src + k
    ensures Moved(s, dst, src, k, n, x) == Lookup(s, x)
  {
  }

  lemma MovedNextBack(s: Shadow, dst: nat, src: nat, k: nat, n: nat, x: nat)
    requires 0 < k <= n
    ensures Moved(s, dst, src, k - 1, n, x)
            == if x == dst + (k - 1) then Lookup(s, src + (k - 1)) else Moved(s, dst, src, k, n, x)
  {
  }

  lemma SeenBackward(it: ReadIterator, s: Shadow, dst: nat, src: nat, k: nat, n: nat)
    requires it.Ready() && it.address == src + k && k < n && src <= dst
    requires Truthful(it, s, src, src + (k + 1)) && MovedTo(it.table, s, dst, src, k + 1, n)
    ensures it.Seen() == Lookup(s, src + k)
  {
    SourceKeptBack(s, dst, src, k + 1, n, src + k);
    assert it.table.At(src + k) == Moved(s, dst, src, k + 1, n, src + k);
  }

  lemma LookedUpBackward(it: ReadIterator, s: Shadow, dst: nat, src: nat, k: nat, n: nat)
    requires it.Ready() && src <= dst
    requires it.page == null <==> PageStart(it.address) !in it.table.pages
    requires MovedTo(it.table, s, dst, src, k, n)
    ensures Truthful(it, s, src, src + k)
  {
    if it.page == null {
      forall x | src <= x < src + k && PageStart(x) == PageStart(it.address)
        ensures Lookup(s, x) == None
      {
        SourceKeptBack(s, dst, src, k, n, x);
        assert it.table.At(x) == Moved(s, dst, src, k, n, x);
      }
    }
  }

  lemma TruthfulLess(it: ReadIterator, s: Shadow, lo: nat, hi: nat, lo': nat, hi': nat)
    requires Truthful(it, s, lo, hi) && lo <= lo' && hi' <= hi
    ensures Truthful(it, s, lo', hi')
  {
  }

  /** Move a read iterator one entry down. */
  method StepDown(last: ReadIterator, ghost s: Shadow, ghost dst: nat, ghost src: nat, ghost k: nat, ghost n: nat)
    requires last.Ready() && last.address == src + k && 0 < k <= n && src <= dst
    requires Truthful(last, s, src, src + k) && MovedTo(last.table, s, dst, src, k, n)
    modifies last
    ensures last.Ready() && last.address == src + (k - 1) && Truthful(last, s, src, src + k)
  {
    hide PageStart, PageOffset, Lookup, MovedTo;
    last.Decrement();
    if last.page == null && PageStart(last.address) !in last.table.pages {
      LookedUpBackward(last, s, dst, src, k, n);
    }
  }

  /** One step of std::copy_backward. */
  method CopyBackStep(last: ReadIterator, result: WriteIterator, ghost s: Shadow,
                      ghost dst: nat, ghost src: nat, ghost k: nat, ghost n: nat)
    requires last.Ready() && result.Ready() && last.table == result.table
    requires last.address == src + k && result.address == dst + k && 0 < k <= n && src <= dst
    requires Truthful(last, s, src, src + k) && MovedTo(last.table, s, dst, src, k, n)
    modifies last, result, last.table, last.table.pages.Values
    ensures last.Ready() && result.Ready()
    ensures last.address == src + (k - 1) && result.address == dst + (k - 1)
    ensures fresh(last.table.pages.Values - old(last.table.pages.Values))
    ensures Truthful(last, s, src, src + (k - 1)) && MovedTo(last.table, s, dst, src, k - 1, n)
  {
    hide PageStart, PageOffset, Lookup, Moved, Truthful;
    StepDown(last, s, dst, src, k, n);
    var e := last.Get();
    SeenBackward(last, s, dst, src, k - 1, n);
    TruthfulLess(last, s, src, src + k, src, src + (k - 1));
    ghost var table := last.table;
    result.Decrement();
    result.Set(e);
    forall x: nat
      ensures table.At(x) == Moved(s, dst, src, k - 1, n, x)
    {
      MovedNextBack(s, dst, src, k, n, x);
    }
  }

  /** std::copy_backward */
  method StdCopyBackward(first: nat, last: ReadIterator, result: WriteIterator, ghost s: Shadow,
                         ghost dst: nat, ghost src: nat, ghost n: nat)
    requires last.Ready() && result.Ready() && last.table == result.table
    requires first == src && last.address == src + n && result.address == dst + n && src <= dst
    requires Truthful(last, s, src, src + n) && MovedTo(last.table, s, dst, src, n, n)
    modifies last, result, last.table, last.table.pages.Values
    ensures last.table.Valid() && MovedTo(last.table, s, dst, src, 0, n)
    ensures fresh(last.table.pages.Values - old(last.table.pages.Values))
  {
    hide PageStart, PageOffset, MovedTo, Truthful, Attached, Lookup;
    ghost var k := n;
    while first != last.address
      invariant last.Ready() && result.Ready()
      invariant fresh(last.table.pages.Values - old(last.table.pages.Values))
      invariant 0 <= k <= n && last.address == src + k && result.address == dst + k
      invariant Truthful(last, s, src, src + k) && MovedTo(last.table, s, dst, src, k, n)
      decreases k
    {
      CopyBackStep(last, result, s, dst, src, k, n);
      k := k - 1;
    }
  }

  /** Copying backwards is right whenever the destination is not below the source. The write
      iterator made for the end of the destination may create one page more than needed. */
  method CopyBackward(table: PageTable, dst: nat, src: nat, n: nat)
    requires table.Valid() && src <= dst
    modifies table, table.pages.Values
    ensures table.Valid() && table.Flat() == MoveShadow(old(table.Flat()), dst, src, n)
    ensures fresh(table.pages.Values - old(table.pages.Values))
  {
    hide PageStart, PageOffset, MovedTo, MoveShadow, Lookup, Truthful;
    ghost var s := table.Flat();
    MovedNone(table, s, dst, src, n);
    var last := new ReadIterator(table, src + n);
    LookedUpBackward(last, s, dst, src, n, n);
    var result := new WriteIterator(table, dst + n);
    MovedNone(table, s, dst, src, n);
    StdCopyBackward(src, last, result, s, dst, src, n);
    MovedAll(table, s, dst, src, n);
  }
}
