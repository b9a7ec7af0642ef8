/** The memory operations of runtime/RuntimeCommon.cpp on the paged shadow, each proved to
    do what the flat operation of module `FlatMemory` does. `pushed` lists the path
    constraints that the operation's backend call pushes. */
module RuntimeMemory {
  import opened Options
  import opened BitVectors
  import opened Expressions
  import opened FlatMemory
  import opened PagedShadow
  import opened ShadowMoves
  import opened Constraints

  // ----- loops over a region -----

  /** The entry at `x` once `value(i)` is stored in the first `k` entries of the region at `a`. */
  ghost function Stored(s: Shadow, a: nat, k: nat, value: nat -> SymExpr, x: nat): SymExpr
  {
    if a <= x < a + k then value(x - a) else Lookup(s, x)
  }

  ghost predicate StoredTo(table: PageTable, s: Shadow, a: nat, k: nat, value: nat -> SymExpr)
    requires table.Valid()
    reads table, table.pages.Values
  {
    forall x: nat :: table.At(x) == Stored(s, a, k, value, x)
  }

  lemma StoredNone(table: PageTable, s: Shadow, a: nat, value: nat -> SymExpr)
    requires table.Valid() && forall x :: table.At(x) == Lookup(s, x)
    ensures StoredTo(table, s, a, 0, value)
  {
  }

  lemma StoredNext(s: Shadow, a: nat, k: nat, value: nat -> SymExpr, x: nat)
    ensures Stored(s, a, k + 1, value, x) == if x == a + k then value(k) else Stored(s, a, k, value, x)
  {
  }

  method StoreOne(first: WriteIterator, value: nat -> SymExpr, i: nat, ghost s: Shadow, ghost a: nat)
    requires first.Ready() && first.address == a + i && StoredTo(first.table, s, a, i, value)
    modifies first, first.table, first.table.pages.Values
    ensures first.Ready() && first.address == a + (i + 1) && StoredTo(first.table, s, a, i + 1, value)
    ensures fresh(first.table.pages.Values - old(first.table.pages.Values))
  {
    hide PageStart, PageOffset, Lookup, Stored;
    first.Set(value(i));
    first.Increment();
    forall x: nat
      ensures first.table.At(x) == Stored(s, a, i + 1, value, x)
    {
      StoredNext(s, a, i, value, x);
    }
  }

  method StoreLoop(first: WriteIterator, last: nat, value: nat -> SymExpr, ghost s: Shadow, ghost a: nat, ghost n: nat)
    requires first.Ready() && first.address == a && last == a + n && StoredTo(first.table, s, a, 0, value)
    modifies first, first.table, first.table.pages.Values
    ensures first.table.Valid() && StoredTo(first.table, s, a, n, value)
    ensures fresh(first.table.pages.Values - old(first.table.pages.Values))
  {
    hide PageStart, PageOffset, Lookup, StoredTo, Attached;
    var i := 0;
    while first.address != last
      invariant first.Ready() && 0 <= i <= n && first.address == a + i && StoredTo(first.table, s, a, i, value)
      invariant fresh(first.table.pages.Values - old(first.table.pages.Values))
      decreases n - i
    {
      StoreOne(first, value, i, s, a);
      i := i + 1;
    }
  }

  /** Store `value(i)` in the i-th entry of a region (std::fill, std::generate, range for).
      Both ends of the region are write iterators, so both pages come into being. */
  method StoreEach(table: PageTable, a: nat, n: nat, value: nat -> SymExpr)
    requires table.Valid()
    modifies table, table.pages.Values
    ensures table.Valid() && StoredTo(table, old(table.Flat()), a, n, value)
    ensures fresh(table.pages.Values - old(table.pages.Values))
  {
    hide PageStart, PageOffset, StoredTo;
    ghost var s := table.Flat();
    var first := new WriteIterator(table, a);
    var last := new WriteIterator(table, a + n);
    StoredNone(table, s, a, value);
    StoreLoop(first, a + n, value, s, a, n);
  }

  lemma StoredIs(table: PageTable, s: Shadow, a: nat, n: nat, value: nat -> SymExpr, t: Shadow)
    requires table.Valid() && StoredTo(table, s, a, n, value)
    requires forall x: nat :: Lookup(t, x) == Stored(s, a, n, value, x)
    ensures table.Flat() == t
  {
    hide Lookup, Stored;
    forall x
      ensures Lookup(table.Flat(), x) == Lookup(t, x)
    {
      assert Lookup(table.Flat(), x) == table.At(x) == Stored(s, a, n, value, x);
    }
    SameEntries(table.Flat(), t);
  }

  // ----- isConcrete -----

  /** A read iterator whose pointer is not stale. */
  ghost predicate UpToDate(it: ReadIterator)
    reads it, it.table
  {
    it.Ready() && (it.page == null <==> PageStart(it.address) !in it.table.pages)
  }

  /** Reading through a pointer that is not stale. */
  method GetFresh(it: ReadIterator) returns (e: SymExpr)
    requires UpToDate(it)
    ensures e == Lookup(it.table.Flat(), it.address) && (e.Some? <==> it.address in it.table.Flat())
  {
    e := it.Get();
    FreshSees(it);
    EntryIs(it.table, it.address);
  }

  method NextFresh(it: ReadIterator)
    requires UpToDate(it)
    modifies it
    ensures UpToDate(it) && it.address == old(it.address) + 1
  {
    hide PageOffset, PageStart, Attached;
    it.Increment();
  }

  lemma FreshValid(it: ReadIterator)
    requires UpToDate(it)
    ensures it.table.Valid()
  {
  }

  /** std::all_of over the entries of a region. */
  method AllNull(it: ReadIterator, last: nat, ghost a: nat, ghost n: nat) returns (b: bool)
    requires UpToDate(it) && it.address == a && last == a + n
    modifies it
    ensures b <==> Concrete(it.table.Flat(), a, n)
  {
    hide UpToDate, Lookup, Concrete, PageTable.Flat, PageTable.Valid;
    FreshValid(it);
    ghost var s := it.table.Flat();
    ConcreteNext(s, a, 0);
    ghost var k := 0;
    while it.address != last
      invariant UpToDate(it) && k <= n && it.address == a + k && it.table.Valid() && s == it.table.Flat()
      invariant Concrete(s, a, k)
      decreases n - k
    {
      var e := GetFresh(it);
      ConcreteNext(s, a, k);
      if e.Some? {
        NotConcrete(s, a, k, n);
        return false;
      }
      NextFresh(it);
      k := k + 1;
    }
    return true;
  }

  lemma ConcreteNext(s: Shadow, a: nat, k: nat)
    ensures Concrete(s, a, 0)
    ensures Concrete(s, a, k + 1) <==> Concrete(s, a, k) && a + k !in s
  {
  }

  lemma NotConcrete(s: Shadow, a: nat, k: nat, n: nat)
    requires k < n && a + k in s
    ensures !Concrete(s, a, n)
  {
    ConcreteAt(s, a, n, a + k);
  }

  lemma ConcreteAt(s: Shadow, a: nat, n: nat, x: nat)
    requires a <= x < a + n
    ensures Concrete(s, a, n) ==> x !in s
  {
  }

  lemma EntryIs(table: PageTable, a: nat)
    requires table.Valid()
    ensures Lookup(table.Flat(), a) == table.At(a)
    ensures table.At(a).Some? <==> a in table.Flat()
  {
  }

  /** `isConcrete`: the fast path for an unshadowed page agrees with the walk. */
  method IsConcrete(table: PageTable, a: nat, n: nat) returns (b: bool)
    requires table.Valid()
    ensures b <==> Concrete(table.Flat(), a, n)
  {
    hide PageOffset, Concrete;
    if PageStart(a) == PageStart(a + n) && PageStart(a) !in table.pages {
      UnshadowedPage(table, a, n);
      return true;
    }
    var it := new ReadIterator(table, a);
    b := AllNull(it, a + n, a, n);
  }

  lemma UnshadowedPage(table: PageTable, a: nat, n: nat)
    requires table.Valid() && PageStart(a) == PageStart(a + n) && PageStart(a) !in table.pages
    ensures Concrete(table.Flat(), a, n)
  {
    forall x | a <= x < a + n
      ensures x !in table.Flat()
    {
      assert PageStart(x) == PageStart(a);
      assert Lookup(table.Flat(), x) == table.At(x) == None;
    }
  }

  /** An iterator whose pointer is not stale sees the table's entry. */
  lemma FreshSees(it: ReadIterator)
    requires it.Ready() && (it.page == null <==> PageStart(it.address) !in it.table.pages)
    ensures it.Seen() == it.table.At(it.address)
  {
  }

  // ----- the run-time library's entry points -----

  /** The constraints of `_sym_backend_memcpy` and `_sym_backend_memmove`. */
  function MovePushes(symDst: SymExpr, symSrc: SymExpr, symSize: SymExpr, dst: nat, src: nat, n: nat): seq<Constraint>
  {
    Concretize(symDst, dst) + Concretize(symSrc, src) + Concretize(symSize, n)
  }

  lemma MoveConcrete(s: Shadow, dst: nat, src: nat, n: nat)
    requires Concrete(s, dst, n) && Concrete(s, src, n)
    ensures MoveShadow(s, dst, src, n) == s
  {
    forall x: nat
      ensures Lookup(MoveShadow(s, dst, src, n), x) == Lookup(s, x)
    {
      MoveEntry(s, dst, src, n, x);
    }
    SameEntries(MoveShadow(s, dst, src, n), s);
  }

  /** Are the arguments or the data of a move symbolic? If so the backend is told. */
  method NoteMove(table: PageTable, symDst: SymExpr, symSrc: SymExpr, symSize: SymExpr, dst: nat, src: nat, n: nat)
    returns (symbolicData: bool, pushed: seq<Constraint>)
    requires table.Valid()
    ensures symbolicData <==> !(Concrete(table.Flat(), src, n) && Concrete(table.Flat(), dst, n))
    ensures pushed == MovePushes(symDst, symSrc, symSize, dst, src, n)
  {
    hide Concrete;
    var symbolicArgs := symDst.Some? || symSrc.Some? || symSize.Some?;
    var srcConcrete := IsConcrete(table, src, n);
    symbolicData := !srcConcrete;
    if !symbolicData {
      var dstConcrete := IsConcrete(table, dst, n);
      symbolicData := !dstConcrete;
    }
    pushed := [];
    if symbolicArgs || symbolicData {
      pushed := MovePushes(symDst, symSrc, symSize, dst, src, n);
    }
  }

  /** `_sym_memcpy`, for regions as memcpy demands them: equal or not overlapping. */
  method Memcpy(table: PageTable, symDst: SymExpr, symSrc: SymExpr, symSize: SymExpr, dst: nat, src: nat, n: nat)
    returns (pushed: seq<Constraint>)
    requires table.Valid() && dst + n < ADDRESS_SPACE && src + n < ADDRESS_SPACE
    requires dst == src || dst + n <= src || src + n <= dst
    modifies table, table.pages.Values
    ensures table.Valid() && table.Flat() == MoveShadow(old(table.Flat()), dst, src, n)
    ensures fresh(table.pages.Values - old(table.pages.Values))
    ensures pushed == MovePushes(symDst, symSrc, symSize, dst, src, n)
  {
    hide Concrete, MovePushes, MoveShadow;
    var symbolicData;
    symbolicData, pushed := NoteMove(table, symDst, symSrc, symSize, dst, src, n);
    if !symbolicData {
      MoveConcrete(table.Flat(), dst, src, n);
      return;
    }
    CopyForward(table, dst, src, n);
  }

  /** `_sym_memmove`: for every overlap and every page crossing the destination gets the
      old source entries and nothing else changes. */
  method Memmove(table: PageTable, symDst: SymExpr, symSrc: SymExpr, symSize: SymExpr, dst: nat, src: nat, n: nat)
    returns (pushed: seq<Constraint>)
    requires table.Valid() && dst + n < ADDRESS_SPACE && src + n < ADDRESS_SPACE
    modifies table, table.pages.Values
    ensures table.Valid() && table.Flat() == MoveShadow(old(table.Flat()), dst, src, n)
    ensures fresh(table.pages.Values - old(table.pages.Values))
    ensures pushed == MovePushes(symDst, symSrc, symSize, dst, src, n)
  {
    hide Concrete, MovePushes, MoveShadow;
    var symbolicData;
    symbolicData, pushed := NoteMove(table, symDst, symSrc, symSize, dst, src, n);
    if !symbolicData {
      MoveConcrete(table.Flat(), dst, src, n);
      return;
    }
    if dst > src {
      CopyBackward(table, dst, src, n);
    } else {
      CopyForward(table, dst, src, n);
    }
  }

  lemma FillEntry(s: Shadow, a: nat, n: nat, e: SymExpr, x: nat)
    ensures Lookup(FillShadow(s, a, n, e), x) == Stored(s, a, n, i => e, x)
  {
  }

  lemma ClearConcrete(s: Shadow, a: nat, n: nat)
    requires Concrete(s, a, n)
    ensures Clear(s, a, n) == s
  {
  }

  method FillEach(table: PageTable, a: nat, n: nat, e: SymExpr)
    requires table.Valid()
    modifies table, table.pages.Values
    ensures table.Valid() && table.Flat() == FillShadow(old(table.Flat()), a, n, e)
    ensures fresh(table.pages.Values - old(table.pages.Values))
  {
    hide FillShadow, Lookup, Stored;
    ghost var s := table.Flat();
    StoreEach(table, a, n, i => e);
    forall x: nat
      ensures Lookup(FillShadow(s, a, n, e), x) == Stored(s, a, n, i => e, x)
    {
      FillEntry(s, a, n, e, x);
    }
    StoredIs(table, s, a, n, i => e, FillShadow(s, a, n, e));
  }

  /** `_sym_memset` */
  method Memset(table: PageTable, symDst: SymExpr, symValue: SymExpr, symSize: SymExpr, a: nat, n: nat)
    returns (pushed: seq<Constraint>)
    requires table.Valid() && a + n < ADDRESS_SPACE
    modifies table, table.pages.Values
    ensures table.Valid() && table.Flat() == FillShadow(old(table.Flat()), a, n, symValue)
    ensures fresh(table.pages.Values - old(table.pages.Values))
    ensures pushed == Concretize(symDst, a) + Concretize(symSize, n)
  {
    hide Concrete;
    var symbolicArgs := symDst.Some? || symValue.Some? || symSize.Some?;
    var concrete := IsConcrete(table, a, n);
    pushed := [];
    if symbolicArgs || !concrete {
      pushed := Concretize(symDst, a) + Concretize(symSize, n);
    }
    if symValue.None? && concrete {
      ClearConcrete(table.Flat(), a, n);
      return;
    }
    hide FillShadow;
    FillEach(table, a, n, symValue);
  }

  function WrittenBytes(v: Expr, n: nat, le: bool): nat -> SymExpr
  {
    (i: nat) => if i < n then Some(ByteOf(v, i, n, le)) else None
  }

  lemma WriteEntry(s: Shadow, v: Expr, a: nat, n: nat, le: bool, x: nat)
    ensures Lookup(WriteMemory(s, Some(v), a, n, le), x) == Stored(s, a, n, WrittenBytes(v, n, le), x)
  {
  }

  method WriteEach(table: PageTable, v: Expr, a: nat, n: nat, le: bool)
    requires table.Valid()
    modifies table, table.pages.Values
    ensures table.Valid() && table.Flat() == WriteMemory(old(table.Flat()), Some(v), a, n, le)
    ensures fresh(table.pages.Values - old(table.pages.Values))
  {
    hide WriteMemory, Lookup, Stored, WrittenBytes;
    ghost var s := table.Flat();
    StoreEach(table, a, n, WrittenBytes(v, n, le));
    forall x: nat
      ensures Lookup(WriteMemory(s, Some(v), a, n, le), x) == Stored(s, a, n, WrittenBytes(v, n, le), x)
    {
      WriteEntry(s, v, a, n, le, x);
    }
    StoredIs(table, s, a, n, WrittenBytes(v, n, le), WriteMemory(s, Some(v), a, n, le));
  }

  /** `_sym_write_memory` */
  method Write(table: PageTable, symAddr: SymExpr, written: SymExpr, a: nat, n: nat, le: bool)
    returns (pushed: seq<Constraint>)
    requires table.Valid() && n > 0 && a + n < ADDRESS_SPACE
    modifies table, table.pages.Values
    ensures table.Valid() && table.Flat() == WriteMemory(old(table.Flat()), written, a, n, le)
    ensures fresh(table.pages.Values - old(table.pages.Values))
    ensures pushed == Concretize(symAddr, a)
  {
    hide Concrete;
    var symbolicArgs := symAddr.Some? || written.Some?;
    var concrete := IsConcrete(table, a, n);
    pushed := [];
    if !concrete || symbolicArgs {
      pushed := Concretize(symAddr, a);
    }
    if written.None? && concrete {
      ClearConcrete(table.Flat(), a, n);
      return;
    }
    if written.None? {
      FillEach(table, a, n, None);
    } else {
      hide WriteMemory;
      WriteEach(table, written.value, a, n, le);
    }
  }

  lemma GatherNext(s: Shadow, m: Memory, a: nat, k: nat, le: bool)
    ensures GatherBytes(s, m, a, k + 1, le)
            == if k == 0 then ByteExpr(s, m, a) else JoinExpr(GatherBytes(s, m, a, k, le), ByteExpr(s, m, a + k), le)
  {
  }

  /** Dereference a NonNullReadShadowIterator: a concrete byte becomes a constant. */
  method GetNonNull(it: ReadIterator, m: Memory) returns (e: Expr)
    requires UpToDate(it)
    ensures e == ByteExpr(it.table.Flat(), m, it.address)
  {
    hide PageStart, PageOffset, Attached;
    FreshSees(it);
    EntryIs(it.table, it.address);
    var symbolicResult := it.Get();
    if symbolicResult.Some? {
      return symbolicResult.value;
    }
    return BuildInteger(ToNat(MemAt(m, it.address)), 8);
  }

  /** std::accumulate over a region, starting from a null expression. */
  method Accumulate(it: ReadIterator, last: nat, m: Memory, le: bool, ghost a: nat, ghost n: nat)
    returns (result: SymExpr)
    requires UpToDate(it) && it.address == a && last == a + n && n > 0
    modifies it
    ensures result == Some(GatherBytes(it.table.Flat(), m, a, n, le))
  {
    hide UpToDate, GatherBytes, ByteExpr, JoinExpr;
    FreshValid(it);
    ghost var s := it.table.Flat();
    result := None;
    ghost var k := 0;
    while it.address != last
      invariant UpToDate(it) && k <= n && it.address == a + k && it.table.Valid() && s == it.table.Flat()
      invariant result == if k == 0 then None else Some(GatherBytes(s, m, a, k, le))
      decreases n - k
    {
      var byteExpr := GetNonNull(it, m);
      GatherNext(s, m, a, k, le);
      result := Some(if result.None? then byteExpr else JoinExpr(result.value, byteExpr, le));
      NextFresh(it);
      k := k + 1;
    }
  }

  /** `_sym_read_memory` with the simple backend, which returns the value it is given. */
  method Read(table: PageTable, m: Memory, symAddr: SymExpr, a: nat, n: nat, le: bool)
    returns (result: SymExpr, pushed: seq<Constraint>)
    requires table.Valid() && n > 0 && a + n < ADDRESS_SPACE
    ensures result == ReadMemory(table.Flat(), m, a, n, le)
    ensures pushed == Concretize(symAddr, a)
  {
    hide GatherBytes, Concrete;
    var concrete := IsConcrete(table, a, n);
    result, pushed := None, [];
    if !concrete {
      var it := new ReadIterator(table, a);
      result := Accumulate(it, a + n, m, le, a, n);
    } else if symAddr.None? {
      return;
    }
    assert symAddr.Some? || result.Some?;
    pushed := Concretize(symAddr, a);
  }

  function InputBytes(offset: nat): nat -> SymExpr
  {
    (i: nat) => Some(InputByte(offset + i))
  }

  lemma MakeSymbolicEntry(s: Shadow, a: nat, n: nat, offset: nat, x: nat)
    ensures Lookup(FlatMemory.MakeSymbolic(s, a, n, offset), x) == Stored(s, a, n, InputBytes(offset), x)
  {
  }

  /** `_sym_make_symbolic`, for input bytes handed out in order. */
  method MarkSymbolic(table: PageTable, a: nat, n: nat, offset: nat)
    requires table.Valid() && a + n < ADDRESS_SPACE
    modifies table, table.pages.Values
    ensures table.Valid() && table.Flat() == FlatMemory.MakeSymbolic(old(table.Flat()), a, n, offset)
    ensures fresh(table.pages.Values - old(table.pages.Values))
  {
    hide FlatMemory.MakeSymbolic, Lookup, Stored, InputBytes;
    ghost var s := table.Flat();
    StoreEach(table, a, n, InputBytes(offset));
    forall x: nat
      ensures Lookup(FlatMemory.MakeSymbolic(s, a, n, offset), x) == Stored(s, a, n, InputBytes(offset), x)
    {
      MakeSymbolicEntry(s, a, n, offset, x);
    }
    StoredIs(table, s, a, n, InputBytes(offset), FlatMemory.MakeSymbolic(s, a, n, offset));
  }
}
