/** The paged shadow memory of runtime/Shadow.h: a page table of 4096-entry pages, walked
    by iterators that cache a possibly null pointer into a page. */
module PagedShadow {
  import opened Options
  import opened Expressions
  import opened FlatMemory

  const PAGE_SIZE: nat := 4096

  function PageStart(a: nat): nat { a - a % PAGE_SIZE }

  function PageOffset(a: nat): (r: nat)
    ensures r < PAGE_SIZE
  {
    a % PAGE_SIZE
  }

  /** Neighbouring addresses share a page exactly when the offset does not wrap. */
  lemma PageStep(a: nat)
    ensures PageStart(a + 1) == PageStart(a) <==> PageOffset(a) + 1 < PAGE_SIZE
    ensures PageStart(a + 1) == PageStart(a) ==> PageOffset(a + 1) == PageOffset(a) + 1
  {
  }

  lemma PagesDisjoint(a: nat, b: nat)
    requires a != b && PageStart(a) == PageStart(b)
    ensures PageOffset(a) != PageOffset(b)
  {
  }

  /** g_shadow_pages */
  class PageTable {
    var pages: map<nat, array<SymExpr>>

    constructor ()
      ensures Valid() && pages == map[] && forall a :: At(a) == None
    {
      pages := map[];
    }

    ghost predicate Valid()
      reads this
    {
      && (forall p :: p in pages ==> pages[p].Length == PAGE_SIZE)
      && (forall p, q :: p in pages && q in pages && p != q ==> pages[p] != pages[q])
    }

    /** The entry for address `a`: what a fresh read iterator sees. */
    ghost function At(a: nat): SymExpr
      requires Valid()
      reads this, pages.Values
    {
      if PageStart(a) in pages then pages[PageStart(a)][PageOffset(a)] else None
    }

    /** The flat shadow that the page table represents. */
    ghost function Flat(): (s: Shadow)
      requires Valid()
      reads this, pages.Values
      ensures forall a :: Lookup(s, a) == At(a)
    {
      var addresses := set p, i | p in pages && 0 <= i < PAGE_SIZE && InRange(i, 0, PAGE_SIZE) :: p + i;
      assert forall a: nat :: PageStart(a) in pages ==> a in addresses by {
        forall a: nat | PageStart(a) in pages
          ensures a in addresses
        {
          assert InRange(PageOffset(a), 0, PAGE_SIZE) && a == PageStart(a) + PageOffset(a);
        }
      }
      map a | a in addresses && At(a).Some? :: At(a).value
    }

    /** Store through a pointer into a page. */
    method Store(page: array<SymExpr>, index: int, e: SymExpr, ghost a: nat)
      requires Valid() && PageStart(a) in pages && page == pages[PageStart(a)] && index == PageOffset(a)
      modifies page
      ensures Valid() && forall x :: At(x) == if x == a then e else old(At(x))
    {
      page[index] := e;
      forall x | x != a && PageStart(x) == PageStart(a)
        ensures PageOffset(x) != PageOffset(a)
      {
        PagesDisjoint(x, a);
      }
    }

    /** `getOrCreateShadow`: a new page is all null, so no entry changes. */
    method GetOrCreate(a: nat) returns (page: array<SymExpr>)
      requires Valid()
      modifies this
      ensures Valid() && PageStart(a) in pages && page == pages[PageStart(a)]
      ensures forall p :: p in old(pages) ==> p in pages && pages[p] == old(pages[p])
      ensures fresh(pages.Values - old(pages.Values))
      ensures forall x :: At(x) == old(At(x))
    {
      if PageStart(a) in pages {
        page := pages[PageStart(a)];
      } else {
        page := new SymExpr[PAGE_SIZE](_ => None);
        pages := pages[PageStart(a) := page];
      }
    }
  }

  /** The cached pointer is null, or points at the entry of `address`. */
  ghost predicate Attached(table: PageTable, address: nat, page: array?<SymExpr>, index: int)
    reads table
  {
    page != null ==>
      PageStart(address) in table.pages && table.pages[PageStart(address)] == page && index == PageOffset(address)
  }

  /** ReadShadowIterator: its null pointer may be stale once a writer has made the page. */
  class ReadIterator {
    const table: PageTable
    var address: nat
    var page: array?<SymExpr>
    var index: int

    ghost predicate Ready()
      reads this, table
    {
      table.Valid() && Attached(table, address, page, index)
    }

    /** What the iterator shows at its address. */
    ghost function Seen(): SymExpr
      requires Ready()
      reads this, table, table.pages.Values
    {
      if page == null then None else table.At(address)
    }

    constructor (t: PageTable, a: nat)
      requires t.Valid()
      ensures table == t && address == a && Ready()
      ensures page == null <==> PageStart(a) !in t.pages
    {
      table, address := t, a;
      if PageStart(a) in t.pages {
        page, index := t.pages[PageStart(a)], PageOffset(a);
      } else {
        page, index := null, 0;
      }
    }

    method Reload()
      requires table.Valid()
      modifies this`page, this`index
      ensures Ready() && (page == null <==> PageStart(address) !in table.pages)
    {
      if PageStart(address) in table.pages {
        page, index := table.pages[PageStart(address)], PageOffset(address);
      } else {
        page, index := null, 0;
      }
    }

    /** `operator++`: the pointer moves along and is looked up again on a new page only. */
    method Increment()
      requires Ready()
      modifies this
      ensures Ready() && address == old(address) + 1
      ensures PageStart(address) == old(PageStart(address)) ==> (page == null <==> old(page) == null)
      ensures PageStart(address) != old(PageStart(address)) ==> (page == null <==> PageStart(address) !in table.pages)
    {
      PageStep(address);
      address := address + 1;
      if page != null {
        index := index + 1;
      }
      if PageStart(address) != PageStart(address - 1) {
        Reload();
      }
    }

    method Decrement()
      requires Ready() && address > 0
      modifies this
      ensures Ready() && address == old(address) - 1
      ensures PageStart(address) == old(PageStart(address)) ==> (page == null <==> old(page) == null)
      ensures PageStart(address) != old(PageStart(address)) ==> (page == null <==> PageStart(address) !in table.pages)
    {
      PageStep(address - 1);
      address := address - 1;
      if page != null {
        index := index - 1;
      }
      if PageStart(address) != PageStart(address + 1) {
        Reload();
      }
    }

    method Get() returns (e: SymExpr)
      requires Ready()
      ensures e == Seen()
    {
      if page == null {
        e := None;
      } else {
        e := page[index];
      }
    }
  }

  /** WriteShadowIterator: moving onto a page without shadow creates it. */
  class WriteIterator {
    const table: PageTable
    var address: nat
    var page: array<SymExpr>
    var index: int

    ghost predicate Ready()
      reads this, table
    {
      table.Valid() && Attached(table, address, page, index)
    }

    constructor (t: PageTable, a: nat)
      requires t.Valid()
      modifies t
      ensures table == t && address == a && Ready()
      ensures forall p :: p in old(t.pages) ==> p in t.pages && t.pages[p] == old(t.pages[p])
      ensures fresh(t.pages.Values - old(t.pages.Values))
      ensures forall x :: t.At(x) == old(t.At(x))
    {
      table, address := t, a;
      var p := t.GetOrCreate(a);
      page, index := p, PageOffset(a);
    }

    method Increment()
      requires Ready()
      modifies this, table
      ensures Ready() && address == old(address) + 1
      ensures forall p :: p in old(table.pages) ==> p in table.pages && table.pages[p] == old(table.pages[p])
      ensures fresh(table.pages.Values - old(table.pages.Values))
      ensures forall x :: table.At(x) == old(table.At(x))
    {
      PageStep(address);
      address := address + 1;
      index := index + 1;
      if PageStart(address) != PageStart(address - 1) {
        page := table.GetOrCreate(address);
        index := PageOffset(address);
      }
    }

    method Decrement()
      requires Ready() && address > 0
      modifies this, table
      ensures Ready() && address == old(address) - 1
      ensures forall p :: p in old(table.pages) ==> p in table.pages && table.pages[p] == old(table.pages[p])
      ensures fresh(table.pages.Values - old(table.pages.Values))
      ensures forall x :: table.At(x) == old(table.At(x))
    {
      PageStep(address - 1);
      address := address - 1;
      index := index - 1;
      if PageStart(address) != PageStart(address + 1) {
        page := table.GetOrCreate(address);
        index := PageOffset(address);
      }
    }

    method Set(e: SymExpr)
      requires Ready()
      modifies page
      ensures Ready() && forall x :: table.At(x) == if x == address then e else old(table.At(x))
    {
      table.Store(page, index, e, address);
    }
  }
}
