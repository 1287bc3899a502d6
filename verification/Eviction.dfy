/** The page table of an address space, over an allocator that can run out of memory. */
module Eviction {
  type Address = nat

  /** Pages are numbered in the order of allocation.  `handles` counts the handles held outside the
      table; the memory of a page lives as long as there is any handle. */
  datatype Page = Page(size: nat, handles: nat, live: bool)

  /** What the table maps an address to: a future that may not be ready yet. */
  datatype Entry = Pending | Ready(page: nat)

  /** Bytes of all live pages. */
  function LiveBytes(pages: seq<Page>): nat {
    if pages == [] then 0
    else LiveBytes(pages[..|pages| - 1]) + (if pages[|pages| - 1].live then pages[|pages| - 1].size else 0)
  }

  function Bytes(p: Page): nat { if p.live then p.size else 0 }

  lemma {:induction false} LiveBytesUpdate(pages: seq<Page>, k: nat, p: Page)
    requires k < |pages|
    ensures LiveBytes(pages[k := p]) == LiveBytes(pages) - Bytes(pages[k]) + Bytes(p)
    ensures LiveBytes(pages) >= Bytes(pages[k])
  {
    var n := |pages| - 1;
    if k == n {
      assert pages[k := p][..n] == pages[..n];
    } else {
      LiveBytesUpdate(pages[..n], k, p);
      assert pages[k := p][..n] == pages[..n][k := p];
    }
  }

  lemma LiveBytesAppend(pages: seq<Page>, p: Page)
    ensures LiveBytes(pages + [p]) == LiveBytes(pages) + Bytes(p)
  {
    assert (pages + [p])[..|pages|] == pages;
  }

  /** Keeps an account of the memory it has given out. */
  class MockAllocator {
    var allocatedMemory: nat
    const totalMemory: nat

    constructor (allocatedMemory: nat, totalMemory: nat)
      ensures this.allocatedMemory == allocatedMemory && this.totalMemory == totalMemory
    {
      this.allocatedMemory, this.totalMemory := allocatedMemory, totalMemory;
    }

    method Allocate(size: nat) returns (ok: bool)
      modifies this
      ensures ok == (old(allocatedMemory) + size < totalMemory)
      ensures allocatedMemory == old(allocatedMemory) + (if ok then size else 0)
    {
      ok := allocatedMemory + size < totalMemory;
      if ok {
        allocatedMemory := allocatedMemory + size;
      }
    }

    method Deallocate(size: nat)
      requires size <= allocatedMemory
      modifies this
      ensures allocatedMemory == old(allocatedMemory) - size
    {
      allocatedMemory := allocatedMemory - size;
    }
  }

  predicate InTable(table: map<Address, Entry>, page: nat) {
    exists a :: a in table && table[a] == Ready(page)
  }

  /** `unique` for the handle in entry `a`: no other handle to the page exists. */
  predicate Evictable(table: map<Address, Entry>, pages: seq<Page>, a: Address) {
    && a in table && table[a].Ready? && table[a].page < |pages| && pages[table[a].page].handles == 0
    && forall b :: b in table && table[b] == table[a] ==> b == a
  }

  /** Handles and sizes are as before, and pages that are held are untouched. */
  ghost predicate KeepsHeld(before: seq<Page>, after: seq<Page>) {
    && |after| == |before|
    && (forall p :: 0 <= p < |before| ==> after[p].handles == before[p].handles && after[p].size == before[p].size)
    && (forall p :: 0 <= p < |before| && before[p].handles > 0 ==> after[p] == before[p])
  }

  /** Entries were removed only, and only ready ones whose page nobody else held. */
  ghost predicate OnlyUnheldGone(before: map<Address, Entry>, pages: seq<Page>, after: map<Address, Entry>) {
    && (forall a :: a in after ==> a in before && after[a] == before[a])
    && (forall a :: a in before && a !in after ==>
          before[a].Ready? && before[a].page < |pages| && pages[before[a].page].handles == 0)
  }

  lemma StillOnlyUnheld(table: map<Address, Entry>, before: seq<Page>, current: map<Address, Entry>, pages: seq<Page>, victim: Address)
    requires OnlyUnheldGone(table, before, current) && KeepsHeld(before, pages) && Evictable(current, pages, victim)
    ensures OnlyUnheldGone(table, before, current - {victim})
  {
  }

  class AddressSpace {
    var entryTable: map<Address, Entry>
    var pages: seq<Page>
    const allocator: MockAllocator
    ghost const elsewhere: nat

    /** Entries lead to live pages, and a page is live as long as somebody has a handle to it. */
    ghost predicate TableAndPages()
      reads this
    {
      && (forall a :: a in entryTable && entryTable[a].Ready? ==> entryTable[a].page < |pages| && pages[entryTable[a].page].live)
      && (forall p :: 0 <= p < |pages| && pages[p].handles > 0 ==> pages[p].live)
      && (forall p :: 0 <= p < |pages| && pages[p].live ==> pages[p].handles > 0 || InTable(entryTable, p))
    }

    /** The account of the allocator is exact: what it had given out before, and the live pages. */
    ghost predicate Valid()
      reads this, allocator
    {
      TableAndPages() && allocator.allocatedMemory == elsewhere + LiveBytes(pages)
    }

    constructor (allocator: MockAllocator)
      ensures Valid() && entryTable == map[] && pages == [] && this.allocator == allocator
    {
      entryTable, pages := map[], [];
      this.allocator := allocator;
      elsewhere := allocator.allocatedMemory;
    }

    /** The memory of page `p` is given back. */
    method FreePage(p: nat)
      requires p < |pages| && pages[p].live && allocator.allocatedMemory == elsewhere + LiveBytes(pages)
      modifies `pages, allocator
      ensures pages == old(pages)[p := old(pages)[p].(live := false)]
      ensures allocator.allocatedMemory == elsewhere + LiveBytes(pages)
    {
      LiveBytesUpdate(pages, p, pages[p].(live := false));
      allocator.Deallocate(pages[p].size);
      pages := pages[p := pages[p].(live := false)];
    }

    /** Removes the entry of `a` from the table and frees its page if that was the last handle. */
    method Erase(a: Address)
      requires Valid() && a in entryTable
      modifies this, allocator
      ensures Valid() && entryTable == old(entryTable) - {a}
      ensures |pages| == |old(pages)|
      ensures forall p :: 0 <= p < |pages| && old(entryTable)[a] != Ready(p) ==> pages[p] == old(pages)[p]
      ensures forall p :: 0 <= p < |pages| ==> pages[p].handles == old(pages)[p].handles && pages[p].size == old(pages)[p].size
    {
      var e := entryTable[a];
      ghost var before := entryTable;
      entryTable := entryTable - {a};
      assert forall p :: Ready(p) != e && InTable(before, p) ==> InTable(entryTable, p) by {
        forall p | Ready(p) != e && InTable(before, p)
          ensures InTable(entryTable, p)
        {
          var b :| b in before && before[b] == Ready(p);
          assert b in entryTable;
        }
      }
      if e.Ready? && pages[e.page].handles == 0 && !InTable(entryTable, e.page) {
        FreePage(e.page);
      }
    }

    /** `evict_objects`, which its only caller tells to free no particular amount: it stops after the
        first entry that nobody else holds. */
    method EvictObjects() returns (hasFreed: bool, ghost victim: Address)
      requires Valid()
      modifies this, allocator
      ensures Valid()
      ensures hasFreed ==> Evictable(old(entryTable), old(pages), victim) && entryTable == old(entryTable) - {victim}
      ensures hasFreed ==> KeepsHeld(old(pages), pages)
      ensures hasFreed ==> forall p :: 0 <= p < |pages| && old(entryTable)[victim] != Ready(p) ==> pages[p] == old(pages)[p]
      ensures !hasFreed ==> entryTable == old(entryTable) && pages == old(pages) && allocator.allocatedMemory == old(allocator.allocatedMemory)
      ensures !hasFreed ==> forall a :: !Evictable(entryTable, pages, a)
    {
      victim := 0;
      var rest := entryTable.Keys;
      while rest != {}
        invariant Valid() && entryTable == old(entryTable) && pages == old(pages) && allocator.allocatedMemory == old(allocator.allocatedMemory)
        invariant rest <= entryTable.Keys
        invariant forall a :: a in entryTable && a !in rest ==> !Evictable(entryTable, pages, a)
        decreases |rest|
      {
        var a :| a in rest;
        rest := rest - {a};
        if entryTable[a].Ready? && Evictable(entryTable, pages, a) {
          hide LiveBytes;
          Erase(a);
          return true, a;
        }
      }
      hasFreed := false;
    }

    /** `allocate` of the evicting allocator, and the page made of the block: tries again after every
        eviction.  Only pages that nobody holds disappear, and if no page can be allocated there is
        nothing left to evict. */
    method AllocatePage(size: nat) returns (page: nat, ok: bool, ghost tries: nat)
      requires Valid()
      modifies this, allocator
      ensures Valid() && tries <= |old(entryTable)| + 1
      ensures OnlyUnheldGone(old(entryTable), old(pages), entryTable)
      ensures |old(pages)| <= |pages| && KeepsHeld(old(pages), pages[..|old(pages)|])
      ensures ok ==> page == |old(pages)| && |pages| == page + 1 && pages[page] == Page(size, 1, true)
      ensures !ok ==> |pages| == |old(pages)| && allocator.allocatedMemory + size >= allocator.totalMemory &&
                      forall a :: !Evictable(entryTable, pages, a)
    {
      hide LiveBytes;
      ghost var table, before := entryTable, pages;
      page, tries := 0, 1;
      ok := allocator.Allocate(size);
      while !ok
        invariant allocator.allocatedMemory == elsewhere + LiveBytes(pages) + (if ok then size else 0) && TableAndPages()
        invariant !ok ==> allocator.allocatedMemory + size >= allocator.totalMemory
        invariant KeepsHeld(before, pages) && OnlyUnheldGone(table, before, entryTable)
        invariant tries + |entryTable| <= |table| + 1
        decreases !ok, |entryTable|
      {
        ghost var current, old' := entryTable, pages;
        var hasFreed;
        ghost var victim;
        hasFreed, victim := EvictObjects();
        if !hasFreed {
          assert pages[..|before|] == pages;
          return;
        }
        StillOnlyUnheld(table, before, current, old', victim);
        SmallerTable(current, {victim});
        ok := allocator.Allocate(size);
        tries := tries + 1;
      }
      page := |pages|;
      LiveBytesAppend(pages, Page(size, 1, true));
      pages := pages + [Page(size, 1, true)];
      assert pages[..|before|] == pages[..page];
    }

    /** `register_page`, taking over a handle of the caller. */
    method RegisterPage(a: Address, page: nat)
      requires Valid() && a !in entryTable && page < |pages| && pages[page].handles > 0
      modifies this
      ensures Valid() && entryTable == old(entryTable)[a := Ready(page)]
      ensures pages == old(pages)[page := old(pages)[page].(handles := old(pages)[page].handles - 1)]
    {
      ghost var before := entryTable;
      entryTable := entryTable[a := Ready(page)];
      LiveBytesUpdate(pages, page, pages[page].(handles := pages[page].handles - 1));
      pages := pages[page := pages[page].(handles := pages[page].handles - 1)];
      TableGrows(before, a, Ready(page));
    }

    /** `try_resolve_object`: a further handle to the page, if the entry is there and ready. */
    method TryResolveObject(a: Address) returns (found: bool, page: nat)
      requires Valid()
      modifies `pages
      ensures Valid() && found == (a in entryTable && entryTable[a].Ready?)
      ensures found ==> page == entryTable[a].page && page < |pages| &&
                        pages == old(pages)[page := old(pages)[page].(handles := old(pages)[page].handles + 1)]
      ensures !found ==> pages == old(pages)
    {
      found, page := false, 0;
      if a in entryTable && entryTable[a].Ready? {
        found, page := true, entryTable[a].page;
        LiveBytesUpdate(pages, page, pages[page].(handles := pages[page].handles + 1));
        pages := pages[page := pages[page].(handles := pages[page].handles + 1)];
      }
    }

    /** A holder gives up its handle. */
    method Release(page: nat)
      requires Valid() && page < |pages| && pages[page].handles > 0
      modifies `pages, allocator
      ensures Valid() && |pages| == |old(pages)|
      ensures pages[page].handles == old(pages)[page].handles - 1
      ensures pages[page].live == (pages[page].handles > 0 || InTable(entryTable, page))
      ensures forall p :: 0 <= p < |pages| && p != page ==> pages[p] == old(pages)[p]
    {
      LiveBytesUpdate(pages, page, pages[page].(handles := pages[page].handles - 1));
      pages := pages[page := pages[page].(handles := pages[page].handles - 1)];
      if pages[page].handles == 0 && !InTable(entryTable, page) {
        FreePage(page);
      }
    }
  }

  lemma SmallerTable(table: map<Address, Entry>, gone: set<Address>)
    requires gone != {} && gone <= table.Keys
    ensures |table - gone| < |table|
  {
    var a :| a in gone;
    assert (table - gone).Keys == table.Keys - gone;
    assert (table - gone).Keys < table.Keys by { assert a in table.Keys; }
    SubsetSize((table - gone).Keys, table.Keys);
    assert |(table - gone).Keys| == |table - gone| && |table.Keys| == |table|;
  }

  lemma {:induction false} SubsetSize(small: set<Address>, large: set<Address>)
    requires small < large
    ensures |small| < |large|
  {
    assert large == small + (large - small);
    assert |large| == |small| + |large - small|;
    assert large - small != {};
  }

  lemma TableGrows(table: map<Address, Entry>, a: Address, e: Entry)
    requires a !in table
    ensures forall p :: InTable(table, p) || e == Ready(p) ==> InTable(table[a := e], p)
  {
    forall p | InTable(table, p) || e == Ready(p)
      ensures InTable(table[a := e], p)
    {
      if e == Ready(p) {
        assert table[a := e][a] == Ready(p);
      } else {
        var b :| b in table && table[b] == Ready(p);
        assert table[a := e][b] == Ready(p);
      }
    }
  }
}
