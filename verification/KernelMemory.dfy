/** Page allocator, page tables and heap at work on one memory: each keeps its
    own invariant and leaves the other two alone, whatever the order of calls,
    and every usable page has exactly one owner throughout. */
module KernelMemory {
  import opened Memory
  import opened FreeList
  import opened PhysicalPages
  import opened PageTables
  import opened BootMap
  import opened TableDemand
  import opened Paging
  import opened AcpiTables
  import opened HeapBlocks
  import opened Heap

  /** How many owners byte b has: its page is free, or a page table, or held by a
      caller that took it directly; or the byte belongs to the heap. */
  ghost function Owners(free: seq<nat>, tables: Tables, regions: seq<Block>, held: set<nat>, b: nat): nat {
    var p := PageOf(b);
    (if p in free then 1 else 0) + (if p in tables.Values then 1 else 0) + Count(regions, b) + (if p in held then 1 else 0)
  }

  /** Every byte of a usable page has exactly one owner, every other byte none. */
  ghost predicate Ledger(free: seq<nat>, tables: Tables, regions: seq<Block>, held: set<nat>, usable: set<nat>) {
    forall b: nat :: Owners(free, tables, regions, held, b) == if PageOf(b) in usable then 1 else 0
  }

  /** No byte of a page table belongs to the heap. */
  ghost predicate TablesApart(regions: seq<Block>, tables: Tables) {
    forall b: nat :: PageOf(b) in tables.Values ==> Count(regions, b) == 0
  }

  /** Page-table updates stay in tables and free pages, away from the heap. */
  lemma MappingSparesHeap(m: seq<byte>, m': seq<byte>, regions: seq<Block>, tables: Tables, free: seq<nat>)
    requires OnlyTablesChanged(m, m', tables, free)
    requires OwnedApart(regions, free) && TablesApart(regions, tables)
    ensures HeapBytesKept(m, m', regions)
  {
  }

  /** Heap updates stay in free blocks and free pages, away from the tables. */
  lemma HeapSparesTables(m: seq<byte>, m': seq<byte>, blocks: seq<Block>, live: seq<Block>, regions: seq<Block>, tables: Tables, pages: seq<nat>)
    requires Tiles(blocks, live, regions) && OnlyFreeChanged(m, m', blocks, pages)
    requires TablesApart(regions, tables) && TablesOk(m, tables, pages)
    ensures TablesKept(m, m', tables, -8)
  {
    hide Word;
    forall p | p in tables
      ensures PageKept(m, m', tables[p], -8)
    {
      WithinPage(tables[p]);
      assert tables[p] in tables.Values;
      forall b | tables[p] <= b < tables[p] + 0x1000 && b < |m|
        ensures m'[b] == m[b]
      {
        assert PageOf(b) == tables[p];
        assert Tile(blocks, live, regions, b);
      }
    }
  }

  /** New tables come off the free stack: the ledger moves those pages over. */
  lemma LedgerMap(tables: Tables, free: seq<nat>, length: nat, places: seq<Place>, regions: seq<Block>, held: set<nat>, usable: set<nat>)
    requires PagesOk(free, length) && Ledger(free, tables, regions, held, usable)
    requires OwnedApart(regions, free) && TablesApart(regions, tables)
    requires |free| >= Missing(tables, places)
    requires forall i, j :: 0 <= i < j < |places| ==> places[i] != places[j]
    ensures var (t, f) := EnsureAll(tables, free, places);
            && Ledger(f, t, regions, held, usable)
            && TablesApart(regions, t) && OwnedApart(regions, f)
            && (forall x :: x in f ==> x in free)
  {
    var (t, f) := EnsureAll(tables, free, places);
    TablesComeFromStack(tables, free, places);
    var k := Missing(tables, places);
    TakenNotLeft(free, length, k);
    assert free == free[..k] + free[k..];
    forall b: nat
      ensures Owners(f, t, regions, held, b) == Owners(free, tables, regions, held, b)
    {
      var p := PageOf(b);
      assert p in free <==> p in free[..k] || p in free[k..];
      assert Owners(free, tables, regions, held, b) <= 1;
    }
  }

  /** A table replaced by a 2 MiB mapping is not freed; it counts as held. */
  ghost function Retired(t: Tables, page: nat, large: bool): set<nat> {
    if large && P1(page) in t then {t[P1(page)]} else {}
  }

  lemma LedgerCut(t: Tables, f: seq<nat>, length: nat, page: nat, regions: seq<Block>, held: set<nat>, usable: set<nat>)
    requires FramesOk(t, length) && Ledger(f, t, regions, held, usable) && TablesApart(regions, t)
    ensures Ledger(f, Cut(t, P2(page), I2(page)), regions, held + Retired(t, page, true), usable)
    ensures TablesApart(regions, Cut(t, P2(page), I2(page)))
  {
    var q, t' := P1(page), Cut(t, P2(page), I2(page));
    forall x | x in t.Values
      ensures x in t'.Values || (q in t && x == t[q])
    {
      var y :| y in t && t[y] == x;
      assert y != q ==> t'[y] == x;
    }
    forall x | x in t'.Values
      ensures x in t.Values && (q in t ==> x != t[q])
    {
      var y :| y in t' && t'[y] == x;
      assert t[y] == x;
    }
    if q in t { assert t[q] in t.Values; }
    forall b: nat
      ensures Owners(f, t', regions, held + Retired(t, page, true), b) == Owners(f, t, regions, held, b)
    {
      assert Owners(f, t, regions, held, b) <= 1;
    }
  }

  /** Heap growth moves pages from the stack into the regions. */
  lemma LedgerGrow(tables: Tables, free: seq<nat>, length: nat, regions: seq<Block>, regions': seq<Block>, free': seq<nat>,
      held: set<nat>, usable: set<nat>, m: seq<byte>)
    requires PagesOk(free, length) && Ledger(free, tables, regions, held, usable)
    requires RegionsGrown(regions, free, regions', free')
    requires TablesApart(regions, tables) && TablesOk(m, tables, free)
    ensures Ledger(free', tables, regions', held, usable)
    ensures TablesApart(regions', tables)
    ensures forall p :: p in tables ==> tables[p] !in free'
  {
    hide Tree;
    var n := |free| - |free'|;
    TakenNotLeft(free, length, n);
    assert free == free[..n] + free[n..];
    forall b: nat
      ensures Owners(free', tables, regions', held, b) == Owners(free, tables, regions, held, b)
    {
      var p := PageOf(b);
      assert p in free <==> p in free[..n] || p in free[n..];
    }
    forall b: nat | PageOf(b) in tables.Values
      ensures Count(regions', b) == 0
    {
      var y :| y in tables && tables[y] == PageOf(b);
      assert PageOf(b) in free[..n] ==> PageOf(b) in free;
    }
  }

  /** Growing the heap by n pages leaves every byte one owner exactly if the n
      pages on top of the stack are the n pages from the first one up: else the
      block inserted covers memory that is free, a table, in a caller's hands, or
      not usable at all. */
  lemma LedgerGrowsExactly(tables: Tables, pages: seq<nat>, length: nat, regions: seq<Block>, n: nat, held: set<nat>, usable: set<nat>, m: seq<byte>)
    requires PagesOk(pages, length) && |pages| > 0 && n > 0 && Ledger(pages, tables, regions, held, usable)
    requires TablesApart(regions, tables) && TablesOk(m, tables, pages)
    ensures Contiguous(pages, n) <==>
            Ledger(Rest(pages, n), tables, [Block(pages[0], 4096 * n)] + regions, held, usable)
  {
    hide Contiguous, Ledger, PageOf, TablesApart;
    var r, taken := Block(pages[0], 4096 * n), pages[..if n <= |pages| then n else |pages|];
    if Contiguous(pages, n) {
      ContiguousRest(pages, n);
      GrowthJoins(regions, pages, length, n);
      LedgerGrow(tables, pages, length, regions, [r] + regions, pages[n..], held, usable, m);
    }
    if Ledger(Rest(pages, n), tables, [r] + regions, held, usable) {
      forall b: nat | r.Has(b)
        ensures PageOf(b) in taken
      {
        OwnerBefore(tables, pages, regions, n, held, usable, b);
      }
      GrowthExact(pages, length, n);
    }
  }

  /** In memory: m before ExpandHeap(n), m1 with the pages zeroed, m2 with the block
      inserted. The heap is still a heap, apart from all that others own, exactly if
      the list of runs starts with one stretch of n pages. */
  lemma GrowthSoundExactly(m: seq<byte>, m1: seq<byte>, m2: seq<byte>, head: nat, off: nat,
      free: seq<Block>, live: seq<Block>, regions: seq<Block>, tables: Tables, runs: seq<Block>, n: nat, held: set<nat>, usable: set<nat>)
    requires HeapOk(m, head, off, free, live, regions) && RunsOk(runs, |m|) && |runs| > 0 && n > 0
    requires OwnedApart(regions, Pages(runs)) && TablesApart(regions, tables) && TablesOk(m, tables, Pages(runs))
    requires Ledger(Pages(runs), tables, regions, held, usable)
    requires OnlyPagesChanged(m, m1, Pages(runs)) && HeaderWritten(m1, m2, runs[0].base, 4096 * n, head)
    ensures var r := Block(runs[0].base, 4096 * n);
            HeadStretch(runs, n) <==>
              HeapOk(m2, r.base + off, off, [r] + free, live, [r] + regions)
              && Ledger(Rest(Pages(runs), n), tables, [r] + regions, held, usable)
  {
    hide HeapOk, Ledger, Contiguous, HeadStretch, TablesApart, OwnedApart, Tree, HeaderWritten;
    RunsGivePages(runs, |m|);
    TopOfStack(runs, |m|);
    ContiguousByRuns(runs, |m|, n);
    LedgerGrowsExactly(tables, Pages(runs), |m|, regions, n, held, usable, m);
    if HeadStretch(runs, n) {
      ContiguousRest(Pages(runs), n);
      GrowKeepsHeap(m, m1, m2, head, off, free, live, regions, Pages(runs), n);
    }
  }

  /** A byte of the new block that has one owner afterwards was in a page taken. */
  lemma OwnerBefore(tables: Tables, pages: seq<nat>, regions: seq<Block>, n: nat, held: set<nat>, usable: set<nat>, b: nat)
    requires |pages| > 0 && Ledger(pages, tables, regions, held, usable) && Block(pages[0], 4096 * n).Has(b)
    requires Ledger(Rest(pages, n), tables, [Block(pages[0], 4096 * n)] + regions, held, usable)
    ensures PageOf(b) in pages[..if n <= |pages| then n else |pages|]
  {
    var t := if n <= |pages| then n else |pages|;
    var r := Block(pages[0], 4096 * n);
    CountPush(r, regions, b);
    assert Owners(pages, tables, regions, held, b) == if PageOf(b) in usable then 1 else 0;
    assert Owners(Rest(pages, n), tables, [r] + regions, held, b) == if PageOf(b) in usable then 1 else 0;
    assert pages == pages[..t] + Rest(pages, n);
  }

  lemma PathsDiffer(page: nat, large: bool)
    ensures forall i, j :: 0 <= i < j < |PathTo(page, large)| ==> PathTo(page, large)[i] != PathTo(page, large)[j]
  {
  }

  /** MemoryMap's bookkeeping, tables and stack together. */
  lemma LedgerAfterMap(m: seq<byte>, tables: Tables, free: seq<nat>, length: nat, page: nat, large: bool,
      regions: seq<Block>, held: set<nat>, usable: set<nat>)
    requires PagesOk(free, length) && Ledger(free, tables, regions, held, usable)
    requires OwnedApart(regions, free) && TablesApart(regions, tables)
    requires |free| >= Missing(tables, PathTo(page, large))
    requires FramesOk(EnsureAll(tables, free, PathTo(page, large)).0, length)
    ensures var (t, f) := TablesAfter(tables, free, page, large);
            && Ledger(f, t, regions, held + Retired(EnsureAll(tables, free, PathTo(page, large)).0, page, large), usable)
            && TablesApart(regions, t) && OwnedApart(regions, f)
  {
    hide Missing, EnsureAll, PathTo;
    PathsDiffer(page, large);
    LedgerMap(tables, free, length, PathTo(page, large), regions, held, usable);
    var (t, f) := EnsureAll(tables, free, PathTo(page, large));
    if large {
      LedgerCut(t, f, length, page, regions, held, usable);
    } else {
      assert held + Retired(t, page, large) == held;
    }
  }

  /** Taking frames off a sound stack keeps one frame per table. */
  lemma {:induction false} FramesAfterEnsure(tables: Tables, free: seq<nat>, length: nat, places: seq<Place>)
    requires FramesOk(tables, length) && PagesOk(free, length)
    requires forall p :: p in tables ==> tables[p] !in free
    ensures FramesOk(EnsureAll(tables, free, places).0, length)
    decreases |places|
  {
    if |places| > 0 {
      var (t, f) := Ensure(tables, free, places[0]);
      if places[0] !in tables && |free| > 0 {
        FreshPageApart(tables, free, length);
        FramesAfterHang(tables, length, places[0], free[0]);
      }
      FramesAfterEnsure(t, f, length, places[1..]);
    }
  }

  lemma TreeHasFrames(m: seq<byte>, tables: Tables, free: seq<nat>)
    requires TablesOk(m, tables, free)
    ensures FramesOk(tables, |m|) && forall p :: p in tables ==> tables[p] !in free
  {
  }

  /** The tables are still a tree, and every page translates as before. */
  ghost predicate TreeKept(m: seq<byte>, m': seq<byte>, tables: Tables) {
    && Tree(m', tables) && Root in tables && SameWalks(m, m', tables[Root])
    && (NoLarge(m, tables) ==> NoLarge(m', tables))
  }

  lemma AllocationSparesAll(m: seq<byte>, m': seq<byte>, h: nat, off: nat, f: seq<Block>, l: seq<Block>, r: seq<Block>, fp: seq<nat>, tables: Tables)
    requires HeapOk(m, h, off, f, l, r) && OwnedApart(r, fp)
    requires TablesApart(r, tables) && TablesOk(m, tables, fp)
    requires OnlyFreeChanged(m, m', f, fp)
    ensures TreeKept(m, m', tables) && AllKept(m, m', l)
  {
    hide Word, Threaded, Walk, OnlyFreeChanged, OwnedApart, TablesApart, SameWalks, Tiles, AllKept;
    HeapSparesTables(m, m', f, l, r, tables, fp);
    TreeElsewhere(m, m', tables);
    LiveKeptByAllocate(m, m', h, off, f, l, r, fp);
  }

  lemma MovingSparesTables(m: seq<byte>, m': seq<byte>, regions: seq<Block>, pages: seq<nat>, tables: Tables)
    requires OnlyOwnedChanged(m, m', regions, pages) && TablesApart(regions, tables) && TablesOk(m, tables, pages)
    ensures TreeKept(m, m', tables)
  {
    hide Word, Walk;
    forall p | p in tables
      ensures PageKept(m, m', tables[p], -8)
    {
      WithinPage(tables[p]);
      assert tables[p] in tables.Values;
    }
    TreeElsewhere(m, m', tables);
  }

  /** The ledger at boot: the usable pages are free, but for the tables. */
  lemma LedgerAtBoot(m: seq<byte>, tables: Tables, free0: seq<nat>, free: seq<nat>)
    requires SamePages(map[], free0, tables, free) && TablesOk(m, tables, free)
    ensures Ledger(free, tables, [], {}, set x | x in free0)
    ensures TablesApart([], tables)
  {
  }

  lemma FreeingSparesAll(m: seq<byte>, m': seq<byte>, h: nat, off: nat, f: seq<Block>, l: seq<Block>, r: seq<Block>, fp: seq<nat>, tables: Tables, k: nat)
    requires HeapOk(m, h, off, f, l, r) && k < |l|
    requires TablesApart(r, tables) && TablesOk(m, tables, fp)
    requires SameOutside(m, m', l[k].base, l[k].base + HEADER)
    ensures TreeKept(m, m', tables) && AllKept(m, m', Without(l, k))
  {
    hide Word, Threaded, Walk;
    var rest := Without(l, k);
    forall j | 0 <= j < |rest|
      ensures SameWithin(m, m', rest[j].base, rest[j].End())
    {
      LiveApart(f, l, r, |m|, if j < k then j else j + 1, k);
    }
    forall p | p in tables
      ensures PageKept(m, m', tables[p], -8)
    {
      WithinPage(tables[p]);
      assert tables[p] in tables.Values;
      forall b | tables[p] <= b < tables[p] + 0x1000 && b < |m|
        ensures m'[b] == m[b]
      {
        assert PageOf(b) == tables[p];
        assert Tile(f, l, r, b);
        if l[k].Has(b) { CountOne(l, k, b); }
      }
    }
    TreeElsewhere(m, m', tables);
  }

  lemma PagesSpareTables(m: seq<byte>, m': seq<byte>, tables: Tables, fp: seq<nat>)
    requires OnlyPagesChanged(m, m', fp) && TablesOk(m, tables, fp)
    ensures TreeKept(m, m', tables)
  {
    hide Word, Walk;
    AllocationSparesTables(m, m', tables, fp);
    TreeElsewhere(m, m', tables);
  }

  lemma PagesPopped(t: Tables, f: seq<nat>, t': Tables, f': seq<nat>)
    requires SamePages(t, f, t', f')
    ensures Popped(f, f')
  {
  }

  /** The heap starts out on one stretch of pages, or without any. */
  predicate StretchFor(pages: seq<nat>, heapSize: word) {
    heapSize == 0 || pages == [] || (heapSize >= 4096 && Contiguous(pages, heapSize / 4096))
  }

  lemma PlainTurns(pageCount: word)
    requires pageCount > 0
    ensures Turns(pageCount) == pageCount
  {
  }

  lemma PagesSpareAll(m: seq<byte>, m': seq<byte>, regions: seq<Block>, tables: Tables, fp: seq<nat>)
    requires OnlyPagesChanged(m, m', fp) && OwnedApart(regions, fp) && TablesOk(m, tables, fp)
    ensures HeapBytesKept(m, m', regions)
    ensures TreeKept(m, m', tables)
  {
    hide Word, Walk;
    AllocationSparesTables(m, m', tables, fp);
    TreeElsewhere(m, m', tables);
  }

  lemma LedgerTake(p: nat, rest: seq<nat>, length: nat, tables: Tables, regions: seq<Block>, held: set<nat>, usable: set<nat>)
    requires PagesOk([p] + rest, length) && Ledger([p] + rest, tables, regions, held, usable)
    requires OwnedApart(regions, [p] + rest)
    requires forall x :: x in tables ==> tables[x] !in [p] + rest
    ensures p !in held && Ledger(rest, tables, regions, held + {p}, usable)
    ensures OwnedApart(regions, rest)
    ensures forall x :: x in tables ==> tables[x] !in rest
  {
    FirstPage(p, rest, length);
    assert p in [p] + rest && forall x :: x in rest ==> x in [p] + rest;
    assert PageOf(p) == p;
    assert Owners([p] + rest, tables, regions, held, p) <= 1;
    forall b: nat
      ensures Owners(rest, tables, regions, held + {p}, b) == Owners([p] + rest, tables, regions, held, b)
    {
      var q := PageOf(b);
      assert q in [p] + rest <==> q == p || q in rest;
    }
  }

  lemma LedgerGive(p: nat, free: seq<nat>, tables: Tables, regions: seq<Block>, held: set<nat>, usable: set<nat>)
    requires Ledger(free, tables, regions, held, usable) && p in held && p % 4096 == 0
    requires OwnedApart(regions, free)
    requires forall x :: x in tables ==> tables[x] !in free
    ensures p !in free && Ledger([p] + free, tables, regions, held - {p}, usable)
    ensures OwnedApart(regions, [p] + free)
    ensures forall x :: x in tables ==> tables[x] !in [p] + free
  {
    assert PageOf(p) == p && Owners(free, tables, regions, held, p) <= 1;
    assert forall x :: x in tables ==> tables[x] in tables.Values;
    forall b: nat
      ensures Owners([p] + free, tables, regions, held - {p}, b) == Owners(free, tables, regions, held, b)
      ensures PageOf(b) == p ==> Count(regions, b) == 0
    {
      var q := PageOf(b);
      assert q in [p] + free <==> q == p || q in free;
      assert Owners(free, tables, regions, held, b) <= 1;
    }
  }

  /** A held page is neither table nor heap: writing into it spares both. */
  lemma HeldPageApart(m: seq<byte>, m': seq<byte>, p: nat, free: seq<nat>, tables: Tables, regions: seq<Block>, held: set<nat>, usable: set<nat>)
    requires Ledger(free, tables, regions, held, usable) && p in held && p % 4096 == 0 && TablesOk(m, tables, free)
    requires SameOutside(m, m', p, p + HEADER)
    ensures HeapBytesKept(m, m', regions)
    ensures TreeKept(m, m', tables)
  {
    hide Word, Walk;
    WithinPage(p);
    forall b: nat | p <= b < p + 4096
      ensures Count(regions, b) == 0 && PageOf(b) !in tables.Values
    {
      assert Owners(free, tables, regions, held, b) <= 1;
    }
    forall x | x in tables
      ensures PageKept(m, m', tables[x], -8)
    {
      WithinPage(tables[x]);
      assert tables[x] in tables.Values;
      forall b: nat | tables[x] <= b < tables[x] + 0x1000 && b < |m|
        ensures m'[b] == m[b]
      {
        assert PageOf(b) == tables[x];
      }
    }
    TreeElsewhere(m, m', tables);
  }

  /** Memory that is not usable is neither free nor a page table. */
  lemma TableNotOurs(f: seq<nat>, t: Tables, regions: seq<Block>, held: set<nat>, usable: set<nat>, table: nat)
    requires Ledger(f, t, regions, held, usable)
    requires forall b :: table <= b < table + HEADER_SIZE ==> PageOf(b) !in usable
    ensures forall b :: table <= b < table + HEADER_SIZE ==> PageOf(b) !in f && PageOf(b) !in t.Values
  {
    hide PageOf;
    forall b | table <= b < table + HEADER_SIZE
      ensures PageOf(b) !in f && PageOf(b) !in t.Values
    {
      assert Owners(f, t, regions, held, b) == 0;
    }
  }

  /** Moving pages from the stack to the tables keeps every byte's one owner. */
  lemma LedgerSamePages(m: seq<byte>, m': seq<byte>, t: Tables, f: seq<nat>, t': Tables, f': seq<nat>,
      regions: seq<Block>, held: set<nat>, usable: set<nat>)
    requires SamePages(t, f, t', f') && TablesOk(m, t, f) && TablesOk(m', t', f')
    requires Ledger(f, t, regions, held, usable) && OwnedApart(regions, f) && TablesApart(regions, t)
    ensures Ledger(f', t', regions, held, usable) && OwnedApart(regions, f') && TablesApart(regions, t')
  {
    hide Tree;
    forall x | x in t'.Values
      ensures x !in f'
    {
      var y :| y in t' && t'[y] == x;
    }
    forall x | x in t.Values
      ensures x !in f
    {
      var y :| y in t && t[y] == x;
    }
    forall b: nat
      ensures Owners(f', t', regions, held, b) == Owners(f, t, regions, held, b)
      ensures PageOf(b) in f' || PageOf(b) in t'.Values ==> Count(regions, b) == 0
    {
      var p: nat := PageOf(b);
      assert (p in f' || p in t'.Values) <==> (p in f || p in t.Values);
    }
  }

  class SharedMemory {
    const pages: PageAllocator
    const paging: PageMap
    const heap: HeapAllocator
    const ram: array<byte>
    ghost var held: set<nat>     // pages taken by AllocatePage's other callers
    ghost const usable: set<nat>

    ghost predicate Valid()
      reads this, pages, paging, heap, ram
    {
      && pages == paging.pages == heap.pages
      && ram == pages.ram == paging.ram == heap.ram
      && paging.HasTree() && Root in paging.tables && paging.kernelPML4 == paging.tables[Root] + paging.off
      && heap.Valid()
      && TablesApart(heap.regions, paging.tables)
      && Ledger(pages.Free(), paging.tables, heap.regions, held, usable)
    }

    /** No 2 MiB page is mapped. */
    ghost predicate SmallPages()
      reads this, paging, ram
    {
      NoLarge(ram[..], paging.tables)
    }

    /** The system after boot: the page map stands, the heap is still empty. */
    constructor (allocator: PageAllocator, pageMap: PageMap, blocks: HeapAllocator, ghost pagesAtBoot: set<nat>)
      requires allocator == pageMap.pages == blocks.pages
      requires pageMap.HasTree() && Root in pageMap.tables && pageMap.kernelPML4 == pageMap.tables[Root] + pageMap.off
      requires blocks.Valid() && blocks.regions == []
      requires Ledger(allocator.Free(), pageMap.tables, [], {}, pagesAtBoot) && TablesApart([], pageMap.tables)
      ensures Valid() && held == {} && usable == pagesAtBoot
      ensures pages == allocator && paging == pageMap && heap == blocks
    {
      pages, paging, heap, ram := allocator, pageMap, blocks, allocator.ram;
      held, usable := {}, pagesAtBoot;
    }

    /** Mapping a page updates the flat map and nothing the heap can see. The tables and
        the free stack are those of TablesAfter. */
    method Map(virt: word, phys: word, largePage: bool) returns (ok: bool)
      requires Valid() && paging.CanMap(PageNumber(virt), largePage)
      requires largePage || !LargeOnPath(ram[..], paging.tables, PageNumber(virt))
      modifies this, paging, pages, ram
      ensures Valid() && ok
      ensures (paging.tables, pages.Free()) == TablesAfter(old(paging.tables), old(pages.Free()), PageNumber(virt), largePage)
      ensures !largePage && old(SmallPages()) ==> SmallPages()
      ensures WalksUpdated(old(ram[..]), ram[..], paging.tables[Root], PageNumber(virt), FrameOf(phys), largePage)
      ensures heap.free == old(heap.free) && heap.live == old(heap.live) && heap.regions == old(heap.regions)
      ensures HeapBytesKept(old(ram[..]), ram[..], heap.regions)
    {
      hide Word, Walk, Tree, HeapOk, ListOk, Pages, OwnedApart, TablesApart, Ledger, HeapBytesKept, OnlyTablesChanged,
        WalksUpdated, LargeOnPath, Missing, EnsureAll, TablesAfter, PageNumber, StraySlot, NoLarge;
      ghost var m, t, f, page := ram[..], paging.tables, pages.Free(), PageNumber(virt);
      FreePages(m, pages.head, paging.off, pages.runs);
      TreeHasFrames(m, t, f);
      FramesAfterEnsure(t, f, |m|, PathTo(page, largePage));
      LedgerAfterMap(m, t, f, |m|, page, largePage, heap.regions, held, usable);
      ok := paging.MemoryMap(0, virt, phys, largePage);
      MappingSparesHeap(m, ram[..], heap.regions, t, f);
      HeapElsewhere(m, ram[..], heap.head, heap.off, heap.free, heap.live, heap.regions);
      held := held + Retired(EnsureAll(t, f, PathTo(page, largePage)).0, page, largePage);
    }

    /** Mapping an ACPI table: it can be read at the higher-half offset, and nothing
        the heap can see has changed. */
    method MapTable(table: word) returns (virt: word)
      requires Valid() && SmallPages() && table + HEADER_SIZE <= ram.Length
      requires paging.off + table + 0x1_0000_0000 <= WORD_LIMIT - 0x1000
      requires forall b :: table <= b < table + HEADER_SIZE ==> PageOf(b) !in usable
      requires Affordable(paging.tables, pages.Free(), Span(paging.off, table, MappedLength(LengthOf(ram[..], table))))
      modifies paging, pages, ram
      ensures Valid() && SmallPages() && virt == paging.off + table && paging.tables[Root] == old(paging.tables)[Root]
      ensures paging.tables.Keys == old(paging.tables).Keys + Span(paging.off, table, MappedLength(old(LengthOf(ram[..], table))))
      ensures Popped(old(pages.Free()), pages.Free())
      ensures |pages.Free()| == |old(pages.Free())|
                - Owed(old(paging.tables).Keys, Span(paging.off, table, MappedLength(old(LengthOf(ram[..], table)))))
      ensures OnlyTablesChanged(old(ram[..]), ram[..], old(paging.tables), old(pages.Free()))
      ensures SeenThrough(ram[..], paging.tables[Root], paging.off, table, MappedLength(old(LengthOf(ram[..], table))))
      ensures Readable(old(ram[..]), ram[..], paging.tables[Root], paging.off, table, MappedLength(old(LengthOf(ram[..], table))))
      ensures HeapBytesKept(old(ram[..]), ram[..], heap.regions)
    {
      hide Word, Walk, Tree, HeapOk, ListOk, Pages, OwnedApart, TablesApart, Ledger, HeapBytesKept, OnlyTablesChanged,
        SamePages, Affordable, SeenThrough, Readable, NoLarge, Span, Popped, Owed;
      ghost var m, t, f := ram[..], paging.tables, pages.Free();
      FreePages(m, pages.head, paging.off, pages.runs);
      TableNotOurs(f, t, heap.regions, held, usable, table);
      virt := MemoryMapACPITable(paging, table);
      PagesPopped(t, f, paging.tables, pages.Free());
      LedgerSamePages(m, ram[..], t, f, paging.tables, pages.Free(), heap.regions, held, usable);
      MappingSparesHeap(m, ram[..], heap.regions, t, f);
      HeapElsewhere(m, ram[..], heap.head, heap.off, heap.free, heap.live, heap.regions);
    }

    /** InitializeHeap from a sound state: where the pages are one stretch, or there
        are none, every byte keeps one owner. */
    method InitializeHeap(heapSize: word)
      requires Valid()
      modifies heap, pages, ram
      ensures old(HeapCanStart(heapSize)) ==> Valid()
      ensures heap.live == old(heap.live) && paging.tables == old(paging.tables)
      ensures heapSize == 0 || old(pages.Free()) == [] ==> heap.free == old(heap.free) && pages.Free() == old(pages.Free())
      ensures heapSize > 0 && old(pages.Free()) != [] ==>
                && heap.free == [Block(old(pages.Free())[0], 4096 * (heapSize / 4096))] + old(heap.free)
                && heap.regions == [Block(old(pages.Free())[0], 4096 * (heapSize / 4096))] + old(heap.regions)
                && pages.Free() == Rest(old(pages.Free()), Turns(heapSize / 4096))
      ensures SameWalks(old(ram[..]), ram[..], paging.tables[Root]) && (old(SmallPages()) ==> SmallPages())
      ensures KernelOnly(ram[..], paging.tables[Root])
    {
      hide Word, Walk, Tree, HeapOk, ListOk, Pages, OwnedApart, TablesApart, Ledger, SameWalks, NoLarge, OnlyPagesChanged,
        RegionsGrown, Contiguous, Rest, Threaded, Searchable, Turns, KernelOnly;
      ghost var m, r, fp, n, good := ram[..], heap.regions, pages.Free(), heapSize / 4096, HeapCanStart(heapSize);
      FreePages(m, pages.head, paging.off, pages.runs);
      HeapIsSearchable(m, heap.head, heap.off, heap.free, heap.live, r, fp);
      heap.InitializeHeap(heapSize);
      PagesSpareTables(m, ram[..], paging.tables, fp);
      TreeIsKernelOnly(ram[..], paging.tables);
      if good && heapSize > 0 && fp != [] {
        GrowthJoins(r, fp, |m|, n);
        ContiguousRest(fp, n);
        PlainTurns(n);
        LedgerGrow(paging.tables, fp, |m|, r, heap.regions, pages.Free(), held, usable, m);
      }
    }

    ghost predicate HeapCanStart(heapSize: word)
      reads this, pages
    {
      StretchFor(pages.Free(), heapSize)
    }

    /** Allocating a block changes no translation and no live block, and keeps
        every byte's one owner, where growth and split are sound. */
    method Allocate(size: word) returns (ptr: word)
      requires Valid()
      modifies paging`tables, heap, pages, ram
      ensures Answers(Grown(old(heap.free), old(pages.Free()), size), size, pages.Free(), ptr, heap.off)
      ensures FoundInMemory(old(ram[..]), ram[..], old(heap.head), heap.head, heap.off, old(heap.free), old(pages.Free()), size)
      ensures old(Sound(heap.free, pages.Free(), size)) ==>
                && Valid() && ptr >= HEADER
                && Served(old(heap.free), old(heap.live), old(pages.Free()), size, heap.free, heap.live, pages.Free(), ptr - HEADER, heap.off)
                && paging.tables == old(paging.tables) && SameWalks(old(ram[..]), ram[..], paging.tables[Root])
                && (old(SmallPages()) ==> SmallPages())
                && AllKept(old(ram[..]), ram[..], old(heap.live))
    {
      hide Word, Walk, Tree, HeapOk, ListOk, Pages, OwnedApart, TablesApart, Ledger, SameWalks, NoLarge, OnlyFreeChanged,
        RegionsGrown, Sound, AllKept, Grown, FirstFit, AfterTake, Searchable, Answers, Served, HeadersApart, FoundInMemory;
      ghost var m, f, l, r, fp, h, good := ram[..], heap.free, heap.live, heap.regions, pages.Free(), heap.head, Sound(heap.free, pages.Free(), size);
      FreePages(m, pages.head, paging.off, pages.runs);
      HeapIsSearchable(m, h, heap.off, f, l, r, fp);
      HeapHeadersApart(m, h, heap.off, f, l, r);
      ptr := heap.Allocate(size);
      if good {
        AllocationSparesAll(m, ram[..], h, heap.off, f, l, r, fp, paging.tables);
        LedgerGrow(paging.tables, fp, |m|, r, heap.regions, pages.Free(), held, usable, m);
      }
    }

    /** Freeing a block changes no translation and no other live block. */
    method Free(base: word, ghost k: nat)
      requires Valid() && k < |heap.live| && base == heap.live[k].base + HEADER + heap.off
      modifies heap, ram
      ensures Valid()
      ensures heap.free == [old(heap.live)[k]] + old(heap.free) && heap.live == Without(old(heap.live), k)
      ensures heap.regions == old(heap.regions) && pages.Free() == old(pages.Free())
      ensures SameWalks(old(ram[..]), ram[..], paging.tables[Root]) && (old(SmallPages()) ==> SmallPages())
      ensures AllKept(old(ram[..]), ram[..], heap.live)
    {
      hide Word, Walk, Tree, HeapOk, ListOk, Pages, OwnedApart, TablesApart, Ledger, SameWalks, NoLarge, AllKept;
      ghost var m, f, l, r, h := ram[..], heap.free, heap.live, heap.regions, heap.head;
      heap.Free(base, k);
      FreeingSparesAll(m, ram[..], h, heap.off, f, l, r, pages.Free(), paging.tables, k);
    }

    /** Moving a block to a size no smaller than its payload changes no translation and
        no other live block. */
    method Reallocate(base: word, newSize: word, ghost k: nat) returns (ptr: word, fault: bool)
      requires Valid() && k < |heap.live| && base == heap.live[k].base + HEADER + heap.off
      modifies paging`tables, heap, pages, ram
      ensures Answers(Grown(old(heap.free), old(pages.Free()), newSize), newSize, pages.Free(), ptr, heap.off)
      ensures old(Sound(heap.free, pages.Free(), newSize)) ==>
                var f, n := Grown(old(heap.free), old(pages.Free()), newSize).0, old(heap.live)[k].size - HEADER;
                && (fault <==> CopyFaults(f, newSize, n, ram.Length))
                && (!fault ==> Reallocated(old(ram[..]), ram[..], f, old(heap.live), k, newSize, heap.free, heap.live, ptr, heap.off))
                && (!fault && n <= newSize ==>
                      && Valid() && paging.tables == old(paging.tables) && SameWalks(old(ram[..]), ram[..], paging.tables[Root])
                      && (old(SmallPages()) ==> SmallPages()))
    {
      hide Word, Walk, Tree, HeapOk, ListOk, Pages, OwnedApart, TablesApart, Ledger, SameWalks, NoLarge, OnlyOwnedChanged,
        RegionsGrown, Sound, Grown, FirstFit, AfterTake, Answers, CopyFaults, Reallocated;
      ghost var m, r, fp, n := ram[..], heap.regions, pages.Free(), heap.live[k].size - HEADER;
      ghost var good := Sound(heap.free, pages.Free(), newSize) && n <= newSize;
      FreePages(m, pages.head, paging.off, pages.runs);
      ptr, fault := heap.Reallocate(base, newSize, k);
      if good && !fault {
        LedgerGrow(paging.tables, fp, |m|, r, heap.regions, pages.Free(), held, usable, m);
        MovingSparesTables(m, ram[..], heap.regions, fp, paging.tables);
      }
    }

    /** Other callers take pages straight from the stack, zeroed ... */
    method TakePage() returns (phys: word)
      requires Valid() && pages.Free() != []
      modifies this, pages, ram
      ensures Valid()
      ensures old(pages.Free()) == [phys] + pages.Free()
      ensures phys in held && phys !in old(held) && held == old(held) + {phys}
      ensures phys + 4096 <= ram.Length && forall b :: phys <= b < phys + 4096 ==> ram[..][b] == 0
      ensures SameWalks(old(ram[..]), ram[..], paging.tables[Root]) && (old(SmallPages()) ==> SmallPages())
      ensures HeapBytesKept(old(ram[..]), ram[..], heap.regions)
    {
      hide Word, Walk, Tree, HeapOk, ListOk, Pages, OwnedApart, TablesApart, Ledger, SameWalks, NoLarge, HeapBytesKept,
        OnlyPagesChanged;
      ghost var m, fp := ram[..], pages.Free();
      FreePages(m, pages.head, paging.off, pages.runs);
      phys := pages.AllocatePage();
      PagesSpareAll(m, ram[..], heap.regions, paging.tables, fp);
      HeapElsewhere(m, ram[..], heap.head, heap.off, heap.free, heap.live, heap.regions);
      LedgerTake(phys, pages.Free(), |m|, paging.tables, heap.regions, held, usable);
      held := held + {phys};
    }

    /** ... and give them back. */
    method GivePage(phys: word)
      requires Valid() && phys in held && phys % 4096 == 0 && 4096 <= phys && phys + 4096 <= ram.Length
      modifies this, pages, ram
      ensures Valid() && held == old(held) - {phys}
      ensures pages.Free() == [phys] + old(pages.Free())
      ensures SameWalks(old(ram[..]), ram[..], paging.tables[Root]) && (old(SmallPages()) ==> SmallPages())
      ensures HeapBytesKept(old(ram[..]), ram[..], heap.regions)
    {
      hide Word, Walk, Tree, HeapOk, ListOk, Pages, OwnedApart, TablesApart, SameWalks, NoLarge, HeapBytesKept;
      ghost var m, fp := ram[..], pages.Free();
      LedgerGive(phys, fp, paging.tables, heap.regions, held, usable);
      pages.FreePage(phys);
      HeldPageApart(m, ram[..], phys, fp, paging.tables, heap.regions, held, usable);
      HeapElsewhere(m, ram[..], heap.head, heap.off, heap.free, heap.live, heap.regions);
      held := held - {phys};
    }
  }
}
