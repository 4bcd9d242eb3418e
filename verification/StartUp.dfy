/** Start-up in the order of kernel/src/early/start.cpp: page allocator, page map, ACPI
    tables, heap. */
module StartUp {
  import opened Memory
  import opened FreeList
  import opened PhysicalPages
  import opened PageTables
  import opened BootMap
  import opened TableDemand
  import opened Paging
  import opened AcpiFormat
  import opened AcpiTables
  import opened HeapBlocks
  import opened Heap
  import opened KernelMemory

  /** What start-up asks of the boot loader: memory and direct map within bounds, a
      sound memory map, and free pages for the root and for every table that the
      listed pages need. */
  ghost predicate Bootable(entries: seq<MemmapEntry>, b: Bases, length: nat) {
    && b.hhdm > 0 && b.hhdm % 4096 == 0 && b.hhdm + length < WORD_LIMIT
    && length <= 0x10_0000_0000_0000 && MemmapOk(entries, length)
    && (forall i :: 0 <= i < |entries| ==> entries[i].length <= WORD_LIMIT - 0x1000)
    && |Pages(UsableRuns(entries, |entries|))| >= 1 + |AllPlaces(entries, b, 0)|
  }

  /** The pages of the usable runs number the usable bytes over 4096. */
  lemma {:induction false} UsablePageCount(entries: seq<MemmapEntry>, length: nat, n: nat)
    requires MemmapOk(entries, length) && n <= |entries|
    ensures 4096 * |Pages(UsableRuns(entries, n))| == TotalLength(entries, n, true)
  {
    if n > 0 {
      UsablePageCount(entries, length, n - 1);
      var e, earlier := entries[n - 1], UsableRuns(entries, n - 1);
      if e.kind.Usable? && e.length >= 4096 {
        RunPagesWhere(e.base, e.length);
        assert ([Block(e.base, e.length)] + earlier)[1..] == earlier;
      }
    }
  }

  /** So it is enough that usable memory holds the closed bound: one table for 512
      listed pages, and a few more an entry. */
  lemma EnoughMemory(entries: seq<MemmapEntry>, b: Bases, length: nat)
    requires MemmapOk(entries, length)
    requires TotalLength(entries, |entries|, true) >= 4096 * (1 + BoundFor(entries, 0))
    ensures |Pages(UsableRuns(entries, |entries|))| >= 1 + |AllPlaces(entries, b, 0)|
  {
    hide Pages, UsableRuns, TotalLength, BoundFor, AllPlaces;
    UsablePageCount(entries, length, |entries|);
    AllPlacesBounded(entries, b, 0);
  }

  /** A machine of 16 MiB: low memory, a reserved stretch, the kernel, the rest. */
  function SmallMachine(): seq<MemmapEntry> {
    [MemmapEntry(0x1000, 0x9_E000, Usable), MemmapEntry(0x9_F000, 0x6_1000, Other),
     MemmapEntry(0x20_0000, 0x10_0000, KernelAndModules), MemmapEntry(0x30_0000, 0xD0_0000, Usable)]
  }

  function SmallBases(): Bases { Bases(0xFFFF_8000_0000_0000, 0xFFFF_FFFF_8000_0000, 0x20_0000) }

  lemma SmallMapIsSound()
    ensures MemmapOk(SmallMachine(), 0x100_0000)
  {
  }

  lemma SmallMapUsable()
    ensures TotalLength(SmallMachine(), 4, true) == 0xD9_E000
  {
    var entries := SmallMachine();
    assert TotalLength(entries, 1, true) == 0x9_E000;
    assert TotalLength(entries, 3, true) == 0x9_E000;
  }

  lemma SmallMapBound()
    ensures BoundFor(SmallMachine(), 0) <= 40
  {
    hide TableBound;
    var entries := SmallMachine();
    assert BoundFor(entries, 4) == 0;
    assert BoundFor(entries, 2) == TableBound(0x100) + TableBound(0xD00);
    assert BoundFor(entries, 0) == TableBound(0x9E) + TableBound(0x61) + TableBound(0x100) + TableBound(0xD00);
    SmallBounds();
  }

  lemma SmallBounds()
    ensures TableBound(0x9E) + TableBound(0x61) + TableBound(0x100) + TableBound(0xD00) <= 40
  {
  }

  /** It can be started. */
  lemma SmallMachineBoots()
    ensures Bootable(SmallMachine(), SmallBases(), 0x100_0000)
  {
    hide Pages, UsableRuns, AllPlaces, TotalLength, BoundFor, MemmapOk;
    SmallMapIsSound();
    SmallMapUsable();
    SmallMapBound();
    EnoughMemory(SmallMachine(), SmallBases(), 0x100_0000);
  }

  /** From the boot loader's memory map to running memory management. */
  method Boot(memory: array<byte>, entries: seq<MemmapEntry>, b: Bases) returns (s: SharedMemory)
    requires Bootable(entries, b, memory.Length)
    modifies memory
    ensures fresh(s) && fresh(s.pages) && fresh(s.paging) && fresh(s.heap) && s.ram == memory
    ensures s.Valid() && s.held == {} && s.heap.free == [] && s.heap.live == [] && s.heap.regions == [] && s.SmallPages()
    ensures forall p: nat :: p in s.usable <==> p % 4096 == 0 && InUsable(entries, p)
    ensures forall page: nat :: page < PAGES ==> s.paging.Translate(page) == FlatMap(entries, b, |entries|, 0, page)
    ensures s.paging.tables.Keys == {Root} + AllPlaces(entries, b, 0) && s.paging.off == b.hhdm
    ensures |s.pages.Free()| + 1 + |AllPlaces(entries, b, 0)| == |Pages(UsableRuns(entries, |entries|))|
    ensures Popped(Pages(UsableRuns(entries, |entries|)), s.pages.Free())
    ensures OnlyUsableChanged(old(memory[..]), memory[..], entries)
  {
    hide Word, Walk, Tree, ListOk, Pages, HeapOk, OwnedApart, TablesApart, Ledger, MemmapOk, UsableRuns, InUsable, FlatMap,
      AllPlaces, SamePages, TotalLength, NoLarge, OnlyUsableChanged, OnlyTablesChanged, Popped;
    var allocator := new PageAllocator(memory, b.hhdm);
    NoRunsNoPages();
    ghost var m0 := memory[..];
    allocator.InitializePMM(entries);
    ghost var free0, m1 := allocator.Free(), memory[..];
    var pageMap := new PageMap(allocator);
    pageMap.InitPaging(entries, b);
    var blocks := new HeapAllocator(allocator);
    LedgerAtBoot(memory[..], pageMap.tables, free0, allocator.Free());
    PagesPopped(map[], free0, pageMap.tables, allocator.Free());
    UsableChangesCompose(m0, m1, memory[..], entries, map[], free0);
    s := new SharedMemory(allocator, pageMap, blocks, set x | x in free0);
  }

  lemma NoRunsNoPages()
    ensures Pages([]) == []
  {
  }

  /** Bytes that only page tables over usable pages changed are usable ones. */
  lemma UsableChangesCompose(m0: seq<byte>, m1: seq<byte>, m2: seq<byte>, entries: seq<MemmapEntry>, tables: Tables, free: seq<nat>)
    requires OnlyUsableChanged(m0, m1, entries) && OnlyTablesChanged(m1, m2, tables, free)
    requires forall p: nat :: p in free || p in tables.Values ==> InUsable(entries, p)
    ensures OnlyUsableChanged(m0, m2, entries)
  {
    hide InUsable;
  }

  // The whole of start-up: the ACPI tables are mapped one after the other, whichever
  // they are, and then the heap begins.

  /** The tables' headers are in memory that is not usable; addresses have 32 bits. */
  ghost predicate FirmwareTables(acpi: seq<word>, length: nat, entries: seq<MemmapEntry>, b: Bases) {
    forall k :: 0 <= k < |acpi| ==>
      && acpi[k] < 0x1_0000_0000 && acpi[k] + HEADER_SIZE <= length
      && b.hhdm + acpi[k] + 0x1_0000_0000 <= WORD_LIMIT - 0x1000
      && forall x :: acpi[k] <= x < acpi[k] + HEADER_SIZE ==> !InUsable(entries, PageOf(x))
  }

  /** How much of the table at this address gets mapped. */
  function TableLength(m: seq<byte>, table: word): nat {
    if table + HEADER_SIZE <= |m| then MappedLength(LengthOf(m, table)) else 0
  }

  /** Of a table as firmware writes it, that is all of it. */
  lemma TableLengthAsWritten(m: seq<byte>, table: word, signature: seq<byte>, rest: seq<byte>)
    requires TableOk(signature, rest) && Stands(m, table, TableBytes(signature, rest))
    ensures TableLength(m, table) == |TableBytes(signature, rest)|
  {
    LengthAsWritten(m, table, signature, rest);
  }

  /** The tables of pages that the memory map and the first n ACPI tables need. */
  ghost function Demand(m: seq<byte>, entries: seq<MemmapEntry>, b: Bases, acpi: seq<word>, n: nat): set<Place>
    requires n <= |acpi|
  {
    if n == 0 then {Root} + AllPlaces(entries, b, 0)
    else Demand(m, entries, b, acpi, n - 1) + Span(b.hhdm, acpi[n - 1], TableLength(m, acpi[n - 1]))
  }

  lemma {:induction false} DemandGrows(m: seq<byte>, entries: seq<MemmapEntry>, b: Bases, acpi: seq<word>, k: nat, n: nat)
    requires k <= n <= |acpi|
    ensures Demand(m, entries, b, acpi, k) <= Demand(m, entries, b, acpi, n)
    decreases n
  {
    hide AllPlaces, Span, TableLength;
    if k < n { DemandGrows(m, entries, b, acpi, k, n - 1); }
  }

  /** What start-up asks for: the memory map can be mapped, and so can the tables. */
  ghost predicate Startable(m: seq<byte>, entries: seq<MemmapEntry>, b: Bases, acpi: seq<word>) {
    && Bootable(entries, b, |m|) && FirmwareTables(acpi, |m|, entries, b)
    && |Pages(UsableRuns(entries, |entries|))| >= |Demand(m, entries, b, acpi, |acpi|)|
  }

  /** A page some byte of the first n tables is on. */
  ghost predicate OnTable(m: seq<byte>, b: Bases, acpi: seq<word>, n: nat, page: nat) {
    exists k :: 0 <= k < n && k < |acpi| && Touches(b.hhdm, acpi[k], TableLength(m, acpi[k]), page)
  }

  /** Every byte of the table is mapped at the higher-half offset. */
  ghost predicate InWindow(m: seq<byte>, root: nat, hhdm: nat, table: nat, length: nat) {
    forall x: nat :: table <= x < table + length ==> Walk(m, root, PageOfByte(hhdm, x)) == To(FrameOf(Wrap(x)))
  }

  /** m0 is memory before start-up. All bytes of the first n tables are mapped, and
      every other page as the memory map has it. */
  ghost predicate AllMapped(m0: seq<byte>, m: seq<byte>, root: nat, entries: seq<MemmapEntry>, b: Bases, acpi: seq<word>, n: nat) {
    && (forall k :: 0 <= k < n && k < |acpi| ==> InWindow(m, root, b.hhdm, acpi[k], TableLength(m0, acpi[k])))
    && (forall page: nat :: page < PAGES && !OnTable(m0, b, acpi, n, page) ==>
          Walk(m, root, page) == FlatMap(entries, b, |entries|, 0, page))
  }

  lemma NoTablesYet(m0: seq<byte>, m: seq<byte>, root: nat, entries: seq<MemmapEntry>, b: Bases, acpi: seq<word>)
    requires forall page: nat :: page < PAGES ==> Walk(m, root, page) == FlatMap(entries, b, |entries|, 0, page)
    ensures AllMapped(m0, m, root, entries, b, acpi, 0)
  {
    hide Walk, FlatMap;
  }

  /** Addresses of 32 bits on one page have one frame. */
  lemma SamePageSameFrame(hhdm: nat, x: nat, y: nat)
    requires hhdm % 0x1000 == 0 && hhdm + x < WORD_LIMIT && hhdm + y < WORD_LIMIT
    requires x < 0x2_0000_0000 && y < 0x2_0000_0000 && PageOfByte(hhdm, x) == PageOfByte(hhdm, y)
    ensures FrameOf(Wrap(x)) == FrameOf(Wrap(y))
  {
    hide PageOfByte, FrameOf, Wrap;
    var h, p, q := hhdm / 0x1000, x / 0x1000, y / 0x1000;
    assert hhdm == 0x1000 * h;
    NumberOf(hhdm, x, h + p, x % 0x1000);
    NumberOf(hhdm, y, h + q, y % 0x1000);
    SameRemainder(h + p, h + q);
    FrameNumber(x, p, x % 0x1000);
    FrameNumber(y, q, y % 0x1000);
  }

  /** Mapping one more table keeps those mapped before. */
  lemma StillInWindow(m: seq<byte>, m': seq<byte>, root: nat, hhdm: nat, t: nat, n: nat, t': nat, n': nat)
    requires InWindow(m, root, hhdm, t, n) && Readable(m, m', root, hhdm, t', n')
    requires hhdm % 0x1000 == 0 && n < 0x1_0000_0000 && n' < 0x1_0000_0000
    requires t < 0x1_0000_0000 && hhdm + t + 0x1_0000_0000 < WORD_LIMIT
    requires t' < 0x1_0000_0000 && hhdm + t' + 0x1_0000_0000 < WORD_LIMIT
    ensures InWindow(m', root, hhdm, t, n)
  {
    hide Walk, PageOfByte, FrameOf, Wrap;
    forall x: nat | t <= x < t + n
      ensures Walk(m', root, PageOfByte(hhdm, x)) == To(FrameOf(Wrap(x)))
    {
      var page := PageOfByte(hhdm, x);
      NumberBound(hhdm, x);
      if Touches(hhdm, t', n', page) {
        var y: nat :| t' <= y < t' + n' && page == PageOfByte(hhdm, y);
        SamePageSameFrame(hhdm, x, y);
      }
    }
  }

  lemma TableLengthBound(m: seq<byte>, table: word)
    ensures TableLength(m, table) < 0x1_0000_0000
  {
  }

  lemma OneTableMore(m0: seq<byte>, m: seq<byte>, m': seq<byte>, root: nat, entries: seq<MemmapEntry>, b: Bases, acpi: seq<word>, n: nat)
    requires n < |acpi| && b.hhdm % 0x1000 == 0 && FirmwareTables(acpi, |m0|, entries, b)
    requires AllMapped(m0, m, root, entries, b, acpi, n)
    requires Readable(m, m', root, b.hhdm, acpi[n], TableLength(m0, acpi[n]))
    ensures AllMapped(m0, m', root, entries, b, acpi, n + 1)
  {
    hide Walk, FlatMap, TableLength, InUsable, PageOf, Touches, PageOfByte, FrameOf, Wrap, InWindow;
    TableLengthBound(m0, acpi[n]);
    forall k | 0 <= k < n + 1
      ensures InWindow(m', root, b.hhdm, acpi[k], TableLength(m0, acpi[k]))
    {
      TableLengthBound(m0, acpi[k]);
      if k < n {
        StillInWindow(m, m', root, b.hhdm, acpi[k], TableLength(m0, acpi[k]), acpi[n], TableLength(m0, acpi[n]));
      } else {
        ReadableInWindow(m, m', root, b.hhdm, acpi[n], TableLength(m0, acpi[n]));
      }
    }
    forall page: nat | page < PAGES && !OnTable(m0, b, acpi, n + 1, page)
      ensures Walk(m', root, page) == FlatMap(entries, b, |entries|, 0, page)
    {
      assert !OnTable(m0, b, acpi, n, page) && !Touches(b.hhdm, acpi[n], TableLength(m0, acpi[n]), page);
    }
  }

  lemma ReadableInWindow(m: seq<byte>, m': seq<byte>, root: nat, hhdm: nat, table: nat, length: nat)
    requires Readable(m, m', root, hhdm, table, length)
    ensures InWindow(m', root, hhdm, table, length)
  {
    hide Walk, PageOfByte, FrameOf, Wrap;
  }

  lemma SameWalksSameMap(m0: seq<byte>, m: seq<byte>, m': seq<byte>, root: nat, entries: seq<MemmapEntry>, b: Bases, acpi: seq<word>, n: nat)
    requires AllMapped(m0, m, root, entries, b, acpi, n) && SameWalks(m, m', root)
    ensures AllMapped(m0, m', root, entries, b, acpi, n)
  {
    hide Walk, FlatMap, TableLength, Touches, PageOfByte, FrameOf, Wrap;
    forall k | 0 <= k < n && k < |acpi|
      ensures InWindow(m', root, b.hhdm, acpi[k], TableLength(m0, acpi[k]))
    {
      forall x: nat | acpi[k] <= x < acpi[k] + TableLength(m0, acpi[k])
        ensures Walk(m', root, PageOfByte(b.hhdm, x)) == To(FrameOf(Wrap(x)))
      {
        NumberBound(b.hhdm, x);
        assert InWindow(m, root, b.hhdm, acpi[k], TableLength(m0, acpi[k]));
      }
    }
  }

  /** Tables and free pages after n ACPI tables; together they are the pages there were. */
  ghost predicate TablesUpTo(m0: seq<byte>, tables: Tables, free: seq<nat>, entries: seq<MemmapEntry>, b: Bases, acpi: seq<word>, n: nat)
    requires n <= |acpi|
  {
    var pages := Pages(UsableRuns(entries, |entries|));
    tables.Keys == Demand(m0, entries, b, acpi, n) && Popped(pages, free) && |free| + |tables.Keys| == |pages|
  }

  lemma TablesAtFirst(m0: seq<byte>, tables: Tables, free: seq<nat>, entries: seq<MemmapEntry>, b: Bases, acpi: seq<word>)
    requires tables.Keys == {Root} + AllPlaces(entries, b, 0) && Popped(Pages(UsableRuns(entries, |entries|)), free)
    requires |free| + 1 + |AllPlaces(entries, b, 0)| == |Pages(UsableRuns(entries, |entries|))|
    ensures TablesUpTo(m0, tables, free, entries, b, acpi, 0)
  {
    hide AllPlaces, Pages, UsableRuns, Popped;
    RootNotListed(entries, b, 0);
  }

  lemma NextAffordable(m0: seq<byte>, tables: Tables, free: seq<nat>, entries: seq<MemmapEntry>, b: Bases, acpi: seq<word>, n: nat)
    requires n < |acpi| && TablesUpTo(m0, tables, free, entries, b, acpi, n)
    requires |Pages(UsableRuns(entries, |entries|))| >= |Demand(m0, entries, b, acpi, |acpi|)|
    ensures Affordable(tables, free, Span(b.hhdm, acpi[n], TableLength(m0, acpi[n])))
  {
    hide AllPlaces, Pages, UsableRuns, Popped, Span, TableLength;
    var goal := Demand(m0, entries, b, acpi, |acpi|);
    DemandGrows(m0, entries, b, acpi, n + 1, |acpi|);
    SubsetSize(Demand(m0, entries, b, acpi, n + 1), goal);
    KeysPlusOwed(tables.Keys, Span(b.hhdm, acpi[n], TableLength(m0, acpi[n])));
  }

  lemma KeysPlusOwed(have: set<Place>, goal: set<Place>)
    ensures |have + goal| == |have| + Owed(have, goal)
  {
    assert have + goal == have + (goal - have);
  }

  lemma SubsetSize(s: set<Place>, t: set<Place>)
    requires s <= t
    ensures |s| <= |t|
  {
    assert t == s + (t - s);
  }

  lemma NextTables(m0: seq<byte>, t: Tables, f: seq<nat>, t': Tables, f': seq<nat>, entries: seq<MemmapEntry>, b: Bases, acpi: seq<word>, n: nat)
    requires n < |acpi| && TablesUpTo(m0, t, f, entries, b, acpi, n) && Popped(f, f')
    requires var span := Span(b.hhdm, acpi[n], TableLength(m0, acpi[n]));
             t'.Keys == t.Keys + span && |f'| == |f| - Owed(t.Keys, span)
    ensures TablesUpTo(m0, t', f', entries, b, acpi, n + 1)
  {
    hide AllPlaces, Pages, UsableRuns, Popped, Span, TableLength, Owed;
    KeysPlusOwed(t.Keys, Span(b.hhdm, acpi[n], TableLength(m0, acpi[n])));
    PoppedCompose(Pages(UsableRuns(entries, |entries|)), f, f');
  }

  lemma TablesAtLast(m0: seq<byte>, tables: Tables, free: seq<nat>, entries: seq<MemmapEntry>, b: Bases, acpi: seq<word>)
    requires TablesUpTo(m0, tables, free, entries, b, acpi, |acpi|)
    ensures free == Pages(UsableRuns(entries, |entries|))[|Demand(m0, entries, b, acpi, |acpi|)|..]
    ensures tables.Keys == Demand(m0, entries, b, acpi, |acpi|) && Root in tables
  {
    hide AllPlaces, Pages, UsableRuns, Span, TableLength;
    DemandGrows(m0, entries, b, acpi, 0, |acpi|);
  }

  /** Bytes that are not usable never change: with the ledger, tables and free pages
      are usable. */
  lemma LedgerChangesUsable(m0: seq<byte>, m: seq<byte>, m': seq<byte>, entries: seq<MemmapEntry>, tables: Tables, free: seq<nat>,
      regions: seq<Block>, held: set<nat>, usable: set<nat>)
    requires OnlyUsableChanged(m0, m, entries) && OnlyTablesChanged(m, m', tables, free)
    requires Ledger(free, tables, regions, held, usable) && forall p: nat :: p in usable ==> InUsable(entries, p)
    ensures OnlyUsableChanged(m0, m', entries)
  {
    hide InUsable;
    forall x: nat | x < |m0| && !InUsable(entries, PageOf(x))
      ensures m'[x] == m0[x]
    {
      assert Owners(free, tables, regions, held, x) == 0;
    }
  }

  /** So the tables' headers stay what they were. */
  lemma HeadersKept(m0: seq<byte>, m: seq<byte>, entries: seq<MemmapEntry>, b: Bases, acpi: seq<word>, n: nat)
    requires OnlyUsableChanged(m0, m, entries) && FirmwareTables(acpi, |m0|, entries, b) && n < |acpi|
    ensures acpi[n] + HEADER_SIZE <= |m| && MappedLength(LengthOf(m, acpi[n])) == TableLength(m0, acpi[n])
  {
    hide InUsable, PageOf;
  }

  lemma HeaderNotUsable(acpi: seq<word>, length: nat, entries: seq<MemmapEntry>, b: Bases, n: nat, usable: set<nat>)
    requires FirmwareTables(acpi, length, entries, b) && n < |acpi|
    requires forall p: nat :: p in usable ==> InUsable(entries, p)
    ensures forall x :: acpi[n] <= x < acpi[n] + HEADER_SIZE ==> PageOf(x) !in usable
    ensures b.hhdm + acpi[n] + 0x1_0000_0000 <= WORD_LIMIT - 0x1000
  {
    hide InUsable;
    forall x | acpi[n] <= x < acpi[n] + HEADER_SIZE
      ensures PageOf(x) !in usable
    {
      assert !InUsable(entries, PageOf(x));
    }
  }

  /** Start-up from any memory that is enough for the tables: the root, the tables of
      the memory map and those of the ACPI tables are the first pages of the stack,
      the heap's block begins at the next, and the system is sound where that block
      is one stretch of pages. */
  method StartUp(memory: array<byte>, entries: seq<MemmapEntry>, b: Bases, acpi: seq<word>, heapSize: word) returns (s: SharedMemory)
    requires Startable(memory[..], entries, b, acpi)
    modifies memory
    ensures fresh(s) && s.ram == memory && s.held == {} && s.heap.live == []
    ensures Root in s.paging.tables && s.paging.tables.Keys == Demand(old(memory[..]), entries, b, acpi, |acpi|)
    ensures AllMapped(old(memory[..]), memory[..], s.paging.tables[Root], entries, b, acpi, |acpi|) && s.SmallPages()
    ensures KernelOnly(memory[..], s.paging.tables[Root])
    ensures var left := Pages(UsableRuns(entries, |entries|))[|Demand(old(memory[..]), entries, b, acpi, |acpi|)|..];
            && (StretchFor(left, heapSize) ==> s.Valid())
            && (if heapSize == 0 || left == [] then s.heap.free == [] && s.pages.Free() == left
                else && s.heap.free == [Block(left[0], 4096 * (heapSize / 4096))]
                     && s.pages.Free() == Rest(left, Turns(heapSize / 4096)))
  {
    hide Word, Walk, Tree, ListOk, Pages, HeapOk, OwnedApart, TablesApart, Ledger, MemmapOk, UsableRuns, InUsable, FlatMap,
      AllPlaces, SamePages, TotalLength, NoLarge, OnlyUsableChanged, OnlyTablesChanged, Popped, Demand, TablesUpTo, AllMapped,
      FirmwareTables, TableLength, Span, Readable, SeenThrough, Owed, Affordable, SameWalks, StretchFor, Rest, Turns, KernelOnly;
    ghost var m0 := memory[..];
    s := Boot(memory, entries, b);
    NoTablesYet(m0, memory[..], s.paging.tables[Root], entries, b, acpi);
    TablesAtFirst(m0, s.paging.tables, s.pages.Free(), entries, b, acpi);
    var i := 0;
    while i < |acpi|
      invariant 0 <= i <= |acpi| && s.Valid() && s.SmallPages() && s.paging.off == b.hhdm
      invariant s.held == {} && s.heap.free == [] && s.heap.live == []
      invariant OnlyUsableChanged(m0, memory[..], entries)
      invariant TablesUpTo(m0, s.paging.tables, s.pages.Free(), entries, b, acpi, i)
      invariant AllMapped(m0, memory[..], s.paging.tables[Root], entries, b, acpi, i)
    {
      ghost var m, t, f := memory[..], s.paging.tables, s.pages.Free();
      HeadersKept(m0, m, entries, b, acpi, i);
      HeaderNotUsable(acpi, |m0|, entries, b, i, s.usable);
      NextAffordable(m0, t, f, entries, b, acpi, i);
      var _ := s.MapTable(acpi[i]);
      LedgerChangesUsable(m0, m, memory[..], entries, t, f, s.heap.regions, s.held, s.usable);
      NextTables(m0, t, f, s.paging.tables, s.pages.Free(), entries, b, acpi, i);
      OneTableMore(m0, m, memory[..], t[Root], entries, b, acpi, i);
      i := i + 1;
    }
    TablesAtLast(m0, s.paging.tables, s.pages.Free(), entries, b, acpi);
    ghost var m1 := memory[..];
    s.InitializeHeap(heapSize);
    SameWalksSameMap(m0, m1, memory[..], s.paging.tables[Root], entries, b, acpi, |acpi|);
  }

  /** The heap gets one stretch if the first run is long enough for the page tables
      and the heap. */
  lemma FirstRunIsEnough(runs: seq<Block>, length: nat, k: nat, heapSize: word)
    requires RunsOk(runs, length) && |runs| > 0 && heapSize >= 4096 && runs[0].size >= 4096 * (k + heapSize / 4096)
    ensures k < |Pages(runs)| && StretchFor(Pages(runs)[k..], heapSize)
  {
    hide RunsOk, Pages, Contiguous;
    var n := heapSize / 4096;
    HeadRunContiguous(runs, length, k + n);
    AscendingFrom(Pages(runs), k, n);
    AscendingContiguous(Pages(runs)[k..], n);
  }

  lemma AscendingFrom(pages: seq<nat>, k: nat, n: nat)
    requires Ascending(pages, k + n)
    ensures Ascending(pages[k..], n)
  {
  }

  // The machine of 16 MiB again.

  lemma SmallNumbers()
    ensures var e, b := SmallMachine(), SmallBases();
      && FirstNumber(e[0], b) == 0x8_0000_0001 && FirstNumber(e[1], b) == 0x8_0000_009F
      && FirstNumber(e[2], b) == 0xF_FFF8_0000 && FirstNumber(e[3], b) == 0x8_0000_0300
  {
    hide FirstNumber;
    var e, b := SmallMachine(), SmallBases();
    NumberFrom(e[0], b, 0xFFFF_8000_0000_1000);
    NumberFrom(e[1], b, 0xFFFF_8000_0009_F000);
    NumberFrom(e[2], b, 0xFFFF_FFFF_8000_0000);
    NumberFrom(e[3], b, 0xFFFF_8000_0030_0000);
  }

  lemma NumberFrom(e: MemmapEntry, b: Bases, virt: word)
    requires virt == e.base + if e.kind.KernelAndModules? then b.kernelVirt - b.kernelPhys else b.hhdm
    ensures FirstNumber(e, b) == virt / 0x1000 % 0x10_0000_0000
  {
    hide PageNumber;
    VirtIsSum(e, 0, b);
    NumberOfInt(virt);
  }

  /** Its windows overlap nowhere. */
  lemma SmallMachineWindows()
    ensures DisjointWindows(SmallMachine(), SmallBases())
  {
    hide FirstNumber, DisjointWindows;
    SmallNumbers();
    WindowsExactly(SmallMachine(), SmallBases());
  }

  lemma SmallRuns()
    ensures UsableRuns(SmallMachine(), 4) == [Block(0x30_0000, 0xD0_0000), Block(0x1000, 0x9_E000)]
  {
    var entries := SmallMachine();
    assert UsableRuns(entries, 1) == [Block(0x1000, 0x9_E000)];
    assert UsableRuns(entries, 2) == [Block(0x1000, 0x9_E000)];
    assert UsableRuns(entries, 3) == [Block(0x1000, 0x9_E000)];
  }

  /** Whatever it holds, it starts with the ACPI table in its reserved stretch and
      ends up with a heap of ten pages. */
  lemma SmallMachineStarts(m: seq<byte>)
    requires |m| == 0x100_0000
    ensures var entries, b, acpi := SmallMachine(), SmallBases(), [0x9_F000];
      var n := |Demand(m, entries, b, acpi, 1)|;
      && Startable(m, entries, b, acpi)
      && n < |Pages(UsableRuns(entries, 4))| && StretchFor(Pages(UsableRuns(entries, 4))[n..], 0xA000)
  {
    hide Pages, UsableRuns, AllPlaces, MemmapOk, StretchFor, Demand, FirmwareTables;
    var entries, b, acpi: seq<word> := SmallMachine(), SmallBases(), [0x9_F000];
    SmallMachineBoots();
    SmallFirmware();
    SmallDemand(m, acpi);
    SmallRuns();
    SmallMapIsSound();
    UsableRunsOk(entries, 0x100_0000, 4);
    FirstRunIsEnough(UsableRuns(entries, 4), 0x100_0000, |Demand(m, entries, b, acpi, 1)|, 0xA000);
  }

  lemma SmallFirmware()
    ensures FirmwareTables([0x9_F000], 0x100_0000, SmallMachine(), SmallBases())
  {
    forall x | 0x9_F000 <= x < 0x9_F000 + HEADER_SIZE
      ensures !InUsable(SmallMachine(), PageOf(x))
    {
      assert PageOf(x) == 0x9_F000;
    }
  }

  lemma SmallDemand(m: seq<byte>, acpi: seq<word>)
    requires acpi == [0x9_F000]
    ensures |Demand(m, SmallMachine(), SmallBases(), acpi, 1)| <= 2200
  {
    hide AllPlaces, BoundFor, TableLength, PathsFrom, Span;
    var entries, b := SmallMachine(), SmallBases();
    AllPlacesBounded(entries, b, 0);
    SmallMapBound();
    SpanBounded(m, b, 0x9_F000);
    var places, span := AllPlaces(entries, b, 0), Span(b.hhdm, 0x9_F000, TableLength(m, 0x9_F000));
    assert Demand(m, entries, b, acpi, 0) == {Root} + places;
    assert Demand(m, entries, b, acpi, 1) == {Root} + places + span;
    UnionSize({Root}, places);
    UnionSize({Root} + places, span);
  }

  lemma SpanBounded(m: seq<byte>, b: Bases, table: word)
    ensures |Span(b.hhdm, table, TableLength(m, table))| <= 2100
  {
    hide TableLength, PathsFrom, Page;
    TableLengthBound(m, table);
    TablesBounded(Page(b.hhdm, table / 0x1000 * 0x1000, 0), PagesOf(table, TableLength(m, table)));
  }
}
