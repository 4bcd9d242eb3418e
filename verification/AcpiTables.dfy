/** Making an ACPI table readable (kernel/src/hal/acpi.cpp:46-66): every page the
    table touches is mapped at the higher-half offset. */
module AcpiTables {
  import opened Memory
  import opened Options
  import opened PhysicalPages
  import opened PageTables
  import opened BootMap
  import opened TableDemand
  import opened Paging
  import opened AcpiFormat

  const HEADER_SIZE: nat := 36

  /** The k-th page from first, and where it is mapped. */
  function At(first: nat, k: nat): nat { first + 0x1000 * k }

  function Page(hhdm: nat, first: nat, k: nat): nat { PageOfByte(hhdm, At(first, k)) }

  /** The page number under which the direct map shows physical byte b. */
  function PageOfByte(hhdm: nat, b: nat): nat { PageNumber(Wrap(hhdm + b)) }

  /** A translation once the n pages from first have been mapped. */
  ghost function Cover(before: Translation, hhdm: nat, first: nat, n: nat, page: nat): Translation {
    if n == 0 then before
    else if page == Page(hhdm, first, n - 1) then To(FrameOf(Wrap(At(first, n - 1))))
    else Cover(before, hhdm, first, n - 1, page)
  }

  ghost predicate Covered(m: seq<byte>, m': seq<byte>, root: nat, hhdm: nat, first: nat, n: nat) {
    forall page: nat :: page < PAGES ==> Walk(m', root, page) == Cover(Walk(m, root, page), hhdm, first, n, page)
  }

  lemma CoverStep(m: seq<byte>, m1: seq<byte>, m2: seq<byte>, root: nat, hhdm: nat, first: nat, n: nat)
    requires Covered(m, m1, root, hhdm, first, n)
    requires WalksUpdated(m1, m2, root, Page(hhdm, first, n), FrameOf(Wrap(At(first, n))), false)
    ensures Covered(m, m2, root, hhdm, first, n + 1)
  {
  }

  lemma CoverNone(m: seq<byte>, root: nat, hhdm: nat, first: nat)
    ensures Covered(m, m, root, hhdm, first, 0)
  {
  }

  /** Different pages of a range get different page numbers. */
  lemma PagesDiffer(hhdm: nat, first: nat, j: nat, k: nat, n: nat)
    requires hhdm % 0x1000 == 0 && first % 0x1000 == 0 && hhdm + At(first, n) <= WORD_LIMIT
    requires j < n && k < n <= PAGES && Page(hhdm, first, j) == Page(hhdm, first, k)
    ensures j == k
  {
    hide Page;
    var h := (hhdm + first) / 0x1000;
    assert hhdm + first == 0x1000 * h;
    NumberIs(hhdm, first, h, j, n);
    NumberIs(hhdm, first, h, k, n);
    SameRemainder(h + j, h + k);
  }

  lemma NumberIs(hhdm: nat, first: nat, h: nat, k: nat, n: nat)
    requires hhdm + first == 0x1000 * h && hhdm + At(first, n) <= WORD_LIMIT && k < n
    ensures Page(hhdm, first, k) == (h + k) % 0x10_0000_0000
  {
  }

  lemma NumberOf(hhdm: nat, b: nat, p: nat, r: nat)
    requires hhdm + b == 0x1000 * p + r && r < 0x1000 && hhdm + b < WORD_LIMIT
    ensures PageOfByte(hhdm, b) == p % 0x10_0000_0000
  {
  }

  lemma FrameNumber(b: nat, p: nat, r: nat)
    requires b == 0x1000 * p + r && r < 0x1000 && b < WORD_LIMIT
    ensures FrameOf(Wrap(b)) == p % 0x100_0000_0000
  {
  }

  lemma SameRemainder(x: nat, y: nat)
    requires x % 0x10_0000_0000 == y % 0x10_0000_0000 && -0x10_0000_0000 < x - y < 0x10_0000_0000
    ensures x == y
  {
  }

  /** What covering does to one page of the range, and to the pages outside it. */
  lemma {:induction false} CoverExact(before: Translation, hhdm: nat, first: nat, n: nat, page: nat)
    requires hhdm % 0x1000 == 0 && first % 0x1000 == 0 && hhdm + At(first, n) <= WORD_LIMIT && n <= PAGES
    ensures forall k: nat :: k < n && page == Page(hhdm, first, k) ==>
              Cover(before, hhdm, first, n, page) == To(FrameOf(Wrap(At(first, k))))
    ensures (forall k: nat :: k < n ==> page != Page(hhdm, first, k)) ==> Cover(before, hhdm, first, n, page) == before
    decreases n
  {
    hide Page, FrameOf;
    if n > 0 {
      CoverExact(before, hhdm, first, n - 1, page);
      forall k: nat | k < n && page == Page(hhdm, first, k)
        ensures Cover(before, hhdm, first, n, page) == To(FrameOf(Wrap(At(first, k))))
      {
        if page == Page(hhdm, first, n - 1) {
          PagesDiffer(hhdm, first, k, n - 1, n);
        }
      }
    }
  }

  /** Covering n1 pages and then n2 from the same start is covering the larger
      number at once. */
  lemma CoverTwice(m: seq<byte>, m1: seq<byte>, m2: seq<byte>, root: nat, hhdm: nat, first: nat, n1: nat, n2: nat)
    requires hhdm % 0x1000 == 0 && first % 0x1000 == 0
    requires hhdm + At(first, n1) <= WORD_LIMIT && hhdm + At(first, n2) <= WORD_LIMIT && n1 <= PAGES && n2 <= PAGES
    requires Covered(m, m1, root, hhdm, first, n1) && Covered(m1, m2, root, hhdm, first, n2)
    ensures Covered(m, m2, root, hhdm, first, if n1 <= n2 then n2 else n1)
  {
    hide Walk, Page, FrameOf, Cover, At;
    var n := if n1 <= n2 then n2 else n1;
    forall page: nat | page < PAGES
      ensures Walk(m2, root, page) == Cover(Walk(m, root, page), hhdm, first, n, page)
    {
      CoverExact(Walk(m, root, page), hhdm, first, n1, page);
      CoverExact(Walk(m1, root, page), hhdm, first, n2, page);
      CoverExact(Walk(m, root, page), hhdm, first, n, page);
      if k: nat :| k < n && page == Page(hhdm, first, k) {
        assert k < n1 || k < n2;
      }
    }
  }

  /** How many pages from the one of start on the bytes [start, start + length) touch. */
  function PagesOf(start: nat, length: nat): nat { (start % 0x1000 + length + 0xFFF) / 0x1000 }

  /** The loops end after that many turns. */
  lemma TurnsLeft(start: nat, length: nat, i: nat, n: nat)
    requires i == At(start / 0x1000 * 0x1000, n) && n <= PagesOf(start, length)
    ensures i < start + length <==> n < PagesOf(start, length)
  {
  }

  lemma ByteOnPage(start: nat, length: nat, b: nat, hhdm: nat) returns (k: nat)
    requires start <= b < start + length && hhdm % 0x1000 == 0 && hhdm + b < WORD_LIMIT
    ensures k < PagesOf(start, length)
    ensures var first := start / 0x1000 * 0x1000;
      Page(hhdm, first, k) == PageOfByte(hhdm, b) && FrameOf(Wrap(At(first, k))) == FrameOf(Wrap(b))
  {
    hide PageOfByte, FrameOf, PageNumber;
    var q, s, h := start / 0x1000, start % 0x1000, hhdm / 0x1000;
    var d := b - 0x1000 * q;
    k := d / 0x1000;
    var r := d % 0x1000;
    assert b == 0x1000 * (q + k) + r && hhdm == 0x1000 * h;
    NumberOf(hhdm, b, h + q + k, r);
    NumberOf(hhdm, At(0x1000 * q, k), h + q + k, 0);
    FrameNumber(b, q + k, r);
    FrameNumber(At(0x1000 * q, k), q + k, 0);
    LastPage(q, s, length, k, r);
  }

  lemma LastPage(q: nat, s: nat, length: nat, k: nat, r: nat)
    requires 0x1000 * (q + k) + r < 0x1000 * q + s + length
    ensures k < (s + length + 0xFFF) / 0x1000
  {
  }

  /** A kernel page map of 4 KiB pages. */
  ghost predicate Ready(vm: PageMap)
    reads vm, vm.pages, vm.ram
  {
    && vm.HasTree() && Root in vm.tables && NoLarge(vm.ram[..], vm.tables)
    && vm.kernelPML4 != 0 && vm.kernelPML4 == vm.tables[Root] + vm.off
  }

  /** The places of the tables that mapping these bytes takes. */
  function Span(hhdm: nat, start: nat, length: nat): set<Place> {
    PathsFrom(Page(hhdm, start / 0x1000 * 0x1000, 0), PagesOf(start, length))
  }

  lemma SpanStep(hhdm: nat, start: nat, length: nat, k: nat)
    requires k < PagesOf(start, length)
    ensures var first := start / 0x1000 * 0x1000; var path, h := PathSet(Page(hhdm, first, k)), Page(hhdm, first, 0);
      path <= Span(hhdm, start, length) && PathsFrom(h, k + 1) == PathsFrom(h, k) + path
  {
    hide PageNumber, PathSet, PagesOf;
    var first := start / 0x1000 * 0x1000;
    NumberAdvances(hhdm + first, k);
    assert At(first, 0) == first;
    PathInside(Page(hhdm, first, 0), k, PagesOf(start, length));
  }

  lemma SpanEnds(hhdm: nat, start: nat, length: nat)
    ensures var h := Page(hhdm, start / 0x1000 * 0x1000, 0);
      PathsFrom(h, 0) == {} && PathsFrom(h, PagesOf(start, length)) == Span(hhdm, start, length)
  {
  }

  /** One turn of either loop of MemoryMapACPITable. */
  method MapOne(vm: PageMap, i: word, ghost m0: seq<byte>, ghost first: nat, ghost n: nat, ghost goal: set<Place>)
    requires Ready(vm) && i == At(first, n) && Affordable(vm.tables, vm.pages.Free(), goal)
    requires PathSet(Page(vm.off, first, n)) <= goal && Covered(m0, vm.ram[..], vm.tables[Root], vm.off, first, n)
    modifies vm`tables, vm.pages`head, vm.pages`runs, vm.ram
    ensures Ready(vm) && vm.tables[Root] == old(vm.tables)[Root]
    ensures Covered(m0, vm.ram[..], vm.tables[Root], vm.off, first, n + 1)
    ensures Grew(old(vm.ram[..]), old(vm.tables), old(vm.pages.Free()), vm.ram[..], vm.tables, vm.pages.Free(),
              PathSet(Page(vm.off, first, n)), goal)
  {
    hide SamePages, NoLarge, Word, Walk, Tree, Entry, SameWalks, WalksUpdated, OnlyTablesChanged, ListOk, Pages,
      LargeOnPath, StraySlot, StrayWrite, Missing, TablesAfter, PageNumber, FrameOf, Covered, Owed, PathSet,
      Affordable, LeafWord, KernelOnly, Popped;
    ghost var m, t, f := vm.ram[..], vm.tables, vm.pages.Free();
    var virt := Wrap(vm.off + i);
    StepOfGoal(m, t, f, PageNumber(virt), goal);
    SamePagesSelf(t, f);
    SamePagesStep(t, f, t, f, PageNumber(virt));
    var ok := vm.MemoryMap(0, virt, i, false);
    SmallWraps(i);
    CoverStep(m0, m, vm.ram[..], vm.tables[Root], vm.off, first, n);
  }

  /** Either loop of MemoryMapACPITable: it needs a page for each table missing on
      the way, and takes no more. */
  method MapPages(vm: PageMap, start: word, length: nat)
    requires Ready(vm) && start + length <= WORD_LIMIT - 0x1000
    requires Affordable(vm.tables, vm.pages.Free(), Span(vm.off, start, length))
    modifies vm`tables, vm.pages`head, vm.pages`runs, vm.ram
    ensures Ready(vm) && vm.tables[Root] == old(vm.tables)[Root]
    ensures Covered(old(vm.ram[..]), vm.ram[..], vm.tables[Root], vm.off, start / 0x1000 * 0x1000, PagesOf(start, length))
    ensures vm.tables.Keys == old(vm.tables).Keys + Span(vm.off, start, length)
    ensures |vm.pages.Free()| == |old(vm.pages.Free())| - Owed(old(vm.tables).Keys, Span(vm.off, start, length))
    ensures SamePages(old(vm.tables), old(vm.pages.Free()), vm.tables, vm.pages.Free())
    ensures OnlyTablesChanged(old(vm.ram[..]), vm.ram[..], old(vm.tables), old(vm.pages.Free()))
  {
    hide SamePages, NoLarge, Tree, OnlyTablesChanged, ListOk, Pages, PageNumber, Covered, PagesOf, Owed, PathSet,
      PathsFrom, Affordable, Span, Page;
    ghost var first, n := start / 0x1000 * 0x1000, 0;
    ghost var m0, t0, f0 := vm.ram[..], vm.tables, vm.pages.Free();
    ghost var goal, h := Span(vm.off, start, length), Page(vm.off, first, 0);
    GrewNone(m0, t0, f0, goal);
    CoverNone(m0, t0[Root], vm.off, first);
    SpanEnds(vm.off, start, length);
    var i: word := start / 0x1000 * 0x1000;
    while i < start + length
      invariant i == At(first, n) && n <= PagesOf(start, length)
      invariant Ready(vm) && vm.tables[Root] == t0[Root]
      invariant Covered(m0, vm.ram[..], vm.tables[Root], vm.off, first, n)
      invariant Grew(m0, t0, f0, vm.ram[..], vm.tables, vm.pages.Free(), PathsFrom(h, n), goal)
      decreases PagesOf(start, length) - n
    {
      ghost var m, t, f := vm.ram[..], vm.tables, vm.pages.Free();
      TurnsLeft(start, length, i, n);
      SpanStep(vm.off, start, length, n);
      GrewAffords(m0, t0, f0, m, t, f, PathsFrom(h, n), goal);
      MapOne(vm, i, m0, first, n, goal);
      GrewCompose(m0, t0, f0, m, t, f, vm.ram[..], vm.tables, vm.pages.Free(), PathsFrom(h, n), PathSet(Page(vm.off, first, n)), goal);
      n := n + 1;
      i := i + 0x1000;
    }
    TurnsLeft(start, length, i, n);
    GrewToGoal(m0, t0, f0, vm.ram[..], vm.tables, vm.pages.Free(), goal);
    GrewAffords(m0, t0, f0, vm.ram[..], vm.tables, vm.pages.Free(), goal, goal);
  }

  /** The length field of the table. */
  function LengthOf(m: seq<byte>, table: nat): nat
    requires table + HEADER_SIZE <= |m|
  {
    LoadLE(m, table + 4, 4)
  }

  /** What gets mapped: the header, and the table as long as it says it is. */
  function MappedLength(length: nat): nat { if length < HEADER_SIZE then HEADER_SIZE else length }

  /** Every byte of the table can be read at the higher-half offset, and pages
      without one translate as before. */
  ghost predicate Readable(m: seq<byte>, m': seq<byte>, root: nat, hhdm: nat, table: nat, length: nat) {
    && (forall b: nat :: table <= b < table + length ==> Walk(m', root, PageOfByte(hhdm, b)) == To(FrameOf(Wrap(b))))
    && (forall page: nat :: page < PAGES && !Touches(hhdm, table, length, page) ==> Walk(m', root, page) == Walk(m, root, page))
  }

  ghost predicate Touches(hhdm: nat, table: nat, length: nat, page: nat) {
    exists b: nat :: table <= b < table + length && page == PageOfByte(hhdm, b)
  }

  lemma CoveredIsReadable(m: seq<byte>, m': seq<byte>, root: nat, hhdm: nat, table: nat, length: nat)
    requires hhdm % 0x1000 == 0 && hhdm + table + length <= WORD_LIMIT - 0x1000 && length > 0
    requires PagesOf(table, length) <= PAGES
    requires Covered(m, m', root, hhdm, table / 0x1000 * 0x1000, PagesOf(table, length))
    ensures Readable(m, m', root, hhdm, table, length)
  {
    hide Walk, FrameOf, PageNumber, PageOfByte, Page, PagesOf, Covered, Wrap, Touches;
    forall b: nat | table <= b < table + length
      ensures Walk(m', root, PageOfByte(hhdm, b)) == To(FrameOf(Wrap(b)))
    {
      CoveredByte(m, m', root, hhdm, table, length, b);
    }
    forall page: nat | page < PAGES && !Touches(hhdm, table, length, page)
      ensures Walk(m', root, page) == Walk(m, root, page)
    {
      UntouchedPage(m, m', root, hhdm, table, length, page);
    }
  }

  lemma CoveredByte(m: seq<byte>, m': seq<byte>, root: nat, hhdm: nat, table: nat, length: nat, b: nat)
    requires hhdm % 0x1000 == 0 && hhdm + table + length <= WORD_LIMIT - 0x1000 && table <= b < table + length
    requires PagesOf(table, length) <= PAGES
    requires Covered(m, m', root, hhdm, table / 0x1000 * 0x1000, PagesOf(table, length))
    ensures Walk(m', root, PageOfByte(hhdm, b)) == To(FrameOf(Wrap(b)))
  {
    hide Walk, FrameOf, PageNumber, PageOfByte, Page, Cover, PagesOf, Wrap, At;
    var first, n, page := table / 0x1000 * 0x1000, PagesOf(table, length), PageOfByte(hhdm, b);
    RangeFits(hhdm, table, length);
    var k := ByteOnPage(table, length, b, hhdm);
    NumberBound(hhdm, b);
    CoverExact(Walk(m, root, page), hhdm, first, n, page);
  }

  lemma UntouchedPage(m: seq<byte>, m': seq<byte>, root: nat, hhdm: nat, table: nat, length: nat, page: nat)
    requires hhdm % 0x1000 == 0 && hhdm + table + length <= WORD_LIMIT - 0x1000 && length > 0
    requires PagesOf(table, length) <= PAGES && page < PAGES && !Touches(hhdm, table, length, page)
    requires Covered(m, m', root, hhdm, table / 0x1000 * 0x1000, PagesOf(table, length))
    ensures Walk(m', root, page) == Walk(m, root, page)
  {
    hide Walk, FrameOf, PageNumber, PageOfByte, Page, Cover, PagesOf, Wrap, At;
    var first, n := table / 0x1000 * 0x1000, PagesOf(table, length);
    RangeFits(hhdm, table, length);
    forall k: nat | k < n
      ensures page != Page(hhdm, first, k)
    {
      var b := PageHasByte(table, length, k, hhdm);
      assert PageOfByte(hhdm, b) == Page(hhdm, first, k);
    }
    CoverExact(Walk(m, root, page), hhdm, first, n, page);
  }

  /** What a load through the page map at root sees at virtual address virt. */
  ghost function ByteThrough(m: seq<byte>, root: nat, virt: word): Option<byte> {
    match Walk(m, root, PageNumber(virt))
    case Fault => None
    case To(frame) =>
      var b := 0x1000 * frame + virt % 0x1000;
      if b < |m| then Some(m[b]) else None
  }

  /** Loads through the page map at the higher-half offset see these bytes. */
  ghost predicate SeenThrough(m: seq<byte>, root: nat, hhdm: nat, table: nat, length: nat) {
    forall b: nat :: table <= b < table + length && b < |m| ==> ByteThrough(m, root, Wrap(hhdm + b)) == Some(m[b])
  }

  lemma ReadableIsSeen(m: seq<byte>, m': seq<byte>, root: nat, hhdm: nat, table: nat, length: nat)
    requires Readable(m, m', root, hhdm, table, length) && hhdm % 0x1000 == 0
    requires hhdm + |m'| < WORD_LIMIT && |m'| <= 0x10_0000_0000_0000
    ensures SeenThrough(m', root, hhdm, table, length)
  {
    hide Walk, PageNumber, FrameOf;
    forall b: nat | table <= b < table + length && b < |m'|
      ensures ByteThrough(m', root, Wrap(hhdm + b)) == Some(m'[b])
    {
      BackToByte(hhdm, b);
      assert Walk(m', root, PageOfByte(hhdm, b)) == To(FrameOf(Wrap(b)));
    }
  }

  lemma BackToByte(hhdm: nat, b: nat)
    requires hhdm % 0x1000 == 0 && hhdm + b < WORD_LIMIT && b < 0x10_0000_0000_0000
    ensures 0x1000 * FrameOf(Wrap(b)) + Wrap(hhdm + b) % 0x1000 == b
  {
    var p, r, h := b / 0x1000, b % 0x1000, hhdm / 0x1000;
    assert b == 0x1000 * p + r && hhdm == 0x1000 * h;
    FrameNumber(b, p, r);
    assert hhdm + b == 0x1000 * (h + p) + r;
    SameOffset(h + p, r);
    assert p < 0x100_0000_0000;
  }

  lemma SameOffset(x: nat, r: nat)
    requires r < 0x1000
    ensures (0x1000 * x + r) % 0x1000 == r
  {
  }

  lemma NumberBound(hhdm: nat, b: nat)
    ensures PageOfByte(hhdm, b) < PAGES
  {
  }

  lemma RangeFits(hhdm: nat, start: nat, length: nat)
    requires hhdm + start + length <= WORD_LIMIT - 0x1000
    ensures hhdm + At(start / 0x1000 * 0x1000, PagesOf(start, length)) <= WORD_LIMIT
  {
  }

  lemma PageHasByte(start: nat, length: nat, k: nat, hhdm: nat) returns (b: nat)
    requires k < PagesOf(start, length) && length > 0 && hhdm % 0x1000 == 0 && hhdm + start + length < WORD_LIMIT
    ensures start <= b < start + length && PageOfByte(hhdm, b) == Page(hhdm, start / 0x1000 * 0x1000, k)
  {
    hide PageOfByte;
    var q, s, h := start / 0x1000, start % 0x1000, hhdm / 0x1000;
    var r := if k == 0 then s else 0;
    b := 0x1000 * (q + k) + r;
    BeforeEnd(s, length, k);
    assert hhdm == 0x1000 * h;
    NumberOf(hhdm, b, h + q + k, r);
    NumberOf(hhdm, At(0x1000 * q, k), h + q + k, 0);
  }

  lemma BeforeEnd(s: nat, length: nat, k: nat)
    requires k < (s + length + 0xFFF) / 0x1000
    ensures 0x1000 * k < s + length
  {
  }

  lemma LengthKept(m: seq<byte>, m': seq<byte>, table: nat, tables: Tables, free: seq<nat>)
    requires OnlyTablesChanged(m, m', tables, free) && table + HEADER_SIZE <= |m|
    requires forall b :: table <= b < table + HEADER_SIZE ==> PageOf(b) !in free && PageOf(b) !in tables.Values
    ensures LengthOf(m', table) == LengthOf(m, table)
  {
  }

  lemma LargerPages(start: nat, length: nat)
    ensures var a, b := PagesOf(start, HEADER_SIZE), PagesOf(start, length);
      (if a <= b then b else a) == PagesOf(start, MappedLength(length))
  {
  }

  /** The two loops together make the tables of the longer span. */
  lemma TwoSpans(have: set<Place>, hhdm: nat, start: nat, length: nat)
    ensures var s1, s2 := Span(hhdm, start, HEADER_SIZE), Span(hhdm, start, length);
      var s := Span(hhdm, start, MappedLength(length));
      && s1 + s2 == s
      && Owed(have, s1) + Owed(have + s1, s2) == Owed(have, s)
      && have + s1 + s2 == have + s
  {
    hide PathsFrom, Page, PagesOf, Owed;
    var s1, s2 := Span(hhdm, start, HEADER_SIZE), Span(hhdm, start, length);
    var s := Span(hhdm, start, MappedLength(length));
    LargerPages(start, length);
    var h := Page(hhdm, start / 0x1000 * 0x1000, 0);
    PathsGrow(h, PagesOf(start, HEADER_SIZE), PagesOf(start, MappedLength(length)));
    PathsGrow(h, PagesOf(start, length), PagesOf(start, MappedLength(length)));
    BudgetParts(have, s1, s2);
  }

  /** Both loops done: m before, m1 between, m2 after. */
  lemma BothLoops(m: seq<byte>, m1: seq<byte>, m2: seq<byte>, root: nat, hhdm: nat, table: nat, length: nat)
    requires hhdm % 0x1000 == 0 && hhdm + table + 0x1_0000_0000 <= WORD_LIMIT - 0x1000 && length < 0x1_0000_0000
    requires hhdm + |m2| < WORD_LIMIT && |m2| <= 0x10_0000_0000_0000
    requires PagesOf(table, HEADER_SIZE) <= PAGES && PagesOf(table, length) <= PAGES && PagesOf(table, MappedLength(length)) <= PAGES
    requires Covered(m, m1, root, hhdm, table / 0x1000 * 0x1000, PagesOf(table, HEADER_SIZE))
    requires Covered(m1, m2, root, hhdm, table / 0x1000 * 0x1000, PagesOf(table, length))
    ensures Readable(m, m2, root, hhdm, table, MappedLength(length)) && SeenThrough(m2, root, hhdm, table, MappedLength(length))
  {
    hide Covered, PagesOf, Readable, SeenThrough, At;
    RangeFits(hhdm, table, HEADER_SIZE);
    RangeFits(hhdm, table, length);
    CoverTwice(m, m1, m2, root, hhdm, table / 0x1000 * 0x1000, PagesOf(table, HEADER_SIZE), PagesOf(table, length));
    LargerPages(table, length);
    CoveredIsReadable(m, m2, root, hhdm, table, MappedLength(length));
    ReadableIsSeen(m, m2, root, hhdm, table, MappedLength(length));
  }

  /** After the first loop the header can be read through the page map. */
  lemma HeaderSeen(m: seq<byte>, m1: seq<byte>, root: nat, hhdm: nat, table: nat)
    requires hhdm % 0x1000 == 0 && hhdm + table + 0x1_0000_0000 <= WORD_LIMIT - 0x1000
    requires hhdm + |m1| < WORD_LIMIT && |m1| <= 0x10_0000_0000_0000 && PagesOf(table, HEADER_SIZE) <= PAGES
    requires Covered(m, m1, root, hhdm, table / 0x1000 * 0x1000, PagesOf(table, HEADER_SIZE))
    ensures SeenThrough(m1, root, hhdm, table, HEADER_SIZE)
  {
    hide Covered, PagesOf, Readable, SeenThrough;
    CoveredIsReadable(m, m1, root, hhdm, table, HEADER_SIZE);
    ReadableIsSeen(m, m1, root, hhdm, table, HEADER_SIZE);
  }

  lemma ReadyMeans(vm: PageMap)
    requires Ready(vm)
    ensures vm.off % 0x1000 == 0 && vm.off + vm.ram.Length < WORD_LIMIT && vm.ram.Length <= 0x10_0000_0000_0000
  {
    FreePages(vm.ram[..], vm.pages.head, vm.off, vm.pages.runs);
  }

  lemma LengthBound(m: seq<byte>, table: nat)
    requires table + HEADER_SIZE <= |m|
    ensures LengthOf(m, table) < 0x1_0000_0000
    ensures PagesOf(table, MappedLength(LengthOf(m, table))) <= PAGES && PagesOf(table, HEADER_SIZE) <= PAGES
    ensures PagesOf(table, LengthOf(m, table)) <= PAGES
  {
  }

  /** MemoryMapACPITable: the header first, to learn the length, then all of the
      table. ACPI tables lie outside usable memory and far below the top of the
      address space. */
  method MemoryMapACPITable(vm: PageMap, table: word) returns (virt: word)
    requires Ready(vm) && table + HEADER_SIZE <= vm.ram.Length
    requires vm.off + table + 0x1_0000_0000 <= WORD_LIMIT - 0x1000
    requires forall b :: table <= b < table + HEADER_SIZE ==> PageOf(b) !in vm.pages.Free() && PageOf(b) !in vm.tables.Values
    requires Affordable(vm.tables, vm.pages.Free(), Span(vm.off, table, MappedLength(LengthOf(vm.ram[..], table))))
    modifies vm`tables, vm.pages`head, vm.pages`runs, vm.ram
    ensures Ready(vm) && virt == vm.off + table && vm.tables[Root] == old(vm.tables)[Root]
    ensures Readable(old(vm.ram[..]), vm.ram[..], vm.tables[Root], vm.off, table, MappedLength(old(LengthOf(vm.ram[..], table))))
    ensures SeenThrough(vm.ram[..], vm.tables[Root], vm.off, table, MappedLength(old(LengthOf(vm.ram[..], table))))
    ensures vm.tables.Keys == old(vm.tables).Keys + Span(vm.off, table, MappedLength(old(LengthOf(vm.ram[..], table))))
    ensures |vm.pages.Free()| ==
            |old(vm.pages.Free())| - Owed(old(vm.tables).Keys, Span(vm.off, table, MappedLength(old(LengthOf(vm.ram[..], table)))))
    ensures SamePages(old(vm.tables), old(vm.pages.Free()), vm.tables, vm.pages.Free())
    ensures OnlyTablesChanged(old(vm.ram[..]), vm.ram[..], old(vm.tables), old(vm.pages.Free()))
  {
    hide SamePages, NoLarge, Word, Walk, Tree, Entry, OnlyTablesChanged, ListOk, Pages, Covered, PagesOf, Readable,
      SeenThrough, LoadLE, Span, Owed, TablesOk, PageOf;
    ghost var m, t, f, root := vm.ram[..], vm.tables, vm.pages.Free(), vm.tables[Root];
    ReadyMeans(vm);
    LengthBound(m, table);
    TwoSpans(t.Keys, vm.off, table, LengthOf(m, table));
    MapPages(vm, table, HEADER_SIZE);
    ghost var m1, t1, f1 := vm.ram[..], vm.tables, vm.pages.Free();
    LengthKept(m, m1, table, t, f);
    virt := Wrap(table + vm.off);
    HeaderSeen(m, m1, root, vm.off, table);
    var length := LengthOf(vm.ram[..], table);
    MapPages(vm, table, length);
    BothLoops(m, m1, vm.ram[..], root, vm.off, table, length);
    SamePagesCompose(t, f, t1, f1, vm.tables, vm.pages.Free());
    TableChangesCompose(m, m1, vm.ram[..], t, f, t1, f1);
  }

  /** Of a table as firmware writes it, all bytes are mapped and no more. */
  lemma LengthAsWritten(m: seq<byte>, table: nat, signature: seq<byte>, rest: seq<byte>)
    requires TableOk(signature, rest) && Stands(m, table, TableBytes(signature, rest))
    ensures table + HEADER_SIZE <= |m| && MappedLength(LengthOf(m, table)) == |TableBytes(signature, rest)|
  {
    LengthField(m, table, signature, rest);
  }

  /** What MemoryMapACPITable does to a table that firmware wrote outside tables and
      free pages: loads through the page map give its bytes, one after the other, and
      every page without one of them translates as before. */
  lemma WrittenTableReadsBack(m: seq<byte>, m': seq<byte>, root: nat, hhdm: nat, table: nat, tables: Tables, free: seq<nat>,
      signature: seq<byte>, rest: seq<byte>)
    requires TableOk(signature, rest) && Stands(m, table, TableBytes(signature, rest))
    requires OnlyTablesChanged(m, m', tables, free)
    requires forall b: nat :: table <= b < table + |TableBytes(signature, rest)| ==> PageOf(b) !in free && PageOf(b) !in tables.Values
    requires SeenThrough(m', root, hhdm, table, MappedLength(LengthOf(m, table)))
    requires Readable(m, m', root, hhdm, table, MappedLength(LengthOf(m, table)))
    ensures var bytes := TableBytes(signature, rest);
      && (forall i: nat :: i < |bytes| ==> ByteThrough(m', root, Wrap(hhdm + (table + i))) == Some(bytes[i]))
      && (forall page: nat :: page < PAGES && !Touches(hhdm, table, |bytes|, page) ==> Walk(m', root, page) == Walk(m, root, page))
  {
    hide Walk, ByteThrough, TableBytes, Readable, Touches, PageOf;
    var bytes := TableBytes(signature, rest);
    LengthAsWritten(m, table, signature, rest);
    forall i: nat | i < |bytes|
      ensures ByteThrough(m', root, Wrap(hhdm + (table + i))) == Some(bytes[i])
    {
      var b: nat := table + i;
      assert m'[b] == m[b] == bytes[b - table];
    }
    OthersTranslate(m, m', root, hhdm, table, |bytes|);
  }

  lemma OthersTranslate(m: seq<byte>, m': seq<byte>, root: nat, hhdm: nat, table: nat, length: nat)
    requires Readable(m, m', root, hhdm, table, length)
    ensures forall page: nat :: page < PAGES && !Touches(hhdm, table, length, page) ==> Walk(m', root, page) == Walk(m, root, page)
  {
    hide Walk;
  }
}
