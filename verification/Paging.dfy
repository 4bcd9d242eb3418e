/** The virtual memory manager (kernel/src/hal/vmm.cpp). */
module Paging {
  import opened Memory
  import opened FreeList
  import opened PhysicalPages
  import opened PageTables
  import opened BootMap
  import opened TableDemand

  /** The table indices MemoryMap cuts out of an address. */
  lemma IndexBits(virt: word)
    ensures PageNumber(virt) < PAGES
    ensures virt / 0x80_0000_0000 % 512 == I4(PageNumber(virt))
    ensures virt / 0x4000_0000 % 512 == I3(PageNumber(virt))
    ensures virt / 0x20_0000 % 512 == I2(PageNumber(virt))
    ensures virt / 0x1000 % 512 == I1(PageNumber(virt))
  {
    hide I2, I3, I4;
    IndicesOf(virt / 0x1000);
    ShiftTwice(virt);
    LowIndex(virt / 0x1000);
  }

  /** Shifting by 12 and then by 9, 18 or 27. */
  lemma ShiftTwice(virt: nat)
    ensures virt / 0x1000 / 0x800_0000 == virt / 0x80_0000_0000
    ensures virt / 0x1000 / 0x4_0000 == virt / 0x4000_0000
    ensures virt / 0x1000 / 0x200 == virt / 0x20_0000
  {
  }

  lemma LowIndex(n: nat)
    ensures n % 0x10_0000_0000 % 512 == n % 512
  {
    var page, high := n % 0x10_0000_0000, n / 0x10_0000_0000;
    assert n == page + 512 * (0x800_0000 * high);
    DropRounds(page, 0x800_0000 * high);
  }

  /** The tree and the page stack after making sure a table exists at place p. */
  ghost function Ensure(tables: Tables, free: seq<nat>, p: Place): (Tables, seq<nat>) {
    if p in tables || |free| == 0 then (tables, free) else (tables[p := free[0]], free[1..])
  }

  /** ... at each of the places, first to last. */
  ghost function EnsureAll(tables: Tables, free: seq<nat>, places: seq<Place>): (Tables, seq<nat>)
    decreases |places|
  {
    if |places| == 0 then (tables, free)
    else
      var (t, f) := Ensure(tables, free, places[0]);
      EnsureAll(t, f, places[1..])
  }

  lemma EnsureAbsent(tables: Tables, free: seq<nat>, p: Place)
    ensures p !in tables && |free| > 0 ==> Ensure(tables, free, p) == (tables[p := free[0]], free[1..])
  {
  }

  lemma EnsurePresent(tables: Tables, free: seq<nat>, p: Place)
    ensures p in tables ==> Ensure(tables, free, p) == (tables, free)
  {
  }

  /** How many of the places have no table yet. */
  ghost function Missing(tables: Tables, places: seq<Place>): nat {
    if |places| == 0 then 0 else (if places[0] in tables then 0 else 1) + Missing(tables, places[1..])
  }

  ghost function PathTo(page: nat, large: bool): seq<Place> {
    if large then [P3(page), P2(page)] else [P3(page), P2(page), P1(page)]
  }

  /** The tables are a tree that owns its frames: none of them is free. */
  ghost predicate TablesOk(m: seq<byte>, tables: Tables, free: seq<nat>) {
    Tree(m, tables) && forall p :: p in tables ==> tables[p] !in free
  }

  /** The bytes outside these tables and these free pages are unchanged. */
  ghost predicate OnlyTablesChanged(m: seq<byte>, m': seq<byte>, tables: Tables, free: seq<nat>) {
    |m| == |m'| && forall b :: 0 <= b < |m| && PageOf(b) !in free && PageOf(b) !in tables.Values ==> m'[b] == m[b]
  }

  lemma AllocationSparesTables(m: seq<byte>, m': seq<byte>, tables: Tables, free: seq<nat>)
    requires TablesOk(m, tables, free) && OnlyPagesChanged(m, m', free)
    ensures TablesKept(m, m', tables, -8)
  {
    forall p | p in tables
      ensures PageKept(m, m', tables[p], -8)
    {
      WithinPage(tables[p]);
    }
  }

  /** What GetNextLevel writes into an absent entry. */
  function NewEntry(e: word, frame: nat): word {
    SetWritable(SetPresent(SetFrame(e, frame)))
  }

  lemma NewEntryFields(e: word, frame: nat)
    ensures Present(NewEntry(e, frame)) && Writable(NewEntry(e, frame))
    ensures Large(NewEntry(e, frame)) == Large(e)
    ensures Frame(NewEntry(e, frame)) == frame % 0x100_0000_0000
  {
    var x := SetFrame(e, frame);
    FrameAlone(e, frame);
    PresentAlone(x);
    WritableAlone(SetPresent(x));
  }

  /** Zero, or an entry as the kernel makes them, PageSize set already or not. */
  predicate Orderly(e: word) {
    e < 0x10_0000_0000_0000 && (e % 0x1000 == 0 || e % 0x1000 == 3 || e % 0x1000 == 0x80 || e % 0x1000 == 0x83)
  }

  lemma PlainIsOrderly(e: word)
    requires e == 0 || Plain(e)
    ensures Orderly(e) && Orderly(SetLarge(e))
  {
    var k, low := Frame(e), if e == 0 then 0 else if Large(e) then 0x83 else 3;
    assert e == 0x1000 * k + low;
    LowBits(k, low);
    LowPart(k, low);
    if !Large(e) {
      assert SetLarge(e) == 0x1000 * k + (low + 0x80);
      LowPart(k, low + 0x80);
    }
  }

  lemma LowPart(k: nat, low: nat)
    requires k < 0x100_0000_0000 && low < 0x1000
    ensures 0x1000 * k + low < 0x10_0000_0000_0000 && (0x1000 * k + low) % 0x1000 == low && (0x1000 * k + low) / 0x1000 == k
  {
  }

  /** The finished entry in numbers: frame, present, writable, and PageSize if set. */
  lemma NewEntryWord(e: word, frame: nat)
    requires Orderly(e)
    ensures NewEntry(e, frame) == 0x1000 * (frame % 0x100_0000_0000) + (if Large(e) then 0x83 else 3)
    ensures Plain(NewEntry(e, frame))
  {
    hide SetFrame, SetPresent, SetWritable, Plain;
    var k, low := frame % 0x100_0000_0000, e % 0x1000;
    FrameStored(e, frame);
    LowBits(e / 0x1000, low);
    BitsStored(k, low);
    PlainWord(k, Large(e));
  }

  lemma FrameStored(e: word, frame: nat)
    requires e < 0x10_0000_0000_0000
    ensures SetFrame(e, frame) == 0x1000 * (frame % 0x100_0000_0000) + e % 0x1000
  {
  }

  lemma BitsStored(k: nat, low: nat)
    requires k < 0x100_0000_0000 && (low == 0 || low == 3 || low == 0x80 || low == 0x83)
    ensures SetWritable(SetPresent(0x1000 * k + low)) == 0x1000 * k + if low < 0x80 then 3 else 0x83
  {
    LowBits(k, low);
    LowBits(k, if low % 2 == 1 then low else low + 1);
  }

  lemma PlainWord(k: nat, large: bool)
    requires k < 0x100_0000_0000
    ensures Plain(0x1000 * k + if large then 0x83 else 3)
  {
    LowBits(k, if large then 0x83 else 3);
    LowPart(k, if large then 0x83 else 3);
  }

  /** So what is written into an absent entry is this. */
  lemma NewEntryInNumbers(frame: nat)
    ensures NewEntry(0, frame) == 0x1000 * (frame % 0x100_0000_0000) + 3
    ensures NewEntry(SetLarge(0), frame) == 0x1000 * (frame % 0x100_0000_0000) + 0x83
  {
    hide NewEntry;
    NewEntryWord(0, frame);
    NewEntryWord(SetLarge(0), frame);
  }

  ghost predicate EmptyTable(m: seq<byte>, tables: Tables, p: Place) {
    forall j: nat :: j < 512 ==> Entry(m, tables, p, j) == 0
  }

  lemma NewEntryPointsTo(e: word, q: nat)
    requires q % 0x1000 == 0 && q < 0x10_0000_0000_0000 && e == 0
    ensures var x := NewEntry(e, q / 0x1000); Present(x) && Plain(x) && !Large(x) && 0x1000 * Frame(x) == q
  {
    hide NewEntry, Present, Writable, Plain, Frame;
    NewEntryFields(e, q / 0x1000);
    NewEntryWord(e, q / 0x1000);
    FrameOfPage(q);
  }

  lemma FrameOfPage(q: nat)
    requires q % 0x1000 == 0 && q < 0x10_0000_0000_0000
    ensures 0x1000 * (q / 0x1000 % 0x100_0000_0000) == q
  {
    var f := q / 0x1000;
    assert f < 0x100_0000_0000;
  }

  lemma AbsentIsSmall(v: View, tables: Tables, p: Place, i: nat)
    requires EntryOk(v, tables, p, i) && !Present(v(p, i))
    ensures !Large(v(p, i)) && v(p, i) == 0
  {
  }

  lemma NothingChanged(m: seq<byte>, tables: Tables, free: seq<nat>)
    requires Root in tables
    ensures SameWalks(m, m, tables[Root]) && OnlyTablesChanged(m, m, tables, free)
  {
  }

  lemma SameWalksCompose(m: seq<byte>, m1: seq<byte>, m2: seq<byte>, root: nat)
    requires SameWalks(m, m1, root) && SameWalks(m1, m2, root)
    ensures SameWalks(m, m2, root)
  {
  }

  /** Allocating a zeroed page and entering it in the table at p: m is the memory
      before, m1 after the allocation, m2 after the entry is written. */
  lemma TableEntered(m: seq<byte>, m1: seq<byte>, m2: seq<byte>, tables: Tables, free: seq<nat>, p: Place, i: nat)
    requires |m| <= 0x10_0000_0000_0000 && |free| > 0 && PagesOk(free, |m|)
    requires TablesOk(m, tables, free) && OnlyPagesChanged(m, m1, free)
    requires p in tables && i < 512 && Depth(p) < 3 && !Present(Entry(m, tables, p, i))
    requires forall b :: free[0] <= b < free[0] + 0x1000 && b < |m1| ==> m1[b] == 0
    requires Stored(m1, m2, tables[p] + 8 * i, NewEntry(Entry(m1, tables, p, i), free[0] / 0x1000))
    ensures Under(p, i) !in tables
    ensures TablesOk(m2, tables[Under(p, i) := free[0]], free[1..])
    ensures EmptyTable(m2, tables[Under(p, i) := free[0]], Under(p, i))
    ensures SameWalks(m, m2, tables[Root])
    ensures NoLarge(m, tables) ==> NoLarge(m2, tables[Under(p, i) := free[0]])
    ensures OnlyTablesChanged(m, m2, tables, free)
  {
    hide NoLarge, Word, TreeOf, Walk, FramesOk, NewEntry, Frame, Large, Present, Plain, PageOf, SameWalks;
    var a, q := tables[p] + 8 * i, free[0];
    EntryInside(m, tables, p, i);
    AllocationSparesTables(m, m1, tables, free);
    TreeElsewhere(m, m1, tables);
    EntryKept(m, m1, tables, -8, p, i);
    AbsentIsSmall(ViewOf(m, tables), tables, p, i);
    FreshPageApart(tables, free, |m|);
    NewEntryPointsTo(Entry(m1, tables, p, i), q);
    StoreMissesPage(m1, m2, tables[p], i, q);
    HangTable(m1, m2, tables, p, i, q);
    SameWalksCompose(m, m1, m2, tables[Root]);
    EntryWriteStays(m, m1, m2, tables, free, p, i);
    ZeroPageReadsZero(m2, tables[Under(p, i) := q], Under(p, i));
  }

  lemma ZeroPageReadsZero(m: seq<byte>, tables: Tables, p: Place)
    requires p in tables && tables[p] + 0x1000 <= |m|
    requires forall b :: tables[p] <= b < tables[p] + 0x1000 ==> m[b] == 0
    ensures EmptyTable(m, tables, p)
  {
    hide Word;
    ZeroBytesZeroWords(m, tables[p], tables[p] + 0x1000);
  }

  /** An entry is a word inside its table's page, inside memory. */
  lemma EntryInside(m: seq<byte>, tables: Tables, p: Place, i: nat)
    requires Tree(m, tables) && p in tables && i < 512
    ensures Root in tables && EntryOk(ViewOf(m, tables), tables, p, i)
    ensures tables[p] % 0x1000 == 0 && tables[p] + 0x1000 <= |m|
    ensures Entry(m, tables, p, i) == Word(m, tables[p] + 8 * i)
    ensures (tables[p] + 8 * i) % 8 == 0
    ensures forall b :: tables[p] <= b < tables[p] + 0x1000 ==> PageOf(b) == tables[p]
  {
    hide Word, Walk, Frame, Large, Present, Plain;
    assert EntryOk(ViewOf(m, tables), tables, p, i);
    WithinPage(tables[p]);
    SlotAligned(tables[p], i);
  }

  lemma SlotAligned(table: nat, i: nat)
    requires table % 0x1000 == 0
    ensures (table + 8 * i) % 8 == 0
  {
    assert table + 8 * i == 8 * (0x200 * (table / 0x1000) + i);
  }

  /** The next free page is no table, and stays off the stack once taken. */
  lemma FreshPageApart(tables: Tables, free: seq<nat>, length: nat)
    requires |free| > 0 && PagesOk(free, length)
    requires forall p :: p in tables ==> tables[p] !in free
    ensures free[0] !in tables.Values && free[0] !in free[1..]
    ensures free[0] % 0x1000 == 0 && 0 < free[0] && free[0] + 0x1000 <= length
    ensures forall x :: x in free[1..] ==> x in free
  {
  }

  lemma EntryWriteStays(m: seq<byte>, m1: seq<byte>, m2: seq<byte>, tables: Tables, free: seq<nat>, p: Place, i: nat)
    requires Tree(m, tables) && p in tables && i < 512
    requires OnlyPagesChanged(m, m1, free)
    requires SameOutside(m1, m2, tables[p] + 8 * i, tables[p] + 8 * i + 8)
    ensures OnlyTablesChanged(m, m2, tables, free)
  {
    EntryInside(m, tables, p, i);
  }

  /** A store into one page leaves the bytes of another page alone. */
  lemma StoreMissesPage(m: seq<byte>, m': seq<byte>, table: nat, i: nat, q: nat)
    requires table % 0x1000 == 0 && q % 0x1000 == 0 && table != q && i < 512
    requires SameOutside(m, m', table + 8 * i, table + 8 * i + 8)
    ensures SameWithin(m, m', q, q + 0x1000)
  {
  }

  /** The three field writes of GetNextLevel add up to one new entry. */
  lemma ThreeStores(m1: seq<byte>, m2: seq<byte>, m3: seq<byte>, m4: seq<byte>, slot: nat, e: word, frame: nat)
    requires Stored(m1, m2, slot, SetFrame(e, frame))
    requires Stored(m2, m3, slot, SetPresent(SetFrame(e, frame)))
    requires Stored(m3, m4, slot, NewEntry(e, frame))
    ensures Stored(m1, m4, slot, NewEntry(e, frame))
  {
  }

  lemma NewEntryIs(e: word, frame: nat)
    ensures NewEntry(e, frame) == SetWritable(SetPresent(SetFrame(e, frame)))
  {
  }

  lemma EntryReads(m: seq<byte>, tables: Tables, p: Place, i: nat)
    requires p in tables && tables[p] + 8 * i + 8 <= |m|
    ensures Entry(m, tables, p, i) == Word(m, tables[p] + 8 * i)
  {
  }

  /** A store into a table leaves the page allocator's list alone. */
  lemma TableWriteKeepsList(m: seq<byte>, m': seq<byte>, head: nat, off: nat, runs: seq<Block>, table: nat, i: nat)
    requires ListOk(m, head, off, runs) && table % 0x1000 == 0 && table !in Pages(runs) && i < 512
    requires SameOutside(m, m', table + 8 * i, table + 8 * i + 8)
    ensures ListOk(m', head, off, runs)
  {
    PagePartsHeaders(runs, |m|, table);
    ThreadedElsewhere(m, m', head, off, runs);
  }

  /** What a present entry of an inner table leads to. */
  lemma PresentLeadsDown(m: seq<byte>, tables: Tables, p: Place, i: nat)
    requires Tree(m, tables) && p in tables && i < 512 && Depth(p) < 3
    ensures Large(Entry(m, tables, p, i)) ==> Present(Entry(m, tables, p, i))
    ensures !Large(Entry(m, tables, p, i)) ==> (Present(Entry(m, tables, p, i)) <==> Under(p, i) in tables)
    ensures Under(p, i) in tables ==> tables[Under(p, i)] == 0x1000 * Frame(Entry(m, tables, p, i)) && tables[Under(p, i)] < |m|
  {
    EntryInside(m, tables, p, i);
  }

  /** A 2 MiB page stands in the way of a 4 KiB mapping of this page. */
  ghost predicate LargeOnPath(m: seq<byte>, tables: Tables, page: nat) {
    P2(page) in tables && Large(Entry(m, tables, P2(page), I2(page)))
  }

  /** The intended update of the flat map: one page, or the 512 pages of a
      2 MiB region, go to frame; every other page translates as before. */
  ghost function Mapped(before: Translation, page: nat, page0: nat, frame: nat, large: bool): Translation {
    if large then (if page / 512 == page0 / 512 then LargeTo(frame, page, 0x200) else before)
    else if page == page0 then To(frame) else before
  }

  ghost predicate WalksUpdated(m: seq<byte>, m': seq<byte>, root: nat, page0: nat, frame: nat, large: bool) {
    forall page: nat :: page < PAGES ==>
      Walk(m', root, page) == Mapped(Walk(m, root, page), page, page0, frame, large)
  }

  /** The tables and the page stack after mapping page0. */
  ghost function TablesAfter(tables: Tables, free: seq<nat>, page0: nat, large: bool): (Tables, seq<nat>) {
    var (t, f) := EnsureAll(tables, free, PathTo(page0, large));
    (if large then Cut(t, P2(page0), I2(page0)) else t, f)
  }

  /** The word a 4 KiB mapping is written to when a 2 MiB page is in the way:
      it lies in the memory that page maps, not in a table. */
  ghost function StraySlot(m: seq<byte>, tables: Tables, page: nat): nat {
    0x1000 * Frame(Entry(m, tables, P2(page), I2(page))) + 8 * I1(page)
  }

  lemma EnsurePath(tables: Tables, free: seq<nat>, p: Place, q: Place, r: Place)
    ensures var (t, f) := Ensure(tables, free, p);
            && EnsureAll(tables, free, [p, q]) == Ensure(t, f, q)
            && var (t2, f2) := Ensure(t, f, q); EnsureAll(tables, free, [p, q, r]) == Ensure(t2, f2, r)
    ensures Missing(tables, [p, q]) == (if p in tables then 0 else 1) + (if q in tables then 0 else 1)
    ensures Missing(tables, [p, q, r]) == Missing(tables, [p, q]) + (if r in tables then 0 else 1)
  {
    hide Ensure;
    var (t1, f1) := Ensure(tables, free, p);
    var (t2, f2) := Ensure(t1, f1, q);
    var (t3, f3) := Ensure(t2, f2, r);
    assert [p, q, r][1..] == [q, r] && [p, q][1..] == [q];
    EnsureStep(tables, free, p, [q, r]);
    EnsureStep(tables, free, p, [q]);
    EnsureStep(t1, f1, q, [r]);
    EnsureStep(t1, f1, q, []);
    EnsureStep(t2, f2, r, []);
    MissingStep(tables, p, [q, r]);
    MissingStep(tables, p, [q]);
    MissingStep(tables, q, [r]);
    MissingStep(tables, q, []);
    MissingStep(tables, r, []);
  }

  lemma MissingStep(tables: Tables, p: Place, rest: seq<Place>)
    ensures Missing(tables, [p] + rest) == (if p in tables then 0 else 1) + Missing(tables, rest)
  {
  }

  lemma EnsureStep(tables: Tables, free: seq<nat>, p: Place, rest: seq<Place>)
    ensures var (t, f) := Ensure(tables, free, p); EnsureAll(tables, free, [p] + rest) == EnsureAll(t, f, rest)
  {
  }

  /** Inner entries on the way to a page: never large, present exactly when the
      next table exists. */
  lemma PathKnown(m: seq<byte>, tables: Tables, page: nat)
    requires Tree(m, tables) && page < PAGES
    ensures Root in tables && !Large(Entry(m, tables, Root, I4(page)))
    ensures Present(Entry(m, tables, Root, I4(page))) <==> P3(page) in tables
    ensures P2(page) in tables ==> P3(page) in tables
    ensures P1(page) in tables ==> P2(page) in tables
    ensures P3(page) in tables ==>
              && !Large(Entry(m, tables, P3(page), I3(page)))
              && (Present(Entry(m, tables, P3(page), I3(page))) <==> P2(page) in tables)
  {
    PathDepths(page);
    EntryInside(m, tables, Root, I4(page));
    if P3(page) in tables {
      EntryInside(m, tables, P3(page), I3(page));
    }
  }

  /** The one word a misdirected 4 KiB mapping writes. */
  ghost predicate StrayWrite(m: seq<byte>, m': seq<byte>, tables: Tables, page: nat, phys: word) {
    var slot := StraySlot(m, tables, page);
    slot + 8 <= |m| && Stored(m, m', slot, NewEntry(Word(m, slot), phys / 0x1000))
  }

  lemma TableStoreOnly(m: seq<byte>, m': seq<byte>, tables: Tables, free: seq<nat>, p: Place, i: nat)
    requires Tree(m, tables) && p in tables && i < 512
    requires SameOutside(m, m', tables[p] + 8 * i, tables[p] + 8 * i + 8)
    ensures OnlyTablesChanged(m, m', tables, free)
  {
    hide Word;
    EntryInside(m, tables, p, i);
  }

  /** The level-2 entry on the way to a page. */
  lemma Level2Known(m: seq<byte>, tables: Tables, page: nat)
    requires Tree(m, tables) && page < PAGES && P2(page) in tables
    ensures Root in tables
    ensures LargeOnPath(m, tables, page) ==> Present(Entry(m, tables, P2(page), I2(page)))
    ensures !LargeOnPath(m, tables, page) ==> (Present(Entry(m, tables, P2(page), I2(page))) <==> P1(page) in tables)
  {
    PathDepths(page);
    EntryInside(m, tables, P2(page), I2(page));
  }

  lemma WalksUpdatedAfter(m: seq<byte>, m1: seq<byte>, m2: seq<byte>, root: nat, page0: nat, frame: nat, large: bool)
    requires SameWalks(m, m1, root) && WalksUpdated(m1, m2, root, page0, frame, large)
    ensures WalksUpdated(m, m2, root, page0, frame, large)
  {
  }

  /** Going down to level 2 creates no obstacle, and reserves what level 1 needs. */
  lemma LevelTwoKeeps(m: seq<byte>, m2: seq<byte>, t0: Tables, f0: seq<nat>, t2: Tables, f2: seq<nat>, page: nat)
    requires page < PAGES && Tree(m, t0) && Root in t0
    requires (t2, f2) == EnsureAll(t0, f0, PathTo(page, true))
    requires |f0| >= Missing(t0, PathTo(page, true))
    requires P2(page) in t0 ==> m2 == m
    requires P2(page) in t2
    requires P2(page) !in t0 ==> EmptyTable(m2, t2, P2(page))
    ensures LargeOnPath(m2, t2, page) == LargeOnPath(m, t0, page)
    ensures LargeOnPath(m, t0, page) ==> m2 == m && t2 == t0 && f2 == f0 && StraySlot(m2, t2, page) == StraySlot(m, t0, page)
    ensures P1(page) in t2 <==> P1(page) in t0
    ensures |f0| >= Missing(t0, PathTo(page, false)) && P1(page) !in t0 ==> |f2| > 0
    ensures forall x :: x in t2.Values ==> x in t0.Values || x in f0
    ensures forall x :: x in f2 ==> x in f0
    ensures Root in t0 && Root in t2 && t2[Root] == t0[Root]
  {
    hide Word, Walk, Tree, Missing, EnsureAll;
    PathDepths(page);
    EnsurePath(t0, f0, P3(page), P2(page), P1(page));
    PathKnown(m, t0, page);
    EnsureFrames(t0, f0, P3(page));
    var (t1, f1) := Ensure(t0, f0, P3(page));
    EnsureFrames(t1, f1, P2(page));
    if P2(page) in t0 {
      assert t2 == t0;
    } else {
      assert Entry(m2, t2, P2(page), I2(page)) == 0;
    }
  }

  lemma OnlyTablesCompose(m: seq<byte>, m1: seq<byte>, m2: seq<byte>, t0: Tables, f0: seq<nat>, t1: Tables, f1: seq<nat>)
    requires OnlyTablesChanged(m, m1, t0, f0) && OnlyTablesChanged(m1, m2, t1, f1)
    requires forall x :: x in t1.Values ==> x in t0.Values || x in f0
    requires forall x :: x in f1 ==> x in f0
    ensures OnlyTablesChanged(m, m2, t0, f0)
  {
  }

  lemma EnsureFrames(tables: Tables, free: seq<nat>, p: Place)
    ensures var (t, f) := Ensure(tables, free, p);
            && (forall x :: x in t.Values ==> x in tables.Values || x in free)
            && (forall x :: x in f ==> x in free)
            && (forall x :: x in tables ==> x in t && t[x] == tables[x])
  {
  }

  /** A 4 KiB mapping lands: m before, m3 once the tables exist, m' after. */
  lemma SmallMappingDone(m: seq<byte>, m3: seq<byte>, m': seq<byte>, tables: Tables, page0: nat, e: word, frame: nat)
    requires Tree(m3, tables) && page0 < PAGES && P1(page0) in tables
    requires SameWalks(m, m3, tables[Root])
    requires Stored(m3, m', tables[P1(page0)] + 8 * I1(page0), NewEntry(e, frame))
    requires e == Entry(m3, tables, P1(page0), I1(page0))
    ensures Tree(m', tables)
    ensures WalksUpdated(m, m', tables[Root], page0, frame % 0x100_0000_0000, false)
    ensures NoLarge(m3, tables) ==> NoLarge(m', tables)
  {
    hide NoLarge, Word, Walk, NewEntry, Plain;
    PathDepths(page0);
    EntryInside(m3, tables, P1(page0), I1(page0));
    NewEntryFields(e, frame);
    PlainIsOrderly(e);
    NewEntryWord(e, frame);
    StoreLeaf(m3, m', tables, page0, NewEntry(e, frame));
  }

  /** The entry that maps a page, in numbers. */
  ghost predicate LeafWord(m: seq<byte>, tables: Tables, page: nat, frame: nat, large: bool) {
    if large then P2(page) in tables && Entry(m, tables, P2(page), I2(page)) == 0x1000 * frame + 0x83
    else P1(page) in tables && Entry(m, tables, P1(page), I1(page)) == 0x1000 * frame + 3
  }

  lemma LargeWord(m3: seq<byte>, m': seq<byte>, tables: Tables, page0: nat, e: word, frame: nat)
    requires Tree(m3, tables) && P2(page0) in tables
    requires e == Entry(m3, tables, P2(page0), I2(page0))
    requires Stored(m3, m', tables[P2(page0)] + 8 * I2(page0), NewEntry(SetLarge(e), frame))
    ensures LeafWord(m', Cut(tables, P2(page0), I2(page0)), page0, frame % 0x100_0000_0000, true)
  {
    hide Word, NewEntry, Plain, SetLarge, TreeOf;
    EntryInside(m3, tables, P2(page0), I2(page0));
    LargeAlone(e);
    PlainIsOrderly(e);
    NewEntryWord(SetLarge(e), frame);
  }

  lemma SmallWord(m: seq<byte>, m': seq<byte>, tables: Tables, page: nat, frame: nat)
    requires Tree(m', tables) && P1(page) in tables && page < PAGES && WalksUpdated(m, m', tables[Root], page, frame, false)
    ensures LeafWord(m', tables, page, frame, false)
  {
    hide Walk;
    MappedWord(m', tables, page);
  }

  /** A 2 MiB mapping lands. */
  lemma LargeMappingDone(m: seq<byte>, m3: seq<byte>, m': seq<byte>, tables: Tables, page0: nat, e: word, frame: nat)
    requires Tree(m3, tables) && page0 < PAGES && P2(page0) in tables
    requires SameWalks(m, m3, tables[Root])
    requires Stored(m3, m', tables[P2(page0)] + 8 * I2(page0), NewEntry(SetLarge(e), frame))
    requires e == Entry(m3, tables, P2(page0), I2(page0))
    ensures Tree(m', Cut(tables, P2(page0), I2(page0)))
    ensures WalksUpdated(m, m', tables[Root], page0, frame % 0x100_0000_0000, true)
    ensures LeafWord(m', Cut(tables, P2(page0), I2(page0)), page0, frame % 0x100_0000_0000, true)
  {
    hide Word, Walk, NewEntry, Plain;
    LargeWord(m3, m', tables, page0, e, frame);
    EntryInside(m3, tables, P2(page0), I2(page0));
    LargeAlone(e);
    NewEntryFields(SetLarge(e), frame);
    PlainIsOrderly(e);
    NewEntryWord(SetLarge(e), frame);
    StoreLarge(m3, m', tables, page0, NewEntry(SetLarge(e), frame));
  }

  function PlaceSet(places: seq<Place>): set<Place> { set p | p in places }

  lemma PlaceSetStep(p: Place, rest: seq<Place>)
    ensures PlaceSet([p] + rest) == {p} + PlaceSet(rest)
  {
  }

  lemma NoPlaces(places: seq<Place>)
    requires |places| == 0
    ensures PlaceSet(places) == {}
  {
  }

  /** Mapping takes a prefix of the free stack, one page for each missing table,
      at most three; those pages are the new tables. */
  lemma {:induction false} TablesComeFromStack(tables: Tables, free: seq<nat>, places: seq<Place>)
    requires |free| >= Missing(tables, places)
    requires forall i, j :: 0 <= i < j < |places| ==> places[i] != places[j]
    ensures var (t, f) := EnsureAll(tables, free, places);
            var k := Missing(tables, places);
            && k <= |places|
            && t.Keys == tables.Keys + PlaceSet(places)
            && TablesTaken(tables, free, t, f, k)
    decreases |places|
  {
    hide PlaceSet, Ensure, TablesTaken;
    if |places| > 0 {
      var p, rest := places[0], places[1..];
      var (t, f) := Ensure(tables, free, p);
      EnsureOne(tables, free, p);
      TakenIs(tables, free, t, f, if p in tables then 0 else 1);
      MissingElsewhere(tables, t, rest);
      TablesComeFromStack(t, f, rest);
      assert places == [p] + rest;
      PlaceSetStep(p, rest);
      var (t2, f2) := EnsureAll(t, f, rest);
      StackStep(tables, free, t, f, t2, f2, if p in tables then 0 else 1, Missing(tables, places));
    } else {
      NoPlaces(places);
      TakenIs(tables, free, tables, free, 0);
    }
  }

  /** k pages came off the stack and are tables now. */
  ghost predicate TablesTaken(t0: Tables, f0: seq<nat>, t1: Tables, f1: seq<nat>, k: nat) {
    && k <= |f0| && f1 == f0[k..]
    && forall x :: x in t1.Values <==> x in t0.Values || x in f0[..k]
  }

  lemma TakenIs(t0: Tables, f0: seq<nat>, t1: Tables, f1: seq<nat>, k: nat)
    requires k <= |f0| && f1 == f0[k..] && forall x :: x in t1.Values <==> x in t0.Values || x in f0[..k]
    ensures TablesTaken(t0, f0, t1, f1, k) && |f1| == |f0| - k
  {
  }

  /** d pages and then k - d are k pages off the stack. */
  lemma StackStep(t0: Tables, f0: seq<nat>, t1: Tables, f1: seq<nat>, t2: Tables, f2: seq<nat>, d: nat, k: nat)
    requires d <= k && TablesTaken(t0, f0, t1, f1, d) && TablesTaken(t1, f1, t2, f2, k - d)
    ensures TablesTaken(t0, f0, t2, f2, k)
  {
    SplitPrefix(f0, d, k);
  }

  lemma EnsureOne(tables: Tables, free: seq<nat>, p: Place)
    requires p in tables || |free| > 0
    ensures var (t, f) := Ensure(tables, free, p);
            var d := if p in tables then 0 else 1;
            && f == free[d..] && t.Keys == tables.Keys + {p}
            && (forall x :: x in t.Values <==> x in tables.Values || x in free[..d])
  {
    if p !in tables {
      AddedValue(tables, p, free[0]);
    }
  }

  lemma SplitPrefix(free: seq<nat>, d: nat, k: nat)
    requires d <= k <= |free|
    ensures free[d..][k - d..] == free[k..]
    ensures forall x :: x in free[..k] <==> x in free[..d] || x in free[d..][..k - d]
  {
    assert free[..k] == free[..d] + free[d..][..k - d];
  }

  /** Free pages and table frames together are the same pages as before, and the
      free pages are what is left of the stack. */
  ghost predicate SamePages(t0: Tables, f0: seq<nat>, t1: Tables, f1: seq<nat>) {
    && Popped(f0, f1)
    && forall x: nat :: (x in f1 || x in t1.Values) <==> (x in f0 || x in t0.Values)
  }

  /** Pages have been taken off the top of the stack only. */
  predicate Popped(f0: seq<nat>, f1: seq<nat>) { |f1| <= |f0| && f1 == f0[|f0| - |f1|..] }

  lemma SamePagesSelf(t: Tables, f: seq<nat>)
    ensures SamePages(t, f, t, f)
  {
  }

  lemma SamePagesCompose(t0: Tables, f0: seq<nat>, t1: Tables, f1: seq<nat>, t2: Tables, f2: seq<nat>)
    requires SamePages(t0, f0, t1, f1) && SamePages(t1, f1, t2, f2)
    ensures SamePages(t0, f0, t2, f2)
  {
    PoppedCompose(f0, f1, f2);
  }

  lemma PoppedCompose(f0: seq<nat>, f1: seq<nat>, f2: seq<nat>)
    requires Popped(f0, f1) && Popped(f1, f2)
    ensures Popped(f0, f2)
  {
  }

  /** Composing changes to tables and free pages over a whole loop. */
  lemma TableChangesCompose(m: seq<byte>, m1: seq<byte>, m2: seq<byte>, t0: Tables, f0: seq<nat>, t1: Tables, f1: seq<nat>)
    requires OnlyTablesChanged(m, m1, t0, f0) && OnlyTablesChanged(m1, m2, t1, f1) && SamePages(t0, f0, t1, f1)
    ensures OnlyTablesChanged(m, m2, t0, f0)
  {
  }

  /** What mapping pages on the way to a goal has done so far: the tables of the
      places made, a page of the stack for each, and no other byte changed. */
  ghost predicate Grew(m0: seq<byte>, t0: Tables, f0: seq<nat>, m: seq<byte>, t: Tables, f: seq<nat>, made: set<Place>, goal: set<Place>) {
    && t.Keys == t0.Keys + made && Affordable(t, f, goal)
    && |f| - Owed(t.Keys, goal) == |f0| - Owed(t0.Keys, goal)
    && SamePages(t0, f0, t, f) && OnlyTablesChanged(m0, m, t0, f0)
  }

  lemma GrewNone(m: seq<byte>, t: Tables, f: seq<nat>, goal: set<Place>)
    requires Affordable(t, f, goal)
    ensures Grew(m, t, f, m, t, f, {}, goal)
  {
    SamePagesSelf(t, f);
    NothingChangedAt(m, t, f);
  }

  lemma NothingChangedAt(m: seq<byte>, t: Tables, f: seq<nat>)
    ensures OnlyTablesChanged(m, m, t, f)
  {
  }

  lemma GrewCompose(m0: seq<byte>, t0: Tables, f0: seq<nat>, m1: seq<byte>, t1: Tables, f1: seq<nat>, m2: seq<byte>, t2: Tables, f2: seq<nat>,
      made: set<Place>, more: set<Place>, goal: set<Place>)
    requires Grew(m0, t0, f0, m1, t1, f1, made, goal) && Grew(m1, t1, f1, m2, t2, f2, more, goal)
    ensures Grew(m0, t0, f0, m2, t2, f2, made + more, goal)
  {
    hide SamePages, OnlyTablesChanged, Owed, Affordable;
    SamePagesCompose(t0, f0, t1, f1, t2, f2);
    TableChangesCompose(m0, m1, m2, t0, f0, t1, f1);
  }

  lemma GrewAffords(m0: seq<byte>, t0: Tables, f0: seq<nat>, m: seq<byte>, t: Tables, f: seq<nat>, made: set<Place>, goal: set<Place>)
    requires Grew(m0, t0, f0, m, t, f, made, goal)
    ensures Affordable(t, f, goal) && t.Keys == t0.Keys + made
    ensures SamePages(t0, f0, t, f) && OnlyTablesChanged(m0, m, t0, f0)
  {
  }

  /** At the goal, the pages taken are those that were owed. */
  lemma GrewToGoal(m0: seq<byte>, t0: Tables, f0: seq<nat>, m: seq<byte>, t: Tables, f: seq<nat>, goal: set<Place>)
    requires Grew(m0, t0, f0, m, t, f, goal, goal)
    ensures |f| == |f0| - Owed(t0.Keys, goal)
  {
    NothingOwed(t.Keys, goal);
  }

  lemma SamePagesRoot(f0: seq<nat>, f1: seq<nat>, root: nat)
    requires f0 == [root] + f1
    ensures SamePages(map[], f0, map[Root := root], f1)
  {
    var t: Tables := map[Root := root];
    assert t[Root] == root;
    assert forall x :: x in f0 <==> x == root || x in f1;
  }

  lemma SamePagesStep(t0: Tables, f0: seq<nat>, t: Tables, f: seq<nat>, page: nat)
    requires SamePages(t0, f0, t, f) && |f| >= Missing(t, PathTo(page, false))
    ensures var (t', f') := TablesAfter(t, f, page, false); SamePages(t0, f0, t', f')
  {
    var path := PathTo(page, false);
    PathDepths(page);
    EnsurePath(t, f, P3(page), P2(page), P1(page));
    TablesComeFromStack(t, f, path);
    var k := Missing(t, path);
    assert f == f[..k] + f[k..];
    assert forall x :: x in f <==> x in f[..k] || x in f[k..];
  }

  lemma AddedValue(tables: Tables, p: Place, q: nat)
    requires p !in tables
    ensures forall x :: x in tables[p := q].Values <==> x in tables.Values || x == q
  {
    var t := tables[p := q];
    assert t[p] == q;
    forall x | x in tables.Values
      ensures x in t.Values
    {
      var y :| y in tables && tables[y] == x;
      assert t[y] == x;
    }
  }

  lemma {:induction false} MissingElsewhere(tables: Tables, t: Tables, places: seq<Place>)
    requires forall p :: p in places ==> (p in t <==> p in tables)
    ensures Missing(t, places) == Missing(tables, places)
  {
    if |places| > 0 {
      MissingElsewhere(tables, t, places[1..]);
    }
  }

  /** A 2 MiB mapping sends the 512 pages of its region to 512 consecutive frames
      exactly when the physical address is 2 MiB-aligned. */
  lemma LargeIsLinear(frame: nat)
    ensures (forall page: nat :: LargeTo(frame, page, 0x200) == To(frame + page % 0x200)) <==> frame % 0x200 == 0
  {
    if forall page: nat :: LargeTo(frame, page, 0x200) == To(frame + page % 0x200) {
      assert LargeTo(frame, 0, 0x200) == To(frame);
    }
  }

  /** A 4 KiB mapping inside a region that a 2 MiB page covers reports success
      and maps nothing: unless that page's memory holds a table, every page
      translates as before. */
  lemma StrayWriteMapsNothing(m: seq<byte>, m': seq<byte>, tables: Tables, free: seq<nat>, page: nat, phys: word)
    requires TablesOk(m, tables, free) && page < PAGES && LargeOnPath(m, tables, page)
    requires StrayWrite(m, m', tables, page, phys)
    requires PageOf(StraySlot(m, tables, page)) !in tables.Values
    ensures SameWalks(m, m', tables[Root])
  {
    hide Walk, Word, NewEntry, TreeOf, PageOf, Large, Entry, Frame, PageKept;
    var slot := StraySlot(m, tables, page);
    SlotAligned(0x1000 * Frame(Entry(m, tables, P2(page), I2(page))), I1(page));
    forall p | p in tables
      ensures PageKept(m, m', tables[p], -8)
    {
      assert tables[p] in tables.Values;
      SlotOutside(slot, tables[p]);
      PageMissed(m, m', slot, tables[p]);
    }
    TreeElsewhere(m, m', tables);
  }

  lemma PageMissed(m: seq<byte>, m': seq<byte>, slot: nat, table: nat)
    requires SameOutside(m, m', slot, slot + 8) && (slot + 8 <= table || table + 0x1000 <= slot)
    ensures PageKept(m, m', table, -8)
  {
  }

  lemma SlotOutside(slot: nat, table: nat)
    requires slot % 8 == 0 && table % 0x1000 == 0 && PageOf(slot) != table
    ensures slot + 8 <= table || table + 0x1000 <= slot
  {
  }

  /** So a 4 KiB mapping takes effect exactly when no 2 MiB page is in the way,
      or that page already sends page to the frame asked for. */
  lemma MappingTakesEffect(m: seq<byte>, m': seq<byte>, tables: Tables, free: seq<nat>, root: nat, page: nat, phys: word)
    requires TablesOk(m, tables, free) && Root in tables && root == tables[Root] && page < PAGES
    requires !LargeOnPath(m, tables, page) ==> WalksUpdated(m, m', root, page, FrameOf(phys), false)
    requires LargeOnPath(m, tables, page) ==>
               StrayWrite(m, m', tables, page, phys) && PageOf(StraySlot(m, tables, page)) !in tables.Values
    ensures Walk(m', root, page) == To(FrameOf(phys)) <==>
            !LargeOnPath(m, tables, page) || Walk(m, root, page) == To(FrameOf(phys))
  {
    hide Walk, FrameOf, LargeOnPath, StrayWrite, StraySlot;
    if LargeOnPath(m, tables, page) {
      StrayWriteMapsNothing(m, m', tables, free, page, phys);
    }
  }

  /** One zeroed page is a page map that maps nothing. */
  lemma EmptyRoot(m: seq<byte>, root: nat)
    requires root % 0x1000 == 0 && 0 < root && root + 0x1000 <= |m|
    requires forall b :: root <= b < root + 0x1000 ==> m[b] == 0
    ensures Tree(m, map[Root := root]) && NoLarge(m, map[Root := root])
    ensures forall page: nat :: page < PAGES ==> Walk(m, root, page) == Fault
  {
    hide Word;
    var tables: Tables := map[Root := root];
    ZeroPageReadsZero(m, tables, Root);
    forall page: nat | page < PAGES
      ensures Walk(m, root, page) == Fault
    {
      assert Entry(m, tables, Root, I4(page)) == 0;
    }
  }

  /** Every page translates as the flat map says after i entries and n pages. */
  ghost predicate MatchesFlat(m: seq<byte>, root: nat, entries: seq<MemmapEntry>, b: Bases, i: nat, n: nat) {
    && i <= |entries| && (i == |entries| ==> n == 0)
    && forall page: nat :: page < PAGES ==> Walk(m, root, page) == FlatMap(entries, b, i, n, page)
  }

  lemma FlatMapStart(entries: seq<MemmapEntry>, b: Bases)
    ensures forall page :: FlatMap(entries, b, 0, 0, page) == Fault
  {
  }

  lemma FlatMapStep(m: seq<byte>, m': seq<byte>, root: nat, entries: seq<MemmapEntry>, b: Bases, i: nat, n: nat)
    requires i < |entries| && MatchesFlat(m, root, entries, b, i, n)
    requires WalksUpdated(m, m', root, PageNumber(VirtAt(entries[i], n, b)), FrameOf(PhysAt(entries[i], n)), false)
    ensures MatchesFlat(m', root, entries, b, i, n + 1)
  {
  }

  lemma FlatMapNextEntry(m: seq<byte>, root: nat, entries: seq<MemmapEntry>, b: Bases, i: nat)
    requires i < |entries| && MatchesFlat(m, root, entries, b, i, PageCount(entries[i]))
    ensures MatchesFlat(m, root, entries, b, i + 1, 0)
  {
  }

  lemma VirtAtIs(e: MemmapEntry, n: nat, b: Bases)
    ensures PhysAt(e, n) == Wrap(e.base + 0x1000 * n)
    ensures VirtAt(e, n, b) ==
            if e.kind.KernelAndModules? then Wrap(PhysAt(e, n) + b.kernelVirt - b.kernelPhys) else Wrap(PhysAt(e, n) + b.hhdm)
  {
  }

  lemma FirstNotAgain(places: seq<Place>)
    requires |places| > 0 && forall i, j :: 0 <= i < j < |places| ==> places[i] != places[j]
    ensures places[0] !in PlaceSet(places[1..])
  {
  }

  /** The missing tables of different places are as many as the missing places. */
  lemma {:induction false} MissingIsOwed(tables: Tables, places: seq<Place>)
    requires forall i, j :: 0 <= i < j < |places| ==> places[i] != places[j]
    ensures Missing(tables, places) == Owed(tables.Keys, PlaceSet(places))
  {
    hide Owed, PlaceSet;
    if |places| > 0 {
      var p, rest := places[0], places[1..];
      MissingIsOwed(tables, rest);
      assert places == [p] + rest;
      PlaceSetStep(p, rest);
      FirstNotAgain(places);
      OweOne(tables.Keys, p, PlaceSet(rest));
    } else {
      NoPlaces(places);
      NothingOwed(tables.Keys, {});
    }
  }

  /** Without 2 MiB mappings, the tables missing on its path are all that a page
      needs; mapping it makes that path's tables and takes a page for each. */
  lemma ReadyToMap(m: seq<byte>, tables: Tables, free: seq<nat>, page: nat)
    requires Tree(m, tables) && NoLarge(m, tables) && |free| >= Owed(tables.Keys, PathSet(page))
    ensures !LargeOnPath(m, tables, page)
    ensures Missing(tables, PathTo(page, false)) == Owed(tables.Keys, PathSet(page))
    ensures var (t, f) := TablesAfter(tables, free, page, false);
            t.Keys == tables.Keys + PathSet(page) && |f| == |free| - Owed(tables.Keys, PathSet(page))
  {
    var path := PathTo(page, false);
    PathDepths(page);
    assert PlaceSet(path) == PathSet(page);
    MissingIsOwed(tables, path);
    TablesComeFromStack(tables, free, path);
    if P2(page) in tables {
      assert I2(page) < 512;
    }
  }

  /** Enough free pages for the tables of these places that are still missing. */
  ghost predicate Affordable(tables: Tables, free: seq<nat>, goal: set<Place>) {
    |free| >= Owed(tables.Keys, goal)
  }

  /** One page on the way to a goal: what is left stays affordable, to the page. */
  lemma StepOfGoal(m: seq<byte>, tables: Tables, free: seq<nat>, page: nat, goal: set<Place>)
    requires Tree(m, tables) && NoLarge(m, tables) && Affordable(tables, free, goal) && PathSet(page) <= goal
    ensures !LargeOnPath(m, tables, page) && |free| >= Missing(tables, PathTo(page, false))
    ensures var (t, f) := TablesAfter(tables, free, page, false);
            && t.Keys == tables.Keys + PathSet(page) && Affordable(t, f, goal)
            && |f| - Owed(t.Keys, goal) == |free| - Owed(tables.Keys, goal)
  {
    hide Tree, NoLarge, LargeOnPath, Missing, TablesAfter, PathTo, PathSet, Owed;
    Budget(tables.Keys, PathSet(page), goal);
    ReadyToMap(m, tables, free, page);
  }

  /** InitPaging's loop condition before page n. */
  predicate TurnLeft(e: MemmapEntry, n: nat) { 0x1000 * n < e.length <==> n < PageCount(e) }

  lemma TurnsBegin(e: MemmapEntry)
    ensures TurnLeft(e, 0)
  {
  }

  lemma NextTurn(e: MemmapEntry, n: nat)
    requires n < PageCount(e) && e.length <= WORD_LIMIT - 0x1000
    ensures Wrap(0x1000 * n + 0x1000) == 0x1000 * (n + 1) && TurnLeft(e, n + 1)
  {
  }

  class PageMap {
    const pages: PageAllocator
    const ram: array<byte>
    const off: nat
    var kernelPML4: word
    ghost var tables: Tables

    /** A page map exists: its tables are a tree of frames no longer free. */
    ghost predicate HasTree()
      reads this, pages, ram
    {
      && ram == pages.ram && off == pages.off
      && pages.Valid() && ram.Length <= 0x10_0000_0000_0000
      && TablesOk(ram[..], tables, pages.Free())
    }

    ghost function Translate(page: nat): Translation
      reads this, ram
      requires Root in tables
    {
      Walk(ram[..], tables[Root], page)
    }

    constructor (allocator: PageAllocator)
      ensures pages == allocator && ram == allocator.ram && off == allocator.off
      ensures kernelPML4 == 0 && tables == map[]
    {
      pages, ram, off := allocator, allocator.ram, allocator.off;
      kernelPML4, tables := 0, map[];
    }

    method GetNextLevel(current: word, entry: nat, ghost p: Place) returns (next: word)
      requires HasTree() && p in tables && current == tables[p] + off && entry < 512 && Depth(p) < 3
      requires Large(Entry(ram[..], tables, p, entry)) ==> 0x1000 * Frame(Entry(ram[..], tables, p, entry)) + 0x1000 <= ram.Length
      requires Present(Entry(ram[..], tables, p, entry)) || pages.Free() != []
      modifies this`tables, pages`head, pages`runs, ram
      ensures HasTree()
      ensures old(Present(Entry(ram[..], tables, p, entry))) ==>
                && ram[..] == old(ram[..]) && tables == old(tables) && pages.Free() == old(pages.Free())
                && next == 0x1000 * Frame(Entry(ram[..], tables, p, entry)) + off
      ensures old(!Large(Entry(ram[..], tables, p, entry))) ==>
                && (tables, pages.Free()) == Ensure(old(tables), old(pages.Free()), Under(p, entry))
                && Under(p, entry) in tables && next == tables[Under(p, entry)] + off
      ensures old(!Present(Entry(ram[..], tables, p, entry))) ==>
                EmptyTable(ram[..], tables, Under(p, entry))
      ensures SameWalks(old(ram[..]), ram[..], tables[Root])
      ensures old(NoLarge(ram[..], tables)) ==> NoLarge(ram[..], tables)
      ensures OnlyTablesChanged(old(ram[..]), ram[..], old(tables), old(pages.Free()))
    {
      hide NoLarge, Word, Tree, Walk, NewEntry, SetFrame, SetPresent, SetWritable, PageOf, SameWalks, ListOk, Pages,
        PagesOk, RunsOk, OnlyPagesChanged, Entry, Plain, Ensure, EmptyTable, OnlyTablesChanged;
      ghost var m, free, runs := ram[..], pages.Free(), pages.runs;
      FreePages(m, pages.head, off, runs);
      next := 0;
      if current == 0 { return; }
      EntryInside(m, tables, p, entry);
      PresentLeadsDown(m, tables, p, entry);
      var slot := current - off + 8 * entry;
      var e := ReadWord(ram, slot);
      if !Present(e) {
        FreshPageApart(tables, free, |m|);
        var page := pages.AllocatePage();
        if page == 0 { return; }
        if page % 0x1000 != 0 { return; }
        ghost var m1 := ram[..];
        WriteMapping(slot, page);
        EntryReads(m1, tables, p, entry);
        EnsureAbsent(tables, free, Under(p, entry));
        TableEntered(m, m1, ram[..], tables, free, p, entry);
        TableWriteKeepsList(m1, ram[..], pages.head, off, pages.runs, tables[p], entry);
        tables := tables[Under(p, entry) := page];
        return Wrap(page + off);
      } else {
        EnsurePresent(tables, free, Under(p, entry));
        NothingChanged(m, tables, free);
        return Wrap(Frame(e) * 0x1000 + off);
      }
    }

    /** The writes MemoryMap makes into the entry it ends up with. */
    method WriteMapping(slot: nat, phys: word)
      requires slot + 8 <= ram.Length
      modifies ram
      ensures Stored(old(ram[..]), ram[..], slot, NewEntry(Word(old(ram[..]), slot), phys / 0x1000))
    {
      hide NoLarge, Word, SetFrame, SetPresent, SetWritable, NewEntry;
      ghost var m := ram[..];
      var e := ReadWord(ram, slot);
      WriteWord(ram, slot, SetFrame(e, phys / 0x1000));
      ghost var m2, e0 := ram[..], e;
      e := ReadWord(ram, slot);
      WriteWord(ram, slot, SetPresent(e));
      ghost var m3 := ram[..];
      e := ReadWord(ram, slot);
      WriteWord(ram, slot, SetWritable(e));
      NewEntryIs(e0, phys / 0x1000);
      ThreeStores(m, m2, m3, ram[..], slot, e0, phys / 0x1000);
    }

    /** MemoryMap's way down to the level-2 table. */
    method LevelTwo(target: word, virt: word, ghost page: nat) returns (pml2: word)
      requires HasTree() && target == tables[Root] + off && page == PageNumber(virt)
      requires |pages.Free()| >= Missing(tables, PathTo(page, true))
      modifies this`tables, pages`head, pages`runs, ram
      ensures HasTree()
      ensures (tables, pages.Free()) == EnsureAll(old(tables), old(pages.Free()), PathTo(page, true))
      ensures P2(page) in tables && pml2 == tables[P2(page)] + off
      ensures P2(page) in old(tables) ==> ram[..] == old(ram[..])
      ensures P2(page) !in old(tables) ==> EmptyTable(ram[..], tables, P2(page))
      ensures SameWalks(old(ram[..]), ram[..], tables[Root])
      ensures old(NoLarge(ram[..], tables)) ==> NoLarge(ram[..], tables)
      ensures OnlyTablesChanged(old(ram[..]), ram[..], old(tables), old(pages.Free()))
    {
      hide NoLarge, Word, Walk, Tree, Entry, SameWalks, OnlyTablesChanged, ListOk, Pages, EmptyTable, PageNumber;
      ghost var m, t0, f0 := ram[..], tables, pages.Free();
      IndexBits(virt);
      PathDepths(page);
      EnsurePath(t0, f0, P3(page), P2(page), P1(page));
      PathKnown(m, t0, page);
      var pml3 := GetNextLevel(target, virt / 0x80_0000_0000 % 512, Root);
      ghost var m1, t1, f1 := ram[..], tables, pages.Free();
      EnsureFrames(t0, f0, P3(page));
      PathKnown(m1, t1, page);
      pml2 := GetNextLevel(pml3, virt / 0x4000_0000 % 512, P3(page));
      OnlyTablesCompose(m, m1, ram[..], t0, f0, t1, f1);
      SameWalksCompose(m, m1, ram[..], tables[Root]);
    }

    /** MemoryMap's branch for 4 KiB pages. When a 2 MiB page is in the way the
        code takes the memory that page maps for a table. */
    method MapSmall(pml2: word, virt: word, phys: word, ghost page: nat)
      requires HasTree() && P2(page) in tables && pml2 == tables[P2(page)] + off && page == PageNumber(virt)
      requires P1(page) in tables || LargeOnPath(ram[..], tables, page) || pages.Free() != []
      requires LargeOnPath(ram[..], tables, page) ==> StraySlot(ram[..], tables, page) - 8 * I1(page) + 0x1000 <= ram.Length
      modifies this`tables, pages`head, pages`runs, ram
      ensures !old(LargeOnPath(ram[..], tables, page)) ==>
                && HasTree() && Root in tables
                && (tables, pages.Free()) == Ensure(old(tables), old(pages.Free()), P1(page))
                && LeafWord(ram[..], tables, page, FrameOf(phys), false)
                && WalksUpdated(old(ram[..]), ram[..], tables[Root], page, FrameOf(phys), false)
                && (old(NoLarge(ram[..], tables)) ==> NoLarge(ram[..], tables))
                && OnlyTablesChanged(old(ram[..]), ram[..], old(tables), old(pages.Free()))
      ensures old(LargeOnPath(ram[..], tables, page)) ==>
                && tables == old(tables) && pages.Free() == old(pages.Free())
                && StrayWrite(old(ram[..]), ram[..], tables, page, phys)
    {
      hide NoLarge, Word, Walk, Tree, Entry, SameWalks, WalksUpdated, OnlyTablesChanged, ListOk, Pages, PageNumber,
        Ensure, NewEntry, Large, Present, Frame, LeafWord;
      IndexBits(virt);
      PathDepths(page);
      ghost var m, t0, f0 := ram[..], tables, pages.Free();
      Level2Known(m, t0, page);
      var lowest := GetNextLevel(pml2, virt / 0x20_0000 % 512, P2(page));
      var slot := lowest - off + 8 * (virt / 0x1000 % 512);
      ghost var m3 := ram[..];
      if !LargeOnPath(m, t0, page) {
        EntryInside(m3, tables, P1(page), I1(page));
      }
      WriteMapping(slot, phys);
      if !LargeOnPath(m, t0, page) {
        SmallMappingDone(m, m3, ram[..], tables, page, Word(m3, slot), phys / 0x1000);
        SmallWord(m, ram[..], tables, page, FrameOf(phys));
        TableWriteKeepsList(m3, ram[..], pages.head, off, pages.runs, tables[P1(page)], I1(page));
        EnsureFrames(t0, f0, P1(page));
        TableStoreOnly(m3, ram[..], tables, pages.Free(), P1(page), I1(page));
        OnlyTablesCompose(m, m3, ram[..], t0, f0, tables, pages.Free());
      }
    }

    /** MemoryMap's branch for 2 MiB pages. */
    method MapLarge(pml2: word, virt: word, phys: word, ghost page: nat)
      requires HasTree() && P2(page) in tables && pml2 == tables[P2(page)] + off && page == PageNumber(virt)
      modifies this`tables, ram
      ensures HasTree() && Root in tables
      ensures tables == Cut(old(tables), P2(page), I2(page))
      ensures WalksUpdated(old(ram[..]), ram[..], tables[Root], page, FrameOf(phys), true)
      ensures LeafWord(ram[..], tables, page, FrameOf(phys), true)
      ensures OnlyTablesChanged(old(ram[..]), ram[..], old(tables), pages.Free())
    {
      hide NoLarge, Word, Walk, Tree, Entry, SameWalks, WalksUpdated, OnlyTablesChanged, ListOk, Pages, PageNumber,
        NewEntry, SetLarge, LeafWord;
      IndexBits(virt);
      PathDepths(page);
      ghost var m := ram[..];
      EntryInside(m, tables, P2(page), I2(page));
      var slot := pml2 - off + 8 * (virt / 0x20_0000 % 512);
      var e := ReadWord(ram, slot);
      WriteWord(ram, slot, SetLarge(e));
      ghost var m1 := ram[..];
      WriteMapping(slot, phys);
      NothingChanged(m, tables, pages.Free());
      LargeMappingDone(m, m, ram[..], tables, page, e, phys / 0x1000);
      TableWriteKeepsList(m, ram[..], pages.head, off, pages.runs, tables[P2(page)], I2(page));
      TableStoreOnly(m, ram[..], tables, pages.Free(), P2(page), I2(page));
      tables := Cut(tables, P2(page), I2(page));
    }

    /** The page map MemoryMap works on: the one given, or else the kernel's. */
    ghost predicate Targets(target: word)
      reads this, pages, ram
    {
      HasTree() && (if target == 0 then kernelPML4 else target) == tables[Root] + off
    }

    ghost predicate NoMap(target: word)
      reads this
    {
      target == 0 && kernelPML4 == 0
    }

    /** Enough free pages for the missing tables, and memory behind a 2 MiB page
        that stands in the way. */
    ghost predicate CanMap(page: nat, large: bool)
      reads this, pages, ram
    {
      && |pages.Free()| >= Missing(tables, PathTo(page, large))
      && (!large && LargeOnPath(ram[..], tables, page) ==> StraySlot(ram[..], tables, page) - 8 * I1(page) + 0x1000 <= ram.Length)
    }

    method MemoryMap(target: word, virt: word, phys: word, largePage: bool) returns (ok: bool)
      requires NoMap(target) || (Targets(target) && CanMap(PageNumber(virt), largePage))
      modifies this`tables, pages`head, pages`runs, ram
      ensures ok <==> !old(NoMap(target))
      ensures !ok ==> ram[..] == old(ram[..]) && tables == old(tables) && pages.Free() == old(pages.Free())
      ensures ok && (largePage || !old(LargeOnPath(ram[..], tables, PageNumber(virt)))) ==>
                && HasTree() && Root in tables && Root in old(tables) && tables[Root] == old(tables)[Root]
                && (tables, pages.Free()) == TablesAfter(old(tables), old(pages.Free()), PageNumber(virt), largePage)
                && WalksUpdated(old(ram[..]), ram[..], tables[Root], PageNumber(virt), FrameOf(phys), largePage)
                && LeafWord(ram[..], tables, PageNumber(virt), FrameOf(phys), largePage) && KernelOnly(ram[..], tables[Root])
                && (!largePage && old(NoLarge(ram[..], tables)) ==> NoLarge(ram[..], tables))
                && OnlyTablesChanged(old(ram[..]), ram[..], old(tables), old(pages.Free()))
      ensures ok && !largePage && old(LargeOnPath(ram[..], tables, PageNumber(virt))) ==>
                && tables == old(tables) && pages.Free() == old(pages.Free())
                && StrayWrite(old(ram[..]), ram[..], tables, PageNumber(virt), phys)
    {
      hide NoLarge, Word, Walk, Tree, Entry, SameWalks, WalksUpdated, OnlyTablesChanged, ListOk, Pages, EmptyTable,
        PageNumber, Ensure, Missing, EnsureAll, LargeOnPath, StraySlot, StrayWrite, LeafWord, KernelOnly;
      var pml4 := target;
      if pml4 == 0 {
        if kernelPML4 == 0 {
          return false;
        }
        pml4 := kernelPML4;
      }
      ghost var page, m, t0, f0 := PageNumber(virt), ram[..], tables, pages.Free();
      IndexBits(virt);
      PathKnown(m, t0, page);
      EnsurePath(t0, f0, P3(page), P2(page), P1(page));
      var pml2 := LevelTwo(pml4, virt, page);
      ghost var m2, t2, f2 := ram[..], tables, pages.Free();
      LevelTwoKeeps(m, m2, t0, f0, t2, f2, page);
      EnsureFrames(t2, f2, P1(page));
      if !largePage {
        MapSmall(pml2, virt, phys, page);
      } else {
        MapLarge(pml2, virt, phys, page);
      }
      if largePage || !LargeOnPath(m, t0, page) {
        WalksUpdatedAfter(m, m2, ram[..], tables[Root], page, FrameOf(phys), largePage);
        OnlyTablesCompose(m, m2, ram[..], t0, f0, t2, f2);
        TreeIsKernelOnly(ram[..], tables);
      }
      return true;
    }

    /** InitPaging's state: a page map of 4 KiB pages that translates as the flat
        map says after i entries and n pages. */
    ghost predicate Mapping(entries: seq<MemmapEntry>, b: Bases, i: nat, n: nat)
      reads this, pages, ram
    {
      HasTree() && Root in tables && NoLarge(ram[..], tables) && MatchesFlat(ram[..], tables[Root], entries, b, i, n)
    }

    /** One turn of InitPaging's inner loop. */
    method MapOne(pml4: word, entries: seq<MemmapEntry>, b: Bases, i: nat, j: word, ghost n: nat, ghost goal: set<Place>)
      requires i < |entries| && n < PageCount(entries[i]) && j == 0x1000 * n && off == b.hhdm
      requires Mapping(entries, b, i, n) && pml4 != 0 && pml4 == tables[Root] + off
      requires goal == EntryPlaces(entries[i], b) && Affordable(tables, pages.Free(), goal)
      modifies this`tables, pages`head, pages`runs, ram
      ensures Mapping(entries, b, i, n + 1) && pml4 == tables[Root] + off
      ensures Grew(old(ram[..]), old(tables), old(pages.Free()), ram[..], tables, pages.Free(),
                PathSet(PageNumber(VirtAt(entries[i], n, b))), goal)
    {
      hide SamePages, NoLarge, Word, Walk, Tree, Entry, SameWalks, WalksUpdated, OnlyTablesChanged, ListOk, Pages,
        LargeOnPath, StraySlot, StrayWrite, Missing, TablesAfter, VirtAt, PhysAt, PageNumber, FrameOf, MatchesFlat,
        PathSet, PathsFrom, EntryPlaces, FirstNumber, Affordable, Owed, LeafWord, KernelOnly, Popped, Mapped;
      ghost var m, t, f := ram[..], tables, pages.Free();
      var e := entries[i];
      var phys := Wrap(e.base + j);
      var virt := if e.kind.KernelAndModules? then Wrap(phys + b.kernelVirt - b.kernelPhys) else Wrap(phys + off);
      VirtAtIs(e, n, b);
      EntryStep(e, b, n);
      StepOfGoal(m, t, f, PageNumber(virt), goal);
      SamePagesSelf(t, f);
      SamePagesStep(t, f, t, f, PageNumber(virt));
      var ok := MemoryMap(pml4, virt, phys, false);
      FlatMapStep(m, ram[..], tables[Root], entries, b, i, n);
    }

    /** InitPaging's inner loop: the pages of entry i. */
    method MapEntry(pml4: word, entries: seq<MemmapEntry>, b: Bases, i: nat)
      requires i < |entries| && entries[i].length <= WORD_LIMIT - 0x1000 && off == b.hhdm
      requires Mapping(entries, b, i, 0) && pml4 != 0 && pml4 == tables[Root] + off
      requires Affordable(tables, pages.Free(), EntryPlaces(entries[i], b))
      modifies this`tables, pages`head, pages`runs, ram
      ensures Mapping(entries, b, i, PageCount(entries[i])) && pml4 == tables[Root] + off
      ensures tables.Keys == old(tables).Keys + EntryPlaces(entries[i], b)
      ensures |pages.Free()| == |old(pages.Free())| - Owed(old(tables).Keys, EntryPlaces(entries[i], b))
      ensures SamePages(old(tables), old(pages.Free()), tables, pages.Free())
      ensures OnlyTablesChanged(old(ram[..]), ram[..], old(tables), old(pages.Free()))
    {
      hide SamePages, OnlyTablesChanged, NoLarge, Tree, ListOk, Pages, VirtAt, PageNumber, MatchesFlat, PathSet, PathsFrom,
        EntryPlaces, FirstNumber, Affordable, Owed, Grew, PageCount, Wrap, PageOf, TablesOk, HasTree;
      var e := entries[i];
      var j: word := 0;
      ghost var n, h, goal := 0, FirstNumber(e, b), EntryPlaces(e, b);
      ghost var m0, t0, f0 := ram[..], tables, pages.Free();
      GrewNone(m0, t0, f0, goal);
      EntryEnds(e, b);
      TurnsBegin(e);
      while j < e.length
        invariant j == 0x1000 * n && n <= PageCount(e) && TurnLeft(e, n)
        invariant Mapping(entries, b, i, n) && pml4 == tables[Root] + off
        invariant Grew(m0, t0, f0, ram[..], tables, pages.Free(), PathsFrom(h, n), goal)
        decreases PageCount(e) - n
      {
        ghost var m, t, f := ram[..], tables, pages.Free();
        GrewAffords(m0, t0, f0, m, t, f, PathsFrom(h, n), goal);
        MapOne(pml4, entries, b, i, j, n, goal);
        EntryStep(e, b, n);
        GrewCompose(m0, t0, f0, m, t, f, ram[..], tables, pages.Free(), PathsFrom(h, n), PathSet(PageNumber(VirtAt(e, n, b))), goal);
        NextTurn(e, n);
        n := n + 1;
        j := Wrap(j + 0x1000);
      }
      GrewToGoal(m0, t0, f0, ram[..], tables, pages.Free(), goal);
      GrewAffords(m0, t0, f0, ram[..], tables, pages.Free(), goal, goal);
    }

    /** InitPaging builds the kernel's page map from the memory map. It needs a
        page for the root and for each place on the way to a listed page, and
        takes no more. */
    method InitPaging(entries: seq<MemmapEntry>, b: Bases)
      requires pages.Valid() && ram == pages.ram && off == pages.off == b.hhdm && ram.Length <= 0x10_0000_0000_0000
      requires |pages.Free()| >= 1 + |AllPlaces(entries, b, 0)|
      requires forall i :: 0 <= i < |entries| ==> entries[i].length <= WORD_LIMIT - 0x1000
      modifies this, pages`head, pages`runs, ram
      ensures HasTree() && Root in tables && kernelPML4 == tables[Root] + off
      ensures NoLarge(ram[..], tables)
      ensures forall page: nat :: page < PAGES ==> Translate(page) == FlatMap(entries, b, |entries|, 0, page)
      ensures KernelOnly(ram[..], tables[Root])
      ensures tables.Keys == {Root} + AllPlaces(entries, b, 0)
      ensures |pages.Free()| == |old(pages.Free())| - 1 - |AllPlaces(entries, b, 0)|
      ensures SamePages(map[], old(pages.Free()), tables, pages.Free())
      ensures OnlyTablesChanged(old(ram[..]), ram[..], map[], old(pages.Free()))
    {
      hide SamePages, OnlyTablesChanged, NoLarge, Word, Walk, Tree, Entry, ListOk, Pages, PagesOk, PageCount, FlatMap, EntryPlaces,
        AllPlaces, Affordable, Owed, KernelOnly;
      ghost var m0, free := ram[..], pages.Free();
      var pml4 := MakeRoot(entries, b);
      var i := 0;
      while i < |entries|
        invariant 0 <= i <= |entries|
        invariant Mapping(entries, b, i, 0) && pml4 == tables[Root] + off
        invariant Paid(tables, pages.Free(), free, AllPlaces(entries, b, i), AllPlaces(entries, b, 0))
        invariant SamePages(map[], free, tables, pages.Free()) && OnlyTablesChanged(m0, ram[..], map[], free)
      {
        ghost var m, t, f := ram[..], tables, pages.Free();
        NextToPay(entries, b, i, t, f, free);
        MapEntry(pml4, entries, b, i);
        EntryPaid(entries, b, i, t, f, tables, pages.Free(), free);
        TableChangesCompose(m0, m, ram[..], map[], free, t, f);
        SamePagesCompose(map[], free, t, f, tables, pages.Free());
        FlatMapNextEntry(ram[..], tables[Root], entries, b, i);
        i := i + 1;
      }
      NothingToPay(entries, b, tables);
      TreeIsKernelOnly(ram[..], tables);
      kernelPML4 := pml4;
    }

    /** InitPaging's first allocation. */
    method MakeRoot(entries: seq<MemmapEntry>, b: Bases) returns (pml4: word)
      requires pages.Valid() && ram == pages.ram && off == pages.off == b.hhdm && ram.Length <= 0x10_0000_0000_0000
      requires |pages.Free()| >= 1 + |AllPlaces(entries, b, 0)|
      modifies this`tables, pages`head, pages`runs, ram
      ensures Mapping(entries, b, 0, 0) && pml4 != 0 && pml4 == tables[Root] + off
      ensures Paid(tables, pages.Free(), old(pages.Free()), AllPlaces(entries, b, 0), AllPlaces(entries, b, 0))
      ensures SamePages(map[], old(pages.Free()), tables, pages.Free())
      ensures OnlyTablesChanged(old(ram[..]), ram[..], map[], old(pages.Free()))
    {
      hide SamePages, OnlyTablesChanged, OnlyPagesChanged, Popped, NoLarge, Word, Walk, Tree, Entry, ListOk, Pages, PagesOk,
        FlatMap, AllPlaces, Owed, PageOf, Paid, MatchesFlat;
      ghost var m, free := ram[..], pages.Free();
      FreePages(m, pages.head, off, pages.runs);
      FreshPageApart(map[], free, ram.Length);
      var root := pages.AllocatePage();
      tables := map[Root := root];
      EmptyRoot(ram[..], root);
      RootMatches(ram[..], root, entries, b);
      SamePagesRoot(free, pages.Free(), root);
      OnlyStackChanged(m, ram[..], free);
      RootPaid(entries, b, root, pages.Free(), free);
      pml4 := Wrap(root + off);
    }
  }

  lemma RootMatches(m: seq<byte>, root: nat, entries: seq<MemmapEntry>, b: Bases)
    requires forall page: nat :: page < PAGES ==> Walk(m, root, page) == Fault
    ensures MatchesFlat(m, root, entries, b, 0, 0)
  {
    hide Walk;
    FlatMapStart(entries, b);
  }

  lemma OnlyStackChanged(m: seq<byte>, m': seq<byte>, free: seq<nat>)
    requires OnlyPagesChanged(m, m', free)
    ensures OnlyTablesChanged(m, m', map[], free)
  {
  }

  lemma RootPaid(entries: seq<MemmapEntry>, b: Bases, root: nat, free: seq<nat>, free0: seq<nat>)
    requires |free| + 1 == |free0| && |free0| >= 1 + |AllPlaces(entries, b, 0)|
    ensures Paid(map[Root := root], free, free0, AllPlaces(entries, b, 0), AllPlaces(entries, b, 0))
  {
    hide AllPlaces, Owed;
    var tables: Tables := map[Root := root];
    RootNotListed(entries, b, 0);
    AllOwed(tables.Keys, AllPlaces(entries, b, 0));
  }

  /** Of the tables all that are needed, those of the places left are still to be
      made; the free pages have paid for the others, and suffice. */
  ghost predicate Paid(tables: Tables, free: seq<nat>, free0: seq<nat>, left: set<Place>, all: set<Place>) {
    && tables.Keys + left == {Root} + all
    && Affordable(tables, free, left)
    && |free| - Owed(tables.Keys, left) == |free0| - 1 - |all|
  }

  lemma NextToPay(entries: seq<MemmapEntry>, b: Bases, i: nat, tables: Tables, free: seq<nat>, free0: seq<nat>)
    requires i < |entries| && Paid(tables, free, free0, AllPlaces(entries, b, i), AllPlaces(entries, b, 0))
    ensures Affordable(tables, free, EntryPlaces(entries[i], b))
  {
    hide EntryPlaces, Owed;
    Budget(tables.Keys, EntryPlaces(entries[i], b), AllPlaces(entries, b, i));
  }

  lemma EntryPaid(entries: seq<MemmapEntry>, b: Bases, i: nat, t: Tables, f: seq<nat>, t': Tables, f': seq<nat>, free0: seq<nat>)
    requires i < |entries| && Paid(t, f, free0, AllPlaces(entries, b, i), AllPlaces(entries, b, 0))
    requires t'.Keys == t.Keys + EntryPlaces(entries[i], b)
    requires |f'| == |f| - Owed(t.Keys, EntryPlaces(entries[i], b))
    ensures Paid(t', f', free0, AllPlaces(entries, b, i + 1), AllPlaces(entries, b, 0))
  {
    hide EntryPlaces, Owed;
    BudgetParts(t.Keys, EntryPlaces(entries[i], b), AllPlaces(entries, b, i + 1));
  }

  lemma NothingToPay(entries: seq<MemmapEntry>, b: Bases, tables: Tables)
    ensures Owed(tables.Keys, AllPlaces(entries, b, |entries|)) == 0
    ensures tables.Keys + AllPlaces(entries, b, |entries|) == tables.Keys
  {
  }
}
