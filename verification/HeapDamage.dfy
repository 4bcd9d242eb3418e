/** What the heap's unchecked steps do when they go wrong: a split that leaves less
    than a header, and a copy into a smaller block. */
module HeapDamage {
  import opened Arithmetic
  import opened Memory
  import opened FreeList
  import opened PhysicalPages
  import opened HeapBlocks
  import opened Heap

  /** What the size word right behind a block becomes when the header {r, head} of a
      remainder of r bytes, 1 to 15, runs over it: s is what it was. */
  function Overrun(r: nat, head: nat, s: nat): int
    requires 0 < r < HEADER
  {
    PowersArePositive(if r <= 8 then r else r - 8);
    PowersArePositive(if r <= 8 then 8 - r else 16 - r);
    if r <= 8 then Pow256(8 - r) * (head % Pow256(r))
    else head / Pow256(r - 8) + Pow256(16 - r) * (s / Pow256(16 - r))
  }

  lemma {:induction false} PowersArePositive(n: nat)
    ensures Pow256(n) > 0 && (n > 0 ==> Pow256(n) >= 256)
  {
    if n > 0 { PowersArePositive(n - 1); }
  }

  lemma {:induction false} LoadSplit(m: seq<byte>, a: nat, i: nat, j: nat)
    requires a + i + j <= |m|
    ensures LoadLE(m, a, i + j) == LoadLE(m, a, i) + Pow256(i) * LoadLE(m, a + i, j)
    decreases i
  {
    if i > 0 {
      LoadSplit(m, a + 1, i - 1, j);
      Reassociate(Pow256(i - 1), LoadLE(m, a + i, j));
      assert LoadLE(m, a + 1, i - 1 + j) == LoadLE(m, a + 1, i - 1) + Pow256(i - 1) * LoadLE(m, a + i, j);
    }
  }

  lemma Reassociate(p: nat, x: nat)
    ensures 256 * (p * x) == (256 * p) * x
  {
  }

  lemma LowAndHigh(m: seq<byte>, a: nat, i: nat, w: nat)
    requires a + 8 <= |m| && 0 < i <= 8 && LoadLE(m, a, 8) == w
    ensures Pow256(i) > 0
    ensures LoadLE(m, a, i) == w % Pow256(i) && LoadLE(m, a + i, 8 - i) == w / Pow256(i)
  {
    PowersArePositive(i);
    LoadSplit(m, a, i, 8 - i);
    Division(w, Pow256(i), LoadLE(m, a + i, 8 - i), LoadLE(m, a, i));
  }

  /** A remainder of up to 8 bytes: the rest of its size word, all zeroes, and the
      low bytes of the head. */
  lemma ShortOverrun(m: seq<byte>, at: nat, r: nat, head: nat)
    requires at + HEADER <= |m| && 0 < r <= 8 && LoadLE(m, at, 8) == r && LoadLE(m, at + 8, 8) == head
    ensures LoadLE(m, at + r, 8) == Overrun(r, head, 0)
  {
    hide LoadLE, Pow256;
    PowersArePositive(r);
    LowAndHigh(m, at, r, r);
    Division(r, Pow256(r), 0, r);
    LowAndHigh(m, at + 8, r, head);
    LoadSplit(m, at + r, 8 - r, r);
  }

  /** A longer one: the high bytes of the head, and the high bytes that were there. */
  lemma LongOverrun(m: seq<byte>, m': seq<byte>, at: nat, r: nat, head: nat, s: nat)
    requires at + r + 8 <= |m| == |m'| && 8 < r < HEADER && LoadLE(m', at + 8, 8) == head
    requires LoadLE(m, at + r, 8) == s && SameWithin(m, m', at + HEADER, at + r + 8)
    ensures LoadLE(m', at + r, 8) == Overrun(r, head, s)
  {
    hide LoadLE, Pow256;
    var t := r - 8;
    LowAndHigh(m', at + 8, t, head);
    LowAndHigh(m, at + r, 8 - t, s);
    LoadDependsOnBytes(m, m', at + HEADER, t);
    LoadSplit(m', at + r, 8 - t, t);
  }

  /** The damage done: the header of a remainder of 1 to 15 bytes runs past the block
      and over the size of a live block right behind. That size becomes Overrun(r,
      head, size), and survives exactly if this is the size it was. */
  lemma NeighbourSurvivesExactly(m1: seq<byte>, m2: seq<byte>, m3: seq<byte>, head1: nat, head2: nat, off: nat, blk: Block, size: word,
      next: Block)
    requires blk.size > HEADER + size && !RemainderOk(blk, size)
    requires RemainderInserted(m1, m2, head1, head2, off, blk, size)
    requires Stored(m2, m3, blk.base, HEADER + size)
    requires next.base == blk.End() && next.base + 8 <= |m1| && Word(m1, next.base) == next.size
    ensures var r := blk.size - (HEADER + size);
      && Word(m3, next.base) == Overrun(r, head1, next.size)
      && (Word(m3, next.base) == next.size <==> Overrun(r, head1, next.size) == next.size)
  {
    hide LoadLE, Overrun;
    var at, r := blk.base + HEADER + size, blk.size - (HEADER + size);
    HeaderKept(m2, m3, at, r, head1);
    if r <= 8 {
      ShortOverrun(m3, at, r, head1);
      ShortForgets(r, head1, next.size);
    } else {
      LongOverrun(m1, m3, at, r, head1, next.size);
    }
  }

  lemma ShortForgets(r: nat, head: nat, s: nat)
    requires 0 < r <= 8
    ensures Overrun(r, head, s) == Overrun(r, head, 0)
  {
  }

  /** Eight bytes left over put the old list head where the next block has its size:
      with pointers in the higher half no live block survives that. */
  lemma EightLeftDestroys(m1: seq<byte>, m2: seq<byte>, m3: seq<byte>, head1: nat, head2: nat, off: nat, blk: Block, size: word,
      live: seq<Block>, j: nat)
    requires blk.size == HEADER + size + 8 && off > |m1| && (head1 == 0 || head1 >= off)
    requires RemainderInserted(m1, m2, head1, head2, off, blk, size)
    requires Stored(m2, m3, blk.base, HEADER + size)
    requires j < |live| && live[j].base == blk.End() && HEADER <= live[j].size && live[j].End() <= |m1|
    ensures !LiveHeaders(m3, live)
  {
    hide Word;
    HeaderKept(m2, m3, blk.base + HEADER + size, 8, head1);
    assert Word(m3, live[j].base) == head1;
  }

  /** In every memory the split of blk writes inside blk only. */
  ghost predicate SplitStaysInside(length: nat, off: nat, blk: Block, size: word) {
    forall m1, m2, head1: nat, head2 :: |m1| == length && RemainderInserted(m1, m2, head1, head2, off, blk, size) ==>
      SameOutside(m1, m2, blk.base, blk.End())
  }

  /** The exact condition, over all memories: a split touches nothing outside its
      block exactly if the remainder is 0 or has room for a header. */
  lemma SplitStaysInsideExactly(length: nat, off: nat, blk: Block, size: word)
    requires blk.size >= HEADER + size && blk.End() + HEADER <= length < WORD_LIMIT
    ensures SplitStaysInside(length, off, blk, size) <==> RemainderOk(blk, size)
  {
    if !RemainderOk(blk, size) {
      var m1, m2 := SplitOverruns(length, off, blk, size);
      assert RemainderInserted(m1, m2, 0, blk.base + HEADER + size + off, off, blk, size);
    }
  }

  /** A memory in which the byte right behind the block changes. */
  lemma SplitOverruns(length: nat, off: nat, blk: Block, size: word) returns (m1: seq<byte>, m2: seq<byte>)
    requires blk.size > HEADER + size && !RemainderOk(blk, size) && blk.End() + HEADER <= length < WORD_LIMIT
    ensures |m1| == length && !SameOutside(m1, m2, blk.base, blk.End())
    ensures RemainderInserted(m1, m2, 0, blk.base + HEADER + size + off, off, blk, size)
  {
    hide Word;
    var at, r := blk.base + HEADER + size, blk.size - (HEADER + size);
    m1 := seq(length, _ => 1);
    var m := StoreExists(m1, at, r);
    m2 := StoreExists(m, at + 8, 0);
    WordKept(m, m2, at);
    SmallWordBytes(m2, at, r);
    SmallWordBytes(m2, at + 8, 0);
    assert m2[at + r] == 0 && m1[at + r] == 1;
  }

  /** A word below 256 has zeroes in its upper bytes; the word 0 in all. */
  lemma SmallWordBytes(m: seq<byte>, a: nat, x: byte)
    requires a + 8 <= |m| && Word(m, a) == x
    ensures forall i :: a + 1 <= i < a + 8 ==> m[i] == 0
    ensures x == 0 ==> m[a] == 0
  {
    var z: seq<byte> := seq(|m|, _ => 0);
    var rest := LoadLE(m, a + 1, 7);
    assert Word(m, a) == m[a] + 256 * rest;
    assert rest == 0;
    LoadOfZeroes(z, a + 1, 7);
    LoadIsInjective(m, z, a + 1, 7);
  }

  // It happens to a heap of one growth: allocate 24 bytes and 16, and free the first.

  function GrownFree(p: nat): seq<Block> { [Block(p, 40960)] }

  function ScarredFree(p: nat): seq<Block> { [Block(p, 40), Block(p + 72, 40888)] }

  function ScarredLive(p: nat): seq<Block> { [Block(p + 40, 32)] }

  /** The three calls lead from the one to the other, each of them soundly; then a
      request for 16 bytes finds the block of 40 and leaves 8, with the live block
      right behind. */
  lemma SmallRemainderReached(p: nat, pages: seq<nat>, off: nat)
    ensures var first, second := [Block(p, 40)], [Block(p, 40), Block(p + 40, 32)];
      && Served(GrownFree(p), [], pages, 24, [Block(p + 40, 40920)], first, pages, p + off, off)
      && CleanSplit(GrownFree(p), pages, 24)
      && Served([Block(p + 40, 40920)], first, pages, 16, [Block(p + 72, 40888)], second, pages, p + 40 + off, off)
      && CleanSplit([Block(p + 40, 40920)], pages, 16)
      && [second[0]] + [Block(p + 72, 40888)] == ScarredFree(p) && Without(second, 0) == ScarredLive(p)
    ensures FirstFit(ScarredFree(p), 16, 0) == 0 && !CleanSplit(ScarredFree(p), pages, 16)
    ensures ScarredFree(p)[0].size == HEADER + 16 + 8 && ScarredFree(p)[0].End() == ScarredLive(p)[0].base
  {
    ServedByFirst(Block(p, 40960), [], pages, 24);
    ServedByFirst(Block(p + 40, 40920), [Block(p, 40)], pages, 16);
  }

  lemma ServedByFirst(blk: Block, live: seq<Block>, pages: seq<nat>, size: word)
    requires HEADER + size < blk.size <= 40960
    ensures FirstFit([blk], size, 0) == 0 && Grown([blk], pages, size) == ([blk], pages)
    ensures AfterTake([blk], 0, size) == [Block(blk.base + HEADER + size, blk.size - HEADER - size)]
  {
  }

  /** Such a heap in memory, with its pages at 0x1000 and the higher half at off. */
  const HIGHER_HALF: nat := 0xFFFF_8000_0000_0000

  function ScarredMemory(): (m: seq<byte>)
    ensures |m| == 0x1_0000
  {
    StoreLE(StoreLE(StoreLE(StoreLE(seq(0x1_0000, _ => 0), 0x1000, 8, 40), 0x1008, 8, 0x1048 + HIGHER_HALF),
      0x1028, 8, 32), 0x1048, 8, 40888)
  }

  lemma ScarredWords()
    ensures var m := ScarredMemory();
      && Word(m, 0x1000) == 40 && Word(m, 0x1008) == 0x1048 + HIGHER_HALF && Word(m, 0x1028) == 32
      && Word(m, 0x1048) == 40888 && Word(m, 0x1050) == 0
  {
    hide LoadLE, StoreLE;
    var z: seq<byte> := seq(0x1_0000, _ => 0);
    var a := StoreLE(z, 0x1000, 8, 40);
    var b := StoreLE(a, 0x1008, 8, 0x1048 + HIGHER_HALF);
    var c := StoreLE(b, 0x1028, 8, 32);
    var m := StoreLE(c, 0x1048, 8, 40888);
    EightBytesMakeAWord();
    LoadAfterStore(z, 0x1000, 8, 40);
    LoadAfterStore(a, 0x1008, 8, 0x1048 + HIGHER_HALF);
    LoadAfterStore(b, 0x1028, 8, 32);
    LoadAfterStore(c, 0x1048, 8, 40888);
    LoadDependsOnBytes(a, m, 0x1000, 8);
    LoadDependsOnBytes(b, m, 0x1008, 8);
    LoadDependsOnBytes(c, m, 0x1028, 8);
    LoadOfZeroes(m, 0x1050, 8);
  }

  lemma ScarredTiles()
    ensures Tiles(ScarredFree(0x1000), ScarredLive(0x1000), GrownFree(0x1000))
  {
    forall b: int
      ensures Tile(ScarredFree(0x1000), ScarredLive(0x1000), GrownFree(0x1000), b)
    {
      assert ScarredFree(0x1000)[1..] == [Block(0x1048, 40888)] && ScarredFree(0x1000)[1..][1..] == [];
      assert ScarredLive(0x1000)[1..] == [] && GrownFree(0x1000)[1..] == [];
    }
  }

  lemma ScarredIsHeap()
    ensures HeapOk(ScarredMemory(), 0x1000 + HIGHER_HALF, HIGHER_HALF, ScarredFree(0x1000), ScarredLive(0x1000), GrownFree(0x1000))
  {
    hide Word, Tiles, ScarredMemory;
    ScarredWords();
    var m, free := ScarredMemory(), ScarredFree(0x1000);
    forall k: nat | k < |free|
      ensures NodeAt(m, HIGHER_HALF, free, k)
    {
    }
    ScarredTiles();
  }

  /** Asked for 16 bytes, it writes a pointer over the live block's size. */
  lemma SmallRemainderExample(m1: seq<byte>, m2: seq<byte>, m3: seq<byte>, head1: nat, head2: nat)
    requires Taken(ScarredMemory(), m1, m2, m3, 0x1000 + HIGHER_HALF, head1, head2, HIGHER_HALF, ScarredFree(0x1000), 0, 16)
    ensures |m3| == 0x1_0000 && Word(m3, 0x1028) == 0x1048 + HIGHER_HALF && !LiveHeaders(m3, ScarredLive(0x1000))
  {
    hide Word, ScarredMemory;
    assert head1 == 0x1048 + HIGHER_HALF;
    HeaderKept(m2, m3, 0x1020, 8, head1);
    var live := ScarredLive(0x1000);
    assert live[0].base == 0x1028 && live[0].size == 32;
  }

  /** The same for every such heap, wherever it lies, and for the search itself. */
  lemma SearchOverruns(m: seq<byte>, m': seq<byte>, head: nat, head': nat, off: nat, p: nat, regions: seq<Block>, pages: seq<nat>)
    requires HeapOk(m, head, off, ScarredFree(p), ScarredLive(p), regions)
    requires FoundInMemory(m, m', head, head', off, ScarredFree(p), pages, 16)
    ensures |m'| == |m| && p + 48 <= |m| && Word(m', p + 40) == p + 72 + off && head' == p + 32 + off
    ensures !LiveHeaders(m', ScarredLive(p))
  {
    hide Word, Threaded, Tiles, Searchable;
    var free, live := ScarredFree(p), ScarredLive(p);
    assert live[0].End() <= |m| && off >= HEADER;
    assert FirstFit(free, 16, 0) == 0 && Grown(free, pages, 16) == (free, pages);
    var m0: seq<byte>, head0: nat :| GrownInMemory(m, m0, head, head0, off, free, pages, 16) && ServedInMemory(m0, m', head0, head', off, free, 16);
    assert RestInside(free[0], 16, |m|);
    var m1: seq<byte>, m2: seq<byte>, head1: nat :| Taken(m, m1, m2, m', head, head1, head', off, free, 0, 16);
    HeaderKept(m2, m', p + 32, 8, p + 72 + off);
  }

  /** And it happens: a new machine of ten usable pages at 0x1000 that makes its heap of
      them, allocates 24 bytes and 16, frees the first and asks for 16 once more. */
  method SmallRemainderRun(memory: array<byte>) returns (heap: HeapAllocator)
    requires memory.Length == 0x1_0000
    modifies memory
    ensures fresh(heap) && heap.ram == memory
    ensures Word(memory[..], 0x1028) == 0x1048 + HIGHER_HALF && heap.head == 0x1020 + HIGHER_HALF
  {
    hide Word, HeapOk, OwnedApart, ListOk, Pages, FoundInMemory, Threaded, OnlyFreeChanged, RegionsGrown, FirstFit, Grown, AfterTake,
      Searchable, HeadersApart, Sound;
    var pages := new PageAllocator(memory, HIGHER_HALF);
    NoPagesYet();
    pages.InitializePMM([MemmapEntry(0x1000, 0xA000, Usable)]);
    TenPages();
    heap := new HeapAllocator(pages);
    HeapIsSearchable(memory[..], heap.head, HIGHER_HALF, heap.free, heap.live, heap.regions, pages.Free());
    heap.InitializeHeap(0xA000);
    SmallRemainderReached(0x1000, [], HIGHER_HALF);
    FirstTwoAreSound(0x1000);
    var p1 := heap.Allocate(24);
    HeapIsSearchable(memory[..], heap.head, HIGHER_HALF, heap.free, heap.live, heap.regions, pages.Free());
    assert heap.free == [Block(0x1028, 40920)];
    var p2 := heap.Allocate(16);
    assert heap.free == [Block(0x1048, 40888)];
    heap.Free(p1, 0);
    assert heap.free == ScarredFree(0x1000);
    assert heap.live == ScarredLive(0x1000);
    ghost var m, h, r := memory[..], heap.head, heap.regions;
    HeapHeadersApart(m, h, HIGHER_HALF, heap.free, heap.live, r);
    HeapIsSearchable(memory[..], heap.head, HIGHER_HALF, heap.free, heap.live, heap.regions, pages.Free());
    var p3 := heap.Allocate(16);
    SearchOverruns(m, memory[..], h, heap.head, HIGHER_HALF, 0x1000, r, []);
  }

  lemma FirstTwoAreSound(p: nat)
    ensures Sound(GrownFree(p), [], 24) && Sound([Block(p + 40, 40920)], [], 16)
  {
    NoGrowthWhileFitting(GrownFree(p), [], 24, 0);
    NoGrowthWhileFitting([Block(p + 40, 40920)], [], 16, 0);
    ServedByFirst(Block(p, 40960), [], [], 24);
    ServedByFirst(Block(p + 40, 40920), [], [], 16);
  }

  lemma NoPagesYet()
    ensures Pages([]) == []
  {
  }

  lemma TenPages()
    ensures UsableRuns([MemmapEntry(0x1000, 0xA000, Usable)], 1) == [Block(0x1000, 0xA000)]
    ensures var pages := Pages([Block(0x1000, 0xA000)]);
      pages != [] && pages[0] == 0x1000 && Contiguous(pages, 10) && Rest(pages, Turns(10)) == []
  {
  }

  /** In every memory Reallocate's copy stays inside a new payload of newSize bytes. */
  ghost predicate CopyStaysInside(length: nat, d: nat, s: nat, n: nat, newSize: nat)
    requires d + n <= length && s + n <= length
  {
    forall m :: |m| == length ==> SameOutside(m, Copied(m, d, s, n), d, d + newSize)
  }

  /** The exact condition for the copy of the whole old payload: the new size is no
      smaller than the old. */
  lemma CopyStaysInsideExactly(length: nat, d: nat, s: nat, n: nat, newSize: nat)
    requires d + n <= length && s + n <= length && (d + n <= s || s + n <= d)
    ensures CopyStaysInside(length, d, s, n, newSize) <==> newSize >= n
  {
    if newSize < n {
      var m := seq(length, i => if i == s + newSize then 1 else 0);
      CopiedIsMove(m, d, s, n);
      assert Copied(m, d, s, n)[d + newSize] == 1 && m[d + newSize] == 0;
    } else {
      forall m: seq<byte> | |m| == length
        ensures SameOutside(m, Copied(m, d, s, n), d, d + newSize)
      {
        CopiedStays(m, d, s, n);
      }
    }
  }
}
