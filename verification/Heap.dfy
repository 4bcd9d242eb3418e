/** The kernel heap (kernel/src/mm/heap.cpp): a first-fit allocator whose block
    headers and free-list links live in the memory it hands out. */
module Heap {
  import opened Memory
  import opened FreeList
  import opened PhysicalPages
  import opened HeapBlocks

  /** Each live block's header still holds its size. */
  ghost predicate LiveHeaders(m: seq<byte>, live: seq<Block>) {
    forall k :: 0 <= k < |live| ==> live[k].base + 8 <= |m| && Word(m, live[k].base) == live[k].size
  }

  /** No byte the heap owns lies in a free page. */
  ghost predicate OwnedApart(regions: seq<Block>, pages: seq<nat>) {
    forall b: nat :: PageOf(b) in pages ==> Count(regions, b) == 0
  }

  /** The heap in memory: the list threaded from head holds exactly the free
      blocks, live headers are intact, and free and live blocks tile the regions. */
  ghost predicate HeapOk(m: seq<byte>, head: nat, off: nat, free: seq<Block>, live: seq<Block>, regions: seq<Block>) {
    && off >= HEADER && off + |m| < WORD_LIMIT
    && Threaded(m, head, off, free)
    && BlocksIn(free, |m|) && BlocksIn(live, |m|)
    && LiveHeaders(m, live)
    && Tiles(free, live, regions)
  }

  /** Only bytes of these blocks differ between m and m'. */
  ghost predicate OnlyBlocksChanged(m: seq<byte>, m': seq<byte>, blocks: seq<Block>) {
    |m| == |m'| && forall b :: 0 <= b < |m| && Count(blocks, b) == 0 ==> m'[b] == m[b]
  }

  lemma WriteInBlock(m: seq<byte>, m': seq<byte>, blocks: seq<Block>, k: nat, lo: nat, hi: nat)
    requires k < |blocks| && blocks[k].base <= lo && hi <= blocks[k].End()
    requires SameOutside(m, m', lo, hi)
    ensures OnlyBlocksChanged(m, m', blocks)
  {
    forall b | 0 <= b < |m| && Count(blocks, b) == 0
      ensures m'[b] == m[b]
    {
      if lo <= b < hi { CountOne(blocks, k, b); }
    }
  }

  /** Writes into free blocks leave every byte of every live block alone. */
  lemma LiveUntouched(m: seq<byte>, m': seq<byte>, free: seq<Block>, live: seq<Block>, regions: seq<Block>)
    requires Tiles(free, live, regions) && OnlyBlocksChanged(m, m', free)
    ensures forall j :: 0 <= j < |live| ==> SameWithin(m, m', live[j].base, live[j].End())
  {
    forall j | 0 <= j < |live|
      ensures SameWithin(m, m', live[j].base, live[j].End())
    {
      forall b | live[j].base <= b < live[j].End() && b < |m|
        ensures m'[b] == m[b]
      {
        assert Tile(free, live, regions, b);
        CountOne(live, j, b);
      }
    }
  }

  lemma LiveHeadersKept(m: seq<byte>, m': seq<byte>, live: seq<Block>)
    requires LiveHeaders(m, live) && |m| == |m'| && BlocksIn(live, |m|)
    requires forall j :: 0 <= j < |live| ==> SameWithin(m, m', live[j].base, live[j].End())
    ensures LiveHeaders(m', live)
  {
    hide Word;
    forall j | 0 <= j < |live|
      ensures Word(m', live[j].base) == live[j].size
    {
      assert SameWithin(m, m', live[j].base, live[j].End());
      WordKept(m, m', live[j].base);
    }
  }

  /** Block k keeps its bytes apart from the other headers. */
  lemma BlockPartsHeaders(free: seq<Block>, live: seq<Block>, regions: seq<Block>, length: nat, k: nat, lo: nat, hi: nat)
    requires Tiles(free, live, regions) && BlocksIn(free, length) && k < |free|
    requires free[k].base <= lo && hi <= free[k].End()
    ensures HeadersOutside(lo, hi, Without(free, k))
  {
    var rest := Without(free, k);
    forall i | 0 <= i < |rest|
      ensures rest[i].base + HEADER <= lo || hi <= rest[i].base
    {
      FreeApart(free, live, regions, length, if i < k then i else i + 1, k);
    }
  }

  /** Taking block k off the list: head.next moves on, or the predecessor's
      next word is redirected. */
  ghost predicate Unlinked(m: seq<byte>, m': seq<byte>, head: nat, head': nat, off: nat, free: seq<Block>, k: nat) {
    k < |free| &&
    if k == 0 then m' == m && head' == Link(free, 1, off)
    else head' == head && Stored(m, m', free[k - 1].base + 8, Link(free, k + 1, off))
  }

  lemma UnlinkKeepsList(m: seq<byte>, m': seq<byte>, head: nat, head': nat, off: nat,
      free: seq<Block>, live: seq<Block>, regions: seq<Block>, k: nat)
    requires HeapOk(m, head, off, free, live, regions) && Unlinked(m, m', head, head', off, free, k)
    ensures Threaded(m', head', off, Without(free, k))
    ensures OnlyBlocksChanged(m, m', free)
  {
    hide Word, Tiles;
    if k == 0 {
      TailThreaded(m, head, off, free);
      assert Without(free, 0) == free[1..];
    } else {
      var p := free[k - 1];
      BlockPartsHeaders(free, live, regions, |m|, k - 1, p.base, p.base + HEADER);
      Unlink(m, m', head, off, free, k);
      WriteInBlock(m, m', free, k - 1, p.base + 8, p.base + 16);
    }
  }

  /** The remainder of block k, if any, becomes a free block of its own. */
  ghost predicate RemainderInserted(m: seq<byte>, m': seq<byte>, head: nat, head': nat, off: nat, blk: Block, size: word) {
    if blk.size == HEADER + size then m' == m && head' == head
    else
      && blk.size > HEADER + size
      && HeaderWritten(m, m', blk.base + HEADER + size, blk.size - (HEADER + size), head)
      && head' == blk.base + HEADER + size + off
  }

  lemma RemainderKeepsList(m: seq<byte>, m1: seq<byte>, m2: seq<byte>, head: nat, head1: nat, head2: nat, off: nat,
      free: seq<Block>, live: seq<Block>, regions: seq<Block>, k: nat, size: word)
    requires HeapOk(m, head, off, free, live, regions) && k < |free| && |m1| == |m|
    requires Threaded(m1, head1, off, Without(free, k)) && OnlyBlocksChanged(m, m1, free)
    requires RemainderOk(free[k], size) && RemainderInserted(m1, m2, head1, head2, off, free[k], size)
    ensures Threaded(m2, head2, off, AfterTake(free, k, size))
    ensures OnlyBlocksChanged(m, m2, free)
  {
    hide Word, Threaded, Tiles, Without, HeadersOutside, HeaderIs, OnlyBlocksChanged, LiveHeaders;
    var blk := free[k];
    if blk.size != HEADER + size {
      var at := blk.base + HEADER + size;
      BlockPartsHeaders(free, live, regions, |m|, k, at, at + HEADER);
      PushFront(m1, m2, head1, off, Without(free, k), at, blk.size - (HEADER + size));
      WriteInBlock(m1, m2, free, k, at, at + HEADER);
      ChangesCompose(m, m1, m2, free);
    }
  }

  /** Serving a request from block k: m before, m1 with the block unlinked, m2
      with the remainder inserted, m3 with the block's new size. */
  lemma TakeKeepsHeap(m: seq<byte>, m1: seq<byte>, m2: seq<byte>, m3: seq<byte>, head: nat, head1: nat, head2: nat, off: nat,
      free: seq<Block>, live: seq<Block>, regions: seq<Block>, k: nat, size: word)
    requires HeapOk(m, head, off, free, live, regions)
    requires k < |free| && Unlinked(m, m1, head, head1, off, free, k)
    requires free[k].size >= HEADER + size && RemainderOk(free[k], size)
    requires RemainderInserted(m1, m2, head1, head2, off, free[k], size)
    requires Stored(m2, m3, free[k].base, HEADER + size)
    ensures HeapOk(m3, head2, off, AfterTake(free, k, size), live + [Block(free[k].base, HEADER + size)], regions)
    ensures OnlyBlocksChanged(m, m3, free)
  {
    hide Word, Threaded, Tiles, OnlyBlocksChanged, AfterTake, Unlinked, RemainderInserted;
    var blk, used := free[k], Block(free[k].base, HEADER + size);
    var rest := AfterTake(free, k, size);
    UnlinkKeepsList(m, m1, head, head1, off, free, live, regions, k);
    SameLengths(m, m1, free);
    RemainderKeepsList(m, m1, m2, head, head1, head2, off, free, live, regions, k, size);
    SameLengths(m, m2, free);
    SizeWriteKeepsList(m, m2, m3, head2, off, free, live, regions, k, size);
    WriteInBlock(m2, m3, free, k, blk.base, blk.base + 8);
    ChangesCompose(m, m2, m3, free);
    SameLengths(m, m3, free);
    LiveUntouched(m, m3, free, live, regions);
    LiveHeadersKept(m, m3, live);
    TakeTiles(free, live, regions, k, size);
    TakeBlocksIn(free, |m|, k, size);
  }

  lemma SameLengths(m: seq<byte>, m': seq<byte>, blocks: seq<Block>)
    requires OnlyBlocksChanged(m, m', blocks)
    ensures |m| == |m'|
  {
  }

  lemma ChangesCompose(m: seq<byte>, m1: seq<byte>, m2: seq<byte>, blocks: seq<Block>)
    requires OnlyBlocksChanged(m, m1, blocks) && OnlyBlocksChanged(m1, m2, blocks)
    ensures OnlyBlocksChanged(m, m2, blocks)
  {
  }

  lemma SizeWriteKeepsList(m: seq<byte>, m2: seq<byte>, m3: seq<byte>, head: nat, off: nat,
      free: seq<Block>, live: seq<Block>, regions: seq<Block>, k: nat, size: word)
    requires BlocksIn(free, |m|) && Tiles(free, live, regions) && k < |free| && |m2| == |m|
    requires free[k].size >= HEADER + size && RemainderOk(free[k], size)
    requires Threaded(m2, head, off, AfterTake(free, k, size))
    requires SameOutside(m2, m3, free[k].base, free[k].base + 8)
    ensures Threaded(m3, head, off, AfterTake(free, k, size))
  {
    hide Word, Threaded, Tiles;
    BlockPartsHeaders(free, live, regions, |m|, k, free[k].base, free[k].base + 8);
    ThreadedElsewhere(m2, m3, head, off, AfterTake(free, k, size));
  }

  /** A remainder of 1 to 15 bytes breaks the heap for good: whatever blocks one
      reads into memory afterwards, its list starts with a block too small for a
      header. */
  lemma SmallRemainderBreaks(m1: seq<byte>, m2: seq<byte>, m3: seq<byte>, head1: nat, head2: nat, off: nat, blk: Block, size: word)
    requires off > 0
    requires blk.size > HEADER + size && !RemainderOk(blk, size)
    requires RemainderInserted(m1, m2, head1, head2, off, blk, size)
    requires Stored(m2, m3, blk.base, HEADER + size)
    ensures forall free: seq<Block>, live: seq<Block>, regions: seq<Block> :: !HeapOk(m3, head2, off, free, live, regions)
  {
    var at := blk.base + HEADER + size;
    forall free: seq<Block>, live: seq<Block>, regions: seq<Block>
      ensures !HeapOk(m3, head2, off, free, live, regions)
    {
      if HeapOk(m3, head2, off, free, live, regions) {
        WordKept(m2, m3, at);
        TailThreaded(m3, head2, off, free);
        assert false;
      }
    }
  }

  /** So serving a request from block k leaves a heap exactly when the block
      splits without a remainder of 1 to 15 bytes. */
  lemma TakeSafeExactly(m: seq<byte>, m1: seq<byte>, m2: seq<byte>, m3: seq<byte>, head: nat, head1: nat, head2: nat, off: nat,
      free: seq<Block>, live: seq<Block>, regions: seq<Block>, k: nat, size: word)
    requires HeapOk(m, head, off, free, live, regions)
    requires k < |free| && Unlinked(m, m1, head, head1, off, free, k)
    requires free[k].size >= HEADER + size
    requires RemainderInserted(m1, m2, head1, head2, off, free[k], size)
    requires Stored(m2, m3, free[k].base, HEADER + size)
    ensures RemainderOk(free[k], size) <==> exists f, l, r :: HeapOk(m3, head2, off, f, l, r)
  {
    hide HeapOk, Unlinked, Stored;
    if RemainderOk(free[k], size) {
      TakeKeepsHeap(m, m1, m2, m3, head, head1, head2, off, free, live, regions, k, size);
    } else {
      OffPositive(m, head, off, free, live, regions);
      SmallRemainderBreaks(m1, m2, m3, head1, head2, off, free[k], size);
    }
  }

  lemma OffPositive(m: seq<byte>, head: nat, off: nat, free: seq<Block>, live: seq<Block>, regions: seq<Block>)
    requires HeapOk(m, head, off, free, live, regions)
    ensures off >= HEADER && off + |m| < WORD_LIMIT
  {
  }

  /** Free's insertion of live block k. */
  lemma GiveKeepsHeap(m: seq<byte>, m': seq<byte>, head: nat, off: nat, free: seq<Block>, live: seq<Block>, regions: seq<Block>, k: nat)
    requires HeapOk(m, head, off, free, live, regions) && k < |live|
    requires HeaderWritten(m, m', live[k].base, live[k].size, head)
    ensures HeapOk(m', live[k].base + off, off, [live[k]] + free, Without(live, k), regions)
  {
    hide Word, Threaded, Tiles, HeaderIs;
    var blk, rest := live[k], Without(live, k);
    forall i | 0 <= i < |free|
      ensures free[i].base + HEADER <= blk.base || blk.base + HEADER <= free[i].base
    {
      FreeLiveApart(free, live, regions, |m|, i, k);
    }
    PushFront(m, m', head, off, free, blk.base, blk.size);
    forall j | 0 <= j < |rest|
      ensures SameWithin(m, m', rest[j].base, rest[j].End())
    {
      LiveApart(free, live, regions, |m|, if j < k then j else j + 1, k);
    }
    LiveHeadersKept(m, m', rest);
    GiveTiles(free, live, regions, k);
  }

  /** Every byte the heap owns is the same in m and m'. */
  ghost predicate HeapBytesKept(m: seq<byte>, m': seq<byte>, regions: seq<Block>) {
    |m| == |m'| && forall b: nat :: b < |m| && Count(regions, b) > 0 ==> m'[b] == m[b]
  }

  /** A heap survives every change that misses its bytes. */
  lemma HeapElsewhere(m: seq<byte>, m': seq<byte>, head: nat, off: nat, free: seq<Block>, live: seq<Block>, regions: seq<Block>)
    requires HeapOk(m, head, off, free, live, regions) && HeapBytesKept(m, m', regions)
    ensures HeapOk(m', head, off, free, live, regions)
  {
    hide Word, Threaded;
    forall k | 0 <= k < |free|
      ensures SameWithin(m, m', free[k].base, free[k].base + HEADER)
    {
      BlockBytesKept(m, m', free, live, regions, free, k);
    }
    ThreadedElsewhere(m, m', head, off, free);
    forall k | 0 <= k < |live|
      ensures SameWithin(m, m', live[k].base, live[k].End())
    {
      BlockBytesKept(m, m', free, live, regions, live, k);
    }
    LiveHeadersKept(m, m', live);
  }

  lemma BlockBytesKept(m: seq<byte>, m': seq<byte>, free: seq<Block>, live: seq<Block>, regions: seq<Block>, blocks: seq<Block>, k: nat)
    requires Tiles(free, live, regions) && HeapBytesKept(m, m', regions)
    requires (blocks == free || blocks == live) && k < |blocks| && blocks[k].size >= HEADER
    ensures SameWithin(m, m', blocks[k].base, blocks[k].End()) && SameWithin(m, m', blocks[k].base, blocks[k].base + HEADER)
  {
    forall b | blocks[k].base <= b < blocks[k].End() && b < |m|
      ensures m'[b] == m[b]
    {
      CountOne(blocks, k, b);
      assert Tile(free, live, regions, b);
    }
  }

  /** Pages are handed out: no byte of the heap changes. */
  lemma PagesSpareHeap(m: seq<byte>, m': seq<byte>, head: nat, off: nat,
      free: seq<Block>, live: seq<Block>, regions: seq<Block>, pages: seq<nat>)
    requires HeapOk(m, head, off, free, live, regions) && OwnedApart(regions, pages)
    requires OnlyPagesChanged(m, m', pages)
    ensures HeapOk(m', head, off, free, live, regions)
    ensures HeapBytesKept(m, m', regions)
  {
    hide HeapOk;
    HeapElsewhere(m, m', head, off, free, live, regions);
  }

  /** ExpandHeap(n): the n pages on top of the stack become one free block. */
  lemma GrowKeepsHeap(m: seq<byte>, m1: seq<byte>, m2: seq<byte>, head: nat, off: nat,
      free: seq<Block>, live: seq<Block>, regions: seq<Block>, pages: seq<nat>, n: nat)
    requires HeapOk(m, head, off, free, live, regions) && OwnedApart(regions, pages)
    requires PagesOk(pages, |m|) && n > 0 && n <= |pages| && Contiguous(pages, n)
    requires OnlyPagesChanged(m, m1, pages)
    requires HeaderWritten(m1, m2, pages[0], 4096 * n, head)
    ensures HeapOk(m2, pages[0] + off, off, [Block(pages[0], 4096 * n)] + free, live, [Block(pages[0], 4096 * n)] + regions)
    ensures OwnedApart([Block(pages[0], 4096 * n)] + regions, pages[n..])
    ensures OnlyPagesChanged(m, m2, pages)
  {
    hide Word, Threaded, Tiles, HeaderIs, Contiguous, PageOf;
    var r := Block(pages[0], 4096 * n);
    GrowthInside(pages, |m|, n);
    forall b: nat | r.Has(b)
      ensures Count(regions, b) == 0
    {
      assert PageOf(b) in pages[..n];
    }
    PagesSpareHeap(m, m1, head, off, free, live, regions, pages);
    HeaderInPage(m1, m2, pages, r);
    RegionPartsBlocks(free, live, regions, r, |m|);
    PushFront(m1, m2, head, off, free, r.base, r.size);
    forall j | 0 <= j < |live|
      ensures SameWithin(m1, m2, live[j].base, live[j].End())
    {
      assert Apart(live[j], r);
    }
    LiveHeadersKept(m1, m2, live);
    GrowTiles(free, live, regions, r);
    RegionLeavesStack(pages, |m|, n, r, regions);
  }

  lemma GrowthInside(pages: seq<nat>, length: nat, n: nat)
    requires PagesOk(pages, length) && n > 0 && Contiguous(pages, n)
    ensures forall b: nat :: Block(pages[0], 4096 * n).Has(b) ==> PageOf(b) in pages[..n]
    ensures n <= |pages| && pages[0] + 4096 * n <= length
  {
    GrowthExact(pages, length, n);
    var last := pages[0] + 4096 * (n - 1);
    var i :| 0 <= i < n && pages[..n][i] == last;
    assert pages[i] == last;
  }

  lemma HeaderInPage(m: seq<byte>, m': seq<byte>, pages: seq<nat>, r: Block)
    requires |pages| > 0 && r.base == pages[0] && pages[0] % 4096 == 0
    requires SameOutside(m, m', r.base, r.base + HEADER)
    ensures OnlyPagesChanged(m, m', pages)
  {
  }

  lemma RegionPartsBlocks(free: seq<Block>, live: seq<Block>, regions: seq<Block>, r: Block, length: nat)
    requires Tiles(free, live, regions) && BlocksIn(free, length) && BlocksIn(live, length) && r.size >= HEADER
    requires forall b: nat :: r.Has(b) ==> Count(regions, b) == 0
    ensures HeadersOutside(r.base, r.base + HEADER, free)
    ensures forall j :: 0 <= j < |live| ==> Apart(live[j], r)
  {
    forall j | 0 <= j < |free|
      ensures Apart(free[j], r)
    {
      if !Apart(free[j], r) {
        var b := if free[j].base < r.base then r.base else free[j].base;
        assert Tile(free, live, regions, b);
        CountOne(free, j, b);
      }
    }
    forall j | 0 <= j < |live|
      ensures Apart(live[j], r)
    {
      if !Apart(live[j], r) {
        var b := if live[j].base < r.base then r.base else live[j].base;
        assert Tile(free, live, regions, b);
        CountOne(live, j, b);
      }
    }
  }

  lemma RegionLeavesStack(pages: seq<nat>, length: nat, n: nat, r: Block, regions: seq<Block>)
    requires PagesOk(pages, length) && n <= |pages| && OwnedApart(regions, pages)
    requires forall b: nat :: r.Has(b) ==> PageOf(b) in pages[..n]
    ensures OwnedApart([r] + regions, pages[n..])
  {
  }

  /** What a request for size bytes leaves behind: it is served from the first
      block that fits, after growing as long as none does. */
  ghost predicate Served(free: seq<Block>, live: seq<Block>, pages: seq<nat>, size: word,
      free': seq<Block>, live': seq<Block>, pages': seq<nat>, node: nat, off: nat)
  {
    var (f, p) := Grown(free, pages, size);
    var k := FirstFit(f, size, 0);
    && pages' == p
    && (k == |f| ==> node == 0 && free' == f && live' == live)
    && (k < |f| ==>
          && f[k].size >= HEADER + size
          && node == f[k].base + off
          && free' == AfterTake(f, k, size)
          && live' == live + [Block(f[k].base, HEADER + size)])
  }

  /** The block that serves the request splits cleanly. */
  ghost predicate CleanSplit(free: seq<Block>, pages: seq<nat>, size: word) {
    var (f, p) := Grown(free, pages, size);
    var k := FirstFit(f, size, 0);
    k < |f| ==> RemainderOk(f[k], size)
  }

  /** Only free heap blocks and free pages differ between m and m'. */
  ghost predicate OnlyFreeChanged(m: seq<byte>, m': seq<byte>, free: seq<Block>, pages: seq<nat>) {
    |m| == |m'| && forall b :: 0 <= b < |m| && Count(free, b) == 0 && PageOf(b) !in pages ==> m'[b] == m[b]
  }

  lemma FreeChangesCompose(m: seq<byte>, m1: seq<byte>, m2: seq<byte>, free: seq<Block>, r: Block, pages: seq<nat>, n: nat)
    requires n <= |pages| && OnlyPagesChanged(m, m1, pages)
    requires OnlyFreeChanged(m1, m2, [r] + free, pages[n..])
    requires forall b: nat :: r.Has(b) ==> PageOf(b) in pages
    ensures OnlyFreeChanged(m, m2, free, pages)
  {
  }

  /** What the search itself needs: the list can be followed, and its headers lie
      outside the free pages. Blocks may overlap, or claim memory that is not the
      heap's. */
  ghost predicate Searchable(m: seq<byte>, head: nat, off: nat, free: seq<Block>, pages: seq<nat>) {
    && off >= HEADER && off + |m| < WORD_LIMIT
    && Threaded(m, head, off, free) && SizesFit(free)
    && HeadersOffPages(free, pages)
  }

  ghost predicate HeadersOffPages(free: seq<Block>, pages: seq<nat>) {
    forall k, b :: 0 <= k < |free| && free[k].base <= b < free[k].base + HEADER ==> PageOf(b) !in pages
  }

  /** A heap can be searched. */
  lemma HeapIsSearchable(m: seq<byte>, head: nat, off: nat, free: seq<Block>, live: seq<Block>, regions: seq<Block>, pages: seq<nat>)
    requires HeapOk(m, head, off, free, live, regions) && OwnedApart(regions, pages)
    ensures Searchable(m, head, off, free, pages)
  {
    hide Threaded, PageOf;
    forall k, b | 0 <= k < |free| && free[k].base <= b < free[k].base + HEADER
      ensures PageOf(b) !in pages
    {
      CountOne(free, k, b);
      assert Tile(free, live, regions, b);
    }
  }

  /** Growing by whatever pages there are keeps the list one that can be searched. */
  lemma GrowKeepsSearch(m: seq<byte>, m1: seq<byte>, m2: seq<byte>, head: nat, off: nat, free: seq<Block>, pages: seq<nat>,
      n: nat, size: nat)
    requires Searchable(m, head, off, free, pages) && PagesOk(pages, |m|) && |pages| > 0 && n > 0
    requires size <= WORD_LIMIT - HEADER && OnlyPagesChanged(m, m1, pages)
    requires HeaderWritten(m1, m2, pages[0], size, head)
    ensures Searchable(m2, pages[0] + off, off, [Block(pages[0], size)] + free, Rest(pages, n))
  {
    hide Word, Threaded, HeaderIs, PageOf;
    var p := pages[0];
    FirstTaken(pages, |m|, n);
    forall k | 0 <= k < |free|
      ensures SameWithin(m, m1, free[k].base, free[k].base + HEADER)
    {
    }
    ThreadedElsewhere(m, m1, head, off, free);
    forall k | 0 <= k < |free|
      ensures free[k].base + HEADER <= p || p + HEADER <= free[k].base
    {
      HeaderOffPage(free[k].base, p, pages);
    }
    PushFront(m1, m2, head, off, free, p, size);
  }

  lemma HeaderOffPage(base: nat, p: nat, pages: seq<nat>)
    requires p in pages && p % 4096 == 0
    requires forall b :: base <= b < base + HEADER ==> PageOf(b) !in pages
    ensures base + HEADER <= p || p + HEADER <= base
  {
    WithinPage(p);
    var b := if base <= p then p else base;
    assert p <= b < p + 4096 ==> PageOf(b) == p;
  }

  /** The page taken first is gone from the pages left, and its bytes with it. */
  lemma FirstTaken(pages: seq<nat>, length: nat, n: nat)
    requires PagesOk(pages, length) && |pages| > 0 && n > 0
    ensures pages[0] in pages && pages[0] % 4096 == 0 && pages[0] + HEADER <= length
    ensures forall b :: pages[0] <= b < pages[0] + HEADER ==> PageOf(b) == pages[0]
    ensures pages[0] !in Rest(pages, n) && forall p :: p in Rest(pages, n) ==> p in pages
  {
    WithinPage(pages[0]);
    assert pages == [pages[0]] + pages[1..];
    FirstPage(pages[0], pages[1..], length);
  }

  /** Growth takes whole stretches of pages, and the block found splits cleanly. */
  ghost predicate Sound(free: seq<Block>, pages: seq<nat>, size: word) {
    GrowthOk(free, pages, size) && CleanSplit(free, pages, size)
  }

  /** The search's answer: the first block that fits, null if none does. */
  ghost predicate Answer(grown: (seq<Block>, seq<nat>), size: word, pages: seq<nat>, node: nat, off: nat) {
    var k := FirstFit(grown.0, size, 0);
    pages == grown.1 && node == if k < |grown.0| then grown.0[k].base + off else 0
  }

  /** Allocate's answer: a header further on, from null too. */
  ghost predicate Answers(grown: (seq<Block>, seq<nat>), size: word, pages: seq<nat>, ptr: word, off: nat) {
    var k := FirstFit(grown.0, size, 0);
    pages == grown.1 && ptr == Wrap(HEADER + if k < |grown.0| then grown.0[k].base + off else 0)
  }

  /** The header to split shows the block's size. */
  ghost predicate CanSplit(m: seq<byte>, blk: Block, size: word) {
    && blk.base + HEADER <= |m| && Word(m, blk.base) == blk.size
    && blk.size >= HEADER + size && RestInside(blk, size, |m|)
  }

  /** There is nothing left over, or its header lies in memory, if not in the block. */
  predicate RestInside(blk: Block, size: word, length: nat) {
    blk.size == HEADER + size || blk.base + HEADER + size + HEADER <= length
  }

  /** No two headers share a byte. */
  ghost predicate HeadersApart(free: seq<Block>) {
    forall i, j :: 0 <= i < j < |free| ==> free[i].base + HEADER <= free[j].base || free[j].base + HEADER <= free[i].base
  }

  lemma HeapHeadersApart(m: seq<byte>, head: nat, off: nat, free: seq<Block>, live: seq<Block>, regions: seq<Block>)
    requires HeapOk(m, head, off, free, live, regions)
    ensures HeadersApart(free)
  {
    hide Threaded, LiveHeaders;
    forall i, j | 0 <= i < j < |free|
      ensures free[i].base + HEADER <= free[j].base || free[j].base + HEADER <= free[i].base
    {
      FreeApart(free, live, regions, |m|, i, j);
    }
  }

  /** The three steps of serving a request from block k: m1 and head1 with the block
      unlinked, m2 with the remainder inserted, whatever its size. */
  ghost predicate Taken(m: seq<byte>, m1: seq<byte>, m2: seq<byte>, m3: seq<byte>, head: nat, head1: nat, head2: nat, off: nat,
      free: seq<Block>, k: nat, size: word) {
    && k < |free| && Unlinked(m, m1, head, head1, off, free, k)
    && RemainderInserted(m1, m2, head1, head2, off, free[k], size) && Stored(m2, m3, free[k].base, HEADER + size)
  }

  ghost predicate TakenFrom(m: seq<byte>, m': seq<byte>, head: nat, head': nat, off: nat, free: seq<Block>, k: nat, size: word) {
    exists m1: seq<byte>, m2: seq<byte>, head1: nat :: Taken(m, m1, m2, m', head, head1, head', off, free, k, size)
  }

  /** What the search does to memory, sound or not: after the growth steps, which
      write only free pages, the list is f; then the block found is taken from it, or
      nothing more happens. */
  ghost predicate FoundInMemory(m: seq<byte>, m': seq<byte>, head: nat, head': nat, off: nat, free: seq<Block>, pages: seq<nat>, size: word) {
    exists m0: seq<byte>, head0: nat :: GrownInMemory(m, m0, head, head0, off, free, pages, size) && ServedInMemory(m0, m', head0, head', off, Grown(free, pages, size).0, size)
  }

  ghost predicate GrownInMemory(m: seq<byte>, m0: seq<byte>, head: nat, head0: nat, off: nat, free: seq<Block>, pages: seq<nat>, size: word) {
    var (f, p) := Grown(free, pages, size);
    && Searchable(m0, head0, off, f, p) && OnlyPagesChanged(m, m0, pages)
    && (f == free ==> m0 == m && head0 == head)
  }

  ghost predicate ServedInMemory(m0: seq<byte>, m': seq<byte>, head0: nat, head': nat, off: nat, f: seq<Block>, size: word) {
    var k := FirstFit(f, size, 0);
    if k == |f| then m' == m0 && head' == head0
    else RestInside(f[k], size, |m0|) ==> TakenFrom(m0, m', head0, head', off, f, k, size)
  }

  lemma FoundHere(m: seq<byte>, m': seq<byte>, head: nat, head': nat, off: nat, free: seq<Block>, pages: seq<nat>, size: word)
    requires Searchable(m, head, off, free, pages) && Grown(free, pages, size) == (free, pages)
    requires ServedInMemory(m, m', head, head', off, free, size)
    ensures FoundInMemory(m, m', head, head', off, free, pages, size)
  {
    hide Searchable, ServedInMemory, Grown;
    NoPageChanged(m, pages);
    assert GrownInMemory(m, m, head, head, off, free, pages, size);
  }

  lemma {:induction false} GrownIsLonger(free: seq<Block>, pages: seq<nat>, size: word)
    ensures |Grown(free, pages, size).0| >= |free|
    decreases |pages|
  {
    if !(FirstFit(free, size, 0) < |free| || |pages| == 0) {
      GrownIsLonger([Block(pages[0], 40960)] + free, Rest(pages, 10), size);
    }
  }

  lemma FoundLater(m: seq<byte>, m1: seq<byte>, m': seq<byte>, head: nat, head1: nat, head': nat, off: nat, free: seq<Block>,
      pages: seq<nat>, size: word)
    requires |pages| > 0 && OnlyPagesChanged(m, m1, pages)
    requires var free1, pages1 := [Block(pages[0], 40960)] + free, Rest(pages, 10);
      && Grown(free, pages, size) == Grown(free1, pages1, size)
      && FoundInMemory(m1, m', head1, head', off, free1, pages1, size)
    ensures FoundInMemory(m, m', head, head', off, free, pages, size)
  {
    hide Searchable, ServedInMemory, Grown, PageOf;
    var free1, pages1 := [Block(pages[0], 40960)] + free, Rest(pages, 10);
    var m0: seq<byte>, head0: nat :| GrownInMemory(m1, m0, head1, head0, off, free1, pages1, size)
      && ServedInMemory(m0, m', head0, head', off, Grown(free1, pages1, size).0, size);
    GrownIsLonger(free1, pages1, size);
    assert forall p :: p in pages1 ==> p in pages;
    assert GrownInMemory(m, m0, head, head0, off, free, pages, size);
  }

  /** A page inserted in front has a header apart from the others. */
  lemma GrownHeadersApart(free: seq<Block>, pages: seq<nat>, length: nat, size: nat)
    requires HeadersApart(free) && HeadersOffPages(free, pages) && PagesOk(pages, length) && |pages| > 0
    ensures HeadersApart([Block(pages[0], size)] + free)
  {
    hide PageOf;
    assert pages == [pages[0]] + pages[1..];
    FirstPage(pages[0], pages[1..], length);
    var all := [Block(pages[0], size)] + free;
    forall i, j | 0 <= i < j < |all|
      ensures all[i].base + HEADER <= all[j].base || all[j].base + HEADER <= all[i].base
    {
      if i == 0 { HeaderOffPage(free[j - 1].base, pages[0], pages); }
    }
  }

  /** How many pages ExpandHeap asks for. */
  function Turns(pageCount: word): (n: nat)
    ensures n > 0 && Wrap(n) == pageCount
  {
    if pageCount == 0 then WORD_LIMIT else pageCount
  }

  lemma WholePages(pageCount: word)
    ensures Turns(pageCount) == Wrap(pageCount - 1) + 1
    ensures Wrap(Wrap(Wrap(pageCount - 1) + 1) * 4096) == Wrap(4096 * pageCount) <= WORD_LIMIT - HEADER
    ensures Wrap(Wrap(pageCount - 1) + 1) == pageCount
  {
    var x := 4096 * pageCount;
    var q := x / 0x1_0000_0000_0000_0000;
    assert Wrap(x) == 4096 * (pageCount - 0x10_0000_0000_0000 * q);
  }

  class HeapAllocator {
    const pages: PageAllocator
    const ram: array<byte>
    const off: nat
    var head: word           // head.next
    ghost var free: seq<Block>
    ghost var live: seq<Block>
    ghost var regions: seq<Block>

    ghost predicate Valid()
      reads this, pages, ram
    {
      && ram == pages.ram && off == pages.off
      && pages.Valid()
      && HeapOk(ram[..], head, off, free, live, regions)
      && OwnedApart(regions, pages.Free())
    }

    /** The list can be searched and the page allocator works, whatever the blocks
        claim. */
    ghost predicate Searching()
      reads this, pages, ram
    {
      && ram == pages.ram && off == pages.off
      && pages.Valid()
      && Searchable(ram[..], head, off, free, pages.Free())
    }

    constructor (allocator: PageAllocator)
      requires allocator.Valid()
      ensures Valid() && pages == allocator
      ensures free == [] && live == [] && regions == []
    {
      pages, ram, off := allocator, allocator.ram, allocator.off;
      head := 0;
      free, live, regions := [], [], [];
    }

    /** A store; past the installed memory it reaches nothing. */
    method Store(a: int, x: word)
      modifies ram
      ensures 0 <= a && a + 8 <= ram.Length ==> Stored(old(ram[..]), ram[..], a, x)
      ensures !(0 <= a && a + 8 <= ram.Length) ==> ram[..] == old(ram[..])
    {
      if 0 <= a && a + 8 <= ram.Length {
        WriteWord(ram, a, x);
      }
    }

    method InsertNode(base: word, size: word)
      modifies this`head, ram
      ensures head == base
      ensures off <= base && base - off + HEADER <= ram.Length && off + ram.Length < WORD_LIMIT ==>
                HeaderWritten(old(ram[..]), ram[..], base - off, size, old(head))
    {
      hide Word;
      Store(base as int - off, size);
      ghost var m1 := ram[..];
      Store(Wrap(base + 8) as int - off, head);
      if off <= base && base - off + HEADER <= ram.Length && off + ram.Length < WORD_LIMIT {
        WordKept(m1, ram[..], base - off);
      }
      head := base;
    }

    /** A count of 0 wraps in the loop bound and takes 2^64 pages. Once the pages run
        out the loop goes on, because AllocatePage's answer then is not null, and the
        block inserted claims pages that were never taken. */
    method ExpandHeap(pageCount: word) returns (taken: word)
      requires Searching()
      modifies this, pages`head, pages`runs, ram
      ensures Searching() && live == old(live)
      ensures old(pages.Free()) == [] ==>
                taken == 0 && free == old(free) && pages.Free() == [] && regions == old(regions) && ram[..] == old(ram[..]) && head == old(head)
      ensures old(pages.Free()) != [] ==>
                && taken == pageCount
                && free == [Block(old(pages.Free())[0], Wrap(4096 * pageCount))] + old(free)
                && regions == [Block(old(pages.Free())[0], Wrap(4096 * pageCount))] + old(regions)
                && pages.Free() == Rest(old(pages.Free()), Turns(pageCount))
      ensures old(Valid()) && (old(pages.Free()) == [] || (pageCount > 0 && Contiguous(old(pages.Free()), pageCount))) ==> Valid()
      ensures OnlyPagesChanged(old(ram[..]), ram[..], old(pages.Free()))
    {
      hide Word, Threaded, Tiles, RunsOk, Pages, HeapOk, HeaderWritten, Contiguous, OnlyPagesChanged, ListOk, PagesOk,
        OwnedApart, Searchable, Rest;
      ghost var m, fp, h, f, good := ram[..], pages.Free(), head, free, Valid();
      FreePages(m, pages.head, off, pages.runs);
      NoPageChanged(m, fp);
      var page := pages.AllocatePage();
      FirstAnswer(fp, page, pages.Free(), |m|, off);
      var start := Wrap(page + off);
      if start == 0 { return 0; }
      var i: word := 0;
      var last := Wrap(pageCount - 1);
      while i < last
        modifies pages`head, pages`runs, ram
        invariant i <= last
        invariant pages.Valid() && pages.Free() == Rest(fp, i + 1)
        invariant OnlyPagesChanged(m, ram[..], fp)
      {
        ghost var m1 := ram[..];
        page := pages.AllocatePage();
        NextAnswer(fp, i + 1, page, pages.Free(), |m|, off);
        RestCompose(m, m1, ram[..], fp, i + 1);
        if page == 0 { break; }
        i := i + 1;
      }
      ghost var m1 := ram[..];
      var size := Wrap(Wrap(i + 1) * 4096);
      InsertNode(start, size);
      WholePages(pageCount);
      ExpansionDone(m, m1, ram[..], h, off, f, pages.head, pages.runs, fp, Turns(pageCount), size);
      free := [Block(fp[0], size)] + f;
      regions := [Block(fp[0], size)] + regions;
      if good && pageCount > 0 && Contiguous(fp, pageCount) {
        GrowthInside(fp, |m|, pageCount);
        ContiguousRest(fp, pageCount);
        GrowKeepsHeap(m, m1, ram[..], h, off, f, live, regions[1..], fp, pageCount);
      }
      return Wrap(i + 1);
    }

    /** FindSuitableNode's surgery once the node after current fits, first part:
        unlink it. */
    method Unhook(current: word, ghost k: nat) returns (ret: word)
      requires Threaded(ram[..], head, off, free) && off >= HEADER && off + ram.Length < WORD_LIMIT && k < |free|
      requires current == (if k == 0 then 0 else free[k - 1].base + off)
      modifies this`head, ram
      ensures ret == free[k].base + off && free[k].base + HEADER <= ram.Length
      ensures Unlinked(old(ram[..]), ram[..], old(head), head, off, free, k)
    {
      hide Word, Threaded, Link, SameOutside;
      NodeFacts(ram[..], head, off, free, k);
      ret := if current == 0 then head else Word(ram[..], current - off + 8);
      var next := ReadWord(ram, ret - off + 8);
      if current == 0 {
        head := next;
      } else {
        WriteWord(ram, current - off + 8, next);
      }
    }

    /** Second part: reinsert what is left over, and set the node's size. */
    method Split(ret: word, size: word, ghost blk: Block) returns (ghost m2: seq<byte>)
      requires off + ram.Length < WORD_LIMIT && ret == blk.base + off && blk.base + HEADER <= ram.Length
      modifies this`head, ram
      ensures CanSplit(old(ram[..]), blk, size) ==>
                RemainderInserted(old(ram[..]), m2, old(head), head, off, blk, size) && Stored(m2, ram[..], blk.base, HEADER + size)
    {
      hide Word, HeaderWritten, Stored, HeaderIs;
      var requiredSize := Wrap(HEADER + size);
      var nodeTop := Wrap(ret + HEADER + size);
      var whole := ReadWord(ram, ret - off);
      var extraSize := Wrap(whole as int - requiredSize);
      if extraSize != 0 {
        InsertNode(nodeTop, extraSize);
      }
      m2 := ram[..];
      WriteWord(ram, ret - off, requiredSize);
    }

    method TakeAfter(current: word, size: word, ghost k: nat) returns (ret: word)
      requires Searching() && k < |free| && Fits(free[k], size)
      requires current == (if k == 0 then 0 else free[k - 1].base + off)
      modifies this, ram
      ensures old(free)[k].size >= HEADER + size && ret == old(free)[k].base + off
      ensures free == AfterTake(old(free), k, size)
      ensures live == old(live) + [Block(old(free)[k].base, HEADER + size)] && regions == old(regions)
      ensures old(HeadersApart(free)) && RestInside(old(free)[k], size, ram.Length) ==>
                TakenFrom(old(ram[..]), ram[..], old(head), head, off, old(free), k, size)
      ensures old(Valid()) && RemainderOk(old(free)[k], size) ==> Valid() && OnlyBlocksChanged(old(ram[..]), ram[..], old(free))
    {
      hide Word, Threaded, HeapOk, OwnedApart, ListOk, Pages, OnlyBlocksChanged, AfterTake, Fits, Unlinked,
        RemainderInserted, Stored, RemainderOk, HeadersOffPages, HeadersApart, RestInside, CanSplit;
      ghost var m, h, f, l, good := ram[..], head, free, live, Valid() && RemainderOk(free[k], size);
      FitsMeansRoom(f[k], size);
      ret := Unhook(current, k);
      ghost var m1, h1 := ram[..], head;
      if good {
        HeapHeadersApart(m, h, off, f, l, regions);
        RestIsInside(m, h, off, f, l, regions, k, size);
      }
      ghost var apart := HeadersApart(f) && RestInside(f[k], size, |m|);
      if apart { SplitReady(m, m1, h, h1, off, f, k, size); }
      ghost var m2 := Split(ret, size, f[k]);
      assert apart ==> Taken(m, m1, m2, ram[..], h, h1, head, off, f, k, size);
      if good {
        TakeKeepsHeap(m, m1, m2, ram[..], h, h1, head, off, f, l, regions, k, size);
        TakeSparesPages(m, ram[..], h, f, l, regions, pages.head, off, pages.runs);
      }
      free := AfterTake(f, k, size);
      live := l + [Block(f[k].base, HEADER + size)];
    }

    /** First fit. current is the node before the one looked at; null is &head.
        From any list that can be searched the search ends, after the growth steps
        that Grown counts; where these and the split are sound, a heap stays one. */
    method FindSuitableNode(size: word) returns (node: word)
      requires Searching()
      modifies this, pages`head, pages`runs, ram
      ensures Answer(Grown(old(free), old(pages.Free()), size), size, pages.Free(), node, off)
      ensures (exists k :: 0 <= k < |old(free)| && Fits(old(free)[k], size)) ==> pages.Free() == old(pages.Free())
      ensures old(HeadersApart(free)) ==>
                FoundInMemory(old(ram[..]), ram[..], old(head), head, off, old(free), old(pages.Free()), size)
      ensures old(Valid() && Sound(free, pages.Free(), size)) ==>
                && Valid()
                && Served(old(free), old(live), old(pages.Free()), size, free, live, pages.Free(), node, off)
                && RegionsGrown(old(regions), old(pages.Free()), regions, pages.Free())
                && OnlyFreeChanged(old(ram[..]), ram[..], old(free), old(pages.Free()))
      decreases |pages.Free()|
    {
      hide Word, Threaded, HeapOk, OwnedApart, ListOk, Pages, AfterTake, Fits, RemainderOk, Contiguous,
        OnlyBlocksChanged, OnlyPagesChanged, OnlyFreeChanged, RegionsGrown, Searchable, Rest, Grown, GrowthOk,
        CleanSplit, HeadersApart, FoundInMemory, TakenFrom, RestInside;
      ghost var m, h, f, fp, r0, l0, good := ram[..], head, free, pages.Free(), regions, live, Valid() && Sound(free, pages.Free(), size);
      var current: word := 0;
      ghost var k := 0;
      while true
        invariant ram[..] == m && head == h && free == f && live == l0 && regions == r0 && pages.Free() == fp && Searching()
        invariant good ==> Valid()
        invariant k <= |f| && FirstFit(f, size, k) == FirstFit(f, size, 0)
        invariant current == if k == 0 then 0 else f[k - 1].base + off
        decreases |f| - k
      {
        LinkFacts(m, h, off, f, fp, k);
        var next := if current == 0 then head else Word(ram[..], current - off + 8);
        if next == 0 { break; }
        var s := ReadWord(ram, next - off);
        if s > size && s >= Wrap(HEADER + size) {
          FoundAt(f, fp, size, k);
          node := TakeAfter(current, size, k);
          if HeadersApart(f) { FoundHere(m, ram[..], h, head, off, f, fp, size); }
          BlocksAreFree(m, ram[..], f, fp);
          NoGrowth(r0, fp);
          return;
        }
        SkipAt(f, size, k);
        current := next;
        k := k + 1;
      }
      NothingFits(f, fp, size);
      FreePages(m, pages.head, off, pages.runs);
      if HeadersApart(f) && fp != [] { ApartAfterGrowth(m, h, off, f, fp); }
      var taken := ExpandHeap(10);
      if taken == 0 {
        FoundHere(m, m, h, h, off, f, fp, size);
        NothingIsFree(m, f, fp);
        NoGrowth(r0, fp);
        return 0;
      }
      ghost var m1, h1, r1, p1 := ram[..], head, regions, pages.Free();
      FewerLeft(fp);
      node := FindSuitableNode(size);
      if HeadersApart(f) { FoundLater(m, m1, ram[..], h, h1, head, off, f, fp, size); }
      if good {
        GrowthJoins(r0, fp, |m|, 10);
        ContiguousRest(fp, 10);
        GrownCompose(r0, fp, r1, p1, regions, pages.Free(), |m|);
        GrowthChanges(m, m1, ram[..], f, fp);
      }
    }

    /** Any heap size: below a page the count is 0, and wraps in ExpandHeap. */
    method InitializeHeap(heapSize: word)
      requires Searching()
      modifies this, pages`head, pages`runs, ram
      ensures Searching() && live == old(live)
      ensures heapSize == 0 || old(pages.Free()) == [] ==> free == old(free) && regions == old(regions) && ram[..] == old(ram[..]) && pages.Free() == old(pages.Free())
      ensures heapSize > 0 && old(pages.Free()) != [] ==>
                && free == [Block(old(pages.Free())[0], 4096 * (heapSize / 4096))] + old(free)
                && regions == [Block(old(pages.Free())[0], 4096 * (heapSize / 4096))] + old(regions)
                && pages.Free() == Rest(old(pages.Free()), Turns(heapSize / 4096))
      ensures old(Valid()) && (heapSize == 0 || old(pages.Free()) == [] || (heapSize >= 4096 && Contiguous(old(pages.Free()), heapSize / 4096))) ==> Valid()
      ensures OnlyPagesChanged(old(ram[..]), ram[..], old(pages.Free()))
    {
      hide Word, Threaded, Tiles, HeapOk, ListOk, Pages, Contiguous, Searchable, Rest, Turns;
      if heapSize == 0 { return; }
      var count := heapSize / 4096;
      assert Wrap(4096 * count) == 4096 * count;
      var taken := ExpandHeap(count);
    }

    /** Failure shows as null + sizeof(Node), that is 16, not as null. */
    method Allocate(size: word) returns (ptr: word)
      requires Searching()
      modifies this, pages`head, pages`runs, ram
      ensures Answers(Grown(old(free), old(pages.Free()), size), size, pages.Free(), ptr, off)
      ensures old(HeadersApart(free)) ==>
                FoundInMemory(old(ram[..]), ram[..], old(head), head, off, old(free), old(pages.Free()), size)
      ensures old(Valid() && Sound(free, pages.Free(), size)) ==>
                && Valid() && ptr >= HEADER
                && Served(old(free), old(live), old(pages.Free()), size, free, live, pages.Free(), ptr - HEADER, off)
                && RegionsGrown(old(regions), old(pages.Free()), regions, pages.Free())
                && OnlyFreeChanged(old(ram[..]), ram[..], old(free), old(pages.Free()))
    {
      hide Word, HeapOk, OwnedApart, ListOk, Pages, Contiguous, OnlyFreeChanged, AfterTake, Grown, RegionsGrown,
        Searchable, FirstFit, GrowthOk, CleanSplit, HeadersApart, FoundInMemory;
      ghost var good := Valid() && Sound(free, pages.Free(), size);
      var node := FindSuitableNode(size);
      if good {
        NodeBelow(ram[..], head, off, free, live, regions, node);
      }
      ptr := Wrap(node + HEADER);
    }

    method Free(base: word, ghost k: nat)
      requires Valid() && k < |live| && base == live[k].base + HEADER + off
      modifies this, ram
      ensures Valid()
      ensures free == [old(live)[k]] + old(free) && live == Without(old(live), k) && regions == old(regions)
      ensures pages.Free() == old(pages.Free())
      ensures SameOutside(old(ram[..]), ram[..], old(live)[k].base, old(live)[k].base + HEADER)
    {
      hide Word, HeapOk, OwnedApart, ListOk, Pages, HeaderIs;
      ghost var m, h := ram[..], head;
      LiveFacts(m, h, off, free, live, regions, k);
      Release(base);
      GiveKeepsHeap(m, ram[..], h, off, free, live, regions, k);
      BlockWriteSparesPages(m, ram[..], h, free, live, regions, k, live[k].base, live[k].base + HEADER, pages.head, off, pages.runs);
      free := [live[k]] + free;
      live := Without(live, k);
    }

    /** What Free does whatever the heap looks like: the block goes to the front with
        the size its header shows. */
    method Release(base: word)
      requires off + HEADER <= base && base - off <= ram.Length && off + ram.Length < WORD_LIMIT
      modifies this`head, ram
      ensures head == base - HEADER
      ensures var a := base - off - HEADER; HeaderWritten(old(ram[..]), ram[..], a, Word(old(ram[..]), a), old(head))
    {
      hide Word, HeaderWritten;
      var node := Wrap(base - HEADER);
      var size := ReadWord(ram, node - off);
      InsertNode(node, size);
    }

    /** Reallocate's last two calls: copy the old payload and free the old block. */
    method CopyAndFree(ptr: word, base: word, oldSize: word) returns (ghost m2: seq<byte>)
      requires off + HEADER <= base && base - off + oldSize <= ram.Length && off + ram.Length < WORD_LIMIT
      requires oldSize > 0 ==> off <= ptr && ptr - off + oldSize <= ram.Length
      modifies this`head, ram
      ensures m2 == if oldSize == 0 then old(ram[..]) else Copied(old(ram[..]), ptr - off, base - off, oldSize)
      ensures head == base - HEADER
      ensures var a := base - off - HEADER; HeaderWritten(m2, ram[..], a, Word(m2, a), old(head))
    {
      hide Word, Copied, HeaderWritten;
      if oldSize > 0 {
        Memcpy(ram, ptr - off, base - off, oldSize);
      }
      m2 := ram[..];
      Release(base);
    }

    /** From any heap and for any new size. The copy faults exactly if it leaves
        installed memory, as it does from address 16 when the request cannot be met.
        A payload no larger than the new size leaves a heap. */
    method Reallocate(base: word, newSize: word, ghost k: nat) returns (ptr: word, fault: bool)
      requires Valid() && k < |live| && base == live[k].base + HEADER + off
      modifies this, pages`head, pages`runs, ram
      ensures Answers(Grown(old(free), old(pages.Free()), newSize), newSize, pages.Free(), ptr, off)
      ensures old(Sound(free, pages.Free(), newSize)) ==>
                var f, n := Grown(old(free), old(pages.Free()), newSize).0, old(live)[k].size - HEADER;
                && (fault <==> CopyFaults(f, newSize, n, ram.Length))
                && (!fault ==> Reallocated(old(ram[..]), ram[..], f, old(live), k, newSize, free, live, ptr, off))
                && (!fault && n <= newSize ==>
                      && Valid() && RegionsGrown(old(regions), old(pages.Free()), regions, pages.Free())
                      && OnlyOwnedChanged(old(ram[..]), ram[..], regions, old(pages.Free())))
    {
      hide OnlyOwnedChanged, Word, HeapOk, OwnedApart, ListOk, Pages, OnlyFreeChanged, AfterTake, Grown, Tiles, Answers,
        Without, SameWithin, CopiedTo, OthersKept, Sound, FirstFit, RegionsGrown, Searchable, SpilledTo, RestKept,
        Copied, HeaderWritten, Moved, Served, AllKept, Reallocated, CopyFaults, HeadersApart, FoundInMemory;
      ghost var m, h, f, l, r, fp := ram[..], head, free, live, regions, pages.Free();
      ghost var good := Sound(free, pages.Free(), newSize);
      LiveFacts(m, h, off, f, l, r, k);
      HeapIsSearchable(m, h, off, f, l, r, fp);
      FreePages(m, pages.head, off, pages.runs);
      var node := Wrap(base - HEADER);
      var stored := ReadWord(ram, node - off);
      var oldSize := Wrap(stored - HEADER);
      ptr := Allocate(newSize);
      if ptr == 0 { return ptr, false; }
      fault := oldSize > 0 && !(off <= ptr && ptr - off + oldSize <= ram.Length);
      ghost var m1, h1, f1, l1 := ram[..], head, free, live;
      if good { FaultsExactly(f, l, fp, newSize, f1, l1, pages.Free(), ptr, off, oldSize, |m|); }
      if fault { return; }
      ghost var m2 := CopyAndFree(ptr, base, oldSize);
      free := [l[k]] + f1;
      live := if k < |l1| then Without(l1, k) else l1;
      if good {
        LiveKeptByAllocate(m, m1, h, off, f, l, r, fp);
        if oldSize <= newSize {
          StillHeap(m1, m2, ram[..], h1, off, f, l, f1, l1, regions, fp, pages.Free(), newSize, k, oldSize, ptr, pages.head, pages.runs);
          AllocationStaysInside(m, m1, ram[..], h, off, f, l, r, regions, fp, pages.Free());
        }
        ReallocateDone(m, m1, m2, ram[..], h1, off, f, l, f1, l1, regions, fp, pages.Free(), newSize, k, oldSize, ptr);
      }
    }
  }

  /** Whether the copy leaves installed memory: f is the list once it has grown. */
  predicate CopyFaults(f: seq<Block>, size: word, n: nat, length: nat) {
    var j := FirstFit(f, size, 0);
    n > 0 && (j == |f| || f[j].base + HEADER + n > length)
  }

  /** The outcome of a copy without a fault. A payload no larger than the new size
      moves; if there is nothing to copy and nothing fits, the block just goes. A
      larger one runs over what lies behind its new block. */
  ghost predicate Reallocated(m: seq<byte>, m': seq<byte>, f: seq<Block>, live: seq<Block>, k: nat, size: word,
      free': seq<Block>, live': seq<Block>, ptr: nat, off: nat)
    requires k < |live|
  {
    var j, n := FirstFit(f, size, 0), live[k].size - HEADER;
    && (j == |f| ==> n == 0 && ptr == HEADER && free' == [live[k]] + f && live' == Without(live, k) && OthersKept(m, m', live, k))
    && (j < |f| ==> ptr == f[j].base + HEADER + off)
    && (j < |f| && n <= size ==>
          Moved(f, live, k, size, free', live', ptr, off) && CopiedTo(m, m', live[k], ptr - off) && OthersKept(m, m', live, k))
    && (j < |f| && n > size ==>
          SpilledTo(m, m', live[k], ptr - off) && RestKept(m, m', live, k, ptr - off, ptr - off + n))
  }

  lemma FaultsExactly(f: seq<Block>, l: seq<Block>, pages: seq<nat>, size: word, f1: seq<Block>, l1: seq<Block>, pages1: seq<nat>,
      ptr: word, off: nat, n: nat, length: nat)
    requires ptr >= HEADER && Served(f, l, pages, size, f1, l1, pages1, ptr - HEADER, off) && off >= 4096
    ensures n > 0 && !(off <= ptr && ptr - off + n <= length) <==> CopyFaults(Grown(f, pages, size).0, size, n, length)
  {
  }

  /** The heap after the copy and Release: m1 after Allocate, m2 after the copy. */
  lemma StillHeap(m1: seq<byte>, m2: seq<byte>, m3: seq<byte>, head: nat, off: nat, f: seq<Block>, l: seq<Block>, f1: seq<Block>, l1: seq<Block>,
      regions: seq<Block>, pages: seq<nat>, pages1: seq<nat>, size: word, k: nat, n: nat, ptr: word, listHead: nat, runs: seq<Block>)
    requires ptr >= HEADER && Served(f, l, pages, size, f1, l1, pages1, ptr - HEADER, off)
    requires HeapOk(m1, head, off, f1, l1, regions) && ListOk(m1, listHead, off, runs) && OwnedApart(regions, Pages(runs))
    requires off >= 4096 && k < |l| && l[k].size == HEADER + n && n <= size && l[k].End() <= |m1|
    requires n > 0 ==> ptr >= off && ptr - off + n <= |m1|
    requires m2 == if n == 0 then m1 else Copied(m1, ptr - off, l[k].base + HEADER, n)
    requires HeaderWritten(m2, m3, l[k].base, Word(m2, l[k].base), head)
    ensures k < |l1| && HeapOk(m3, l[k].base + off, off, [l[k]] + f1, Without(l1, k), regions) && ListOk(m3, listHead, off, runs)
    ensures OnlyOwnedChanged(m1, m3, regions, [])
  {
    hide Word, HeapOk, ListOk, OwnedApart, Pages, Without, HeaderIs, OnlyOwnedChanged, Grown, FirstFit, AfterTake;
    if |l1| == |l| {
      FreedDone(m1, m3, head, off, f1, l, regions, k, listHead, runs);
    } else {
      LiveFacts(m1, head, off, f1, l1, regions, |l|);
      MoveDone(m1, m2, m3, head, off, f1, l1, regions, l, k, l1[|l|], n, listHead, runs);
    }
  }

  lemma ReallocateDone(m: seq<byte>, m1: seq<byte>, m2: seq<byte>, m3: seq<byte>, head: nat, off: nat, f: seq<Block>, l: seq<Block>,
      f1: seq<Block>, l1: seq<Block>, regions: seq<Block>, pages: seq<nat>, pages1: seq<nat>, size: word, k: nat, n: nat, ptr: word)
    requires ptr >= HEADER && Served(f, l, pages, size, f1, l1, pages1, ptr - HEADER, off) && AllKept(m, m1, l)
    requires HeapOk(m1, head, off, f1, l1, regions) && off >= 4096
    requires k < |l| && l[k].size == HEADER + n && l[k].End() <= |m1|
    requires n > 0 ==> ptr >= off && ptr - off + n <= |m1|
    requires m2 == if n == 0 then m1 else Copied(m1, ptr - off, l[k].base + HEADER, n)
    requires HeaderWritten(m2, m3, l[k].base, Word(m2, l[k].base), head)
    ensures Reallocated(m, m3, Grown(f, pages, size).0, l, k, size, [l[k]] + f1, if k < |l1| then Without(l1, k) else l1, ptr, off)
  {
    hide Word, HeapOk, Without, HeaderIs, Grown, FirstFit, AfterTake, Copied, SpreadOut, CopiedTo, OthersKept, SpilledTo,
      RestKept, AllKept;
    if |l1| == |l| {
      HeaderMissesOthers(m1, m3, head, off, f1, l, regions, k);
      OthersFromStart(m, m1, m3, l, k);
    } else {
      var blk := l1[|l|];
      LiveFacts(m1, head, off, f1, l1, regions, |l|);
      if n <= size {
        NewApart(m1, head, off, f1, l1, regions, l, blk, k);
        PayloadMoved(m1, m2, m3, l, k, blk, n);
        MoveFromStart(m, m1, m3, l, k, blk);
        WithoutThenPush(l, blk, k);
      } else {
        SpillDone(m, m1, m2, m3, head, off, f1, l1, regions, l, k, blk, n);
      }
    }
  }

  /** Only bytes of the regions and of these pages differ between m and m'. */
  ghost predicate OnlyOwnedChanged(m: seq<byte>, m': seq<byte>, regions: seq<Block>, pages: seq<nat>) {
    |m| == |m'| && forall b: nat :: b < |m| && Count(regions, b) == 0 && PageOf(b) !in pages ==> m'[b] == m[b]
  }

  lemma MoveStaysInside(m: seq<byte>, m2: seq<byte>, m3: seq<byte>, head: nat, off: nat, free: seq<Block>, live: seq<Block>, regions: seq<Block>,
      k: nat, j: nat, lo: nat, hi: nat)
    requires HeapOk(m, head, off, free, live, regions) && k < |live| && j < |live| && live[k].size >= HEADER
    requires live[j].base <= lo && hi <= live[j].End() && SameOutside(m, m2, lo, hi)
    requires SameOutside(m2, m3, live[k].base, live[k].base + HEADER)
    ensures OnlyOwnedChanged(m, m3, regions, [])
  {
    hide Word, Threaded;
    forall b: nat | b < |m| && Count(regions, b) == 0
      ensures m3[b] == m[b]
    {
      assert Tile(free, live, regions, b);
      if live[j].Has(b) { CountOne(live, j, b); }
      if live[k].Has(b) { CountOne(live, k, b); }
    }
  }

  lemma AllocationStaysInside(m: seq<byte>, m1: seq<byte>, m3: seq<byte>, head: nat, off: nat, free: seq<Block>, live: seq<Block>,
      regions: seq<Block>, regions': seq<Block>, pages: seq<nat>, pages': seq<nat>)
    requires HeapOk(m, head, off, free, live, regions)
    requires RegionsGrown(regions, pages, regions', pages')
    requires OnlyFreeChanged(m, m1, free, pages) && OnlyOwnedChanged(m1, m3, regions', [])
    ensures OnlyOwnedChanged(m, m3, regions', pages)
  {
    hide Word, Threaded;
    forall b: nat | b < |m| && Count(regions', b) == 0 && PageOf(b) !in pages
      ensures m3[b] == m[b]
    {
      assert Tile(free, live, regions, b);
    }
  }

  /** blk shares no byte with the blocks of l, nor block k with the others. */
  ghost predicate SpreadOut(l: seq<Block>, blk: Block, k: nat) {
    k < |l| &&
    (forall j :: 0 <= j < |l| ==> Apart(blk, l[j])) &&
    (forall j :: 0 <= j < |l| && j != k ==> Apart(l[j], l[k]))
  }

  /** Block by block, the bytes of m and m' are the same. */
  ghost predicate AllKept(m: seq<byte>, m': seq<byte>, live: seq<Block>) {
    |m| == |m'| && forall j :: 0 <= j < |live| ==> SameWithin(m, m', live[j].base, live[j].End())
  }

  lemma MoveFromStart(m: seq<byte>, m1: seq<byte>, m3: seq<byte>, l: seq<Block>, k: nat, blk: Block)
    requires AllKept(m, m1, l) && k < |l|
    requires CopiedTo(m1, m3, l[k], blk.base + HEADER) && OthersKept(m1, m3, l, k)
    ensures CopiedTo(m, m3, l[k], blk.base + HEADER) && OthersKept(m, m3, l, k)
  {
  }

  lemma WithoutThenPush(l: seq<Block>, x: Block, k: nat)
    requires k < |l|
    ensures Without(l + [x], k) == Without(l, k) + [x]
  {
  }

  /** Live block k has become a new block, carved from the first of f that fits,
      and lies on the free list. */
  ghost predicate Moved(f: seq<Block>, live: seq<Block>, k: nat, size: word, free': seq<Block>, live': seq<Block>, ptr: nat, off: nat)
    requires k < |live| && FirstFit(f, size, 0) < |f|
  {
    var j := FirstFit(f, size, 0);
    && f[j].size >= HEADER + size
    && ptr == f[j].base + HEADER + off
    && free' == [live[k]] + AfterTake(f, j, size)
    && live' == Without(live, k) + [Block(f[j].base, HEADER + size)]
  }

  /** The payload of blk in m stands at address at in m'. */
  ghost predicate CopiedTo(m: seq<byte>, m': seq<byte>, blk: Block, at: nat) {
    && HEADER <= blk.size && blk.End() <= |m| && at + blk.size - HEADER <= |m'|
    && forall j :: at <= j < at + blk.size - HEADER ==> m'[j] == m[blk.base + HEADER + (j - at)]
  }

  /** Every live block but the k-th has the same bytes in m and m'. */
  ghost predicate OthersKept(m: seq<byte>, m': seq<byte>, live: seq<Block>, k: nat) {
    |m| == |m'| && forall j :: 0 <= j < |live| && j != k ==> SameWithin(m, m', live[j].base, live[j].End())
  }

  lemma LiveKeptByAllocate(m: seq<byte>, m1: seq<byte>, head: nat, off: nat, free: seq<Block>, live: seq<Block>, regions: seq<Block>, pages: seq<nat>)
    requires HeapOk(m, head, off, free, live, regions) && OwnedApart(regions, pages) && OnlyFreeChanged(m, m1, free, pages)
    ensures AllKept(m, m1, live)
  {
    hide Word, Threaded;
    forall j | 0 <= j < |live|
      ensures SameWithin(m, m1, live[j].base, live[j].End())
    {
      forall b | live[j].base <= b < live[j].End() && b < |m|
        ensures m1[b] == m[b]
      {
        CountOne(live, j, b);
        assert Tile(free, live, regions, b);
      }
    }
  }

  /** The newest live block shares no byte with the older ones. */
  lemma NewApart(m: seq<byte>, head: nat, off: nat, free: seq<Block>, live: seq<Block>, regions: seq<Block>, l: seq<Block>, blk: Block, k: nat)
    requires HeapOk(m, head, off, free, live, regions) && live == l + [blk] && k < |l|
    ensures SpreadOut(l, blk, k)
  {
    hide Word, Threaded;
    forall j | 0 <= j < |l|
      ensures Apart(blk, l[j]) && (j != k ==> Apart(l[j], l[k]))
    {
      assert live[|l|] == blk && live[j] == l[j] && live[k] == l[k];
      LiveApart(free, live, regions, |m|, |l|, j);
      if j != k { LiveApart(free, live, regions, |m|, j, k); }
    }
  }

  /** Writing into a live payload leaves the heap alone. */
  lemma PayloadWriteKeepsHeap(m: seq<byte>, m': seq<byte>, head: nat, off: nat, free: seq<Block>, live: seq<Block>, regions: seq<Block>,
      k: nat, lo: nat, hi: nat)
    requires HeapOk(m, head, off, free, live, regions) && k < |live|
    requires live[k].base + HEADER <= lo && hi <= live[k].End() && SameOutside(m, m', lo, hi)
    ensures HeapOk(m', head, off, free, live, regions)
  {
    hide Word, Threaded;
    forall i | 0 <= i < |free|
      ensures SameWithin(m, m', free[i].base, free[i].base + HEADER)
    {
      FreeLiveApart(free, live, regions, |m|, i, k);
    }
    ThreadedElsewhere(m, m', head, off, free);
    forall j | 0 <= j < |live|
      ensures Word(m', live[j].base) == live[j].size
    {
      if j != k { LiveApart(free, live, regions, |m|, j, k); }
      WordKept(m, m', live[j].base);
    }
  }

  /** Writing into a live block leaves the page allocator's list alone. */
  lemma BlockWriteSparesPages(m: seq<byte>, m': seq<byte>, h: nat, free: seq<Block>, live: seq<Block>, regions: seq<Block>, k: nat,
      lo: nat, hi: nat, head: nat, off: nat, runs: seq<Block>)
    requires HeapOk(m, h, off, free, live, regions) && k < |live|
    requires ListOk(m, head, off, runs) && OwnedApart(regions, Pages(runs))
    requires live[k].base <= lo && hi <= live[k].End() && SameOutside(m, m', lo, hi)
    ensures ListOk(m', head, off, runs)
  {
    hide Word, Threaded;
    forall i | 0 <= i < |runs|
      ensures SameWithin(m, m', runs[i].base, runs[i].base + HEADER)
    {
      EachRunOk(runs, |m|, i);
      WithinPage(runs[i].base);
      forall b | runs[i].base <= b < runs[i].base + HEADER && b < |m|
        ensures m'[b] == m[b]
      {
        assert PageOf(b) == runs[i].base;
        assert Tile(free, live, regions, b);
        if live[k].Has(b) { CountOne(live, k, b); }
      }
    }
    ThreadedElsewhere(m, m', head, off, runs);
  }

  /** The old block given back: m1 before Release, m3 after it. */
  lemma FreedDone(m1: seq<byte>, m3: seq<byte>, head: nat, off: nat, free: seq<Block>, live: seq<Block>, regions: seq<Block>, k: nat,
      listHead: nat, runs: seq<Block>)
    requires HeapOk(m1, head, off, free, live, regions) && k < |live|
    requires HeaderWritten(m1, m3, live[k].base, Word(m1, live[k].base), head)
    requires ListOk(m1, listHead, off, runs) && OwnedApart(regions, Pages(runs))
    ensures HeapOk(m3, live[k].base + off, off, [live[k]] + free, Without(live, k), regions) && ListOk(m3, listHead, off, runs)
    ensures OnlyOwnedChanged(m1, m3, regions, [])
  {
    hide Word, HeapOk, ListOk, OwnedApart, Pages, Without, HeaderIs, OnlyOwnedChanged, OthersKept;
    LiveFacts(m1, head, off, free, live, regions, k);
    GiveKeepsHeap(m1, m3, head, off, free, live, regions, k);
    BlockWriteSparesPages(m1, m3, head, free, live, regions, k, live[k].base, live[k].base + HEADER, listHead, off, runs);
    MoveStaysInside(m1, m1, m3, head, off, free, live, regions, k, k, live[k].base, live[k].base);
  }

  lemma HeaderMissesOthers(m1: seq<byte>, m3: seq<byte>, head: nat, off: nat, free: seq<Block>, live: seq<Block>, regions: seq<Block>, k: nat)
    requires HeapOk(m1, head, off, free, live, regions) && k < |live|
    requires SameOutside(m1, m3, live[k].base, live[k].base + HEADER)
    ensures OthersKept(m1, m3, live, k)
  {
    hide Word, Threaded;
    forall j | 0 <= j < |live| && j != k
      ensures SameWithin(m1, m3, live[j].base, live[j].End())
    {
      LiveApart(free, live, regions, |m1|, j, k);
    }
  }

  /** The move: m1 before the copy, m2 after it, m3 after Release. */
  lemma MoveDone(m1: seq<byte>, m2: seq<byte>, m3: seq<byte>, head: nat, off: nat, free: seq<Block>, live: seq<Block>, regions: seq<Block>,
      l: seq<Block>, k: nat, blk: Block, n: nat, listHead: nat, runs: seq<Block>)
    requires HeapOk(m1, head, off, free, live, regions) && live == l + [blk] && k < |l|
    requires ListOk(m1, listHead, off, runs) && OwnedApart(regions, Pages(runs))
    requires l[k].size == HEADER + n && HEADER + n <= blk.size && l[k].End() <= |m1| && blk.End() <= |m1|
    requires m2 == Copied(m1, blk.base + HEADER, l[k].base + HEADER, n)
    requires HeaderWritten(m2, m3, l[k].base, Word(m2, l[k].base), head)
    ensures HeapOk(m3, l[k].base + off, off, [l[k]] + free, Without(live, k), regions) && ListOk(m3, listHead, off, runs)
    ensures OnlyOwnedChanged(m1, m3, regions, [])
  {
    hide Word, HeapOk, ListOk, OwnedApart, Pages, Without, HeaderIs, OnlyOwnedChanged, OthersKept, CopiedTo, Copied,
      SpreadOut, SameOutside;
    var at := blk.base + HEADER;
    CopiedStays(m1, at, l[k].base + HEADER, n);
    PayloadWriteKeepsHeap(m1, m2, head, off, free, live, regions, |l|, at, at + n);
    BlockWriteSparesPages(m1, m2, head, free, live, regions, |l|, at, at + n, listHead, off, runs);
    FreedDone(m2, m3, head, off, free, live, regions, k, listHead, runs);
    MoveStaysInside(m1, m2, m3, head, off, free, live, regions, k, |l|, at, at + n);
  }

  lemma PayloadMoved(m: seq<byte>, m2: seq<byte>, m3: seq<byte>, l: seq<Block>, k: nat, blk: Block, n: nat)
    requires SpreadOut(l, blk, k) && l[k].End() <= |m| && l[k].size == HEADER + n
    requires HEADER + n <= blk.size && blk.End() <= |m|
    requires m2 == Copied(m, blk.base + HEADER, l[k].base + HEADER, n)
    requires SameOutside(m2, m3, l[k].base, l[k].base + HEADER)
    ensures CopiedTo(m, m3, l[k], blk.base + HEADER)
    ensures OthersKept(m, m3, l, k)
  {
    hide Copied;
    var at, s := blk.base + HEADER, l[k].base + HEADER;
    assert Apart(blk, l[k]);
    CopiedStays(m, at, s, n);
    CopiedIsMove(m, at, s, n);
  }

  /** The payload of blk in m stands at address at in m', but for the bytes that are
      the header of blk itself. */
  ghost predicate SpilledTo(m: seq<byte>, m': seq<byte>, blk: Block, at: nat) {
    && HEADER <= blk.size && blk.End() <= |m| && at + blk.size - HEADER <= |m'|
    && forall j :: at <= j < at + blk.size - HEADER && !(blk.base <= j < blk.base + HEADER) ==> m'[j] == m[blk.base + HEADER + (j - at)]
  }

  /** Every live block but the k-th has the same bytes in m and m' outside these. */
  ghost predicate RestKept(m: seq<byte>, m': seq<byte>, live: seq<Block>, k: nat, lo: nat, hi: nat) {
    |m| == |m'| && forall j, b :: 0 <= j < |live| && j != k && live[j].base <= b < live[j].End() && b < |m| && !(lo <= b < hi) ==> m'[b] == m[b]
  }

  /** A payload too large for its new block: m before Allocate, m1 after it, m2 after
      the copy and m3 after Release. */
  lemma SpillDone(m: seq<byte>, m1: seq<byte>, m2: seq<byte>, m3: seq<byte>, head: nat, off: nat, free: seq<Block>, live: seq<Block>,
      regions: seq<Block>, l: seq<Block>, k: nat, blk: Block, n: nat)
    requires HeapOk(m1, head, off, free, live, regions) && live == l + [blk] && k < |l| && AllKept(m, m1, l)
    requires l[k].size == HEADER + n && blk.size >= HEADER && l[k].End() <= |m1| && blk.base + HEADER + n <= |m1|
    requires m2 == Copied(m1, blk.base + HEADER, l[k].base + HEADER, n)
    requires HeaderWritten(m2, m3, l[k].base, Word(m2, l[k].base), head)
    ensures SpilledTo(m, m3, l[k], blk.base + HEADER)
    ensures RestKept(m, m3, l, k, blk.base + HEADER, blk.base + HEADER + n)
  {
    hide HeapOk, Copied, HeaderIs, Word;
    var at, s := blk.base + HEADER, l[k].base + HEADER;
    NewApart(m1, head, off, free, live, regions, l, blk, k);
    assert Apart(blk, l[k]);
    CopiedStays(m1, at, s, n);
    CopiedIsMove(m1, at, s, n);
  }

  lemma OthersFromStart(m: seq<byte>, m1: seq<byte>, m3: seq<byte>, l: seq<Block>, k: nat)
    requires AllKept(m, m1, l) && OthersKept(m1, m3, l, k)
    ensures OthersKept(m, m3, l, k)
  {
  }

  lemma CopiedStays(m: seq<byte>, d: nat, s: nat, n: nat)
    requires d + n <= |m| && s + n <= |m|
    ensures SameOutside(m, Copied(m, d, s, n), d, d + n)
  {
  }

  lemma NodeBelow(m: seq<byte>, head: nat, off: nat, free: seq<Block>, live: seq<Block>, regions: seq<Block>, node: nat)
    requires HeapOk(m, head, off, free, live, regions)
    requires node == 0 || (|live| > 0 && node == live[|live| - 1].base + off)
    ensures node + HEADER < WORD_LIMIT
  {
  }

  /** What the header of live block k shows. */
  lemma LiveFacts(m: seq<byte>, head: nat, off: nat, free: seq<Block>, live: seq<Block>, regions: seq<Block>, k: nat)
    requires HeapOk(m, head, off, free, live, regions) && k < |live|
    ensures live[k].size >= HEADER && live[k].End() <= |m| && off + |m| < WORD_LIMIT
    ensures Word(m, live[k].base) == live[k].size
  {
  }

  /** What following the link after k nodes shows. */
  lemma LinkFacts(m: seq<byte>, head: nat, off: nat, free: seq<Block>, pages: seq<nat>, k: nat)
    requires Searchable(m, head, off, free, pages) && k <= |free|
    ensures off >= HEADER && off + |m| < WORD_LIMIT
    ensures k > 0 ==> free[k - 1].base + HEADER <= |m|
    ensures k == 0 ==> head == Link(free, 0, off)
    ensures k > 0 ==> Word(m, free[k - 1].base + 8) == Link(free, k, off)
    ensures k < |free| ==> free[k].base + HEADER <= |m| && Word(m, free[k].base) == free[k].size
  {
    if k > 0 { assert NodeAt(m, off, free, k - 1); }
    if k < |free| { assert NodeAt(m, off, free, k); }
  }

  lemma FoundAt(free: seq<Block>, pages: seq<nat>, size: word, k: nat)
    requires k < |free| && FirstFit(free, size, k) == FirstFit(free, size, 0)
    requires free[k].size > size && free[k].size >= Wrap(HEADER + size)
    ensures Fits(free[k], size) && FirstFit(free, size, 0) == k
    ensures Grown(free, pages, size) == (free, pages)
    ensures Sound(free, pages, size) ==> RemainderOk(free[k], size)
  {
  }

  lemma SkipAt(free: seq<Block>, size: word, k: nat)
    requires k < |free| && FirstFit(free, size, k) == FirstFit(free, size, 0)
    requires !(free[k].size > size && free[k].size >= Wrap(HEADER + size))
    ensures FirstFit(free, size, k + 1) == FirstFit(free, size, 0)
  {
  }

  /** The search has failed: the heap grows, or no page is left. */
  lemma NothingFits(free: seq<Block>, pages: seq<nat>, size: word)
    requires FirstFit(free, size, |free|) == FirstFit(free, size, 0)
    ensures FirstFit(free, size, 0) == |free| && forall k :: 0 <= k < |free| ==> !Fits(free[k], size)
    ensures pages == [] ==> Grown(free, pages, size) == (free, pages)
    ensures pages != [] ==>
              var free1, pages1 := [Block(pages[0], 40960)] + free, Rest(pages, 10);
              && Grown(free, pages, size) == Grown(free1, pages1, size)
              && (Sound(free, pages, size) ==> Contiguous(pages, 10) && Sound(free1, pages1, size))
  {
  }

  lemma ApartAfterGrowth(m: seq<byte>, head: nat, off: nat, free: seq<Block>, pages: seq<nat>)
    requires Searchable(m, head, off, free, pages) && HeadersApart(free) && PagesOk(pages, |m|) && |pages| > 0
    ensures HeadersApart([Block(pages[0], 40960)] + free)
  {
    hide Threaded, HeadersOffPages, HeadersApart;
    GrownHeadersApart(free, pages, |m|, 40960);
  }

  lemma FewerLeft(pages: seq<nat>)
    requires |pages| > 0
    ensures |Rest(pages, 10)| < |pages|
  {
  }

  lemma BlocksAreFree(m: seq<byte>, m': seq<byte>, free: seq<Block>, pages: seq<nat>)
    ensures OnlyBlocksChanged(m, m', free) ==> OnlyFreeChanged(m, m', free, pages)
  {
  }

  lemma NothingIsFree(m: seq<byte>, free: seq<Block>, pages: seq<nat>)
    ensures OnlyFreeChanged(m, m, free, pages)
  {
  }

  lemma GrowthChanges(m: seq<byte>, m1: seq<byte>, m2: seq<byte>, free: seq<Block>, pages: seq<nat>)
    requires PagesOk(pages, |m|) && Contiguous(pages, 10) && |pages| >= 10
    requires OnlyPagesChanged(m, m1, pages)
    requires OnlyFreeChanged(m1, m2, [Block(pages[0], 40960)] + free, Rest(pages, 10))
    ensures OnlyFreeChanged(m, m2, free, pages)
  {
    hide Contiguous;
    GrowthInside(pages, |m|, 10);
    forall b: nat | Block(pages[0], 40960).Has(b)
      ensures PageOf(b) in pages
    {
      assert PageOf(b) in pages[..10];
    }
    FreeChangesCompose(m, m1, m2, free, Block(pages[0], 40960), pages, 10);
  }

  /** AllocatePage's answer in ExpandHeap: the next page, or past the last one a
      value that is not null. */
  lemma NextAnswer(pages: seq<nat>, i: nat, page: word, rest: seq<nat>, length: nat, off: nat)
    requires PagesOk(pages, length) && 0 < off < WORD_LIMIT
    requires if Rest(pages, i) == [] then rest == [] && page == WORD_LIMIT - off else Rest(pages, i) == [page] + rest
    ensures rest == Rest(pages, i + 1) && page != 0
  {
    if Rest(pages, i) != [] {
      assert page == Rest(pages, i)[0] == pages[i];
      assert rest == ([page] + rest)[1..] == pages[i..][1..];
    }
  }

  lemma FirstAnswer(pages: seq<nat>, page: word, rest: seq<nat>, length: nat, off: nat)
    requires PagesOk(pages, length) && 0 < off && off + length < WORD_LIMIT
    requires if pages == [] then rest == [] && page == WORD_LIMIT - off else pages == [page] + rest
    ensures rest == Rest(pages, 1)
    ensures pages == [] ==> Wrap(page + off) == 0
    ensures pages != [] ==> page == pages[0] && 4096 <= page && page + 4096 <= length && Wrap(page + off) == page + off
  {
    NextAnswer(pages, 0, page, rest, length, off);
  }

  lemma RestCompose(m: seq<byte>, m1: seq<byte>, m2: seq<byte>, pages: seq<nat>, i: nat)
    requires OnlyPagesChanged(m, m1, pages) && OnlyPagesChanged(m1, m2, Rest(pages, i))
    ensures OnlyPagesChanged(m, m2, pages)
  {
  }

  lemma ContiguousRest(pages: seq<nat>, n: nat)
    requires Contiguous(pages, n)
    ensures n <= |pages| && Rest(pages, n) == pages[n..]
  {
  }

  /** The growth is complete: the list can be searched, the page list is as it was
      but for the pages taken, and only these pages have changed. */
  lemma ExpansionDone(m: seq<byte>, m1: seq<byte>, m2: seq<byte>, head: nat, off: nat, free: seq<Block>,
      listHead: nat, runs: seq<Block>, pages: seq<nat>, n: nat, size: nat)
    requires Searchable(m, head, off, free, pages) && PagesOk(pages, |m|) && |pages| > 0 && n > 0
    requires size <= WORD_LIMIT - HEADER && OnlyPagesChanged(m, m1, pages)
    requires HeaderWritten(m1, m2, pages[0], size, head)
    requires ListOk(m1, listHead, off, runs) && Pages(runs) == Rest(pages, n)
    ensures Searchable(m2, pages[0] + off, off, [Block(pages[0], size)] + free, Rest(pages, n))
    ensures ListOk(m2, listHead, off, runs) && OnlyPagesChanged(m, m2, pages)
  {
    hide Word, Threaded, Searchable, HeaderIs, RunsOk, PagesOk, PageOf, Rest;
    FirstTaken(pages, |m|, n);
    GrowKeepsSearch(m, m1, m2, head, off, free, pages, n, size);
    PagePartsHeaders(runs, |m|, pages[0]);
    ThreadedElsewhere(m1, m2, listHead, off, runs);
  }

  lemma NoPageChanged(m: seq<byte>, pages: seq<nat>)
    ensures OnlyPagesChanged(m, m, pages)
  {
  }

  /** What the list shows of node k and of its predecessor. */
  lemma NodeFacts(m: seq<byte>, head: nat, off: nat, free: seq<Block>, k: nat)
    requires Threaded(m, head, off, free) && k < |free|
    ensures HeaderIs(m, free[k].base, free[k].size, Link(free, k + 1, off))
    ensures k == 0 ==> head == free[0].base + off
    ensures k > 0 ==> HeaderIs(m, free[k - 1].base, free[k - 1].size, free[k].base + off)
  {
    assert NodeAt(m, off, free, k);
    if k > 0 {
      assert NodeAt(m, off, free, k - 1);
    }
  }

  /** After unlinking, the block found is ready to be split. */
  lemma SplitReady(m: seq<byte>, m1: seq<byte>, head: nat, head1: nat, off: nat, free: seq<Block>, k: nat, size: word)
    requires Threaded(m, head, off, free) && HeadersApart(free) && Unlinked(m, m1, head, head1, off, free, k)
    requires free[k].size >= HEADER + size && RestInside(free[k], size, |m|)
    ensures CanSplit(m1, free[k], size)
  {
    hide Word, Threaded;
    NodeFacts(m, head, off, free, k);
    if k > 0 { WordKept(m, m1, free[k].base); }
  }

  /** A clean remainder has its header in the block. */
  lemma RestIsInside(m: seq<byte>, head: nat, off: nat, free: seq<Block>, live: seq<Block>, regions: seq<Block>, k: nat, size: word)
    requires HeapOk(m, head, off, free, live, regions) && k < |free| && RemainderOk(free[k], size)
    ensures RestInside(free[k], size, |m|)
  {
  }

  /** The page allocator's list lies in free pages, not in heap blocks. */
  lemma TakeSparesPages(m: seq<byte>, m': seq<byte>, h: nat, free: seq<Block>, live: seq<Block>, regions: seq<Block>, head: nat, off: nat, runs: seq<Block>)
    requires HeapOk(m, h, off, free, live, regions)
    requires ListOk(m, head, off, runs) && OwnedApart(regions, Pages(runs))
    requires OnlyBlocksChanged(m, m', free)
    ensures ListOk(m', head, off, runs)
  {
    hide Word, Threaded;
    forall k | 0 <= k < |runs|
      ensures SameWithin(m, m', runs[k].base, runs[k].base + HEADER)
    {
      EachRunOk(runs, |m|, k);
      WithinPage(runs[k].base);
      forall b | runs[k].base <= b < runs[k].base + HEADER && b < |m|
        ensures m'[b] == m[b]
      {
        assert PageOf(b) == runs[k].base;
        assert Tile(free, live, regions, b);
      }
    }
    ThreadedElsewhere(m, m', head, off, runs);
  }
}
