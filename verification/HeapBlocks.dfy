/** The heap's blocks as values: every byte of the regions the heap owns lies in
    exactly one block, free or live, and what each heap operation does to the
    blocks keeps it so. */
module HeapBlocks {
  import opened Memory
  import opened FreeList
  import opened PhysicalPages

  /** Byte b lies in exactly one block if the heap owns it, else in none. */
  ghost predicate Tile(free: seq<Block>, live: seq<Block>, regions: seq<Block>, b: int) {
    Count(free, b) + Count(live, b) == Count(regions, b) && Count(regions, b) <= 1
  }

  ghost predicate Tiles(free: seq<Block>, live: seq<Block>, regions: seq<Block>) {
    forall b: int :: Tile(free, live, regions, b)
  }

  /** Every block has room for its header and lies inside memory. */
  ghost predicate BlocksIn(blocks: seq<Block>, length: nat) {
    forall k :: 0 <= k < |blocks| ==> blocks[k].size >= HEADER && blocks[k].End() <= length
  }

  ghost predicate Apart(x: Block, y: Block) {
    x.End() <= y.base || y.End() <= x.base
  }

  /** Two free blocks share no byte. */
  lemma FreeApart(free: seq<Block>, live: seq<Block>, regions: seq<Block>, length: nat, i: nat, j: nat)
    requires Tiles(free, live, regions) && BlocksIn(free, length) && i < |free| && j < |free| && i != j
    ensures Apart(free[i], free[j])
  {
    if !Apart(free[i], free[j]) {
      var b := if free[i].base < free[j].base then free[j].base else free[i].base;
      assert Tile(free, live, regions, b);
      CountTwo(free, if i < j then i else j, if i < j then j else i, b);
    }
  }

  lemma LiveApart(free: seq<Block>, live: seq<Block>, regions: seq<Block>, length: nat, i: nat, j: nat)
    requires Tiles(free, live, regions) && BlocksIn(live, length) && i < |live| && j < |live| && i != j
    ensures Apart(live[i], live[j])
  {
    if !Apart(live[i], live[j]) {
      var b := if live[i].base < live[j].base then live[j].base else live[i].base;
      assert Tile(free, live, regions, b);
      CountTwo(live, if i < j then i else j, if i < j then j else i, b);
    }
  }

  lemma FreeLiveApart(free: seq<Block>, live: seq<Block>, regions: seq<Block>, length: nat, i: nat, j: nat)
    requires Tiles(free, live, regions) && BlocksIn(free, length) && BlocksIn(live, length) && i < |free| && j < |live|
    ensures Apart(free[i], live[j])
  {
    if !Apart(free[i], live[j]) {
      var b := if free[i].base < live[j].base then live[j].base else free[i].base;
      assert Tile(free, live, regions, b);
      CountOne(free, i, b);
      CountOne(live, j, b);
    }
  }

  // The search. sizeof(Node) + size may wrap around; the first test covers that.

  predicate Fits(blk: Block, size: word) {
    blk.size > size && blk.size >= Wrap(HEADER + size)
  }

  /** The two tests together ask for header and payload without wrap-around. */
  lemma FitsMeansRoom(blk: Block, size: word)
    requires blk.size <= WORD_LIMIT - HEADER
    ensures Fits(blk, size) <==> blk.size >= HEADER + size
  {
  }

  /** The first position from k on whose block fits, |blocks| if none does. */
  function FirstFit(blocks: seq<Block>, size: word, k: nat): (r: nat)
    requires k <= |blocks|
    ensures k <= r <= |blocks|
    ensures r < |blocks| ==> Fits(blocks[r], size)
    ensures forall j :: k <= j < r ==> !Fits(blocks[j], size)
    decreases |blocks| - k
  {
    if k == |blocks| || Fits(blocks[k], size) then k else FirstFit(blocks, size, k + 1)
  }

  /** The free list once block k has served a request: what is left of the block
      goes to the front. */
  function AfterTake(free: seq<Block>, k: nat, size: word): seq<Block>
    requires k < |free| && free[k].size >= HEADER + size
  {
    var used := HEADER + size;
    if free[k].size == used then Without(free, k)
    else [Block(free[k].base + used, free[k].size - used)] + Without(free, k)
  }

  /** What is left over is nothing or has room for a header of its own. */
  predicate RemainderOk(blk: Block, size: word) {
    blk.size == HEADER + size || blk.size >= HEADER + size + HEADER
  }

  lemma CountPush(x: Block, blocks: seq<Block>, b: int)
    ensures Count([x] + blocks, b) == (if x.Has(b) then 1 else 0) + Count(blocks, b)
    ensures Count(blocks + [x], b) == (if x.Has(b) then 1 else 0) + Count(blocks, b)
  {
    CountConcat([x], blocks, b);
    CountConcat(blocks, [x], b);
    assert [x][1..] == [];
    assert Count([x], b) == (if x.Has(b) then 1 else 0);
  }

  /** Serving a request from block k keeps the tiling: no byte lost, none shared. */
  lemma TakeTiles(free: seq<Block>, live: seq<Block>, regions: seq<Block>, k: nat, size: word)
    requires Tiles(free, live, regions) && k < |free| && free[k].size >= HEADER + size
    ensures Tiles(AfterTake(free, k, size), live + [Block(free[k].base, HEADER + size)], regions)
  {
    var used := Block(free[k].base, HEADER + size);
    var left := Block(free[k].base + used.size, free[k].size - used.size);
    forall b: int
      ensures Tile(AfterTake(free, k, size), live + [used], regions, b)
    {
      assert Tile(free, live, regions, b);
      CountSplit(free, k, b);
      CountPush(left, Without(free, k), b);
      CountPush(used, live, b);
    }
  }

  lemma TakeBlocksIn(free: seq<Block>, length: nat, k: nat, size: word)
    requires BlocksIn(free, length) && k < |free| && free[k].size >= HEADER + size && RemainderOk(free[k], size)
    ensures BlocksIn(AfterTake(free, k, size), length)
  {
  }

  /** Giving live block k back keeps the tiling. */
  lemma GiveTiles(free: seq<Block>, live: seq<Block>, regions: seq<Block>, k: nat)
    requires Tiles(free, live, regions) && k < |live|
    ensures Tiles([live[k]] + free, Without(live, k), regions)
  {
    forall b: int
      ensures Tile([live[k]] + free, Without(live, k), regions, b)
    {
      assert Tile(free, live, regions, b);
      CountSplit(live, k, b);
      CountPush(live[k], free, b);
    }
  }

  /** A new region, owned by nobody yet, joins as one free block. */
  lemma GrowTiles(free: seq<Block>, live: seq<Block>, regions: seq<Block>, r: Block)
    requires Tiles(free, live, regions)
    requires forall b: int :: r.Has(b) ==> Count(regions, b) == 0
    ensures Tiles([r] + free, live, [r] + regions)
  {
    forall b: int
      ensures Tile([r] + free, live, [r] + regions, b)
    {
      assert Tile(free, live, regions, b);
      CountPush(r, free, b);
      CountPush(r, regions, b);
    }
  }

  // Growing the heap when nothing fits.

  /** The n pages on top of the stack are the n pages from the first one up. */
  predicate Contiguous(pages: seq<nat>, n: nat) {
    |pages| >= n && forall i :: 0 <= i < n ==> pages[0] + 4096 * i in pages[..n]
  }

  /** The first n pages ascend one page at a time. */
  predicate Ascending(pages: seq<nat>, n: nat) {
    |pages| >= n && forall i :: 0 <= i < n ==> pages[i] == pages[0] + 4096 * i
  }

  lemma AscendingContiguous(pages: seq<nat>, n: nat)
    requires Ascending(pages, n)
    ensures Contiguous(pages, n)
  {
    forall i | 0 <= i < n
      ensures pages[0] + 4096 * i in pages[..n]
    {
      assert pages[..n][i] == pages[i];
    }
  }

  lemma AscendingPrefix(top: seq<nat>, rest: seq<nat>, n: nat)
    requires Ascending(top, n)
    ensures Ascending(top + rest, n)
  {
  }

  /** A run of n pages or more on top of the free list is handed out in
      ascending order, so it is contiguous. */
  lemma HeadRunContiguous(runs: seq<Block>, length: nat, n: nat)
    requires RunsOk(runs, length) && |runs| > 0 && runs[0].size >= 4096 * n
    ensures Ascending(Pages(runs), n) && Contiguous(Pages(runs), n)
  {
    hide RunsOk, RunPages, Ascending, Contiguous;
    EachRunOk(runs, length, 0);
    var top := RunPages(runs[0].base, runs[0].size);
    RunAscends(runs[0], n);
    AscendingPrefix(top, Pages(runs[1..]), n);
    AscendingContiguous(Pages(runs), n);
  }

  lemma RunAscends(r: Block, n: nat)
    requires r.base % 4096 == 0 && r.size % 4096 == 0 && r.size >= 4096 * n
    ensures Ascending(RunPages(r.base, r.size), n)
  {
    hide RunPages;
    RunPagesWhere(r.base, r.size);
  }

  /** The block ExpandHeap(n) inserts, pages[0] with n * 4096 bytes, lies within
      the pages it took exactly when these are contiguous. */
  lemma GrowthExact(pages: seq<nat>, length: nat, n: nat)
    requires PagesOk(pages, length) && |pages| > 0 && n > 0
    ensures Contiguous(pages, n) <==>
            forall b: nat :: Block(pages[0], 4096 * n).Has(b) ==> PageOf(b) in pages[..if n <= |pages| then n else |pages|]
  {
    hide PageOf;
    var taken := pages[..if n <= |pages| then n else |pages|];
    if Contiguous(pages, n) {
      ContiguousCovers(pages, length, n);
    }
    if Covers(pages[0], n, taken) {
      CoversContiguous(pages, length, n, taken);
    }
    assert Covers(pages[0], n, taken) <==> forall b: nat :: Block(pages[0], 4096 * n).Has(b) ==> PageOf(b) in taken;
  }

  /** Every byte of the n pages from first lies in a page taken. */
  ghost predicate Covers(first: nat, n: nat, taken: seq<nat>) {
    forall b: nat :: Block(first, 4096 * n).Has(b) ==> PageOf(b) in taken
  }

  lemma ContiguousCovers(pages: seq<nat>, length: nat, n: nat)
    requires PagesOk(pages, length) && n > 0 && Contiguous(pages, n)
    ensures Covers(pages[0], n, pages[..n])
  {
    forall b: nat | Block(pages[0], 4096 * n).Has(b)
      ensures PageOf(b) in pages[..n]
    {
      var i := (b - pages[0]) / 4096;
      assert pages[0] + 4096 * i in pages[..n];
      WithinPage(pages[0] + 4096 * i);
    }
  }

  lemma CoversContiguous(pages: seq<nat>, length: nat, n: nat, taken: seq<nat>)
    requires PagesOk(pages, length) && |pages| > 0 && n > 0
    requires taken == pages[..if n <= |pages| then n else |pages|] && Covers(pages[0], n, taken)
    ensures Contiguous(pages, n)
  {
    FirstPage(pages[0], pages[1..], length) by { assert pages == [pages[0]] + pages[1..]; }
    forall i | 0 <= i < n
      ensures pages[0] + 4096 * i in taken
    {
      PageOfMultiple(pages[0], i);
      assert Block(pages[0], 4096 * n).Has(pages[0] + 4096 * i);
    }
    ManyPages(taken, pages[0], n);
  }

  lemma PageOfMultiple(p: nat, i: nat)
    requires p % 4096 == 0
    ensures PageOf(p + 4096 * i) == p + 4096 * i
  {
  }

  /** A list with n different entries has at least n of them. */
  lemma {:induction false} ManyPages(pages: seq<nat>, first: nat, n: nat)
    requires forall i :: 0 <= i < n ==> first + 4096 * i in pages
    ensures |pages| >= n
  {
    if n > 0 {
      var k :| 0 <= k < |pages| && pages[k] == first + 4096 * (n - 1);
      var rest := pages[..k] + pages[k + 1..];
      forall i | 0 <= i < n - 1
        ensures first + 4096 * i in rest
      {
        var j :| 0 <= j < |pages| && pages[j] == first + 4096 * i;
        assert rest[if j < k then j else j - 1] == pages[j];
      }
      ManyPages(rest, first, n - 1);
    }
  }

  // The condition on the list of runs, as its headers show it.

  /** The runs, until they come to need bytes, lie between lo and hi. */
  predicate Within(runs: seq<Block>, lo: nat, hi: nat, need: nat)
    decreases |runs|
  {
    need == 0 ||
    (|runs| > 0 &&
     var taken := if runs[0].size <= need then runs[0].size else need;
     lo <= runs[0].base && runs[0].base + taken <= hi && Within(runs[1..], lo, hi, need - taken))
  }

  /** The head run alone holds n pages, or it and the next runs make up one stretch
      of n pages that starts where the head run does. */
  predicate HeadStretch(runs: seq<Block>, n: nat) {
    |runs| > 0 && Within(runs, runs[0].base, runs[0].base + 4096 * n, 4096 * n)
  }

  ghost predicate PagesWithin(pages: seq<nat>, lo: nat, hi: nat, k: nat) {
    |pages| >= k && forall i :: 0 <= i < k ==> lo <= pages[i] && pages[i] + 4096 <= hi
  }

  lemma {:induction false} WithinIsPages(runs: seq<Block>, length: nat, lo: nat, hi: nat, k: nat)
    requires RunsOk(runs, length)
    ensures Within(runs, lo, hi, 4096 * k) <==> PagesWithin(Pages(runs), lo, hi, k)
    decreases |runs|
  {
    if |runs| > 0 && k > 0 {
      var r, top, rest := runs[0], RunPages(runs[0].base, runs[0].size), Pages(runs[1..]);
      var s := r.size / 4096;
      EachRunOk(runs, length, 0);
      assert r.size == 4096 * s;
      RunPagesWhere(r.base, r.size);
      PrefixWithin(top, rest, r.base, lo, hi, k);
      if s < k {
        WithinIsPages(runs[1..], length, lo, hi, k - s);
      }
    }
  }

  lemma PrefixWithin(top: seq<nat>, rest: seq<nat>, base: nat, lo: nat, hi: nat, k: nat)
    requires k > 0 && |top| > 0 && forall i :: 0 <= i < |top| ==> top[i] == base + 4096 * i
    ensures var t := if |top| <= k then |top| else k;
      PagesWithin(top + rest, lo, hi, k) <==> lo <= base && base + 4096 * t <= hi && PagesWithin(rest, lo, hi, k - t)
  {
    var t, all := if |top| <= k then |top| else k, top + rest;
    if PagesWithin(all, lo, hi, k) {
      assert all[0] == base && all[t - 1] == base + 4096 * (t - 1);
      forall i | 0 <= i < k - t
        ensures lo <= rest[i] && rest[i] + 4096 <= hi
      {
        assert all[|top| + i] == rest[i];
      }
    }
  }

  /** The pages first, first + 4096, ... */
  ghost function Slots(first: nat, n: nat): set<nat> {
    if n == 0 then {} else Slots(first, n - 1) + {first + 4096 * (n - 1)}
  }

  lemma {:induction false} SlotsAre(first: nat, n: nat)
    ensures |Slots(first, n)| == n
    ensures forall p :: p in Slots(first, n) <==> exists i :: 0 <= i < n && p == first + 4096 * i
  {
    if n > 0 { SlotsAre(first, n - 1); }
  }

  lemma {:induction false} DifferentInSet(pages: seq<nat>, all: set<nat>)
    requires forall i, j :: 0 <= i < j < |pages| ==> pages[i] != pages[j]
    requires forall p :: p in pages ==> p in all
    ensures |pages| <= |all|
    decreases |pages|
  {
    if |pages| > 0 {
      DifferentInSet(pages[1..], all - {pages[0]});
    }
  }

  /** n different pages between first and first + 4096 * n are all the pages there. */
  lemma FillTheStretch(pages: seq<nat>, first: nat, n: nat)
    requires |pages| == n && forall i, j :: 0 <= i < j < n ==> pages[i] != pages[j]
    requires forall i :: 0 <= i < n ==> (pages[i] - first) % 4096 == 0 && first <= pages[i] && pages[i] + 4096 <= first + 4096 * n
    ensures forall i :: 0 <= i < n ==> first + 4096 * i in pages
  {
    SlotsAre(first, n);
    forall p | p in pages
      ensures p in Slots(first, n)
    {
      var j :| 0 <= j < n && pages[j] == p;
      assert p == first + 4096 * ((p - first) / 4096);
    }
    forall i | 0 <= i < n
      ensures first + 4096 * i in pages
    {
      var x := first + 4096 * i;
      if x !in pages {
        DifferentInSet(pages, Slots(first, n) - {x});
      }
    }
  }

  /** The n pages on top of the stack are one stretch exactly when the runs say so. */
  lemma ContiguousByRuns(runs: seq<Block>, length: nat, n: nat)
    requires RunsOk(runs, length) && n > 0
    ensures Contiguous(Pages(runs), n) <==> HeadStretch(runs, n)
  {
    hide RunsOk, Pages, Within;
    var pages := Pages(runs);
    RunsGivePages(runs, length);
    if |runs| > 0 {
      var lo, hi := runs[0].base, runs[0].base + 4096 * n;
      TopOfStack(runs, length);
      WithinIsPages(runs, length, lo, hi, n);
      StretchByPages(pages, length, n);
    } else {
      NoPages(runs);
    }
  }

  lemma TopOfStack(runs: seq<Block>, length: nat)
    requires RunsOk(runs, length) && |runs| > 0
    ensures |Pages(runs)| > 0 && Pages(runs)[0] == runs[0].base
  {
    RunPagesWhere(runs[0].base, runs[0].size);
  }

  lemma NoPages(runs: seq<Block>)
    requires |runs| == 0
    ensures Pages(runs) == []
  {
  }

  lemma StretchByPages(pages: seq<nat>, length: nat, n: nat)
    requires PagesOk(pages, length) && |pages| > 0 && n > 0
    ensures Contiguous(pages, n) <==> PagesWithin(pages, pages[0], pages[0] + 4096 * n, n)
  {
    if Contiguous(pages, n) {
      GrowthTakesAll(pages, length, n);
      forall i | 0 <= i < n
        ensures pages[0] <= pages[i] && pages[i] + 4096 <= pages[0] + 4096 * n
      {
        assert pages[..n][i] == pages[i] && pages[i] in pages[..n];
        AlignedBelow(pages[i], pages[0], n);
      }
    }
    if PagesWithin(pages, pages[0], pages[0] + 4096 * n, n) {
      FillTheStretch(pages[..n], pages[0], n);
    }
  }

  lemma AlignedBelow(p: nat, first: nat, n: nat)
    requires p % 4096 == 0 && first % 4096 == 0 && p < first + 4096 * n
    ensures p + 4096 <= first + 4096 * n
  {
    var x, y := p / 4096, first / 4096;
    assert p == 4096 * x && first == 4096 * y;
  }

  /** After two allocations and a FreePage of the first page, that page is on top
      and its neighbour is not free: growing by ten pages claims the neighbour,
      which a caller still holds. */
  lemma FreePageScatters(base: nat, size: nat, length: nat)
    requires base % 4096 == 0 && size % 4096 == 0 && base >= 4096 && size >= 12 * 4096 && base + size <= length
    ensures var runs := [Block(base, 4096)] + RunsAfterTake(RunsAfterTake([Block(base, size)]));
      && RunsOk(runs, length) && Pages(runs)[0] == base && !HeadStretch(runs, 10) && !Contiguous(Pages(runs), 10)
      && base + 4096 !in Pages(runs) && Block(base, 40960).Has(base + 4096)
  {
    hide RunsOk, Pages, Contiguous, HeadStretch;
    var runs := [Block(base, 4096), Block(base + 8192, size - 8192)];
    assert RunsAfterTake([Block(base, size)]) == [Block(base + 4096, size - 4096)];
    assert [Block(base, 4096)] + RunsAfterTake([Block(base + 4096, size - 4096)]) == runs;
    GapRuns(base, size, length);
    GapIsNoStretch(runs);
    ContiguousByRuns(runs, length, 10);
    TopOfStack(runs, length);
    InPages(runs, length, base + 4096);
  }

  lemma GapRuns(base: nat, size: nat, length: nat)
    requires base % 4096 == 0 && size % 4096 == 0 && base >= 4096 && size >= 12 * 4096 && base + size <= length
    ensures RunsOk([Block(base, 4096), Block(base + 8192, size - 8192)], length)
  {
    var rest := Block(base + 8192, size - 8192);
    assert [rest][1..] == [] && [Block(base, 4096), rest][1..] == [rest];
    assert RunsOk([rest], length);
  }

  lemma GapIsNoStretch(runs: seq<Block>)
    requires |runs| == 2 && runs[0].size == 4096 && runs[1].base == runs[0].base + 8192 && runs[1].size >= 10 * 4096
    ensures !HeadStretch(runs, 10)
  {
    assert runs[1..][0] == runs[1];
    assert !Within(runs[1..], runs[0].base, runs[0].base + 40960, 36864);
  }

  /** No page of the n on top of the stack lies outside that block either. */
  lemma GrowthTakesAll(pages: seq<nat>, length: nat, n: nat)
    requires PagesOk(pages, length) && n > 0 && Contiguous(pages, n)
    ensures forall p :: p in pages[..n] ==> Block(pages[0], 4096 * n).Has(p)
  {
    hide PagesOk;
    forall p | p in pages[..n]
      ensures Block(pages[0], 4096 * n).Has(p)
    {
      var k :| 0 <= k < n && pages[..n][k] == p;
      NoStranger(pages[..n], pages[0], n, k);
    }
  }

  /** n entries that include n different pages are just these. */
  lemma NoStranger(taken: seq<nat>, first: nat, n: nat, k: nat)
    requires |taken| == n && k < n && forall i :: 0 <= i < n ==> first + 4096 * i in taken
    ensures Block(first, 4096 * n).Has(taken[k])
  {
    if !Block(first, 4096 * n).Has(taken[k]) {
      var rest := taken[..k] + taken[k + 1..];
      forall i | 0 <= i < n
        ensures first + 4096 * i in rest
      {
        var j :| 0 <= j < n && taken[j] == first + 4096 * i;
        assert rest[if j < k then j else j - 1] == taken[j];
      }
      ManyPages(rest, first, n);
    }
  }

  /** The pages that left the stack, and only they, have joined the regions. */
  ghost predicate RegionsGrown(regions: seq<Block>, pages: seq<nat>, regions': seq<Block>, pages': seq<nat>) {
    |pages'| <= |pages| && pages' == pages[|pages| - |pages'|..] &&
    forall b: nat :: Count(regions', b) == Count(regions, b) + (if PageOf(b) in pages[..|pages| - |pages'|] then 1 else 0)
  }

  lemma GrowthJoins(regions: seq<Block>, pages: seq<nat>, length: nat, n: nat)
    requires PagesOk(pages, length) && n > 0 && Contiguous(pages, n)
    ensures RegionsGrown(regions, pages, [Block(pages[0], 4096 * n)] + regions, pages[n..])
  {
    var r := Block(pages[0], 4096 * n);
    GrowthExact(pages, length, n);
    GrowthTakesAll(pages, length, n);
    assert |pages| - |pages[n..]| == n;
    forall b: nat
      ensures Count([r] + regions, b) == Count(regions, b) + (if PageOf(b) in pages[..n] then 1 else 0)
    {
      CountPush(r, regions, b);
      if PageOf(b) in pages[..n] {
        BlockOfPages(r, PageOf(b), b);
      }
    }
  }

  lemma NoGrowth(regions: seq<Block>, pages: seq<nat>)
    ensures RegionsGrown(regions, pages, regions, pages)
  {
  }

  /** A block of whole pages holds all of a page it holds the first byte of. */
  lemma BlockOfPages(r: Block, p: nat, b: nat)
    requires r.base % 4096 == 0 && r.size % 4096 == 0 && p % 4096 == 0 && PageOf(b) == p && r.Has(p)
    ensures r.Has(b)
  {
  }

  lemma GrownCompose(r0: seq<Block>, p0: seq<nat>, r1: seq<Block>, p1: seq<nat>, r2: seq<Block>, p2: seq<nat>, length: nat)
    requires PagesOk(p0, length) && RegionsGrown(r0, p0, r1, p1) && RegionsGrown(r1, p1, r2, p2)
    ensures RegionsGrown(r0, p0, r2, p2)
  {
  }

  lemma TakenNotLeft(pages: seq<nat>, length: nat, n: nat)
    requires PagesOk(pages, length) && n <= |pages|
    ensures forall p :: p in pages[n..] ==> p in pages && p !in pages[..n]
  {
  }

  /** Each growth step a request triggers takes ten contiguous pages, or the
      pages run out cleanly. */
  predicate GrowthOk(free: seq<Block>, pages: seq<nat>, size: word)
    decreases |pages|
  {
    FirstFit(free, size, 0) < |free| || |pages| == 0 ||
    (Contiguous(pages, 10) && GrowthOk([Block(pages[0], 40960)] + free, pages[10..], size))
  }

  /** The pages left once up to n have been taken. */
  function Rest(pages: seq<nat>, n: nat): (rest: seq<nat>)
    ensures n > 0 && |pages| > 0 ==> |rest| < |pages|
  {
    if n <= |pages| then pages[n..] else []
  }

  /** The free blocks and the free pages after the growth steps of a request,
      whatever pages they meet. */
  ghost function Grown(free: seq<Block>, pages: seq<nat>, size: word): (seq<Block>, seq<nat>)
    decreases |pages|
  {
    if FirstFit(free, size, 0) < |free| || |pages| == 0 then (free, pages)
    else Grown([Block(pages[0], 40960)] + free, Rest(pages, 10), size)
  }

  /** A request never grows the heap while some free block fits ... */
  lemma NoGrowthWhileFitting(free: seq<Block>, pages: seq<nat>, size: word, k: nat)
    requires k < |free| && Fits(free[k], size)
    ensures GrowthOk(free, pages, size) && Grown(free, pages, size) == (free, pages)
  {
  }

  /** ... grows it at most once for each free page, by a block for every ten, and
      fails only when nothing fits and no page is left. */
  lemma {:induction false} GrowthEnds(free: seq<Block>, pages: seq<nat>, size: word)
    ensures var (f, p) := Grown(free, pages, size);
      && (FirstFit(f, size, 0) < |f| || |p| == 0)
      && |f| - |free| <= |pages| - |p|
      && |f| - |free| == (|pages| - |p| + 9) / 10
    decreases |pages|
  {
    if !(FirstFit(free, size, 0) < |free| || |pages| == 0) {
      GrowthEnds([Block(pages[0], 40960)] + free, Rest(pages, 10), size);
    }
  }

  /** A request is served exactly if some free block fits, or it asks for at most
      40944 bytes and a page is free. A larger one that nothing fits takes every
      page and fails. */
  lemma {:induction false} ServedExactly(free: seq<Block>, pages: seq<nat>, size: word)
    ensures var (f, p) := Grown(free, pages, size);
      && (FirstFit(f, size, 0) < |f| <==> FirstFit(free, size, 0) < |free| || (size <= 40944 && |pages| > 0))
      && (FirstFit(free, size, 0) == |free| && size > 40944 ==> |p| == 0)
    decreases |pages|
  {
    if FirstFit(free, size, 0) == |free| && |pages| > 0 {
      var blk := Block(pages[0], 40960);
      FitsMeansRoom(blk, size);
      FirstFitPush(blk, free, size);
      ServedExactly([blk] + free, Rest(pages, 10), size);
    }
  }

  lemma FirstFitPush(blk: Block, free: seq<Block>, size: word)
    requires FirstFit(free, size, 0) == |free|
    ensures FirstFit([blk] + free, size, 0) == if Fits(blk, size) then 0 else |free| + 1
  {
    var all := [blk] + free;
    forall j | 0 < j < |all|
      ensures !Fits(all[j], size)
    {
      assert all[j] == free[j - 1];
    }
  }

  /** For requests of up to 40944 bytes with ten contiguous pages on top of the
      stack, one growth is enough. */
  lemma OneGrowthIsEnough(free: seq<Block>, pages: seq<nat>, size: word)
    requires size <= 40944 && Contiguous(pages, 10)
    ensures GrowthOk(free, pages, size)
    ensures Grown(free, pages, size) ==
            if FirstFit(free, size, 0) < |free| then (free, pages) else ([Block(pages[0], 40960)] + free, pages[10..])
    ensures var (f, p) := Grown(free, pages, size); FirstFit(f, size, 0) < |f|
  {
    if FirstFit(free, size, 0) == |free| {
      FirstFitPush(Block(pages[0], 40960), free, size);
    }
  }

  /** Every growth block and every block in these lists has room in 64 bits. */
  ghost predicate SizesFit(free: seq<Block>) {
    forall k :: 0 <= k < |free| ==> free[k].size <= WORD_LIMIT - HEADER
  }

  /** Sizes in multiples of 16 always split cleanly. */
  ghost predicate Sixteens(blocks: seq<Block>) {
    forall k :: 0 <= k < |blocks| ==> blocks[k].size % 16 == 0
  }

  lemma SixteensSplit(free: seq<Block>, k: nat, size: word)
    requires Sixteens(free) && k < |free| && size % 16 == 0 && free[k].size >= HEADER + size
    ensures RemainderOk(free[k], size)
    ensures Sixteens(AfterTake(free, k, size))
  {
  }

  lemma {:induction false} SixteensGrow(free: seq<Block>, pages: seq<nat>, size: word)
    requires Sixteens(free)
    ensures Sixteens(Grown(free, pages, size).0)
    decreases |pages|
  {
    if !(FirstFit(free, size, 0) < |free| || |pages| == 0) {
      SixteensGrow([Block(pages[0], 40960)] + free, Rest(pages, 10), size);
    }
  }
}
