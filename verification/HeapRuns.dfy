/** Runs of heap calls whose sizes are multiples of 16: every split is clean. */
module HeapRuns {
  import opened Memory
  import opened FreeList
  import opened PhysicalPages
  import opened HeapBlocks
  import opened Heap

  /** The heap's blocks and the free pages. */
  datatype Blocks = Blocks(free: seq<Block>, live: seq<Block>, pages: seq<nat>)

  /** What Allocate, Reallocate, Free and the growth of the heap do to the blocks, and
      other callers to the pages. */
  ghost predicate BlockStep(s: Blocks, s': Blocks) {
    || (exists size: word, node: nat, off: nat ::
          size % 16 == 0 && Served(s.free, s.live, s.pages, size, s'.free, s'.live, s'.pages, node, off))
    || (exists size: word, k: nat, ptr: nat, off: nat ::
          size % 16 == 0 && MovedStep(s, s', size, k, ptr, off))
    || (exists k: nat :: k < |s.live| && s' == Blocks([s.live[k]] + s.free, Without(s.live, k), s.pages))
    || (exists n: nat :: |s.pages| > 0 && s' == Blocks([Block(s.pages[0], 4096 * n)] + s.free, s.live, Rest(s.pages, n)))
    || (s'.free == s.free && s'.live == s.live)
  }

  ghost predicate MovedStep(s: Blocks, s': Blocks, size: word, k: nat, ptr: nat, off: nat) {
    var (f, p) := Grown(s.free, s.pages, size);
    k < |s.live| && FirstFit(f, size, 0) < |f| && Moved(f, s.live, k, size, s'.free, s'.live, ptr, off) && s'.pages == p
  }

  ghost predicate AllSixteens(s: Blocks) { Sixteens(s.free) && Sixteens(s.live) }

  lemma SixteensServed(s: Blocks, s': Blocks, size: word, node: nat, off: nat)
    requires AllSixteens(s) && size % 16 == 0
    requires Served(s.free, s.live, s.pages, size, s'.free, s'.live, s'.pages, node, off)
    ensures AllSixteens(s')
  {
    hide Sixteens, AfterTake;
    var f := Grown(s.free, s.pages, size).0;
    var k := FirstFit(f, size, 0);
    SixteensGrow(s.free, s.pages, size);
    if k < |f| {
      SixteensSplit(f, k, size);
      SixteensPush(s.live, Block(f[k].base, HEADER + size));
    }
  }

  lemma SixteensPush(blocks: seq<Block>, x: Block)
    requires Sixteens(blocks) && x.size % 16 == 0
    ensures Sixteens(blocks + [x]) && Sixteens([x] + blocks)
  {
  }

  lemma SixteensMoved(s: Blocks, s': Blocks, size: word, k: nat, ptr: nat, off: nat)
    requires AllSixteens(s) && size % 16 == 0 && MovedStep(s, s', size, k, ptr, off)
    ensures AllSixteens(s')
  {
    hide AfterTake;
    var f := Grown(s.free, s.pages, size).0;
    SixteensGrow(s.free, s.pages, size);
    SixteensSplit(f, FirstFit(f, size, 0), size);
  }

  lemma SixteensStep(s: Blocks, s': Blocks)
    requires AllSixteens(s) && BlockStep(s, s')
    ensures AllSixteens(s')
  {
    hide Served, MovedStep;
    if size: word, node: nat, off: nat :|
      size % 16 == 0 && Served(s.free, s.live, s.pages, size, s'.free, s'.live, s'.pages, node, off)
    {
      SixteensServed(s, s', size, node, off);
    } else if size: word, k: nat, ptr: nat, off: nat :| size % 16 == 0 && MovedStep(s, s', size, k, ptr, off) {
      SixteensMoved(s, s', size, k, ptr, off);
    }
  }

  ghost predicate BlockRun(states: seq<Blocks>) {
    && |states| > 0 && states[0].free == [] && states[0].live == []
    && forall i :: 0 <= i < |states| - 1 ==> BlockStep(states[i], states[i + 1])
  }

  /** In every state reached by requests in multiples of 16, the next such request
      splits cleanly. */
  lemma {:induction false} SixteensAlwaysSplit(states: seq<Blocks>, i: nat, size: word)
    requires BlockRun(states) && i < |states| && size % 16 == 0
    ensures AllSixteens(states[i]) && CleanSplit(states[i].free, states[i].pages, size)
  {
    hide Sixteens, Grown;
    if i > 0 {
      SixteensAlwaysSplit(states, i - 1, size);
      SixteensStep(states[i - 1], states[i]);
    } else {
      NoBlocks(states[0]);
    }
    CleanInSixteens(states[i], size);
  }

  lemma NoBlocks(s: Blocks)
    requires s.free == [] && s.live == []
    ensures AllSixteens(s)
  {
  }

  lemma CleanInSixteens(s: Blocks, size: word)
    requires AllSixteens(s) && size % 16 == 0
    ensures CleanSplit(s.free, s.pages, size)
  {
    var f := Grown(s.free, s.pages, size).0;
    var k := FirstFit(f, size, 0);
    SixteensGrow(s.free, s.pages, size);
    if k < |f| { SixteensClean(f[k], size); }
  }

  /** A block of 16n bytes that passes the two tests splits cleanly. */
  lemma SixteensClean(blk: Block, size: word)
    requires Fits(blk, size) && blk.size % 16 == 0 && size % 16 == 0
    ensures RemainderOk(blk, size)
  {
  }
}
