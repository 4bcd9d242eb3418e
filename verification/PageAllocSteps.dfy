/** AllocatePage on any number of cores, one memory access at a time
    (kernel/src/mm/pmm.cpp:26-80 under the lock of kernel/src/hal/spinlock.c). */
module PageAllocSteps {
  import opened Memory
  import opened FreeList
  import opened PhysicalPages

  /** Where a core stands in AllocatePage, with the values it has read so far. */
  datatype Pc =
    | Idle
    | Spinning                                  // test-and-set, again and again
    | TestHead                                  // if (head.next)
    | ReadHead                                  // ret = head.next
    | ReadNext(ret: nat)                        // ret->next
    | WriteHead(ret: nat, next: nat)            // head.next = ...
    | ReadSize(ret: nat)                        // if (ret->size > 4096)
    | WriteRestSize(ret: nat, size: nat)        // node->size = size - 4096
    | WriteRestNext(ret: nat, size: nat)        // node->next = head.next
    | WriteRestHead(ret: nat, size: nat)        // head.next = node
    | WriteSize(ret: nat)                       // ret->size = 4096
    | Zeroing(ret: nat, i: nat)                 // memset, byte i
    | Releasing(ret: nat)                       // clear the lock and return
  {
    predicate Critical() { !Idle? && !Spinning? }
  }

  /** Memory, list head, lock and cores; then what the proof remembers: the runs
      on the list, the block the lock holder has in hand, and who got which page. */
  datatype State = State(
    m: seq<byte>, head: nat, lock: bool, pcs: seq<Pc>,
    runs: seq<Block>, hand: Block, log: seq<(nat, nat)>)

  const EMPTY: Block := Block(0, 0)

  /** Core c goes on at pc; nothing else changes unless said otherwise. */
  ghost predicate Goes(s: State, s': State, c: nat, pc: Pc) {
    c < |s.pcs| && s' == s.(pcs := s.pcs[c := pc], m := s'.m, head := s'.head, lock := s'.lock,
                            runs := s'.runs, hand := s'.hand, log := s'.log)
  }

  ghost predicate OnlyPc(s: State, s': State) {
    s'.m == s.m && s'.head == s.head && s'.lock == s.lock && s'.runs == s.runs && s'.hand == s.hand && s'.log == s.log
  }

  ghost predicate OnlyMemory(s: State, s': State) {
    s'.head == s.head && s'.lock == s.lock && s'.runs == s.runs && s'.hand == s.hand && s'.log == s.log
  }

  /** Core c holds page p: AllocatePage returned it to c. */
  ghost predicate Holds(s: State, c: nat, p: nat) { (c, p) in s.log }

  /** A core may write whatever it likes into the pages it holds. */
  ghost predicate UseStep(s: State, s': State, c: nat, p: nat) {
    && Holds(s, c, p) && s'.pcs == s.pcs && OnlyMemory(s, s')
    && SameOutside(s.m, s'.m, p, p + 4096)
  }

  /** One step of core c inside AllocatePage. */
  ghost predicate Step(off: nat, s: State, s': State, c: nat) {
    c < |s.pcs| &&
    match s.pcs[c]
    case Idle => Goes(s, s', c, Spinning) && OnlyPc(s, s')
    case Spinning =>
      if s.lock then s' == s
      else Goes(s, s', c, TestHead) && s'.lock && OnlyPc(s.(lock := true), s')
    case TestHead => Goes(s, s', c, if s.head != 0 then ReadHead else Releasing(0)) && OnlyPc(s, s')
    case ReadHead => Goes(s, s', c, ReadNext(s.head)) && OnlyPc(s, s')
    case ReadNext(ret) =>
      off <= ret && ret - off + 16 <= |s.m| &&
      Goes(s, s', c, WriteHead(ret, Word(s.m, ret - off + 8))) && OnlyPc(s, s')
    case WriteHead(ret, next) =>
      && Goes(s, s', c, ReadSize(ret)) && s'.head == next
      && |s.runs| > 0 && s'.runs == s.runs[1..] && s'.hand == s.runs[0]
      && s'.m == s.m && s'.lock == s.lock && s'.log == s.log
    case ReadSize(ret) =>
      off <= ret && ret - off + 8 <= |s.m| &&
      var size := Word(s.m, ret - off);
      Goes(s, s', c, if size > 4096 then WriteRestSize(ret, size) else Zeroing(ret, 0)) && OnlyPc(s, s')
    case WriteRestSize(ret, size) =>
      && off <= ret && size >= 4096
      && Goes(s, s', c, WriteRestNext(ret, size)) && OnlyMemory(s, s')
      && Stored(s.m, s'.m, ret - off + 4096, size - 4096)
    case WriteRestNext(ret, size) =>
      && off <= ret
      && Goes(s, s', c, WriteRestHead(ret, size)) && OnlyMemory(s, s')
      && Stored(s.m, s'.m, ret - off + 4096 + 8, s.head)
    case WriteRestHead(ret, size) =>
      && off <= ret && size >= 4096
      && Goes(s, s', c, WriteSize(ret)) && s'.head == ret + 4096
      && s'.runs == [Block(ret - off + 4096, size - 4096)] + s.runs && s'.hand == Block(ret - off, 4096)
      && s'.m == s.m && s'.lock == s.lock && s'.log == s.log
    case WriteSize(ret) =>
      && off <= ret
      && Goes(s, s', c, Zeroing(ret, 0)) && OnlyMemory(s, s')
      && Stored(s.m, s'.m, ret - off, 4096)
    case Zeroing(ret, i) =>
      if i < 4096 then
        && off <= ret && ret - off + i < |s.m|
        && Goes(s, s', c, Zeroing(ret, i + 1)) && OnlyMemory(s, s')
        && s'.m == s.m[ret - off + i := 0]
      else Goes(s, s', c, Releasing(ret)) && OnlyPc(s, s')
    case Releasing(ret) =>
      && Goes(s, s', c, Idle) && !s'.lock && s'.m == s.m && s'.head == s.head && s'.runs == s.runs
      && s'.hand == EMPTY
      && s'.log == if ret == 0 then s.log else s.log + [(c, if off <= ret then ret - off else 0)]
  }

  /** Any core takes a step, or writes into a page it holds. */
  ghost predicate Next(off: nat, s: State, s': State) {
    (exists c: nat :: Step(off, s, s', c)) || (exists c: nat, p: nat :: UseStep(s, s', c, p))
  }

  /** All cores idle, the lock free, the list as InitializePMM left it. */
  ghost predicate Init(off: nat, s: State) {
    && !s.lock && (forall c :: 0 <= c < |s.pcs| ==> s.pcs[c] == Idle)
    && ListOk(s.m, s.head, off, s.runs) && s.hand == EMPTY && s.log == []
  }

  function LogPages(log: seq<(nat, nat)>): seq<nat> {
    seq(|log|, i requires 0 <= i < |log| => log[i].1)
  }

  function HandPages(hand: Block): seq<nat> { RunPages(hand.base, hand.size) }

  function WithHand(hand: Block, runs: seq<Block>): seq<Block> {
    if hand.size == 0 then runs else [hand] + runs
  }

  /** What the lock holder at pc knows about the block in its hand. */
  ghost predicate HandOk(off: nat, m: seq<byte>, head: nat, runs: seq<Block>, hand: Block, pc: Pc) {
    match pc
    case Idle => true
    case Spinning => true
    case TestHead => hand == EMPTY
    case ReadHead => hand == EMPTY && head != 0
    case ReadNext(ret) => hand == EMPTY && head != 0 && ret == head
    case WriteHead(ret, next) => hand == EMPTY && head != 0 && ret == head && next == Link(runs, 1, off)
    case ReadSize(ret) => InHand(off, m, hand, ret) && Word(m, hand.base) == hand.size
    case WriteRestSize(ret, size) => InHand(off, m, hand, ret) && hand.size == size && size > 4096
    case WriteRestNext(ret, size) =>
      InHand(off, m, hand, ret) && hand.size == size && size > 4096 && hand.base + 4096 + HEADER <= |m| && Word(m, hand.base + 4096) == size - 4096
    case WriteRestHead(ret, size) =>
      InHand(off, m, hand, ret) && hand.size == size && size > 4096 && HeaderIs(m, hand.base + 4096, size - 4096, head)
    case WriteSize(ret) => InHand(off, m, hand, ret) && hand.size == 4096
    case Zeroing(ret, i) =>
      InHand(off, m, hand, ret) && hand.size == 4096 && i <= 4096 && forall b :: hand.base <= b < hand.base + i ==> m[b] == 0
    case Releasing(ret) =>
      if ret == 0 then hand == EMPTY && head == 0
      else InHand(off, m, hand, ret) && hand.size == 4096 && forall b :: hand.base <= b < hand.base + 4096 ==> m[b] == 0
  }

  ghost predicate InHand(off: nat, m: seq<byte>, hand: Block, ret: nat) {
    RunOk(hand, |m|) && ret == hand.base + off
  }

  /** At most one core is inside the lock, and the lock says whether one is. */
  ghost predicate Exclusive(s: State) {
    && (forall c, d :: 0 <= c < |s.pcs| && 0 <= d < |s.pcs| && s.pcs[c].Critical() && s.pcs[d].Critical() ==> c == d)
    && (s.lock <==> exists c :: 0 <= c < |s.pcs| && s.pcs[c].Critical())
  }

  /** Pages given out, in hand and on the list are, in this order, the pages the
      list held at the start. */
  ghost predicate Balanced(s: State, pages0: seq<nat>) {
    LogPages(s.log) + HandPages(s.hand) + Pages(s.runs) == pages0
  }

  ghost predicate Inv(off: nat, s: State, pages0: seq<nat>) {
    && Exclusive(s)
    && ListOk(s.m, s.head, off, s.runs)
    && RunsOk(WithHand(s.hand, s.runs), |s.m|)
    && (forall c :: 0 <= c < |s.pcs| && s.pcs[c].Critical() ==> HandOk(off, s.m, s.head, s.runs, s.hand, s.pcs[c]))
    && (!s.lock ==> s.hand == EMPTY)
    && Balanced(s, pages0) && PagesOk(pages0, |s.m|)
  }

  // The invariant holds at the start and survives every step.

  lemma InitInv(off: nat, s: State)
    requires Init(off, s)
    ensures Inv(off, s, Pages(s.runs))
  {
    hide Word, Threaded;
    RunsGivePages(s.runs, |s.m|);
    assert HandPages(EMPTY) == [];
    assert LogPages(s.log) + HandPages(s.hand) + Pages(s.runs) == Pages(s.runs);
  }

  /** A core moves on inside, or outside, the lock. */
  lemma ExclusiveStays(s: State, s': State, c: nat, pc: Pc)
    requires Exclusive(s) && Goes(s, s', c, pc) && s'.lock == s.lock
    requires pc.Critical() == s.pcs[c].Critical()
    ensures Exclusive(s')
  {
    forall d | 0 <= d < |s.pcs|
      ensures s'.pcs[d].Critical() == s.pcs[d].Critical()
    {
    }
    if s.lock {
      var d :| 0 <= d < |s.pcs| && s.pcs[d].Critical();
      assert s'.pcs[d].Critical();
    }
  }

  lemma ExclusiveEnter(s: State, s': State, c: nat, pc: Pc)
    requires Exclusive(s) && Goes(s, s', c, pc) && !s.lock && s'.lock && pc.Critical()
    ensures Exclusive(s')
  {
    assert s'.pcs[c].Critical();
  }

  lemma ExclusiveLeave(s: State, s': State, c: nat)
    requires Exclusive(s) && Goes(s, s', c, Idle) && s.lock && !s'.lock && s.pcs[c].Critical()
    ensures Exclusive(s')
  {
  }

  /** After a step of a critical core only that core's knowledge matters. */
  lemma OnlyHolderKnows(off: nat, s: State, s': State, c: nat, pc: Pc)
    requires Exclusive(s) && Goes(s, s', c, pc) && s.pcs[c].Critical()
    requires HandOk(off, s'.m, s'.head, s'.runs, s'.hand, pc)
    ensures forall d :: 0 <= d < |s'.pcs| && s'.pcs[d].Critical() ==> HandOk(off, s'.m, s'.head, s'.runs, s'.hand, s'.pcs[d])
  {
  }

  /** Writes into the block in hand miss the list. */
  lemma HandWriteKeepsList(m: seq<byte>, m': seq<byte>, head: nat, off: nat, runs: seq<Block>, hand: Block, lo: nat, hi: nat)
    requires ListOk(m, head, off, runs) && RunsOk(WithHand(hand, runs), |m|) && hand.size >= 4096
    requires hand.base <= lo && hi <= hand.End() && SameOutside(m, m', lo, hi)
    ensures ListOk(m', head, off, runs) && RunsOk(WithHand(hand, runs), |m'|)
  {
    hide Word, Threaded;
    var all := WithHand(hand, runs);
    assert all[1..] == runs;
    forall k | 0 <= k < |runs|
      ensures SameWithin(m, m', runs[k].base, runs[k].base + HEADER)
    {
      EachRunOk(runs, |m|, k);
    }
    ThreadedElsewhere(m, m', head, off, runs);
  }

  /** Core c goes on and changes at most bytes of the block in hand. */
  lemma HolderStep(off: nat, s: State, s': State, pages0: seq<nat>, c: nat, pc: Pc, lo: nat, hi: nat)
    requires Inv(off, s, pages0) && Goes(s, s', c, pc) && OnlyMemory(s, s')
    requires s.pcs[c].Critical() && pc.Critical()
    requires s'.m == s.m || (s.hand.size >= 4096 && s.hand.base <= lo && hi <= s.hand.End() && SameOutside(s.m, s'.m, lo, hi))
    requires HandOk(off, s'.m, s'.head, s'.runs, s'.hand, pc)
    ensures Inv(off, s', pages0)
  {
    hide HandOk, ListOk, RunsOk, PagesOk, Pages, SameOutside, WithHand;
    ExclusiveStays(s, s', c, pc);
    OnlyHolderKnows(off, s, s', c, pc);
    if s'.m != s.m {
      HandWriteKeepsList(s.m, s'.m, s.head, off, s.runs, s.hand, lo, hi);
      SameLength(s.m, s'.m, lo, hi);
    }
  }

  lemma SameLength(m: seq<byte>, m': seq<byte>, lo: nat, hi: nat)
    requires SameOutside(m, m', lo, hi)
    ensures |m| == |m'|
  {
  }

  /** The head run leaves the list and is in hand. */
  lemma TakeHeadRun(m: seq<byte>, head: nat, off: nat, runs: seq<Block>)
    requires ListOk(m, head, off, runs) && head != 0
    ensures |runs| > 0 && runs[0].size > 0 && RunOk(runs[0], |m|)
    ensures head == runs[0].base + off && HeaderIs(m, runs[0].base, runs[0].size, Link(runs, 1, off))
    ensures ListOk(m, Link(runs, 1, off), off, runs[1..])
    ensures WithHand(runs[0], runs[1..]) == runs
    ensures HandPages(runs[0]) + Pages(runs[1..]) == Pages(runs)
  {
    hide Word;
    HeadOfList(m, head, off, runs);
    TailThreaded(m, head, off, runs);
    assert [runs[0]] + runs[1..] == runs;
  }

  /** The remainder of the block in hand goes back onto the list. */
  lemma PutRestBack(m: seq<byte>, head: nat, off: nat, runs: seq<Block>, hand: Block)
    requires ListOk(m, head, off, runs) && RunsOk(WithHand(hand, runs), |m|) && hand.size > 4096
    requires HeaderIs(m, hand.base + 4096, hand.size - 4096, head)
    ensures var rest := Block(hand.base + 4096, hand.size - 4096);
            && ListOk(m, rest.base + off, off, [rest] + runs)
            && RunsOk(WithHand(Block(hand.base, 4096), [rest] + runs), |m|)
            && HandPages(Block(hand.base, 4096)) + Pages([rest] + runs) == HandPages(hand) + Pages(runs)
  {
    hide Word;
    var rest, small, all := Block(hand.base + 4096, hand.size - 4096), Block(hand.base, 4096), WithHand(hand, runs);
    assert all[1..] == runs && ([rest] + runs)[1..] == runs;
    assert ([small] + ([rest] + runs))[1..] == [rest] + runs;
    RestIsRun(hand, runs, |m|);
    RunsPartHeaders([rest] + runs, |m|);
    PushFront(m, m, head, off, runs, rest.base, rest.size);
    SplitRun(hand, runs);
    OnePage(hand.base);
    assert Pages([hand] + runs) == HandPages(hand) + Pages(runs);
  }

  lemma OnePage(p: nat)
    ensures RunPages(p, 4096) == [p]
  {
  }

  lemma RestIsRun(hand: Block, runs: seq<Block>, length: nat)
    requires RunOk(hand, length) && ApartFrom(hand, runs) && RunsOk(runs, length) && hand.size > 4096
    ensures RunsOk([Block(hand.base + 4096, hand.size - 4096)] + runs, length)
    ensures ApartFrom(Block(hand.base, 4096), [Block(hand.base + 4096, hand.size - 4096)] + runs)
  {
  }

  lemma EnterInv(off: nat, s: State, s': State, pages0: seq<nat>, c: nat)
    requires Inv(off, s, pages0) && Step(off, s, s', c) && (s.pcs[c].Idle? || s.pcs[c].Spinning?)
    ensures Inv(off, s', pages0)
  {
    hide ListOk, RunsOk, PagesOk, Pages, Balanced, WithHand;
    if s.pcs[c].Idle? {
      ExclusiveStays(s, s', c, Spinning);
      forall d | 0 <= d < |s'.pcs| && s'.pcs[d].Critical()
        ensures HandOk(off, s'.m, s'.head, s'.runs, s'.hand, s'.pcs[d])
      {
        assert s.pcs[d] == s'.pcs[d];
      }
    } else if !s.lock {
      ExclusiveEnter(s, s', c, TestHead);
      assert forall d :: 0 <= d < |s.pcs| ==> !s.pcs[d].Critical();
    }
    BalancedStays(s, s', pages0);
  }

  lemma BalancedStays(s: State, s': State, pages0: seq<nat>)
    requires Balanced(s, pages0) && s'.runs == s.runs && s'.hand == s.hand && s'.log == s.log
    ensures Balanced(s', pages0)
  {
  }

  lemma ReadInv(off: nat, s: State, s': State, pages0: seq<nat>, c: nat)
    requires Inv(off, s, pages0) && Step(off, s, s', c)
    requires s.pcs[c].TestHead? || s.pcs[c].ReadHead? || s.pcs[c].ReadNext? || s.pcs[c].ReadSize?
    ensures Inv(off, s', pages0)
  {
    hide ListOk, RunsOk, PagesOk, Pages, Balanced, WithHand, Word, Exclusive, Inv;
    InvParts(off, s, pages0, c);
    if s.head != 0 && !s.pcs[c].ReadSize? {
      TakeHeadRun(s.m, s.head, off, s.runs);
    }
    HolderStep(off, s, s', pages0, c, s'.pcs[c], 0, 0);
  }

  lemma InvParts(off: nat, s: State, pages0: seq<nat>, c: nat)
    requires Inv(off, s, pages0) && c < |s.pcs| && s.pcs[c].Critical()
    ensures s.lock && ListOk(s.m, s.head, off, s.runs) && Exclusive(s)
    ensures HandOk(off, s.m, s.head, s.runs, s.hand, s.pcs[c])
    ensures RunsOk(WithHand(s.hand, s.runs), |s.m|)
    ensures off > 0
  {
  }

  /** Writes into the block in hand: its new header words, its size, its bytes. */
  lemma HandWriteInv(off: nat, s: State, s': State, pages0: seq<nat>, c: nat)
    requires Inv(off, s, pages0) && Step(off, s, s', c)
    requires s.pcs[c].WriteRestSize? || s.pcs[c].WriteRestNext? || s.pcs[c].WriteSize? || s.pcs[c].Zeroing?
    ensures Inv(off, s', pages0)
  {
    hide ListOk, RunsOk, PagesOk, Pages, Balanced, WithHand, Word, Exclusive, Inv;
    InvParts(off, s, pages0, c);
    var base := s.hand.base;
    match s.pcs[c]
    case WriteRestSize(ret, size) =>
      HolderStep(off, s, s', pages0, c, s'.pcs[c], base + 4096, base + 4104);
    case WriteRestNext(ret, size) =>
      WordKept(s.m, s'.m, base + 4096);
      HolderStep(off, s, s', pages0, c, s'.pcs[c], base + 4104, base + 4112);
    case WriteSize(ret) =>
      HolderStep(off, s, s', pages0, c, s'.pcs[c], base, base + 8);
    case Zeroing(ret, i) =>
      HolderStep(off, s, s', pages0, c, s'.pcs[c], base + i, base + i + 1);
  }

  lemma WriteHeadInv(off: nat, s: State, s': State, pages0: seq<nat>, c: nat)
    requires Inv(off, s, pages0) && Step(off, s, s', c) && s.pcs[c].WriteHead?
    ensures Inv(off, s', pages0)
  {
    hide ListOk, RunsOk, PagesOk, Pages, Word, WithHand;
    InvParts(off, s, pages0, c);
    TakeHeadRun(s.m, s.head, off, s.runs);
    ExclusiveStays(s, s', c, s'.pcs[c]);
    OnlyHolderKnows(off, s, s', c, s'.pcs[c]);
    NoHandFull(s.runs, |s.m|);
    assert LogPages(s.log) + HandPages(EMPTY) + Pages(s.runs) == LogPages(s.log) + Pages(s.runs);
    assert LogPages(s.log) + HandPages(s'.hand) + Pages(s'.runs) == LogPages(s.log) + (HandPages(s'.hand) + Pages(s'.runs));
  }

  lemma NoHandFull(runs: seq<Block>, length: nat)
    ensures WithHand(EMPTY, runs) == runs && HandPages(EMPTY) == []
  {
  }

  lemma RestHeadInv(off: nat, s: State, s': State, pages0: seq<nat>, c: nat)
    requires Inv(off, s, pages0) && Step(off, s, s', c) && s.pcs[c].WriteRestHead?
    ensures Inv(off, s', pages0)
  {
    hide ListOk, RunsOk, PagesOk, Pages, Word, WithHand, HandPages;
    InvParts(off, s, pages0, c);
    PutRestBack(s.m, s.head, off, s.runs, s.hand);
    ExclusiveStays(s, s', c, s'.pcs[c]);
    OnlyHolderKnows(off, s, s', c, s'.pcs[c]);
    assert LogPages(s.log) + HandPages(s.hand) + Pages(s.runs) == LogPages(s.log) + (HandPages(s.hand) + Pages(s.runs));
    assert LogPages(s.log) + HandPages(s'.hand) + Pages(s'.runs) == LogPages(s.log) + (HandPages(s'.hand) + Pages(s'.runs));
  }

  /** The core leaves; from now on the page in hand is in the log. */
  lemma ReleaseInv(off: nat, s: State, s': State, pages0: seq<nat>, c: nat)
    requires Inv(off, s, pages0) && Step(off, s, s', c) && s.pcs[c].Releasing?
    ensures Inv(off, s', pages0)
  {
    hide ListOk, PagesOk, Pages, Word;
    InvParts(off, s, pages0, c);
    ExclusiveLeave(s, s', c);
    NoHandFull(s.runs, |s.m|);
    HandDropped(s.hand, s.runs, |s.m|);
    if s.pcs[c].ret != 0 {
      OnePage(s.hand.base);
      LogGrows(s.log, c, s.hand.base);
      assert LogPages(s.log) + [s.hand.base] + [] + Pages(s.runs) == LogPages(s.log) + [s.hand.base] + Pages(s.runs);
    }
  }

  lemma HandDropped(hand: Block, runs: seq<Block>, length: nat)
    requires RunsOk(WithHand(hand, runs), length)
    ensures RunsOk(runs, length)
  {
  }

  lemma LogGrows(log: seq<(nat, nat)>, c: nat, p: nat)
    ensures LogPages(log + [(c, p)]) == LogPages(log) + [p]
  {
  }

  /** A page in the log is in no run and not in hand. */
  lemma HeldPageElsewhere(s: State, pages0: seq<nat>, c: nat, p: nat)
    requires Balanced(s, pages0) && PagesOk(pages0, |s.m|) && Holds(s, c, p)
    ensures p !in HandPages(s.hand) && p !in Pages(s.runs) && p % 4096 == 0 && p + 4096 <= |s.m|
  {
    hide Pages, HandPages;
    var k :| 0 <= k < |s.log| && s.log[k] == (c, p);
    assert LogPages(s.log)[k] == p == pages0[k];
    var rest := HandPages(s.hand) + Pages(s.runs);
    assert pages0 == LogPages(s.log) + rest;
    assert forall i :: 0 <= i < |rest| ==> pages0[|s.log| + i] == rest[i];
    assert forall x :: x in HandPages(s.hand) || x in Pages(s.runs) ==> x in rest;
  }

  lemma UseInv(off: nat, s: State, s': State, pages0: seq<nat>, c: nat, p: nat)
    requires Inv(off, s, pages0) && UseStep(s, s', c, p)
    ensures Inv(off, s', pages0)
  {
    hide RunsOk, PagesOk, Pages, Word, Threaded, WithHand;
    HeldPageElsewhere(s, pages0, c, p);
    PagePartsHeadersOf(s, p, off);
    ThreadedElsewhere(s.m, s'.m, s.head, off, s.runs);
    forall d | 0 <= d < |s.pcs| && s.pcs[d].Critical()
      ensures HandOk(off, s'.m, s'.head, s'.runs, s'.hand, s'.pcs[d])
    {
      HandUntouched(off, s.m, s'.m, s.head, s.runs, s.hand, s.pcs[d], p);
    }
  }

  lemma PagePartsHeadersOf(s: State, p: nat, off: nat)
    requires ListOk(s.m, s.head, off, s.runs) && p % 4096 == 0 && p !in Pages(s.runs)
    ensures HeadersOutside(p, p + 4096, s.runs)
  {
    PagePartsHeaders(s.runs, |s.m|, p);
  }

  lemma HandUntouched(off: nat, m: seq<byte>, m': seq<byte>, head: nat, runs: seq<Block>, hand: Block, pc: Pc, p: nat)
    requires HandOk(off, m, head, runs, hand, pc) && p % 4096 == 0 && p !in HandPages(hand)
    requires SameOutside(m, m', p, p + 4096)
    ensures HandOk(off, m', head, runs, hand, pc)
  {
    hide Word;
    if hand != EMPTY && pc.Critical() {
      HandApart(hand, |m|, p);
      assert SameWithin(m, m', hand.base, hand.End());
      if hand.base + 8 <= |m| { WordKept(m, m', hand.base); }
      if hand.size > 4096 {
        WordKept(m, m', hand.base + 4096);
        WordKept(m, m', hand.base + 4104);
      }
    }
  }

  lemma HandApart(hand: Block, length: nat, p: nat)
    requires RunOk(hand, length) && p % 4096 == 0 && p !in HandPages(hand)
    ensures p + 4096 <= hand.base || hand.End() <= p
  {
    InRunPages(hand.base, hand.size, p);
    var a, b, c := hand.base / 4096, hand.End() / 4096, p / 4096;
    assert hand.base == 4096 * a && p == 4096 * c;
  }

  lemma NextInv(off: nat, s: State, s': State, pages0: seq<nat>)
    requires Inv(off, s, pages0) && Next(off, s, s')
    ensures Inv(off, s', pages0)
  {
    hide Inv, UseStep;
    if exists c: nat :: Step(off, s, s', c) {
      var c: nat :| Step(off, s, s', c);
      match s.pcs[c]
      case Idle => EnterInv(off, s, s', pages0, c);
      case Spinning => EnterInv(off, s, s', pages0, c);
      case TestHead => ReadInv(off, s, s', pages0, c);
      case ReadHead => ReadInv(off, s, s', pages0, c);
      case ReadNext(_) => ReadInv(off, s, s', pages0, c);
      case ReadSize(_) => ReadInv(off, s, s', pages0, c);
      case WriteHead(_, _) => WriteHeadInv(off, s, s', pages0, c);
      case WriteRestSize(_, _) => HandWriteInv(off, s, s', pages0, c);
      case WriteRestNext(_, _) => HandWriteInv(off, s, s', pages0, c);
      case WriteRestHead(_, _) => RestHeadInv(off, s, s', pages0, c);
      case WriteSize(_) => HandWriteInv(off, s, s', pages0, c);
      case Zeroing(_, _) => HandWriteInv(off, s, s', pages0, c);
      case Releasing(_) => ReleaseInv(off, s, s', pages0, c);
    } else {
      var c: nat, p: nat :| UseStep(s, s', c, p);
      UseInv(off, s, s', pages0, c, p);
    }
  }

  // Whole runs.

  /** A run: from an initial state, each state follows from the one before. */
  ghost predicate Run(off: nat, states: seq<State>) {
    && |states| > 0 && Init(off, states[0])
    && forall i :: 0 <= i < |states| - 1 ==> Next(off, states[i], states[i + 1])
  }

  lemma {:induction false} RunInv(off: nat, states: seq<State>, k: nat)
    requires Run(off, states) && k < |states|
    ensures Inv(off, states[k], Pages(states[0].runs))
  {
    hide Inv, Next, Init, Pages;
    if k == 0 {
      InitInv(off, states[0]);
    } else {
      RunInv(off, states, k - 1);
      NextInv(off, states[k - 1], states[k], Pages(states[0].runs));
    }
  }

  /** In every state of every run: no two cores hold the same page; no held page
      is on the free list; at most one core is inside the lock; and whenever the
      lock is free the list is well formed and lists, after the pages given out,
      exactly the rest of the pages it started with, in order. */
  lemma AllocationIsExclusive(off: nat, states: seq<State>, k: nat)
    requires Run(off, states) && k < |states|
    ensures var s, pages0 := states[k], Pages(states[0].runs);
            && (forall c: nat, d: nat, p: nat :: Holds(s, c, p) && Holds(s, d, p) ==> c == d)
            && (forall c: nat, p: nat :: Holds(s, c, p) ==> p !in Pages(s.runs))
            && (forall c, d :: 0 <= c < |s.pcs| && 0 <= d < |s.pcs| && s.pcs[c].Critical() && s.pcs[d].Critical() ==> c == d)
            && (!s.lock ==> ListOk(s.m, s.head, off, s.runs) && LogPages(s.log) + Pages(s.runs) == pages0)
  {
    hide Pages, ListOk, RunsOk;
    var s, pages0 := states[k], Pages(states[0].runs);
    RunInv(off, states, k);
    forall c: nat, d: nat, p: nat | Holds(s, c, p) && Holds(s, d, p)
      ensures c == d
    {
      LogIsInjective(s, pages0, c, d, p);
    }
    forall c: nat, p: nat | Holds(s, c, p)
      ensures p !in Pages(s.runs)
    {
      HeldPageElsewhere(s, pages0, c, p);
    }
    if !s.lock {
      NoHandFull(s.runs, |s.m|);
      assert LogPages(s.log) + [] == LogPages(s.log);
    }
  }

  lemma LogIsInjective(s: State, pages0: seq<nat>, c: nat, d: nat, p: nat)
    requires Balanced(s, pages0) && PagesOk(pages0, |s.m|) && Holds(s, c, p) && Holds(s, d, p)
    ensures c == d
  {
    hide Pages, HandPages;
    var i :| 0 <= i < |s.log| && s.log[i] == (c, p);
    var j :| 0 <= j < |s.log| && s.log[j] == (d, p);
    var log := LogPages(s.log);
    assert pages0 == log + (HandPages(s.hand) + Pages(s.runs));
    assert log[i] == p == pages0[i] && log[j] == p == pages0[j];
  }

  ghost predicate ZeroPage(m: seq<byte>, p: nat) {
    forall b :: p <= b < p + 4096 && b < |m| ==> m[b] == 0
  }

  /** The page a core leaves with was the next one on the list, and is all zero
      at that moment. */
  lemma ReturnedPageIsZero(off: nat, states: seq<State>, k: nat, c: nat) returns (p: nat)
    requires Run(off, states) && k + 1 < |states|
    requires Step(off, states[k], states[k + 1], c) && states[k].pcs[c].Releasing? && states[k].pcs[c].ret != 0
    ensures states[k].pcs[c].ret == p + off && Holds(states[k + 1], c, p)
    ensures |states[k].log| < |Pages(states[0].runs)| && Pages(states[0].runs)[|states[k].log|] == p
    ensures p + 4096 <= |states[k + 1].m| && ZeroPage(states[k + 1].m, p)
  {
    hide Pages, ListOk, RunsOk, Exclusive, Next;
    var s, pages0 := states[k], Pages(states[0].runs);
    RunInv(off, states, k);
    InvParts(off, s, pages0, c);
    p := s.hand.base;
    OnePage(p);
    var log := LogPages(s.log);
    assert pages0 == log + [p] + Pages(s.runs);
    assert states[k + 1].log[|s.log|] == (c, p);
  }

  /** A core that is about to leave has null exactly if every page there was has been
      given out, and else the next of them. */
  lemma NullExactlyWhenNoneLeft(off: nat, states: seq<State>, k: nat, c: nat)
    requires Run(off, states) && k < |states| && c < |states[k].pcs| && states[k].pcs[c].Releasing?
    ensures var s, pages0 := states[k], Pages(states[0].runs);
      && |s.log| <= |pages0|
      && s.pcs[c].ret == (if |s.log| < |pages0| then pages0[|s.log|] + off else 0)
      && (s.pcs[c].ret == 0 <==> LogPages(s.log) == pages0)
      && (s.pcs[c].ret == 0 ==> s.runs == [])
  {
    hide Pages, ListOk, RunsOk, Exclusive, Next;
    var s, pages0 := states[k], Pages(states[0].runs);
    RunInv(off, states, k);
    InvParts(off, s, pages0, c);
    var log, ret := LogPages(s.log), s.pcs[c].ret;
    if ret == 0 {
      NoneListed(s.m, off, s.runs);
      NoHandFull(s.runs, |s.m|);
      assert log + [] + [] == log;
    } else {
      OnePage(s.hand.base);
      assert pages0 == log + [s.hand.base] + Pages(s.runs);
      assert pages0[|log|] == s.hand.base;
    }
  }

  lemma NoneListed(m: seq<byte>, off: nat, runs: seq<Block>)
    requires ListOk(m, 0, off, runs)
    ensures runs == [] && Pages(runs) == []
  {
    HeadOfList(m, 0, off, runs);
  }

  /** Nobody else gets a page while core c is inside. */
  lemma {:induction false} LogStaysInside(off: nat, states: seq<State>, k: nat, j: nat, c: nat)
    requires Run(off, states) && k <= j < |states| && forall i :: k <= i <= j ==> c < |states[i].pcs| && states[i].pcs[c].Critical()
    ensures states[j].log == states[k].log
  {
    hide Pages, Init, Inv, Next;
    if k < j {
      LogStaysInside(off, states, k, j - 1, c);
      RunInv(off, states, j - 1);
      InvParts(off, states[j - 1], Pages(states[0].runs), c);
      OthersLogNothing(off, states[j - 1], states[j], c);
    }
  }

  lemma OthersLogNothing(off: nat, s: State, s': State, c: nat)
    requires Next(off, s, s') && Exclusive(s) && c < |s.pcs| && s.pcs[c].Critical() && c < |s'.pcs| && s'.pcs[c].Critical()
    ensures s'.log == s.log
  {
    hide Step;
    if d: nat :| Step(off, s, s', d) {
      OnlyLeavingLogs(off, s, s', d);
    }
  }

  lemma OnlyLeavingLogs(off: nat, s: State, s': State, d: nat)
    requires Step(off, s, s', d)
    ensures d < |s.pcs| && (s.pcs[d].Releasing? ==> d < |s'.pcs| && s'.pcs[d] == Idle)
    ensures !s.pcs[d].Releasing? ==> s'.log == s.log
  {
    hide Word, Stored;
  }

  /** So a call that has the lock while pages are left returns the next one, and a
      call that finds none left returns null. */
  lemma CallGetsNextPage(off: nat, states: seq<State>, k: nat, j: nat, c: nat)
    requires Run(off, states) && k <= j < |states| && forall i :: k <= i <= j ==> c < |states[i].pcs| && states[i].pcs[c].Critical()
    requires states[k].pcs[c].TestHead? && states[j].pcs[c].Releasing?
    ensures var n, pages0 := |states[k].log|, Pages(states[0].runs);
      && n <= |pages0| && states[j].pcs[c].ret == (if n < |pages0| then pages0[n] + off else 0)
      && (states[j].pcs[c].ret == 0 <==> n == |pages0|)
  {
    LogStaysInside(off, states, k, j, c);
    NullExactlyWhenNoneLeft(off, states, j, c);
  }

  /** How many steps of its own a core inside the lock still takes at most. */
  function StepsLeft(pc: Pc): nat {
    match pc
    case Idle => 0
    case Spinning => 0
    case TestHead => 4106
    case ReadHead => 4105
    case ReadNext(_) => 4104
    case WriteHead(_, _) => 4103
    case ReadSize(_) => 4102
    case WriteRestSize(_, _) => 4101
    case WriteRestNext(_, _) => 4100
    case WriteRestHead(_, _) => 4099
    case WriteSize(_) => 4098
    case Zeroing(_, i) => if i < 4096 then 4097 - i else 1
    case Releasing(_) => 0
  }

  /** Every step brings the core nearer to leaving, so that each call ends. */
  lemma EachStepGetsNearer(off: nat, s: State, s': State, c: nat)
    requires c < |s.pcs| && Step(off, s, s', c) && s.pcs[c].Critical() && !s.pcs[c].Releasing?
    ensures s'.pcs[c].Critical() && StepsLeft(s'.pcs[c]) < StepsLeft(s.pcs[c]) <= 4106
  {
    hide Word, Stored;
  }

  /** The memory accesses of core c's next step lie inside memory. */
  ghost predicate AccessInside(off: nat, s: State, c: nat) {
    c < |s.pcs| &&
    match s.pcs[c]
    case ReadNext(ret) => off <= ret && ret - off + 16 <= |s.m|
    case ReadSize(ret) => off <= ret && ret - off + 8 <= |s.m|
    case WriteRestSize(ret, size) => off <= ret && ret - off + 4096 + 8 <= |s.m| && size > 4096
    case WriteRestNext(ret, size) => off <= ret && ret - off + 4096 + 16 <= |s.m|
    case WriteSize(ret) => off <= ret && ret - off + 8 <= |s.m|
    case Zeroing(ret, i) => off <= ret && (i < 4096 ==> ret - off + i < |s.m|)
    case _ => true
  }

  lemma NoStrayAccess(off: nat, states: seq<State>, k: nat, c: nat)
    requires Run(off, states) && k < |states| && c < |states[k].pcs|
    ensures AccessInside(off, states[k], c)
  {
    hide Pages, ListOk, RunsOk, Exclusive, Next, Word;
    var s, pages0 := states[k], Pages(states[0].runs);
    RunInv(off, states, k);
    if s.pcs[c].Critical() {
      InvParts(off, s, pages0, c);
      if s.pcs[c].ReadNext? {
        TakeHeadRun(s.m, s.head, off, s.runs);
      }
    }
  }

  lemma HeadBelowLimit(m: seq<byte>, head: nat, off: nat, runs: seq<Block>)
    requires ListOk(m, head, off, runs)
    ensures head < WORD_LIMIT && off + |m| < WORD_LIMIT && (head != 0 ==> |runs| > 0)
  {
    HeadOfList(m, head, off, runs);
  }

  /** What core c makes of memory in its next step. */
  lemma NextMemory(off: nat, s: State, pages0: seq<nat>, c: nat) returns (m': seq<byte>)
    requires Inv(off, s, pages0) && c < |s.pcs| && (s.pcs[c].Critical() ==> AccessInside(off, s, c))
    ensures match s.pcs[c]
      case WriteRestSize(ret, size) => Stored(s.m, m', ret - off + 4096, size - 4096)
      case WriteRestNext(ret, size) => Stored(s.m, m', ret - off + 4096 + 8, s.head)
      case WriteSize(ret) => Stored(s.m, m', ret - off, 4096)
      case Zeroing(ret, i) => i < 4096 ==> m' == s.m[ret - off + i := 0]
      case _ => m' == s.m
  {
    hide Pages, RunsOk, ListOk, Exclusive, Word, SameOutside, Balanced, PagesOk;
    HeadBelowLimit(s.m, s.head, off, s.runs);
    m' := s.m;
    match s.pcs[c]
    case WriteRestSize(ret, size) =>
      InvParts(off, s, pages0, c);
      HandBelowLimit(off, s.m, s.hand, size);
      m' := StoreExists(s.m, ret - off + 4096, size - 4096);
    case WriteRestNext(ret, size) => m' := StoreExists(s.m, ret - off + 4096 + 8, s.head);
    case WriteSize(ret) => m' := StoreExists(s.m, ret - off, 4096);
    case Zeroing(ret, i) => if i < 4096 { m' := s.m[ret - off + i := 0]; }
    case _ =>
  }

  lemma HandBelowLimit(off: nat, m: seq<byte>, hand: Block, size: nat)
    requires RunOk(hand, |m|) && hand.size == size && off + |m| < WORD_LIMIT
    ensures size < WORD_LIMIT
  {
  }

  /** No core inside or outside AllocatePage is ever stuck: in every state of every
      run each core has a next step. */
  lemma EveryCoreCanStep(off: nat, states: seq<State>, k: nat, c: nat) returns (s': State)
    requires Run(off, states) && k < |states| && c < |states[k].pcs|
    ensures Step(off, states[k], s', c)
  {
    hide Pages, RunsOk, ListOk, Exclusive, Next, Word, Balanced, PagesOk, SameOutside, HeaderIs, WithHand, Stored;
    var s, pages0 := states[k], Pages(states[0].runs);
    RunInv(off, states, k);
    NoStrayAccess(off, states, k, c);
    HeadBelowLimit(s.m, s.head, off, s.runs);
    var m' := NextMemory(off, s, pages0, c);
    if s.pcs[c].Critical() { InvParts(off, s, pages0, c); }
    var goes := s.(m := m');
    s' := match s.pcs[c]
      case Idle => s.(pcs := s.pcs[c := Spinning])
      case Spinning => if s.lock then s else s.(pcs := s.pcs[c := TestHead], lock := true)
      case TestHead => s.(pcs := s.pcs[c := if s.head != 0 then ReadHead else Releasing(0)])
      case ReadHead => s.(pcs := s.pcs[c := ReadNext(s.head)])
      case ReadNext(ret) => s.(pcs := s.pcs[c := WriteHead(ret, Word(s.m, ret - off + 8))])
      case WriteHead(ret, next) =>
        s.(pcs := s.pcs[c := ReadSize(ret)], head := next, runs := s.runs[1..], hand := s.runs[0])
      case ReadSize(ret) =>
        var size := Word(s.m, ret - off);
        s.(pcs := s.pcs[c := if size > 4096 then WriteRestSize(ret, size) else Zeroing(ret, 0)])
      case WriteRestSize(ret, size) => goes.(pcs := s.pcs[c := WriteRestNext(ret, size)])
      case WriteRestNext(ret, size) => goes.(pcs := s.pcs[c := WriteRestHead(ret, size)])
      case WriteRestHead(ret, size) =>
        s.(pcs := s.pcs[c := WriteSize(ret)], head := ret + 4096,
           runs := [Block(ret - off + 4096, size - 4096)] + s.runs, hand := Block(ret - off, 4096))
      case WriteSize(ret) => goes.(pcs := s.pcs[c := Zeroing(ret, 0)])
      case Zeroing(ret, i) =>
        if i < 4096 then goes.(pcs := s.pcs[c := Zeroing(ret, i + 1)]) else s.(pcs := s.pcs[c := Releasing(ret)])
      case Releasing(ret) =>
        s.(pcs := s.pcs[c := Idle], lock := false, hand := EMPTY,
           log := if ret == 0 then s.log else s.log + [(c, if off <= ret then ret - off else 0)]);
  }

  lemma RunExtends(off: nat, states: seq<State>, s': State, c: nat)
    requires Run(off, states) && Step(off, states[|states| - 1], s', c)
    ensures Run(off, states + [s'])
  {
    hide Init, Step;
    var longer := states + [s'];
    forall i | 0 <= i < |longer| - 1
      ensures Next(off, longer[i], longer[i + 1])
    {
      if i < |states| - 1 { assert Next(off, states[i], states[i + 1]); }
    }
  }

  /** The rest of core c's way through the lock, when only it takes steps. */
  lemma {:induction false} RunToRelease(off: nat, states: seq<State>, c: nat) returns (longer: seq<State>)
    requires |states| > 0 && Run(off, states) && c < |states[|states| - 1].pcs| && states[|states| - 1].pcs[c].Critical()
    ensures Run(off, longer) && |longer| >= |states| && longer[..|states|] == states
    ensures forall i :: |states| - 1 <= i < |longer| ==> c < |longer[i].pcs| && longer[i].pcs[c].Critical()
    ensures longer[|longer| - 1].pcs[c].Releasing?
    ensures var s, s' := states[|states| - 1], longer[|longer| - 1]; s'.pcs == s.pcs[c := s'.pcs[c]]
    decreases StepsLeft(states[|states| - 1].pcs[c])
  {
    hide Run, Step, StepsLeft;
    var s := states[|states| - 1];
    longer := states;
    if !s.pcs[c].Releasing? {
      var s' := EveryCoreCanStep(off, states, |states| - 1, c);
      EachStepGetsNearer(off, s, s', c);
      StepKeepsCores(off, s, s', c);
      RunExtends(off, states, s', c);
      longer := RunToRelease(off, states + [s'], c);
      assert longer[..|states|] == longer[..|states| + 1][..|states|] == states;
      assert longer[|states| - 1] == longer[..|states|][|states| - 1] == s;
    }
  }

  lemma StepKeepsCores(off: nat, s: State, s': State, c: nat)
    requires Step(off, s, s', c)
    ensures c < |s.pcs| == |s'.pcs| && s'.pcs == s.pcs[c := s'.pcs[c]]
  {
    hide Word, Stored;
  }

  /** From every state of every run an idle core can make a call while the lock is free,
      and goes away with the next page, or with none if none is left. */
  lemma CallCanFinish(off: nat, states: seq<State>, c: nat) returns (longer: seq<State>)
    requires |states| > 0 && Run(off, states)
    requires var s := states[|states| - 1]; c < |s.pcs| && s.pcs[c] == Idle && !s.lock
    ensures Run(off, longer) && |longer| > |states| && longer[..|states|] == states
    ensures var s, s', pages0 := states[|states| - 1], longer[|longer| - 1], Pages(states[0].runs);
      && |s.log| <= |pages0| && s'.pcs == s.pcs && !s'.lock
      && s'.log == s.log + if |s.log| < |pages0| then [(c, pages0[|s.log|])] else []
  {
    hide Run, Step, Pages;
    var n, s := |states|, states[|states| - 1];
    var s1 := EveryCoreCanStep(off, states, n - 1, c);
    RunExtends(off, states, s1, c);
    ToSpinning(off, s, s1, c);
    var r1 := states + [s1];
    var s2 := EveryCoreCanStep(off, r1, n, c);
    RunExtends(off, r1, s2, c);
    ToLock(off, s1, s2, c);
    var r2 := r1 + [s2];
    var r3 := RunToRelease(off, r2, c);
    assert r3[..n] == r3[..n + 2][..n] == states && r3[0] == r3[..n][0] == states[0];
    assert r3[n + 1] == r3[..n + 2][n + 1] == s2;
    LogStaysInside(off, r3, n + 1, |r3| - 1, c);
    CallGetsNextPage(off, r3, n + 1, |r3| - 1, c);
    var s3 := r3[|r3| - 1];
    var s4 := EveryCoreCanStep(off, r3, |r3| - 1, c);
    RunExtends(off, r3, s4, c);
    longer := r3 + [s4];
    Leaves(off, s3, s4, c);
  }

  lemma Leaves(off: nat, s: State, s': State, c: nat)
    requires Step(off, s, s', c) && s.pcs[c].Releasing?
    ensures s'.pcs == s.pcs[c := Idle] && !s'.lock
    ensures var ret := s.pcs[c].ret; s'.log == s.log + if ret == 0 then [] else [(c, if off <= ret then ret - off else 0)]
  {
  }

  lemma ToSpinning(off: nat, s: State, s': State, c: nat)
    requires Step(off, s, s', c) && s.pcs[c] == Idle
    ensures s' == s.(pcs := s.pcs[c := Spinning])
  {
  }

  lemma ToLock(off: nat, s: State, s': State, c: nat)
    requires Step(off, s, s', c) && s.pcs[c] == Spinning && !s.lock
    ensures s' == s.(pcs := s.pcs[c := TestHead], lock := true)
  {
  }
}
