/** The physical page allocator (kernel/src/mm/pmm.cpp): runs of free memory
    threaded through that memory. Seen from outside it is a stack of pages. */
module PhysicalPages {
  import opened Memory
  import opened FreeList

  function PageOf(b: int): int { b - b % 4096 }

  lemma WithinPage(p: int)
    requires p % 4096 == 0
    ensures forall b :: p <= b < p + 4096 ==> PageOf(b) == p
  {
  }

  /** The pages of the run [base, base + size), lowest first. */
  function RunPages(base: nat, size: nat): seq<nat>
    decreases size
  {
    if size < 4096 then [] else [base] + RunPages(base + 4096, size - 4096)
  }

  /** All free pages, in the order AllocatePage hands them out. */
  function Pages(runs: seq<Block>): seq<nat> {
    if |runs| == 0 then [] else RunPages(runs[0].base, runs[0].size) + Pages(runs[1..])
  }

  /** A run the boot loader may report as usable: page-aligned, whole pages,
      inside memory, and never the page at address 0. */
  ghost predicate RunOk(run: Block, length: nat) {
    && run.base % 4096 == 0 && run.size % 4096 == 0
    && run.base >= 4096 && run.size >= 4096
    && run.End() <= length
  }

  /** r shares no byte with any of the runs. */
  ghost predicate ApartFrom(r: Block, runs: seq<Block>) {
    forall k :: 0 <= k < |runs| ==> r.End() <= runs[k].base || runs[k].End() <= r.base
  }

  ghost predicate RunsOk(runs: seq<Block>, length: nat) {
    |runs| > 0 ==> RunOk(runs[0], length) && ApartFrom(runs[0], runs[1..]) && RunsOk(runs[1..], length)
  }

  /** Page addresses as clients rely on them. */
  ghost predicate PagesOk(pages: seq<nat>, length: nat) {
    && (forall k :: 0 <= k < |pages| ==> pages[k] % 4096 == 0 && 4096 <= pages[k] && pages[k] + 4096 <= length)
    && (forall i, j :: 0 <= i < j < |pages| ==> pages[i] != pages[j])
  }

  lemma {:induction false} RunPagesWhere(base: nat, size: nat)
    requires base % 4096 == 0 && size % 4096 == 0
    ensures |RunPages(base, size)| == size / 4096
    ensures forall k :: 0 <= k < |RunPages(base, size)| ==> RunPages(base, size)[k] == base + 4096 * k
    decreases size
  {
    if size >= 4096 {
      RunPagesWhere(base + 4096, size - 4096);
    }
  }

  lemma InRunPages(base: nat, size: nat, p: nat)
    requires base % 4096 == 0 && size % 4096 == 0
    ensures p in RunPages(base, size) <==> p % 4096 == 0 && base <= p < base + size
  {
    RunPagesWhere(base, size);
    if p % 4096 == 0 && base <= p < base + size {
      assert RunPages(base, size)[(p - base) / 4096] == p;
    }
  }

  /** A page address is free exactly when one of the runs covers it. */
  lemma {:induction false} InPages(runs: seq<Block>, length: nat, p: nat)
    requires RunsOk(runs, length)
    ensures p in Pages(runs) <==> p % 4096 == 0 && exists k :: 0 <= k < |runs| && runs[k].Has(p)
  {
    if |runs| > 0 {
      InRunPages(runs[0].base, runs[0].size, p);
      InPages(runs[1..], length, p);
      assert forall k :: 0 < k < |runs| ==> runs[k] == runs[1..][k - 1];
    }
  }

  lemma {:induction false} EachRunOk(runs: seq<Block>, length: nat, k: nat)
    requires RunsOk(runs, length) && k < |runs|
    ensures RunOk(runs[k], length)
    ensures runs[k].base in Pages(runs)
  {
    if k == 0 {
      InRunPages(runs[0].base, runs[0].size, runs[0].base);
    } else {
      EachRunOk(runs[1..], length, k - 1);
    }
  }

  /** Well-formed runs hold distinct, aligned pages. */
  ghost predicate NoneShared(xs: seq<nat>, ys: seq<nat>) {
    forall i, j :: 0 <= i < |xs| && 0 <= j < |ys| ==> xs[i] != ys[j]
  }

  /** No page of the head run is a page of a later run. */
  lemma HeadRunApart(runs: seq<Block>, length: nat)
    requires RunsOk(runs, length) && |runs| > 0
    ensures NoneShared(RunPages(runs[0].base, runs[0].size), Pages(runs[1..]))
  {
    hide RunPages, Pages;
    var xs, ys := RunPages(runs[0].base, runs[0].size), Pages(runs[1..]);
    forall i, j | 0 <= i < |xs| && 0 <= j < |ys|
      ensures xs[i] != ys[j]
    {
      InPages(runs[1..], length, ys[j]);
      InRunPages(runs[0].base, runs[0].size, xs[i]);
      assert xs[i] in xs && ys[j] in ys;
    }
  }

  lemma HeadRunPages(run: Block, length: nat)
    requires RunOk(run, length)
    ensures PagesOk(RunPages(run.base, run.size), length)
  {
    RunPagesWhere(run.base, run.size);
  }

  lemma NonePagesOk(length: nat)
    ensures PagesOk([], length)
  {
  }

  lemma JoinPages(xs: seq<nat>, ys: seq<nat>, length: nat)
    requires PagesOk(xs, length) && PagesOk(ys, length)
    requires NoneShared(xs, ys)
    ensures PagesOk(xs + ys, length)
  {
  }

  lemma {:induction false} RunsGivePages(runs: seq<Block>, length: nat)
    requires RunsOk(runs, length)
    ensures PagesOk(Pages(runs), length)
  {
    hide PagesOk;
    NonePagesOk(length);
    if |runs| > 0 {
      var xs, ys := RunPages(runs[0].base, runs[0].size), Pages(runs[1..]);
      HeadRunPages(runs[0], length);
      RunsGivePages(runs[1..], length);
      HeadRunApart(runs, length);
      JoinPages(xs, ys, length);
      assert Pages(runs) == xs + ys;
    }
  }

  /** Taking the first page of the first run, as the list does it. */
  function RunsAfterTake(runs: seq<Block>): seq<Block>
    requires |runs| > 0
  {
    if runs[0].size > 4096
    then [Block(runs[0].base + 4096, runs[0].size - 4096)] + runs[1..]
    else runs[1..]
  }

  lemma TakeKeepsRuns(runs: seq<Block>, length: nat)
    requires RunsOk(runs, length) && |runs| > 0
    ensures RunsOk(RunsAfterTake(runs), length)
  {
  }

  lemma SplitRun(r: Block, rest: seq<Block>)
    requires r.size >= 4096
    ensures Pages([r] + rest) == [r.base] + Pages([Block(r.base + 4096, r.size - 4096)] + rest)
  {
  }

  /** Splitting the head run is popping the page stack. */
  lemma TakePopsPage(runs: seq<Block>, length: nat)
    requires RunsOk(runs, length) && |runs| > 0
    ensures Pages(runs) == [runs[0].base] + Pages(RunsAfterTake(runs))
  {
  }

  /** The head run is a real block, and neither of the two headers RemovePage
      writes touches the rest of the list. */
  lemma HeadRunParts(runs: seq<Block>, length: nat)
    requires RunsOk(runs, length) && |runs| > 0
    ensures runs[0].base >= 4096 && 4096 <= runs[0].size && runs[0].End() <= length
    ensures runs[0].size > 4096 ==> runs[0].size >= 8192
    ensures HeadersOutside(runs[0].base, runs[0].base + HEADER, RunsAfterTake(runs))
    ensures runs[0].size > 4096 ==> HeadersOutside(runs[0].base + 4096, runs[0].base + 4096 + HEADER, runs[1..])
  {
    RunsPartHeaders(runs, length);
    if runs[0].size > 4096 {
      var rest := RunsAfterTake(runs);
      TakeKeepsRuns(runs, length);
      RunsPartHeaders(rest, length);
      assert rest[1..] == runs[1..];
    }
  }

  /** Every byte outside these pages is the same in m and m'. */
  ghost predicate OnlyPagesChanged(m: seq<byte>, m': seq<byte>, pages: seq<nat>) {
    |m| == |m'| && forall b :: 0 <= b < |m| && PageOf(b) !in pages ==> m'[b] == m[b]
  }

  /** The head run's header misses the headers of the others. */
  lemma RunsPartHeaders(runs: seq<Block>, length: nat)
    requires RunsOk(runs, length) && |runs| > 0
    ensures HeadersOutside(runs[0].base, runs[0].base + HEADER, runs[1..])
  {
    forall k | 0 <= k < |runs[1..]|
      ensures runs[1..][k].base + HEADER <= runs[0].base || runs[0].base + HEADER <= runs[1..][k].base
    {
      EachRunOk(runs[1..], length, k);
    }
  }

  /** A page that is not free misses every run header. */
  lemma PagePartsHeaders(runs: seq<Block>, length: nat, p: nat)
    requires RunsOk(runs, length) && p % 4096 == 0 && p !in Pages(runs)
    ensures HeadersOutside(p, p + 4096, runs)
  {
    forall k | 0 <= k < |runs|
      ensures runs[k].base + HEADER <= p || p + 4096 <= runs[k].base
    {
      EachRunOk(runs, length, k);
    }
  }

  /** Splitting the head run writes only into its first two pages. */
  lemma TakeStaysInFreePages(runs: seq<Block>, length: nat, m: seq<byte>, m1: seq<byte>, m': seq<byte>)
    requires RunsOk(runs, length) && |runs| > 0 && runs[0].size > 4096
    requires SameOutside(m, m1, runs[0].base + 4096, runs[0].base + 4096 + HEADER)
    requires SameOutside(m1, m', runs[0].base, runs[0].base + 8)
    ensures OnlyPagesChanged(m, m', Pages(runs))
  {
    hide RunsOk, Pages;
    TakePopsPage(runs, length);
    TakeKeepsRuns(runs, length);
    TakePopsPage(RunsAfterTake(runs), length);
    EachRunOk(runs, length, 0);
    var p := runs[0].base;
    assert p in Pages(runs) && p + 4096 in Pages(runs);
    WithinPage(p);
    WithinPage(p + 4096);
  }

  /** Returning a page that is not free pushes it onto the stack. */
  lemma FreePushesPage(runs: seq<Block>, length: nat, p: nat)
    requires RunsOk(runs, length)
    requires p % 4096 == 0 && 4096 <= p && p + 4096 <= length && p !in Pages(runs)
    ensures RunsOk([Block(p, 4096)] + runs, length)
    ensures Pages([Block(p, 4096)] + runs) == [p] + Pages(runs)
    ensures HeadersOutside(p, p + HEADER, runs)
  {
    var rs := [Block(p, 4096)] + runs;
    InPages(runs, length, p);
    forall k | 0 <= k < |runs|
      ensures p + 4096 <= runs[k].base || runs[k].End() <= p
      ensures runs[k].base + HEADER <= p || p + HEADER <= runs[k].base
    {
      EachRunOk(runs, length, k);
      assert !runs[k].Has(p);
    }
    assert rs[1..] == runs;
    assert RunPages(p, 4096) == [p] + RunPages(p + 4096, 0);
  }

  datatype EntryKind = Usable | KernelAndModules | Other

  /** An entry of the boot loader's memory map. */
  datatype MemmapEntry = MemmapEntry(base: word, length: word, kind: EntryKind)

  /** The runs after the first n entries: the last usable entry is in front. */
  function UsableRuns(entries: seq<MemmapEntry>, n: nat): seq<Block>
    requires n <= |entries|
  {
    if n == 0 then []
    else
      var e := entries[n - 1];
      if e.kind.Usable? && e.length >= 4096
      then [Block(e.base, e.length)] + UsableRuns(entries, n - 1)
      else UsableRuns(entries, n - 1)
  }

  /** The total length of the first n entries, of all or of the usable ones. */
  function TotalLength(entries: seq<MemmapEntry>, n: nat, onlyUsable: bool): nat
    requires n <= |entries|
  {
    if n == 0 then 0
    else TotalLength(entries, n - 1, onlyUsable) + (if onlyUsable && !entries[n - 1].kind.Usable? then 0 else entries[n - 1].length)
  }

  /** What the boot protocol promises about usable entries: page-aligned base
      and length, inside memory, not at address 0, no overlap. */
  ghost predicate MemmapOk(entries: seq<MemmapEntry>, length: nat) {
    && (forall i :: 0 <= i < |entries| && entries[i].kind.Usable? ==>
          && entries[i].base % 4096 == 0 && entries[i].length % 4096 == 0
          && entries[i].base >= 4096 && entries[i].base + entries[i].length <= length)
    && (forall i, j :: 0 <= i < j < |entries| && entries[i].kind.Usable? && entries[j].kind.Usable? ==>
          entries[i].base + entries[i].length <= entries[j].base || entries[j].base + entries[j].length <= entries[i].base)
  }

  /** r is the run of one of the first n entries, a usable one. */
  ghost predicate RunOfEntry(entries: seq<MemmapEntry>, n: nat, r: Block) {
    exists i :: 0 <= i < n && i < |entries| && entries[i].kind.Usable? && Block(entries[i].base, entries[i].length) == r
  }

  /** p lies in one of the usable entries. */
  ghost predicate InUsable(entries: seq<MemmapEntry>, p: nat) {
    exists r :: RunOfEntry(entries, |entries|, r) && r.Has(p)
  }

  /** Each run comes from one usable entry, and every nonempty usable entry has its run. */
  lemma {:induction false} UsableRunsAreEntries(entries: seq<MemmapEntry>, length: nat, n: nat, r: Block)
    requires MemmapOk(entries, length) && n <= |entries|
    ensures r in UsableRuns(entries, n) <==> RunOfEntry(entries, n, r) && r.size > 0
  {
    if n > 0 {
      UsableRunsAreEntries(entries, length, n - 1, r);
    }
  }

  lemma {:induction false} UsableRunsOk(entries: seq<MemmapEntry>, length: nat, n: nat)
    requires MemmapOk(entries, length) && n <= |entries|
    ensures RunsOk(UsableRuns(entries, n), length)
  {
    if n > 0 {
      var earlier := UsableRuns(entries, n - 1);
      UsableRunsOk(entries, length, n - 1);
      var e := entries[n - 1];
      if e.kind.Usable? && e.length >= 4096 {
        var runs := [Block(e.base, e.length)] + earlier;
        forall k | 0 <= k < |earlier|
          ensures runs[0].End() <= earlier[k].base || earlier[k].End() <= runs[0].base
        {
          assert earlier[k] in earlier;
          UsableRunsAreEntries(entries, length, n - 1, earlier[k]);
        }
        assert runs[1..] == earlier;
      }
    }
  }

  /** The free pages after InitializePMM are exactly the pages of usable memory. */
  lemma UsablePages(entries: seq<MemmapEntry>, length: nat, p: nat)
    requires MemmapOk(entries, length)
    ensures p in Pages(UsableRuns(entries, |entries|)) <==> p % 4096 == 0 && InUsable(entries, p)
  {
    var n := |entries|;
    var runs := UsableRuns(entries, n);
    UsableRunsOk(entries, length, n);
    InPages(runs, length, p);
    if p % 4096 == 0 && InUsable(entries, p) {
      var r :| RunOfEntry(entries, n, r) && r.Has(p);
      UsableRunsAreEntries(entries, length, n, r);
      var k :| 0 <= k < |runs| && runs[k] == r;
      assert runs[k].Has(p);
    }
    if p in Pages(runs) {
      var k :| 0 <= k < |runs| && runs[k].Has(p);
      UsableRunsAreEntries(entries, length, n, runs[k]);
    }
  }

  lemma AllUsablePages(entries: seq<MemmapEntry>, length: nat)
    requires MemmapOk(entries, length)
    ensures forall p: nat :: p in Pages(UsableRuns(entries, |entries|)) <==> p % 4096 == 0 && InUsable(entries, p)
  {
    forall p: nat
      ensures p in Pages(UsableRuns(entries, |entries|)) <==> p % 4096 == 0 && InUsable(entries, p)
    {
      UsablePages(entries, length, p);
    }
  }

  /** The list in memory holds well-formed runs and nothing else. */
  ghost predicate ListOk(m: seq<byte>, head: nat, off: nat, runs: seq<Block>) {
    && off > 0 && off % 4096 == 0 && off + |m| < WORD_LIMIT
    && RunsOk(runs, |m|)
    && Threaded(m, head, off, runs)
  }

  /** What a sound list says of its pages and of the offset. */
  lemma FreePages(m: seq<byte>, head: nat, off: nat, runs: seq<Block>)
    requires ListOk(m, head, off, runs)
    ensures PagesOk(Pages(runs), |m|)
    ensures off > 0 && off % 0x1000 == 0 && off + |m| < WORD_LIMIT
  {
    RunsGivePages(runs, |m|);
  }

  lemma FirstPage(p: nat, rest: seq<nat>, length: nat)
    requires PagesOk([p] + rest, length)
    ensures p % 4096 == 0 && 4096 <= p && p + 4096 <= length
    ensures p !in rest
  {
    var pages := [p] + rest;
    assert pages[0] == p;
    assert forall k :: 0 <= k < |rest| ==> pages[k + 1] == rest[k] && pages[0] != pages[k + 1];
  }

  /** What the head of the list shows to RemovePage. */
  lemma HeadOfList(m: seq<byte>, head: nat, off: nat, runs: seq<Block>)
    requires ListOk(m, head, off, runs)
    ensures head != 0 <==> |runs| > 0
    ensures |runs| > 0 <==> Pages(runs) != []
    ensures |runs| > 0 ==>
              && head == runs[0].base + off
              && HeaderIs(m, runs[0].base, runs[0].size, Link(runs, 1, off))
              && 4096 <= runs[0].base && 4096 <= runs[0].size && runs[0].End() <= |m|
              && (runs[0].size > 4096 ==> runs[0].size >= 8192)
  {
    hide Word;
    if |runs| > 0 {
      TailThreaded(m, head, off, runs);
      FirstRunPage(runs, |m|);
    }
  }

  lemma FirstRunPage(runs: seq<Block>, length: nat)
    requires RunsOk(runs, length) && |runs| > 0
    ensures |Pages(runs)| > 0
    ensures runs[0].size > 4096 ==> runs[0].size >= 8192
  {
  }

  /** A run of one page is simply unlinked. */
  lemma TakeWholeRun(m: seq<byte>, head: nat, off: nat, runs: seq<Block>)
    requires ListOk(m, head, off, runs) && |runs| > 0 && runs[0].size == 4096
    ensures ListOk(m, Link(runs, 1, off), off, RunsAfterTake(runs))
    ensures Pages(runs) == [runs[0].base] + Pages(RunsAfterTake(runs))
  {
    TailThreaded(m, head, off, runs);
    TakePopsPage(runs, |m|);
  }

  /** A longer run is split: its remainder goes back to the front of the list. */
  lemma TakeFromRun(m: seq<byte>, m1: seq<byte>, m2: seq<byte>, head: nat, off: nat, runs: seq<Block>)
    requires ListOk(m, head, off, runs) && |runs| > 0 && runs[0].size > 4096
    requires HeaderWritten(m, m1, runs[0].base + 4096, runs[0].size - 4096, Link(runs, 1, off))
    requires Stored(m1, m2, runs[0].base, 4096)
    ensures ListOk(m2, runs[0].base + 4096 + off, off, RunsAfterTake(runs))
    ensures Pages(runs) == [runs[0].base] + Pages(RunsAfterTake(runs))
    ensures OnlyPagesChanged(m, m2, Pages(runs))
  {
    RemainderPushed(m, m1, head, off, runs);
    TakePopsPage(runs, |m|);
    TakeKeepsRuns(runs, |m|);
    HeadRunParts(runs, |m|);
    ThreadedElsewhere(m1, m2, runs[0].base + 4096 + off, off, RunsAfterTake(runs));
    TakeStaysInFreePages(runs, |m|, m, m1, m2);
  }

  lemma RemainderPushed(m: seq<byte>, m1: seq<byte>, head: nat, off: nat, runs: seq<Block>)
    requires ListOk(m, head, off, runs) && |runs| > 0 && runs[0].size > 4096
    requires HeaderWritten(m, m1, runs[0].base + 4096, runs[0].size - 4096, Link(runs, 1, off))
    ensures Threaded(m1, runs[0].base + 4096 + off, off, RunsAfterTake(runs))
  {
    hide RunsOk, Word;
    TailThreaded(m, head, off, runs);
    HeadRunParts(runs, |m|);
    PushFront(m, m1, Link(runs, 1, off), off, runs[1..], runs[0].base + 4096, runs[0].size - 4096);
  }

  /** Zeroing the page p just taken leaves the list alone. */
  lemma ZeroingKeepsList(m: seq<byte>, m1: seq<byte>, m2: seq<byte>, head: nat, off: nat, runs: seq<Block>, p: nat)
    requires PagesOk([p] + Pages(runs), |m1|) && ListOk(m1, head, off, runs)
    requires OnlyPagesChanged(m, m1, [p] + Pages(runs))
    requires SameOutside(m1, m2, p, p + 4096)
    ensures ListOk(m2, head, off, runs)
    ensures OnlyPagesChanged(m, m2, [p] + Pages(runs))
  {
    FirstPage(p, Pages(runs), |m1|);
    PagePartsHeaders(runs, |m1|, p);
    ThreadedElsewhere(m1, m2, head, off, runs);
    PageChangeOnly(m1, m2, p);
    assert p in [p] + Pages(runs);
  }

  lemma PageChangeOnly(m: seq<byte>, m': seq<byte>, p: nat)
    requires p % 4096 == 0 && SameOutside(m, m', p, p + 4096)
    ensures forall b :: 0 <= b < |m| && PageOf(b) != p ==> m'[b] == m[b]
  {
  }

  /** FreePage's insertion. */
  lemma GiveBack(m: seq<byte>, m': seq<byte>, head: nat, off: nat, runs: seq<Block>, p: nat)
    requires ListOk(m, head, off, runs)
    requires p % 4096 == 0 && 4096 <= p && p + 4096 <= |m| && p !in Pages(runs)
    requires HeaderWritten(m, m', p, 4096, head)
    ensures ListOk(m', p + off, off, [Block(p, 4096)] + runs)
    ensures Pages([Block(p, 4096)] + runs) == [p] + Pages(runs)
  {
    FreePushesPage(runs, |m|, p);
    PushFront(m, m', head, off, runs, p, 4096);
  }

  /** InitializePMM's insertion of one usable entry. */
  lemma AddEntry(m: seq<byte>, m': seq<byte>, head: nat, off: nat, entries: seq<MemmapEntry>, i: nat)
    requires i < |entries| && MemmapOk(entries, |m|)
    requires entries[i].kind.Usable? && entries[i].length >= 4096
    requires ListOk(m, head, off, UsableRuns(entries, i))
    requires HeaderWritten(m, m', entries[i].base, entries[i].length, head)
    ensures ListOk(m', entries[i].base + off, off, UsableRuns(entries, i + 1))
  {
    var runs := UsableRuns(entries, i);
    var runs' := UsableRuns(entries, i + 1);
    UsableRunsOk(entries, |m|, i + 1);
    RunsPartHeaders(runs', |m|);
    assert runs'[1..] == runs;
    PushFront(m, m', head, off, runs, entries[i].base, entries[i].length);
  }

  /** Only bytes of usable pages differ between m and m'. */
  ghost predicate OnlyUsableChanged(m: seq<byte>, m': seq<byte>, entries: seq<MemmapEntry>) {
    |m| == |m'| && forall b: nat :: b < |m| && !InUsable(entries, PageOf(b)) ==> m'[b] == m[b]
  }

  lemma NothingUsableChanged(m: seq<byte>, entries: seq<MemmapEntry>)
    ensures OnlyUsableChanged(m, m, entries)
  {
  }

  lemma EntryHeaderUsable(m0: seq<byte>, m: seq<byte>, m': seq<byte>, entries: seq<MemmapEntry>, i: nat, head: nat)
    requires i < |entries| && MemmapOk(entries, |m|) && entries[i].kind.Usable? && entries[i].length >= 4096
    requires OnlyUsableChanged(m0, m, entries) && HeaderWritten(m, m', entries[i].base, entries[i].length, head)
    ensures OnlyUsableChanged(m0, m', entries)
  {
    hide HeaderIs, PageOf;
    var e := entries[i];
    WithinPage(e.base);
    assert RunOfEntry(entries, |entries|, Block(e.base, e.length)) && Block(e.base, e.length).Has(e.base);
    assert InUsable(entries, e.base);
  }

  lemma NoEntries(entries: seq<MemmapEntry>)
    ensures UsableRuns(entries, 0) == [] && forall usable :: TotalLength(entries, 0, usable) == 0
  {
  }

  /** What one turn of InitializePMM has to add. */
  lemma NextEntry(entries: seq<MemmapEntry>, i: nat)
    requires i < |entries|
    ensures var e, t := entries[i], TotalLength(entries, i, true);
      && Wrap(TotalLength(entries, i + 1, false)) == Wrap(Wrap(TotalLength(entries, i, false)) + e.length)
      && Wrap(TotalLength(entries, i + 1, true)) == (if e.kind.Usable? then Wrap(Wrap(t) + e.length) else Wrap(t))
      && (!e.kind.Usable? || e.length < 4096 ==> UsableRuns(entries, i + 1) == UsableRuns(entries, i))
  {
    AddWraps(TotalLength(entries, i, false), entries[i].length);
    AddWraps(TotalLength(entries, i, true), entries[i].length);
  }

  /** The allocator: a global list head over the shared memory. */
  class PageAllocator {
    const ram: array<byte>
    const off: nat           // higher-half direct map offset
    var head: word           // head.next
    var totalMemory: word
    var totalUsableMemory: word
    ghost var runs: seq<Block>

    ghost predicate Valid()
      reads this, ram
    {
      ListOk(ram[..], head, off, runs)
    }

    /** The stack of free pages. */
    ghost function Free(): seq<nat>
      reads this
    {
      Pages(runs)
    }

    constructor (memory: array<byte>, hhdm: nat)
      requires hhdm > 0 && hhdm % 4096 == 0 && hhdm + memory.Length < WORD_LIMIT
      ensures Valid() && Free() == [] && ram == memory && off == hhdm
      ensures totalMemory == 0 && totalUsableMemory == 0
    {
      ram, off := memory, hhdm;
      head, totalMemory, totalUsableMemory := 0, 0, 0;
      runs := [];
    }

    method InsertNode(block: word, size: word)
      requires off <= block && block - off + HEADER <= ram.Length
      modifies this`head, ram
      ensures head == block
      ensures HeaderWritten(old(ram[..]), ram[..], block - off, size, old(head))
    {
      var node := block - off;
      WriteWord(ram, node, size);
      ghost var m1 := ram[..];
      WriteWord(ram, node + 8, head);
      WordKept(m1, ram[..], node);
      head := block;
    }

    method RemovePage() returns (page: word)
      requires Valid()
      modifies this`head, this`runs, ram
      ensures Valid()
      ensures old(Free()) == [] ==> page == 0 && Free() == [] && ram[..] == old(ram[..])
      ensures old(Free()) != [] ==> page >= off && old(Free()) == [page - off] + Free()
      ensures OnlyPagesChanged(old(ram[..]), ram[..], old(Free()))
    {
      hide RunsOk, Threaded, Pages, RunsAfterTake, Word;
      ghost var rs, m, h := runs, ram[..], head;
      HeadOfList(m, h, off, rs);
      if head == 0 {
        return 0;
      }
      page := head;
      head := ReadWord(ram, page - off + 8);
      var size := ReadWord(ram, page - off);
      if size > 4096 {
        InsertNode(page + 4096, size - 4096);
        ghost var m1 := ram[..];
        WriteWord(ram, page - off, 4096);
        TakeFromRun(m, m1, ram[..], h, off, rs);
      } else {
        TakeWholeRun(m, h, off, rs);
      }
      runs := RunsAfterTake(rs);
    }

    /** HHDMVirtToPhys(null) wraps to 2^64 - off, so exhaustion is not 0 to the
        caller. The memset of the null page is taken to be skipped. */
    method AllocatePage() returns (phys: word)
      requires Valid()
      modifies this`head, this`runs, ram
      ensures Valid()
      ensures old(Free()) == [] ==> phys == WORD_LIMIT - off && Free() == [] && ram[..] == old(ram[..])
      ensures old(Free()) != [] ==>
                && old(Free()) == [phys] + Free()
                && phys + 4096 <= ram.Length
                && (forall b :: phys <= b < phys + 4096 ==> ram[..][b] == 0)
      ensures OnlyPagesChanged(old(ram[..]), ram[..], old(Free()))
    {
      ghost var m := ram[..];
      RunsGivePages(runs, ram.Length);
      var page := RemovePage();
      if page != 0 {
        ghost var m1, p := ram[..], page - off;
        FirstPage(p, Free(), ram.Length);
        Memset(ram, page - off, 0, 0x1000);
        ZeroingKeepsList(m, m1, ram[..], head, off, runs, p);
      }
      phys := Wrap(page - off);
    }

    method FreePage(addr: word)
      requires Valid()
      requires addr % 4096 == 0 && 4096 <= addr && addr + 4096 <= ram.Length
      requires addr !in Free()
      modifies this`head, this`runs, ram
      ensures Valid()
      ensures Free() == [addr] + old(Free())
      ensures SameOutside(old(ram[..]), ram[..], addr, addr + HEADER)
    {
      ghost var m, h := ram[..], head;
      var page := Wrap(addr + off);
      InsertNode(page, 0x1000);
      GiveBack(m, ram[..], h, off, runs, addr);
      runs := [Block(addr, 4096)] + runs;
    }

    method InitializePMM(entries: seq<MemmapEntry>)
      requires Valid() && Free() == [] && totalMemory == 0 && totalUsableMemory == 0
      requires MemmapOk(entries, ram.Length)
      modifies this, ram
      ensures Valid() && runs == UsableRuns(entries, |entries|)
      ensures forall p: nat :: p in Free() <==> p % 4096 == 0 && InUsable(entries, p)
      ensures totalMemory == Wrap(TotalLength(entries, |entries|, false))
      ensures totalUsableMemory == Wrap(TotalLength(entries, |entries|, true))
      ensures OnlyUsableChanged(old(ram[..]), ram[..], entries)
    {
      hide RunsOk, Threaded, Pages, Word, InUsable, HeaderWritten, TotalLength, UsableRuns, OnlyUsableChanged;
      ghost var m0 := ram[..];
      NoEntries(entries);
      NothingUsableChanged(m0, entries);
      HeadOfList(ram[..], head, off, runs);
      var i := 0;
      while i < |entries|
        invariant 0 <= i <= |entries|
        invariant ListOk(ram[..], head, off, runs) && runs == UsableRuns(entries, i)
        invariant totalMemory == Wrap(TotalLength(entries, i, false))
        invariant totalUsableMemory == Wrap(TotalLength(entries, i, true))
        invariant OnlyUsableChanged(m0, ram[..], entries)
      {
        var e := entries[i];
        assert e.kind.Usable? ==> e.base + e.length <= ram.Length;
        NextEntry(entries, i);
        totalMemory := Wrap(totalMemory + e.length);
        if e.kind.Usable? {
          totalUsableMemory := Wrap(totalUsableMemory + e.length);
          if e.length >= 4096 {
            ghost var m, h := ram[..], head;
            InsertNode(Wrap(e.base + off), e.length);
            AddEntry(m, ram[..], h, off, entries, i);
            EntryHeaderUsable(m0, m, ram[..], entries, i, h);
          }
        }
        i := i + 1;
        runs := UsableRuns(entries, i);
      }
      AllUsablePages(entries, ram.Length);
    }
  }
}
