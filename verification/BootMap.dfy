/** What InitPaging is meant to map (kernel/src/hal/vmm.cpp:90-127): the pages of
    every memory-map entry, kernel entries at the kernel's link address and all
    others in the higher-half direct map. */
module BootMap {
  import opened Memory
  import opened PhysicalPages
  import opened PageTables

  /** Bits 12 to 47 of a virtual address. */
  function PageNumber(virt: word): nat { virt / 0x1000 % 0x10_0000_0000 }

  /** PhysicalAddr keeps 40 bits of the frame number. */
  function FrameOf(phys: word): nat { phys / 0x1000 % 0x100_0000_0000 }

  datatype Bases = Bases(hhdm: word, kernelVirt: word, kernelPhys: word)

  /** The n-th page of an entry: its physical address and where it is mapped. */
  function PhysAt(e: MemmapEntry, n: nat): word { Wrap(e.base + 0x1000 * n) }

  function VirtAt(e: MemmapEntry, n: nat, b: Bases): word {
    if e.kind.KernelAndModules?
    then Wrap(PhysAt(e, n) + b.kernelVirt - b.kernelPhys)
    else Wrap(PhysAt(e, n) + b.hhdm)
  }

  /** Loop steps of InitPaging for one entry: a partial last page counts. */
  function PageCount(e: MemmapEntry): nat { (e.length + 0xFFF) / 0x1000 }

  /** The flat map after i entries and n pages of entry i: a later mapping of
      the same page replaces an earlier one. */
  ghost function FlatMap(entries: seq<MemmapEntry>, b: Bases, i: nat, n: nat, page: nat): Translation
    requires i <= |entries| && (i == |entries| ==> n == 0)
    decreases i, n
  {
    if n > 0 then
      if page == PageNumber(VirtAt(entries[i], n - 1, b)) then To(FrameOf(PhysAt(entries[i], n - 1)))
      else FlatMap(entries, b, i, n - 1, page)
    else if i == 0 then Fault
    else FlatMap(entries, b, i - 1, PageCount(entries[i - 1]), page)
  }

  /** Page n of entry i belongs at this page number. */
  ghost predicate Listed(entries: seq<MemmapEntry>, b: Bases, i: nat, n: nat, page: nat) {
    i < |entries| && n < PageCount(entries[i]) && page == PageNumber(VirtAt(entries[i], n, b))
  }

  /** The virtual windows of the entries do not overlap. */
  ghost predicate DisjointWindows(entries: seq<MemmapEntry>, b: Bases) {
    forall i: nat, n: nat, j: nat, k: nat, page: nat :: Listed(entries, b, i, n, page) && Listed(entries, b, j, k, page) ==> i == j && n == k
  }

  /** What the flat map says was listed ... */
  lemma {:induction false} MappedIsListed(entries: seq<MemmapEntry>, b: Bases, i: nat, n: nat, page: nat) returns (j: nat, k: nat)
    requires i <= |entries| && (i == |entries| ==> n == 0)
    requires i < |entries| ==> n <= PageCount(entries[i])
    requires FlatMap(entries, b, i, n, page) != Fault
    ensures Listed(entries, b, j, k, page)
    ensures FlatMap(entries, b, i, n, page) == To(FrameOf(PhysAt(entries[j], k)))
    decreases i, n
  {
    if n > 0 && page == PageNumber(VirtAt(entries[i], n - 1, b)) {
      j, k := i, n - 1;
    } else if n > 0 {
      j, k := MappedIsListed(entries, b, i, n - 1, page);
    } else {
      j, k := MappedIsListed(entries, b, i - 1, PageCount(entries[i - 1]), page);
    }
  }

  /** ... and what was listed is mapped. */
  lemma {:induction false} ListedIsMapped(entries: seq<MemmapEntry>, b: Bases, i: nat, n: nat, page: nat, j: nat, k: nat)
    requires i <= |entries| && (i == |entries| ==> n == 0)
    requires Listed(entries, b, j, k, page) && (j < i || (j == i && k < n))
    ensures FlatMap(entries, b, i, n, page) != Fault
    decreases i, n
  {
    if n > 0 {
      if !(j == i && k == n - 1) {
        ListedIsMapped(entries, b, i, n - 1, page, j, k);
      }
    } else {
      ListedIsMapped(entries, b, i - 1, PageCount(entries[i - 1]), page, j, k);
    }
  }

  /** With disjoint windows the flat map is exactly the intended one: each listed
      page goes to its own frame, and every page not listed faults. */
  lemma FlatMapExact(entries: seq<MemmapEntry>, b: Bases, page: nat)
    requires DisjointWindows(entries, b)
    ensures forall i: nat, n: nat :: Listed(entries, b, i, n, page) ==>
              FlatMap(entries, b, |entries|, 0, page) == To(FrameOf(PhysAt(entries[i], n)))
    ensures (forall i: nat, n: nat :: !Listed(entries, b, i, n, page)) <==> FlatMap(entries, b, |entries|, 0, page) == Fault
  {
    hide PhysAt, VirtAt, PageNumber, FrameOf, FlatMap;
    forall i: nat, n: nat | Listed(entries, b, i, n, page)
      ensures FlatMap(entries, b, |entries|, 0, page) == To(FrameOf(PhysAt(entries[i], n)))
    {
      ListedIsMapped(entries, b, |entries|, 0, page, i, n);
      var j, k := MappedIsListed(entries, b, |entries|, 0, page);
      assert j == i && k == n;
    }
    if FlatMap(entries, b, |entries|, 0, page) != Fault {
      var j, k := MappedIsListed(entries, b, |entries|, 0, page);
    }
  }

  /** For aligned entries and bases, page numbers and frames differ by the same
      constant as the addresses: kernelVirt - kernelPhys, or the direct-map offset. */
  lemma WindowIsLinear(e: MemmapEntry, b: Bases, n: nat)
    requires e.base % 0x1000 == 0 && b.hhdm % 0x1000 == 0
    requires b.kernelVirt % 0x1000 == 0 && b.kernelPhys % 0x1000 == 0
    ensures PhysAt(e, n) % 0x1000 == 0 && VirtAt(e, n, b) % 0x1000 == 0
    ensures PhysAt(e, n) ==
            Wrap(VirtAt(e, n, b) - (if e.kind.KernelAndModules? then b.kernelVirt - b.kernelPhys else b.hhdm))
  {
    var shift := if e.kind.KernelAndModules? then b.kernelVirt - b.kernelPhys else b.hhdm;
    WrapAligned(e.base + 0x1000 * n);
    WrapAligned(PhysAt(e, n) + shift);
    WrapBack(PhysAt(e, n), shift);
  }

  lemma WrapAligned(x: int)
    requires x % 0x1000 == 0
    ensures Wrap(x) % 0x1000 == 0
  {
  }

  lemma WrapBack(x: word, shift: int)
    ensures Wrap(Wrap(x + shift) - shift) == x
  {
  }
}
