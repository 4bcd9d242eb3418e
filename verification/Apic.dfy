/** Interrupt controllers (kernel/src/hal/cpu/interrupt/apic.cpp): the walk over the
    records of the MADT and the redirection entries of the I/O APIC. */
module Apic {
  import opened Memory
  import opened AcpiFormat

  type word32 = x: int | 0 <= x < 0x1_0000_0000

  function Low32(x: int): word32 { x % 0x1_0000_0000 }

  // The MADT (section 5.2.12 of ACPI 6.5).

  /** An interrupt controller structure: type, length of the whole, and the rest. */
  datatype Controller = Controller(kind: byte, body: seq<byte>)

  predicate ControllersOk(cs: seq<Controller>) { forall k :: 0 <= k < |cs| ==> |cs[k].body| <= 253 }

  function Size(c: Controller): nat { 2 + |c.body| }

  /** The records as firmware lays them out. */
  function Laid(cs: seq<Controller>): seq<byte>
    requires ControllersOk(cs)
  {
    if |cs| == 0 then [] else [cs[0].kind, Size(cs[0])] + cs[0].body + Laid(cs[1..])
  }

  const HEADER_SIZE: nat := 44

  /** A table of these records stands at p: its length field counts all of it. */
  ghost predicate TableAt(m: seq<byte>, p: nat, cs: seq<Controller>) {
    && ControllersOk(cs) && p + HEADER_SIZE + |Laid(cs)| <= |m|
    && LoadLE(m, p + 4, 4) == HEADER_SIZE + |Laid(cs)|
    && m[p + HEADER_SIZE..p + HEADER_SIZE + |Laid(cs)|] == Laid(cs)
  }

  /** Such a table as firmware writes it: after the 36 bytes every table begins with,
      eight for the address of the local APIC and flags, then the records. */
  lemma MadtAsWritten(m: seq<byte>, p: nat, signature: seq<byte>, head: seq<byte>, cs: seq<Controller>)
    requires ControllersOk(cs) && |head| == 28 + 8 && TableOk(signature, head + Laid(cs))
    requires Stands(m, p, TableBytes(signature, head + Laid(cs)))
    ensures TableAt(m, p, cs)
  {
    hide Laid, FourBytes, LoadLE;
    var rest := head + Laid(cs);
    LengthField(m, p, signature, rest);
    assert TableBytes(signature, rest) == (signature + FourBytes(8 + |rest|) + head) + Laid(cs);
    StandsParts(m, p, signature + FourBytes(8 + |rest|) + head, Laid(cs));
  }

  /** Where the records of the asked type stand, in order. */
  function Wanted(p: nat, cs: seq<Controller>, kind: byte): seq<nat>
    decreases |cs|
  {
    if |cs| == 0 then []
    else (if cs[0].kind == kind then [p] else []) + Wanted(p + Size(cs[0]), cs[1..], kind)
  }

  /** Every address found is the start of a record of the type, and the other way
      round. */
  lemma {:induction false} WantedExactly(p: nat, cs: seq<Controller>, kind: byte, a: nat)
    ensures a in Wanted(p, cs, kind) <==> exists k :: 0 <= k < |cs| && cs[k].kind == kind && a == Start(p, cs, k)
    decreases |cs|
  {
    if |cs| > 0 {
      var rest := cs[1..];
      WantedExactly(p + Size(cs[0]), rest, kind, a);
      if a in Wanted(p + Size(cs[0]), rest, kind) {
        var k :| 0 <= k < |rest| && rest[k].kind == kind && a == Start(p + Size(cs[0]), rest, k);
        assert cs[k + 1].kind == kind && a == Start(p, cs, k + 1);
      }
      if k :| 0 <= k < |cs| && cs[k].kind == kind && a == Start(p, cs, k) {
        if k > 0 {
          assert rest[k - 1].kind == kind && a == Start(p + Size(cs[0]), rest, k - 1);
        }
      }
      assert a == p && cs[0].kind == kind ==> a == Start(p, cs, 0);
    }
  }

  /** The addresses found ascend, so each record comes once and in order. */
  lemma {:induction false} WantedAscends(p: nat, cs: seq<Controller>, kind: byte)
    ensures forall i :: 0 <= i < |Wanted(p, cs, kind)| ==> Wanted(p, cs, kind)[i] >= p
    ensures forall i, j :: 0 <= i < j < |Wanted(p, cs, kind)| ==> Wanted(p, cs, kind)[i] < Wanted(p, cs, kind)[j]
    decreases |cs|
  {
    if |cs| > 0 { WantedAscends(p + Size(cs[0]), cs[1..], kind); }
  }

  /** Where record k stands. */
  function Start(p: nat, cs: seq<Controller>, k: nat): nat
    requires k <= |cs|
    decreases k
  {
    if k == 0 then p else Start(p + Size(cs[0]), cs[1..], k - 1)
  }

  /** The rest of the walk: these records fill what is left. */
  ghost predicate Ahead(m: seq<byte>, p: nat, length: nat, cs: seq<Controller>) {
    ControllersOk(cs) && length == |Laid(cs)| && p + length <= |m| && m[p..p + length] == Laid(cs)
  }

  lemma NextRecord(m: seq<byte>, p: nat, length: nat, cs: seq<Controller>)
    requires Ahead(m, p, length, cs) && length > 0
    ensures |cs| > 0 && Size(cs[0]) <= length && p + 2 <= |m|
    ensures m[p] == cs[0].kind && m[p + 1] == Size(cs[0])
    ensures Ahead(m, p + Size(cs[0]), length - Size(cs[0]), cs[1..])
  {
  }

  /** FindAllInterruptControllers; what it finds is appended to vec. Tables whose
      records do not fill it exactly send the walk past its end. */
  method FindAllInterruptControllers(m: seq<byte>, madt: nat, kind: byte, vec: seq<nat>, ghost cs: seq<Controller>)
    returns (found: seq<nat>)
    requires TableAt(m, madt, cs)
    ensures found == vec + Wanted(madt + HEADER_SIZE, cs, kind)
  {
    hide Laid;
    found := vec;
    var length: word := Wrap(LoadLE(m, madt + 4, 4) - 46 + 2);
    var current: nat := madt + HEADER_SIZE;
    ghost var rest := cs;
    TableStarts(m, madt, cs);
    ghost var goal := vec + Wanted(current, cs, kind);
    while length > 0
      invariant Ahead(m, current, length, rest)
      invariant goal == found + Wanted(current, rest, kind)
      decreases |rest|
    {
      NextRecord(m, current, length, rest);
      ghost var later := Wanted(current + Size(rest[0]), rest[1..], kind);
      if m[current] == kind {
        assert (found + [current]) + later == found + ([current] + later);
        found := found + [current];
      } else {
        assert found + ([] + later) == found + later;
      }
      length := Wrap(length - m[current + 1]);
      current := current + m[current + 1];
      rest := rest[1..];
    }
    assert |rest| == 0 by { NothingLaid(rest); }
  }

  lemma TableStarts(m: seq<byte>, p: nat, cs: seq<Controller>)
    requires TableAt(m, p, cs)
    ensures p + 8 <= |m| && Ahead(m, p + HEADER_SIZE, Wrap(LoadLE(m, p + 4, 4) - 46 + 2), cs)
  {
  }

  lemma NothingLaid(cs: seq<Controller>)
    requires ControllersOk(cs) && |Laid(cs)| == 0
    ensures |cs| == 0
  {
  }

  // Redirection entries.

  datatype RedirectionEntry = RedirectionEntry(
    vector: nat, deliveryMode: nat, destinationMode: nat, busy: nat, polarity: nat,
    ltiStatus: nat, triggerMode: nat, interruptMask: nat, reserved: nat, destination: nat)

  /** The fields fit their bits. */
  predicate EntryOk(e: RedirectionEntry) {
    && e.vector < 0x100 && e.deliveryMode < 8 && e.destinationMode < 2 && e.busy < 2 && e.polarity < 2
    && e.ltiStatus < 2 && e.triggerMode < 2 && e.interruptMask < 2 && e.reserved < 0x80_0000_0000 && e.destination < 0x100
  }

  /** The bits of an entry as a 64-bit number: fields from the lowest bit on. */
  function Pack(e: RedirectionEntry): (v: word)
    requires EntryOk(e)
  {
    e.vector + 0x100 * (e.deliveryMode + 8 * (e.destinationMode + 2 * (e.busy + 2 * Upper(e))))
  }

  /** The fields from the polarity on. */
  function Upper(e: RedirectionEntry): (v: nat)
    requires EntryOk(e)
    ensures v < 0x8_0000_0000_0000
  {
    var high := e.reserved + 0x80_0000_0000 * e.destination;
    e.polarity + 2 * (e.ltiStatus + 2 * (e.triggerMode + 2 * (e.interruptMask + 2 * high)))
  }

  /** The bits in numbers. */
  lemma PackInNumbers(e: RedirectionEntry)
    requires EntryOk(e)
    ensures Pack(e) == e.vector + 0x100 * e.deliveryMode + 0x800 * e.destinationMode + 0x1000 * e.busy + 0x2000 * e.polarity
              + 0x4000 * e.ltiStatus + 0x8000 * e.triggerMode + 0x1_0000 * e.interruptMask + 0x2_0000 * e.reserved
              + 0x100_0000_0000_0000 * e.destination
  {
  }

  function Unpack(v: word): RedirectionEntry {
    var v1 := v / 0x100;
    var v2 := v1 / 8;
    var v3 := v2 / 2;
    var v4 := v3 / 2;
    var v5 := v4 / 2;
    var v6 := v5 / 2;
    var v7 := v6 / 2;
    var v8 := v7 / 2;
    RedirectionEntry(v % 0x100, v1 % 8, v2 % 2, v3 % 2, v4 % 2, v5 % 2, v6 % 2, v7 % 2,
      v8 % 0x80_0000_0000, v8 / 0x80_0000_0000)
  }

  lemma SplitBit(f: nat, r: nat)
    requires f < 2
    ensures (f + 2 * r) % 2 == f && (f + 2 * r) / 2 == r
  {
  }

  lemma SplitEnds(f: nat, d: nat, x: nat, y: nat, r: nat, s: nat)
    requires f < 0x100 && d < 8 && x < 0x80_0000_0000
    ensures (f + 0x100 * r) % 0x100 == f && (f + 0x100 * r) / 0x100 == r
    ensures (d + 8 * s) % 8 == d && (d + 8 * s) / 8 == s
    ensures (x + 0x80_0000_0000 * y) % 0x80_0000_0000 == x && (x + 0x80_0000_0000 * y) / 0x80_0000_0000 == y
  {
  }

  lemma UpperSplits(e: RedirectionEntry)
    requires EntryOk(e)
    ensures var v4 := Upper(e); var v5 := v4 / 2; var v6 := v5 / 2; var v7 := v6 / 2; var v8 := v7 / 2;
      && v4 % 2 == e.polarity && v5 % 2 == e.ltiStatus && v6 % 2 == e.triggerMode && v7 % 2 == e.interruptMask
      && v8 % 0x80_0000_0000 == e.reserved && v8 / 0x80_0000_0000 == e.destination
  {
    var v8 := e.reserved + 0x80_0000_0000 * e.destination;
    var v7 := e.interruptMask + 2 * v8;
    var v6 := e.triggerMode + 2 * v7;
    var v5 := e.ltiStatus + 2 * v6;
    SplitEnds(0, 0, e.reserved, e.destination, 0, 0);
    SplitBit(e.polarity, v5);
    SplitBit(e.ltiStatus, v6);
    SplitBit(e.triggerMode, v7);
    SplitBit(e.interruptMask, v8);
  }

  lemma UnpackAfterPack(e: RedirectionEntry)
    requires EntryOk(e)
    ensures Unpack(Pack(e)) == e
  {
    hide Unpack, Upper;
    var v4 := Upper(e);
    var v5 := v4 / 2;
    var v6 := v5 / 2;
    var v7 := v6 / 2;
    var v3 := e.busy + 2 * v4;
    var v2 := e.destinationMode + 2 * v3;
    var v1 := e.deliveryMode + 8 * v2;
    SplitEnds(e.vector, e.deliveryMode, 0, 0, v1, v2);
    SplitBit(e.destinationMode, v3);
    SplitBit(e.busy, v4);
    UpperSplits(e);
    Peeled(Pack(e), v1, v2, v3, v4, v5, v6, v7, v7 / 2, e);
  }

  lemma Peeled(v: word, v1: nat, v2: nat, v3: nat, v4: nat, v5: nat, v6: nat, v7: nat, v8: nat, e: RedirectionEntry)
    requires v % 0x100 == e.vector && v / 0x100 == v1 && v1 % 8 == e.deliveryMode && v1 / 8 == v2
    requires v2 % 2 == e.destinationMode && v2 / 2 == v3 && v3 % 2 == e.busy && v3 / 2 == v4
    requires v4 % 2 == e.polarity && v4 / 2 == v5 && v5 % 2 == e.ltiStatus && v5 / 2 == v6
    requires v6 % 2 == e.triggerMode && v6 / 2 == v7 && v7 % 2 == e.interruptMask && v7 / 2 == v8
    requires v8 % 0x80_0000_0000 == e.reserved && v8 / 0x80_0000_0000 == e.destination
    ensures Unpack(v) == e
  {
  }

  lemma PackAfterUnpack(v: word)
    ensures EntryOk(Unpack(v)) && Pack(Unpack(v)) == v
  {
  }

  /** What odd entries read as: all bits zero. */
  lemma NoEntryIsZero()
    ensures EntryOk(NO_ENTRY) && Pack(NO_ENTRY) == 0
  {
  }

  const NO_ENTRY: RedirectionEntry := RedirectionEntry(0, 0, 0, 0, 0, 0, 0, 0, 0, 0)

  /** An interrupt source override, and the int conversion of its GSI. */
  datatype Override = Override(source: byte, gsi: word32)

  function Int(x: int): (y: int)
    ensures -0x8000_0000 <= y < 0x8000_0000 && (y - x) % 0x1_0000_0000 == 0
  {
    var y := x % 0x1_0000_0000;
    if y < 0x8000_0000 then y else y - 0x1_0000_0000
  }

  /** What the loop over the overrides from i to n makes of irq. */
  function Redirected(isos: seq<Override>, irq: int, i: nat, n: nat): int
    requires i <= n <= |isos|
    decreases n - i
  {
    if i == n then irq
    else Redirected(isos, if isos[i].source == irq then Int(isos[i].gsi) else irq, i + 1, n)
  }

  /** The first override of irq, or n. */
  function FirstOverride(isos: seq<Override>, irq: int, n: nat): (k: nat)
    requires n <= |isos|
    ensures k <= n && (k < n ==> isos[k].source == irq)
    ensures forall j :: 0 <= j < k ==> isos[j].source != irq
  {
    if n == 0 then 0
    else
      var k := FirstOverride(isos, irq, n - 1);
      if k < n - 1 || isos[n - 1].source == irq then k else n
  }

  /** The global interrupt irq is meant to be: the GSI of its override, or itself. */
  function Meant(isos: seq<Override>, irq: int, n: nat): int
    requires n <= |isos|
  {
    var k := FirstOverride(isos, irq, n);
    if k < n then Int(isos[k].gsi) else irq
  }

  /** No override after the one of irq takes its GSI elsewhere. */
  predicate NoChain(isos: seq<Override>, irq: int, n: nat)
    requires n <= |isos|
  {
    var k := FirstOverride(isos, irq, n);
    forall j :: k < j < n && isos[j].source == Int(isos[k].gsi) ==> Int(isos[j].gsi) == Int(isos[k].gsi)
  }

  lemma {:induction false} SkipUnrelated(isos: seq<Override>, irq: int, i: nat, k: nat, n: nat)
    requires i <= k <= n <= |isos| && forall j :: i <= j < k ==> isos[j].source == irq ==> Int(isos[j].gsi) == irq
    ensures Redirected(isos, irq, i, n) == Redirected(isos, irq, k, n)
    decreases k - i
  {
    if i < k { SkipUnrelated(isos, irq, i + 1, k, n); }
  }

  /** A GSI that no override from i on leads to, but for its identity override, is not
      reached from another one. */
  lemma {:induction false} NeverReached(isos: seq<Override>, irq: int, goal: int, i: nat, n: nat)
    requires i <= n <= |isos| && irq != goal
    requires forall j :: i <= j < n && Int(isos[j].gsi) == goal ==> isos[j].source == goal
    ensures Redirected(isos, irq, i, n) != goal
    decreases n - i
  {
    if i < n { NeverReached(isos, if isos[i].source == irq then Int(isos[i].gsi) else irq, goal, i + 1, n); }
  }

  /** The loop keeps comparing with the number it has already replaced. For every
      list it ends at the meant GSI if no later override takes that GSI elsewhere. */
  lemma NoChainAsMeant(isos: seq<Override>, irq: int, n: nat)
    requires n <= |isos| && NoChain(isos, irq, n)
    ensures Redirected(isos, irq, 0, n) == Meant(isos, irq, n)
  {
    hide Redirected;
    var k := FirstOverride(isos, irq, n);
    SkipUnrelated(isos, irq, 0, k, n);
    if k < n {
      var g := Int(isos[k].gsi);
      RedirectedStep(isos, irq, k, n);
      SkipUnrelated(isos, g, k + 1, n, n);
      RedirectedEnds(isos, g, n);
    } else {
      RedirectedEnds(isos, irq, n);
    }
  }

  /** No override but an identity leads to a GSI that an earlier one leads to. */
  predicate NoReturn(isos: seq<Override>, n: nat)
    requires n <= |isos|
  {
    forall i, j :: 0 <= i < j < n && Int(isos[i].gsi) == Int(isos[j].gsi) ==> isos[j].source == Int(isos[j].gsi)
  }

  /** And only if, where no override leads back to an earlier one's GSI. */
  lemma RedirectedAsMeant(isos: seq<Override>, irq: int, n: nat)
    requires n <= |isos| && NoReturn(isos, n)
    ensures Redirected(isos, irq, 0, n) == Meant(isos, irq, n) <==> NoChain(isos, irq, n)
  {
    hide Redirected;
    var k := FirstOverride(isos, irq, n);
    if NoChain(isos, irq, n) {
      NoChainAsMeant(isos, irq, n);
    } else {
      var g := Int(isos[k].gsi);
      SkipUnrelated(isos, irq, 0, k, n);
      RedirectedStep(isos, irq, k, n);
      var j := FirstChange(isos, g, k + 1, n);
      SkipUnrelated(isos, g, k + 1, j, n);
      RedirectedStep(isos, g, j, n);
      NeverReached(isos, Int(isos[j].gsi), g, j + 1, n);
    }
  }

  /** Where one does, a chain can come back: 1 to 2, 2 to 3, 3 to 2. */
  lemma ChainCanReturn()
    ensures var isos := [Override(1, 2), Override(2, 3), Override(3, 2)];
      Redirected(isos, 1, 0, 3) == Meant(isos, 1, 3) == 2 && !NoChain(isos, 1, 3)
  {
    var isos := [Override(1, 2), Override(2, 3), Override(3, 2)];
    RedirectedStep(isos, 1, 0, 3);
    RedirectedStep(isos, 2, 1, 3);
    RedirectedStep(isos, 3, 2, 3);
    RedirectedEnds(isos, 2, 3);
    assert FirstOverride(isos, 1, 1) == 0;
    assert isos[1].source == 2;
  }

  /** IRQ 1 overridden to 2, and IRQ 2 to 9: the entry for IRQ 1 ends at 9. */
  lemma ChainGoesAstray()
    ensures var isos := [Override(1, 2), Override(2, 9)];
      Redirected(isos, 1, 0, 2) == 9 && Meant(isos, 1, 2) == 2
  {
  }

  lemma RedirectedStep(isos: seq<Override>, irq: int, i: nat, n: nat)
    requires i < n <= |isos| && isos[i].source == irq
    ensures Redirected(isos, irq, i, n) == Redirected(isos, Int(isos[i].gsi), i + 1, n)
  {
  }

  lemma RedirectedEnds(isos: seq<Override>, irq: int, n: nat)
    requires n <= |isos|
    ensures Redirected(isos, irq, n, n) == irq
  {
  }

  lemma {:induction false} FirstChange(isos: seq<Override>, g: int, i: nat, n: nat) returns (j: nat)
    requires i <= n <= |isos| && exists k :: i <= k < n && isos[k].source == g && Int(isos[k].gsi) != g
    ensures i <= j < n && isos[j].source == g && Int(isos[j].gsi) != g
    ensures forall k :: i <= k < j ==> isos[k].source == g ==> Int(isos[k].gsi) == g
    decreases n - i
  {
    if isos[i].source == g && Int(isos[i].gsi) != g {
      j := i;
    } else {
      j := FirstChange(isos, g, i + 1, n);
    }
  }

  /** The register pair of an interrupt: within reach exactly for 0 to 119, when
      different interrupts also have different pairs. */
  function PairOf(irq: int): (r: nat)
    ensures r < 0x100
  {
    (0x10 + Low32(Int(irq * 2))) % 0x100
  }

  lemma ByteOf(x: int, q: int, b: int)
    requires x == 0x100 * q + b && 0 <= b < 0x100
    ensures x % 0x100 == b
  {
  }

  lemma LowByte(x: int)
    ensures Low32(x) % 0x100 == x % 0x100
  {
  }

  lemma LowOfInt(x: int)
    ensures Low32(Int(x)) == Low32(x)
  {
  }

  lemma PairFormula(irq: int)
    ensures PairOf(irq) == (0x10 + 2 * irq) % 0x100
  {
    LowOfInt(2 * irq);
    LowByte(2 * irq);
    SameBytePlus(Low32(2 * irq), 2 * irq);
  }

  lemma SameBytePlus(x: int, y: int)
    requires x % 0x100 == y % 0x100
    ensures (0x10 + x) % 0x100 == (0x10 + y) % 0x100
  {
    var a, b, c := x / 0x100, x % 0x100, y / 0x100;
    var s, t := (0x10 + b) % 0x100, (0x10 + b) / 0x100;
    ByteOf(0x10 + x, a + t, s);
    ByteOf(0x10 + y, c + t, s);
  }

  lemma PairsApart(i: int, j: int)
    requires 0 <= i
    ensures PairOf(i) == 0x10 + 2 * i <==> i < 120
    ensures 0 <= j < i < 120 ==> PairOf(j) + 1 < PairOf(i)
  {
    PairFormula(i);
    PairFormula(j);
  }

  /** A 64-bit entry from its halves. */
  function Joined(low: word32, high: word32): (v: word)
    ensures Low32(v) == low && v / 0x1_0000_0000 == high
  {
    var l: nat, h: nat := low, high;
    l + 0x1_0000_0000 * h
  }

  lemma Halves(v: word)
    ensures v / 0x1_0000_0000 < 0x1_0000_0000
    ensures Joined(Low32(v), v / 0x1_0000_0000) == v
  {
  }

  /** The low register of the pair, and the one after it. */
  lemma EntryRegisters(entry: word32)
    requires entry % 2 == 0
    ensures var r := (0x10 + entry) % 0x100; r < 0xff && Low32(0x10 + entry) % 0x100 == r
    ensures Low32(0x10 + Low32(entry + 1)) % 0x100 == (0x10 + entry) % 0x100 + 1
  {
    var n: int := 0x10 + entry;
    var q, r := n / 0x100, n % 0x100;
    assert n == 0x100 * q + r;
    EvenBytes(n, q, r);
    LowByte(n);
    NotLast(entry);
    LowByte(n + 1);
    ByteOf(n + 1, q, r + 1);
  }

  lemma EvenBytes(n: int, q: int, r: int)
    requires n == 0x100 * q + r && n % 2 == 0 && 0 <= r < 0x100
    ensures r % 2 == 0 && r < 0xff
  {
  }

  lemma NotLast(entry: word32)
    requires entry % 2 == 0
    ensures Low32(entry + 1) == entry + 1
  {
  }

  class IOAPIC {
    /** The selected register, and the registers behind the data window. */
    var select: byte
    var registers: array<word32>

    ghost predicate Valid() reads this { registers.Length == 0x100 }

    /** The entry in the registers of a pair. */
    ghost function Pair(r: nat): word
      requires Valid() && r < 0xff
      reads this, registers
    {
      Joined(registers[r], registers[r + 1])
    }

    method Write(reg: word32, value: word32)
      requires Valid()
      modifies this`select, registers
      ensures registers[..] == old(registers[..])[reg % 0x100 := value]
    {
      select := reg % 0x100;
      registers[select] := value;
    }

    method Read(reg: word32) returns (value: word32)
      requires Valid()
      modifies this`select
      ensures value == registers[reg % 0x100]
    {
      select := reg % 0x100;
      value := registers[select];
    }

    method ReadRedirectionEntry(entry: word32) returns (e: RedirectionEntry)
      requires Valid()
      modifies this`select
      ensures entry % 2 != 0 ==> e == NO_ENTRY
      ensures entry % 2 == 0 ==> (0x10 + entry) % 0x100 < 0xff && e == Unpack(Pair((0x10 + entry) % 0x100))
    {
      hide Unpack;
      if entry % 2 != 0 {
        return NO_ENTRY;
      }
      EntryRegisters(entry);
      var val0 := Read(Low32(0x10 + entry));
      var val1 := Read(Low32(0x10 + Low32(entry + 1)));
      e := Unpack(Joined(val0, val1));
    }

    method WriteRedirectionEntry(entry: word32, e: RedirectionEntry)
      requires Valid() && EntryOk(e)
      modifies this`select, registers
      ensures entry % 2 != 0 ==> registers[..] == old(registers[..])
      ensures entry % 2 == 0 ==> (0x10 + entry) % 0x100 < 0xff && PairSet(old(registers[..]), (0x10 + entry) % 0x100, e)
    {
      hide Pack;
      if entry % 2 != 0 {
        return;
      }
      var value := Pack(e);
      Halves(value);
      EntryRegisters(entry);
      Write(Low32(0x10 + entry), Low32(value));
      Write(Low32(0x10 + Low32(entry + 1)), value / 0x1_0000_0000);
    }

    /** The pair at r holds e, and the other registers what they held before. */
    ghost predicate PairSet(before: seq<word32>, r: nat, e: RedirectionEntry)
      requires Valid() && r < 0xff && |before| == 0x100 && EntryOk(e)
      reads this, registers
    {
      && Pair(r) == Pack(e)
      && forall k :: 0 <= k < 0x100 && k != r && k != r + 1 ==> registers[k] == before[k]
    }

    /** The entry goes to the pair of the interrupt that the overrides make of irq;
        the other registers keep their values. */
    method CreateRedirectionEntry(e: RedirectionEntry, irq: int, isos: seq<Override>)
      requires Valid() && EntryOk(e)
      modifies this`select, registers
      ensures var r := PairOf(Redirected(isos, irq, 0, Count16(|isos|))); r < 0xff && PairSet(old(registers[..]), r, e)
    {
      var gsi := irq;
      var i := 0;
      while i < Count16(|isos|)
        invariant 0 <= i <= Count16(|isos|)
        invariant Redirected(isos, irq, 0, Count16(|isos|)) == Redirected(isos, gsi, i, Count16(|isos|))
      {
        if isos[i].source == gsi {
          gsi := Int(isos[i].gsi);
        }
        i := i + 1;
      }
      RedirectedEnds(isos, gsi, i);
      EvenEntry(gsi);
      WriteRedirectionEntry(Low32(Int(gsi * 2)), e);
    }

    /** From IRQ to register pair and back: when no later override takes the GSI irq is
        meant to be elsewhere, and that GSI has a pair of its own, the entry stands in
        that pair, no other register changes, and reading the pair gives it back. */
    method RouteInterrupt(e: RedirectionEntry, irq: int, isos: seq<Override>) returns (r: RedirectionEntry)
      requires Valid() && EntryOk(e)
      requires var n := Count16(|isos|); NoChain(isos, irq, n) && 0 <= Meant(isos, irq, n) < 120
      modifies this`select, registers
      ensures r == e
      ensures PairSet(old(registers[..]), 0x10 + 2 * Meant(isos, irq, Count16(|isos|)), e)
    {
      hide Redirected, NoChain, Meant, Pack, Unpack, PairOf, EntryOk;
      ghost var n := Count16(|isos|);
      var gsi := Meant(isos, irq, Count16(|isos|));
      NoChainAsMeant(isos, irq, n);
      PairsApart(gsi, 0);
      CreateRedirectionEntry(e, irq, isos);
      r := ReadRedirectionEntry(2 * gsi);
      UnpackAfterPack(e);
    }
  }

  lemma EvenEntry(irq: int)
    ensures Low32(Int(irq * 2)) % 2 == 0 && PairOf(irq) == (0x10 + Low32(Int(irq * 2))) % 0x100
  {
    LowOfInt(irq * 2);
    LowIsEven(irq);
  }

  lemma LowIsEven(x: int)
    ensures Low32(x * 2) % 2 == 0
  {
    var q, low := x * 2 / 0x1_0000_0000, Low32(x * 2);
    assert low == 2 * (x - 0x8000_0000 * q);
  }
}
