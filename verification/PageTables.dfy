/** 4-level page tables as they lie in memory (kernel/include/hal/vmm.hpp), the
    hardware's walk over them (Intel SDM volume 3A, section 4.5), and what the
    two kinds of update the kernel makes do to every translation. */
module PageTables {
  import opened Memory

  // Fields of an entry: Present is bit 0, RW bit 1, PageSize bit 7 and
  // PhysicalAddr bits 12 to 51.

  predicate Present(e: word) { e % 2 == 1 }
  predicate Writable(e: word) { e / 2 % 2 == 1 }
  predicate Large(e: word) { e / 0x80 % 2 == 1 }
  function Frame(e: word): nat { e / 0x1000 % 0x100_0000_0000 }

  function SetPresent(e: word): word { if Present(e) then e else e + 1 }
  function SetWritable(e: word): word { if Writable(e) then e else e + 2 }
  function SetLarge(e: word): word { if Large(e) then e else e + 0x80 }
  function SetFrame(e: word, f: nat): word {
    e % 0x1000 + f % 0x100_0000_0000 * 0x1000 + e / 0x10_0000_0000_0000 * 0x10_0000_0000_0000
  }

  lemma PresentAlone(e: word)
    ensures var x := SetPresent(e);
      x / 2 == e / 2 && Present(x) && Writable(x) == Writable(e) && Large(x) == Large(e) && Frame(x) == Frame(e)
  {
    if !Present(e) {
      assert (e + 1) / 2 == e / 2;
      DivDiv(e);
      DivDiv(e + 1);
    }
  }

  lemma WritableAlone(e: word)
    ensures var x := SetWritable(e);
      x / 4 == e / 4 && x / 2 % 2 == 1 && Writable(x) && Present(x) == Present(e) && Large(x) == Large(e) && Frame(x) == Frame(e)
  {
    var k, l := e / 4, e % 4;
    assert e == 4 * k + l;
    FourWays(k, l);
    if l < 2 { FourWays(k, l + 2); }
  }

  lemma FourWays(k: nat, l: nat)
    requires l < 4
    ensures (4 * k + l) / 4 == k && (4 * k + l) % 2 == l % 2 && (4 * k + l) / 2 % 2 == l / 2
    ensures (4 * k + l) / 0x80 == k / 0x20 && (4 * k + l) / 0x1000 == k / 0x400
  {
    assert (4 * k + l) / 2 == 2 * k + l / 2;
    EvenPart(2 * k, l);
    EvenPart(k, l / 2);
  }

  lemma LargeAlone(e: word)
    ensures var x := SetLarge(e);
      && x / 0x100 == e / 0x100 && x % 0x80 == e % 0x80
      && Large(x) && Present(x) == Present(e) && Writable(x) == Writable(e) && Frame(x) == Frame(e)
  {
    if !Large(e) {
      var k, r := e / 0x100, e % 0x100;
      assert e == 0x100 * k + r;
      assert e / 0x80 == 2 * k + r / 0x80;
      EvenPart(k, r / 0x80);
      assert r < 0x80;
      EvenPart(0x20, e / 2);
      assert (e + 0x80) / 0x80 == 2 * k + 1;
      assert (e + 0x80) / 0x100 == k;
      assert (e + 0x80) / 2 == e / 2 + 0x40;
      assert e / 0x1000 == k / 0x10 && (e + 0x80) / 0x1000 == k / 0x10;
    }
  }

  lemma DivDiv(e: word)
    ensures e / 0x80 == e / 2 / 0x40 && e / 0x1000 == e / 2 / 0x800
  {
  }

  lemma FrameAlone(e: word, f: nat)
    ensures var x := SetFrame(e, f);
      && Frame(x) == f % 0x100_0000_0000 && x % 0x1000 == e % 0x1000 && x / 0x10_0000_0000_0000 == e / 0x10_0000_0000_0000
      && Present(x) == Present(e) && Writable(x) == Writable(e) && Large(x) == Large(e)
  {
    var x, g, top := SetFrame(e, f), f % 0x100_0000_0000, e / 0x10_0000_0000_0000;
    assert x / 0x1000 == g + top * 0x100_0000_0000;
    LowBits(x / 0x1000, x % 0x1000);
    LowBits(e / 0x1000, e % 0x1000);
  }

  lemma LowBits(h: nat, l: nat)
    requires l < 0x1000
    ensures (0x1000 * h + l) % 2 == l % 2
    ensures (0x1000 * h + l) / 2 % 2 == l / 2 % 2
    ensures (0x1000 * h + l) / 0x80 % 2 == l / 0x80 % 2
  {
    var half, seventh := l / 2, l / 0x80;
    assert (0x1000 * h + l) / 2 == 2 * (0x400 * h) + half;
    assert (0x1000 * h + l) / 0x80 == 2 * (0x10 * h) + seventh;
    EvenPart(0x800 * h, l);
    EvenPart(0x400 * h, half);
    EvenPart(0x10 * h, seventh);
  }

  lemma EvenPart(k: nat, r: nat)
    ensures (2 * k + r) % 2 == r % 2
  {
  }

  // A page number (bits 12 to 47 of an address) is four 9-bit table indices.

  const PAGES: nat := 0x10_0000_0000

  function I4(page: nat): nat { page / 0x800_0000 % 512 }
  function I3(page: nat): nat { page / 0x4_0000 % 512 }
  function I2(page: nat): nat { page / 0x200 % 512 }
  function I1(page: nat): nat { page % 512 }

  lemma IndicesGivePage(page: nat)
    requires page < PAGES
    ensures page == I4(page) * 0x800_0000 + I3(page) * 0x4_0000 + I2(page) * 0x200 + I1(page)
  {
    assert page / 0x4_0000 == page / 0x200 / 512;
    assert page / 0x800_0000 == page / 0x4_0000 / 512;
    assert page / 0x800_0000 < 512;
  }

  datatype Translation = Fault | To(frame: nat)

  /** An entry as the hardware fetches it; beyond memory it reads as 0. */
  function Fetch(m: seq<byte>, table: nat, i: nat): word {
    if table + 8 * i + 8 <= |m| then Word(m, table + 8 * i) else 0
  }

  /** A large mapping of n pages: address bits below its size are reserved in
      the entry, except bit 12 (PAT), and come from the page number instead. */
  function LargeTo(frame: nat, page: nat, n: nat): Translation
    requires n > 0
  {
    if frame % n < 2 then To(frame - frame % n + page % n) else Fault
  }

  /** The hardware's 4-level walk from the table at physical address root. */
  function Walk(m: seq<byte>, root: nat, page: nat): Translation {
    var e4 := Fetch(m, root, I4(page));
    if !Present(e4) || Large(e4) then Fault else
    var e3 := Fetch(m, 0x1000 * Frame(e4), I3(page));
    if !Present(e3) then Fault else
    if Large(e3) then LargeTo(Frame(e3), page, 0x4_0000) else
    var e2 := Fetch(m, 0x1000 * Frame(e3), I2(page));
    if !Present(e2) then Fault else
    if Large(e2) then LargeTo(Frame(e2), page, 0x200) else
    var e1 := Fetch(m, 0x1000 * Frame(e2), I1(page));
    if !Present(e1) then Fault else To(Frame(e1))
  }

  /** The rights of a walk (section 4.6.1): a page can be written, and reached from
      user mode, if bit 1, and bit 2, is set in every entry used. */
  datatype Rights = Rights(write: bool, user: bool)

  function Both(r: Rights, e: word): Rights { Rights(r.write && e / 2 % 2 == 1, r.user && e / 4 % 2 == 1) }

  function WalkRights(m: seq<byte>, root: nat, page: nat): Rights {
    var e4 := Fetch(m, root, I4(page));
    var e3 := Fetch(m, 0x1000 * Frame(e4), I3(page));
    var r3 := Both(Both(Rights(true, true), e4), e3);
    if Large(e3) then r3 else
    var e2 := Fetch(m, 0x1000 * Frame(e3), I2(page));
    if Large(e2) then Both(r3, e2) else
    Both(Both(r3, e2), Fetch(m, 0x1000 * Frame(e2), I1(page)))
  }

  /** Whatever is mapped can be written by the kernel and not reached by others. */
  ghost predicate KernelOnly(m: seq<byte>, root: nat) {
    forall page: nat :: page < PAGES && Walk(m, root, page) != Fault ==> WalkRights(m, root, page) == Rights(true, false)
  }

  // The tables form a tree: a place is the index path that leads to a table.

  datatype Place = Root | Under(up: Place, index: nat)

  function Depth(p: Place): nat {
    match p
    case Root => 0
    case Under(up, _) => 1 + Depth(up)
  }

  function P3(page: nat): Place { Under(Root, I4(page)) }
  function P2(page: nat): Place { Under(P3(page), I3(page)) }
  function P1(page: nat): Place { Under(P2(page), I2(page)) }

  type Tables = map<Place, nat>

  /** What every entry reads, by the place of its table and its index. */
  type View = (Place, nat) -> word

  /** Present and writable, PageSize or not, a frame, and no other bit. */
  predicate Plain(e: word) { e == 0x1000 * Frame(e) + if Large(e) then 0x83 else 3 }

  lemma PlainRights(e: word, r: Rights)
    requires Plain(e)
    ensures Present(e) && Both(r, e) == Rights(r.write, false)
  {
    var k, low := Frame(e), if Large(e) then 0x83 else 3;
    assert e / 2 == 2 * (0x400 * k) + low / 2 && e / 4 == 2 * (0x200 * k) + low / 4;
    EvenPart(0x400 * k, low / 2);
    EvenPart(0x200 * k, low / 4);
    EvenPart(0x800 * k, low);
  }

  /** Entry i of the table at place p agrees with the tree: it leads to the
      table below it, or maps memory, or is zero. */
  ghost predicate EntryOk(v: View, tables: Tables, p: Place, i: nat) {
    && (!Present(v(p, i)) ==> v(p, i) == 0)
    && (Present(v(p, i)) ==> Plain(v(p, i)))
    && (Large(v(p, i)) ==> Depth(p) == 2)
    && (Under(p, i) in tables <==> Depth(p) < 3 && Present(v(p, i)) && !Large(v(p, i)))
    && (Under(p, i) in tables ==> tables[Under(p, i)] == 0x1000 * Frame(v(p, i)))
  }

  /** Places are index paths of at most three steps, closed under prefixes. */
  ghost predicate PlacesOk(tables: Tables) {
    && Root in tables
    && forall p :: p in tables ==> Depth(p) <= 3 && (p.Under? ==> p.up in tables && p.index < 512)
  }

  ghost predicate TreeOf(v: View, tables: Tables) {
    PlacesOk(tables) && forall p, i: nat :: p in tables && i < 512 ==> EntryOk(v, tables, p, i)
  }

  /** The translation the tree promises for a page. */
  ghost function TreeWalk(v: View, tables: Tables, page: nat): Translation {
    if P3(page) !in tables || P2(page) !in tables then Fault
    else if P1(page) in tables then
      var e := v(P1(page), I1(page));
      if Present(e) then To(Frame(e)) else Fault
    else
      var e := v(P2(page), I2(page));
      if Present(e) then LargeTo(Frame(e), page, 0x200) else Fault
  }

  lemma PathDepths(page: nat)
    ensures Depth(P3(page)) == 1 && Depth(P2(page)) == 2 && Depth(P1(page)) == 3
  {
  }

  /** Pages share their lowest table exactly when they share a 2 MiB region. */
  lemma SameTable(x: nat, y: nat)
    requires x < PAGES && y < PAGES
    ensures P1(x) == P1(y) <==> x / 512 == y / 512
    ensures P1(x) == P1(y) && I1(x) == I1(y) ==> x == y
  {
    hide I1, I2, I3, I4;
    RegionIndices(x);
    RegionIndices(y);
    IndicesGivePage(x);
    IndicesGivePage(y);
  }

  /** The upper three indices are those of the 2 MiB region. */
  lemma RegionIndices(page: nat)
    requires page < PAGES
    ensures var r := page / 512; I4(page) == r / 0x4_0000 % 512 && I3(page) == r / 0x200 % 512 && I2(page) == r % 512
    ensures page / 512 == I4(page) * 0x4_0000 + I3(page) * 0x200 + I2(page)
  {
    var r := page / 512;
    assert page / 0x4_0000 == r / 0x200 && page / 0x800_0000 == r / 0x4_0000;
    assert r / 0x4_0000 == r / 0x200 / 512 && r / 0x4_0000 < 512;
  }

  /** v' differs from v, on these tables, at most in entry i of the table at p. */
  ghost predicate DifferAt(v: View, v': View, tables: Tables, p: Place, i: nat) {
    forall x, j: nat :: x in tables && j < 512 && !(x == p && j == i) ==> v'(x, j) == v(x, j)
  }

  /** An empty table at q is hung under the absent entry i of the table at p. */
  ghost predicate Hung(v: View, v': View, tables: Tables, p: Place, i: nat, q: nat) {
    && p in tables && i < 512 && Depth(p) < 3 && !Present(v(p, i))
    && DifferAt(v, v', tables, p, i)
    && Present(v'(p, i)) && Plain(v'(p, i)) && !Large(v'(p, i)) && 0x1000 * Frame(v'(p, i)) == q
    && forall j: nat :: j < 512 ==> v'(Under(p, i), j) == 0
  }

  lemma HangKeepsTree(v: View, v': View, tables: Tables, p: Place, i: nat, q: nat)
    requires TreeOf(v, tables) && Hung(v, v', tables, p, i, q)
    ensures Under(p, i) !in tables
    ensures TreeOf(v', tables[Under(p, i) := q])
  {
    var child, tables' := Under(p, i), tables[Under(p, i) := q];
    assert EntryOk(v, tables, p, i);
    forall x, j: nat | x in tables' && j < 512
      ensures EntryOk(v', tables', x, j)
    {
      if x != child {
        assert EntryOk(v, tables, x, j);
      }
    }
  }

  ghost predicate AllSmall(v: View, tables: Tables) {
    forall p, i: nat :: p in tables && i < 512 ==> !Large(v(p, i))
  }

  lemma HangKeepsSmall(v: View, v': View, tables: Tables, p: Place, i: nat, q: nat)
    requires Hung(v, v', tables, p, i, q)
    ensures AllSmall(v, tables) ==> AllSmall(v', tables[Under(p, i) := q])
  {
  }

  /** The new table maps nothing, so no translation changes. */
  lemma HangKeepsWalks(v: View, v': View, tables: Tables, p: Place, i: nat, q: nat, page: nat)
    requires TreeOf(v, tables) && Hung(v, v', tables, p, i, q)
    ensures TreeWalk(v', tables[Under(p, i) := q], page) == TreeWalk(v, tables, page)
  {
    assert EntryOk(v, tables, p, i);
    PathDepths(page);
  }

  /** Entry i of the table at p becomes e. */
  ghost predicate EntrySet(v: View, v': View, tables: Tables, p: Place, i: nat, e: word) {
    p in tables && i < 512 && DifferAt(v, v', tables, p, i) && v'(p, i) == e && Present(e) && Plain(e)
  }

  /** Setting a leaf of a lowest-level table keeps the tree ... */
  lemma LeafKeepsTree(v: View, v': View, tables: Tables, p: Place, i: nat, e: word)
    requires TreeOf(v, tables) && EntrySet(v, v', tables, p, i, e) && Depth(p) == 3 && !Large(e)
    ensures TreeOf(v', tables)
  {
    forall x, j: nat | x in tables && j < 512
      ensures EntryOk(v', tables, x, j)
    {
      assert EntryOk(v, tables, x, j);
      assert Depth(Under(p, i)) == 4;
    }
  }

  /** ... and changes the translation of its own page only. */
  lemma LeafMapsOnePage(v: View, v': View, tables: Tables, page0: nat, e: word, page: nat)
    requires page0 < PAGES && page < PAGES && P1(page0) in tables && PlacesOk(tables)
    requires EntrySet(v, v', tables, P1(page0), I1(page0), e)
    ensures TreeWalk(v', tables, page) == if page == page0 then To(Frame(e)) else TreeWalk(v, tables, page)
  {
    SameTable(page, page0);
    PathDepths(page);
    PathDepths(page0);
  }

  /** The tree once a 2 MiB mapping has replaced whatever was below (p, i). */
  ghost function Cut(tables: Tables, p: Place, i: nat): Tables {
    tables - {Under(p, i)}
  }

  lemma LargeKeepsTree(v: View, v': View, tables: Tables, p: Place, i: nat, e: word)
    requires TreeOf(v, tables) && EntrySet(v, v', tables, p, i, e) && Depth(p) == 2 && Large(e)
    ensures TreeOf(v', Cut(tables, p, i))
  {
    var tables' := Cut(tables, p, i);
    forall x | x in tables' && x.Under?
      ensures x.up in tables'
    {
      assert Depth(Under(Under(p, i), x.index)) == 4;
    }
    forall x, j: nat | x in tables' && j < 512
      ensures EntryOk(v', tables', x, j)
    {
      assert EntryOk(v, tables, x, j);
    }
  }

  /** A 2 MiB mapping changes the translation of the 512 pages of its region. */
  lemma LargeMapsRegion(v: View, v': View, tables: Tables, page0: nat, e: word, page: nat)
    requires page0 < PAGES && page < PAGES && P2(page0) in tables && PlacesOk(tables)
    requires EntrySet(v, v', tables, P2(page0), I2(page0), e)
    ensures TreeWalk(v', Cut(tables, P2(page0), I2(page0)), page) ==
            if page / 512 == page0 / 512 then LargeTo(Frame(e), page, 0x200) else TreeWalk(v, tables, page)
  {
    SameTable(page, page0);
    PathDepths(page);
    PathDepths(page0);
  }

  // The tree as it lies in memory.

  /** One aligned frame inside memory per place. */
  ghost predicate FramesOk(tables: Tables, length: nat) {
    && (forall p :: p in tables ==> tables[p] % 0x1000 == 0 && 0 < tables[p] && tables[p] + 0x1000 <= length)
    && (forall p, q :: p in tables && q in tables && tables[p] == tables[q] ==> p == q)
  }

  ghost function Entry(m: seq<byte>, tables: Tables, p: Place, i: nat): word {
    if p in tables then Fetch(m, tables[p], i) else 0
  }

  ghost function ViewOf(m: seq<byte>, tables: Tables): View {
    (p, i) => Entry(m, tables, p, i)
  }

  ghost predicate Tree(m: seq<byte>, tables: Tables) {
    FramesOk(tables, |m|) && TreeOf(ViewOf(m, tables), tables)
  }

  /** No entry of these tables maps a 2 MiB page. */
  ghost predicate NoLarge(m: seq<byte>, tables: Tables) {
    forall p, i: nat :: p in tables && i < 512 ==> !Large(Entry(m, tables, p, i))
  }

  /** The hardware follows the tree. */
  lemma WalkFollowsTree(m: seq<byte>, tables: Tables, page: nat)
    requires Tree(m, tables)
    ensures Walk(m, tables[Root], page) == TreeWalk(ViewOf(m, tables), tables, page)
  {
    var v := ViewOf(m, tables);
    PathDepths(page);
    assert EntryOk(v, tables, Root, I4(page));
    if P3(page) in tables {
      assert EntryOk(v, tables, P3(page), I3(page));
      if P2(page) in tables {
        assert EntryOk(v, tables, P2(page), I2(page));
      }
    }
  }

  /** In a tree every mapped page is the kernel's to write. */
  lemma TreeIsKernelOnly(m: seq<byte>, tables: Tables)
    requires Tree(m, tables)
    ensures KernelOnly(m, tables[Root])
  {
    hide Fetch, Plain, Both, Frame, Large, Present, I1, I2, I3, I4;
    var v := ViewOf(m, tables);
    forall page: nat | page < PAGES && Walk(m, tables[Root], page) != Fault
      ensures WalkRights(m, tables[Root], page) == Rights(true, false)
    {
      PathRights(m, tables, page);
    }
  }

  lemma PathRights(m: seq<byte>, tables: Tables, page: nat)
    requires Tree(m, tables) && Walk(m, tables[Root], page) != Fault
    ensures WalkRights(m, tables[Root], page) == Rights(true, false)
  {
    hide Plain, Both, Frame, Large, Present;
    var v := ViewOf(m, tables);
    PathDepths(page);
    assert EntryOk(v, tables, Root, I4(page));
    assert EntryOk(v, tables, P3(page), I3(page));
    assert EntryOk(v, tables, P2(page), I2(page));
    var e4, e3, e2 := v(Root, I4(page)), v(P3(page), I3(page)), v(P2(page), I2(page));
    PlainRights(e4, Rights(true, true));
    PlainRights(e3, Rights(true, false));
    PlainRights(e2, Rights(true, false));
    if !Large(e2) {
      assert EntryOk(v, tables, P1(page), I1(page));
      PlainRights(v(P1(page), I1(page)), Rights(true, false));
    }
  }

  /** The word of a mapped 4 KiB page, wherever its table lies. */
  lemma MappedWord(m: seq<byte>, tables: Tables, page: nat)
    requires Tree(m, tables) && P1(page) in tables && Walk(m, tables[Root], page) != Fault
    ensures Walk(m, tables[Root], page).frame < 0x100_0000_0000
    ensures Entry(m, tables, P1(page), I1(page)) == 0x1000 * Walk(m, tables[Root], page).frame + 3
  {
    hide Walk, Large, Present;
    WalkFollowsTree(m, tables, page);
    PathDepths(page);
    var v := ViewOf(m, tables);
    assert EntryOk(v, tables, P1(page), I1(page));
  }

  /** No byte of a table, except the word at a, differs between m and m'. */
  ghost predicate TablesKept(m: seq<byte>, m': seq<byte>, tables: Tables, a: int) {
    |m| == |m'| && forall p :: p in tables ==> PageKept(m, m', tables[p], a)
  }

  ghost predicate PageKept(m: seq<byte>, m': seq<byte>, page: nat, a: int) {
    forall b :: page <= b < page + 0x1000 && b < |m| && b < |m'| && !(a <= b < a + 8) ==> m'[b] == m[b]
  }

  lemma SlotKept(m: seq<byte>, m': seq<byte>, table: nat, i: nat, a: int)
    requires table % 0x1000 == 0 && table + 0x1000 <= |m| == |m'| && i < 512
    requires PageKept(m, m', table, a)
    requires a % 8 == 0 && a != table + 8 * i
    ensures Fetch(m', table, i) == Fetch(m, table, i)
  {
    hide Word;
    WordsApart(table, i, a);
    WordKept(m, m', table + 8 * i);
  }

  lemma WordsApart(table: nat, i: nat, a: int)
    requires table % 0x1000 == 0 && a % 8 == 0 && a != table + 8 * i
    ensures a + 8 <= table + 8 * i || table + 8 * i + 8 <= a
  {
    var t, c := table / 0x1000, a / 8;
    assert table == 0x1000 * t && a == 8 * c;
    assert c < 0x200 * t + i || c > 0x200 * t + i;
  }

  /** Distinct entries are distinct words: a store elsewhere does not show. */
  lemma EntryKept(m: seq<byte>, m': seq<byte>, tables: Tables, a: int, p: Place, i: nat)
    requires FramesOk(tables, |m|) && TablesKept(m, m', tables, a)
    requires p in tables && i < 512
    requires a % 8 == 0 && a != tables[p] + 8 * i
    ensures Entry(m', tables, p, i) == Entry(m, tables, p, i)
  {
    SlotKept(m, m', tables[p], i, a);
  }

  lemma SlotsDistinct(t: nat, j: nat, u: nat, i: nat)
    requires t % 0x1000 == 0 && u % 0x1000 == 0 && i < 512 && j < 512
    ensures t + 8 * j == u + 8 * i ==> t == u && j == i
    ensures (u + 8 * i) % 8 == 0
  {
    var a, b := t / 0x1000, u / 0x1000;
    assert t == 0x1000 * a && u == 0x1000 * b;
    assert u + 8 * i == 8 * (0x200 * b + i);
    SameSlot(a, j, b, i);
  }

  lemma SameSlot(a: nat, j: nat, b: nat, i: nat)
    requires i < 512 && j < 512
    ensures 0x1000 * a + 8 * j == 0x1000 * b + 8 * i ==> a == b && j == i
  {
  }

  lemma EntryChanged(m: seq<byte>, m': seq<byte>, tables: Tables, p: Place, i: nat)
    requires FramesOk(tables, |m|) && p in tables && i < 512
    requires TablesKept(m, m', tables, tables[p] + 8 * i)
    ensures DifferAt(ViewOf(m, tables), ViewOf(m', tables), tables, p, i)
  {
    forall x, j: nat | x in tables && j < 512 && !(x == p && j == i)
      ensures Entry(m', tables, x, j) == Entry(m, tables, x, j)
    {
      SlotsDistinct(tables[x], j, tables[p], i);
      EntryKept(m, m', tables, tables[p] + 8 * i, x, j);
    }
  }

  lemma NoLargeInView(m: seq<byte>, tables: Tables)
    ensures NoLarge(m, tables) <==> AllSmall(ViewOf(m, tables), tables)
  {
    assert forall p, i: nat :: ViewOf(m, tables)(p, i) == Entry(m, tables, p, i);
  }

  /** Every page translates alike in m and m'. */
  ghost predicate SameWalks(m: seq<byte>, m': seq<byte>, root: nat) {
    forall page: nat :: page < PAGES ==> Walk(m', root, page) == Walk(m, root, page)
  }

  lemma SameViewsSameWalk(v: View, v': View, tables: Tables, page: nat)
    requires forall p, i: nat :: p in tables && i < 512 ==> v'(p, i) == v(p, i)
    ensures TreeWalk(v', tables, page) == TreeWalk(v, tables, page)
  {
  }

  /** Changes outside the tables change no translation. */
  lemma TreeElsewhere(m: seq<byte>, m': seq<byte>, tables: Tables)
    requires Tree(m, tables) && TablesKept(m, m', tables, -8)
    ensures Tree(m', tables) && SameWalks(m, m', tables[Root])
    ensures NoLarge(m, tables) ==> NoLarge(m', tables)
  {
    var v, v' := ViewOf(m, tables), ViewOf(m', tables);
    forall p, i: nat | p in tables && i < 512
      ensures v'(p, i) == v(p, i)
    {
      EntryKept(m, m', tables, -8, p, i);
    }
    assert forall p, i: nat :: p in tables && i < 512 ==> Entry(m', tables, p, i) == v'(p, i) == v(p, i) == Entry(m, tables, p, i);
    forall p, i: nat | p in tables && i < 512
      ensures EntryOk(v', tables, p, i)
    {
      assert EntryOk(v, tables, p, i);
    }
    forall page: nat | page < PAGES
      ensures Walk(m', tables[Root], page) == Walk(m, tables[Root], page)
    {
      WalkFollowsTree(m, tables, page);
      WalkFollowsTree(m', tables, page);
      SameViewsSameWalk(v, v', tables, page);
    }
  }

  lemma HangIsHung(m: seq<byte>, m': seq<byte>, tables: Tables, p: Place, i: nat, q: nat)
    requires FramesOk(tables, |m|) && p in tables && i < 512 && Depth(p) < 3
    requires !Present(Entry(m, tables, p, i)) && Under(p, i) !in tables
    requires q + 0x1000 <= |m|
    requires TablesKept(m, m', tables, tables[p] + 8 * i)
    requires forall b :: q <= b < q + 0x1000 && b < |m'| ==> m'[b] == 0
    requires var e := Entry(m', tables, p, i); Present(e) && Plain(e) && !Large(e) && 0x1000 * Frame(e) == q
    ensures Hung(ViewOf(m, tables), ViewOf(m', tables[Under(p, i) := q]), tables, p, i, q)
  {
    var v, w, v' := ViewOf(m, tables), ViewOf(m', tables), ViewOf(m', tables[Under(p, i) := q]);
    EntryChanged(m, m', tables, p, i);
    forall x, j: nat | x in tables && j < 512
      ensures v'(x, j) == w(x, j)
    {
    }
    ZeroBytesZeroWords(m', q, q + 0x1000);
  }

  /** A zeroed page q, hung under an absent entry, extends the tree and changes
      no translation. */
  lemma HangTable(m: seq<byte>, m': seq<byte>, tables: Tables, p: Place, i: nat, q: nat)
    requires Tree(m, tables) && p in tables && i < 512 && Depth(p) < 3
    requires !Present(Entry(m, tables, p, i))
    requires q % 0x1000 == 0 && 0 < q && q + 0x1000 <= |m| && q !in tables.Values
    requires TablesKept(m, m', tables, tables[p] + 8 * i)
    requires forall b :: q <= b < q + 0x1000 && b < |m'| ==> m'[b] == 0
    requires var e := Entry(m', tables, p, i); Present(e) && Plain(e) && !Large(e) && 0x1000 * Frame(e) == q
    ensures Under(p, i) !in tables
    ensures Tree(m', tables[Under(p, i) := q])
    ensures SameWalks(m, m', tables[Root])
    ensures NoLarge(m, tables) ==> NoLarge(m', tables[Under(p, i) := q])
  {
    var tables' := tables[Under(p, i) := q];
    var v, v' := ViewOf(m, tables), ViewOf(m', tables');
    assert EntryOk(v, tables, p, i);
    HangIsHung(m, m', tables, p, i, q);
    HangKeepsTree(v, v', tables, p, i, q);
    HangKeepsSmall(v, v', tables, p, i, q);
    NoLargeInView(m, tables);
    NoLargeInView(m', tables');
    FramesAfterHang(tables, |m|, Under(p, i), q);
    forall page: nat | page < PAGES
      ensures Walk(m', tables[Root], page) == Walk(m, tables[Root], page)
    {
      WalkFollowsTree(m, tables, page);
      WalkFollowsTree(m', tables', page);
      HangKeepsWalks(v, v', tables, p, i, q, page);
    }
  }

  lemma FramesAfterHang(tables: Tables, length: nat, p: Place, q: nat)
    requires FramesOk(tables, length) && p !in tables
    requires q % 0x1000 == 0 && 0 < q && q + 0x1000 <= length && q !in tables.Values
    ensures FramesOk(tables[p := q], length)
  {
  }

  /** Storing a 4 KiB mapping in its lowest-level table. */
  lemma StoreLeaf(m: seq<byte>, m': seq<byte>, tables: Tables, page0: nat, e: word)
    requires Tree(m, tables) && page0 < PAGES && P1(page0) in tables
    requires Present(e) && Plain(e) && !Large(e)
    requires Stored(m, m', tables[P1(page0)] + 8 * I1(page0), e)
    ensures Tree(m', tables)
    ensures NoLarge(m, tables) ==> NoLarge(m', tables)
    ensures forall page: nat :: page < PAGES ==>
              Walk(m', tables[Root], page) == if page == page0 then To(Frame(e)) else Walk(m, tables[Root], page)
  {
    var p, i := P1(page0), I1(page0);
    var v, v' := ViewOf(m, tables), ViewOf(m', tables);
    PathDepths(page0);
    assert TablesKept(m, m', tables, tables[p] + 8 * i);
    EntryChanged(m, m', tables, p, i);
    LeafKeepsTree(v, v', tables, p, i, e);
    NoLargeInView(m, tables);
    NoLargeInView(m', tables);
    forall page: nat | page < PAGES
      ensures Walk(m', tables[Root], page) == if page == page0 then To(Frame(e)) else Walk(m, tables[Root], page)
    {
      WalkFollowsTree(m, tables, page);
      WalkFollowsTree(m', tables, page);
      LeafMapsOnePage(v, v', tables, page0, e, page);
    }
  }

  lemma LargeEntrySet(m: seq<byte>, m': seq<byte>, tables: Tables, page0: nat, e: word)
    requires Tree(m, tables) && P2(page0) in tables && Present(e) && Plain(e)
    requires Stored(m, m', tables[P2(page0)] + 8 * I2(page0), e)
    ensures EntrySet(ViewOf(m, tables), ViewOf(m', tables), tables, P2(page0), I2(page0), e) && Depth(P2(page0)) == 2
  {
    hide Word, TreeOf, Present, Plain;
    PathDepths(page0);
    assert TablesKept(m, m', tables, tables[P2(page0)] + 8 * I2(page0));
    EntryChanged(m, m', tables, P2(page0), I2(page0));
  }

  lemma SameViewsSameTree(v: View, v': View, tables: Tables)
    requires TreeOf(v, tables)
    requires forall p, i: nat :: p in tables && i < 512 ==> v'(p, i) == v(p, i)
    ensures TreeOf(v', tables)
  {
    hide Frame, Present, Plain, Large;
    forall p, i: nat | p in tables && i < 512
      ensures EntryOk(v', tables, p, i)
    {
      assert EntryOk(v, tables, p, i);
    }
  }

  /** Storing a 2 MiB mapping in its level-2 table. */
  lemma StoreLarge(m: seq<byte>, m': seq<byte>, tables: Tables, page0: nat, e: word)
    requires Tree(m, tables) && page0 < PAGES && P2(page0) in tables
    requires Present(e) && Plain(e) && Large(e)
    requires Stored(m, m', tables[P2(page0)] + 8 * I2(page0), e)
    ensures Tree(m', Cut(tables, P2(page0), I2(page0)))
    ensures forall page: nat :: page < PAGES ==>
              Walk(m', tables[Root], page) ==
              if page / 512 == page0 / 512 then LargeTo(Frame(e), page, 0x200) else Walk(m, tables[Root], page)
  {
    hide Walk, TreeWalk, EntryOk, Depth, Fetch, I2, P2;
    var p, i := P2(page0), I2(page0);
    var tables' := Cut(tables, p, i);
    var v, w, v' := ViewOf(m, tables), ViewOf(m', tables), ViewOf(m', tables');
    LargeEntrySet(m, m', tables, page0, e);
    LargeKeepsTree(v, w, tables, p, i, e);
    SameViewsSameTree(w, v', tables');
    forall page: nat | page < PAGES
      ensures Walk(m', tables[Root], page) ==
              if page / 512 == page0 / 512 then LargeTo(Frame(e), page, 0x200) else Walk(m, tables[Root], page)
    {
      WalkFollowsTree(m, tables, page);
      WalkFollowsTree(m', tables', page);
      LargeMapsRegion(v, w, tables, page0, e, page);
      SameViewsSameWalk(w, v', tables', page);
    }
  }
}
