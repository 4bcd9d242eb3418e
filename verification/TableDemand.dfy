/** How many page tables mapping a range of pages needs. */
module TableDemand {
  import opened Memory
  import opened PhysicalPages
  import opened PageTables
  import opened BootMap

  /** The places of the three tables below the root on the way to a page. */
  function PathSet(page: nat): set<Place> { {P3(page), P2(page), P1(page)} }

  /** Page number h + k, which has 36 bits. */
  function Nth(h: nat, k: nat): nat { (h + k) % 0x10_0000_0000 }

  /** The places on the way to the n pages from page number h on. */
  function PathsFrom(h: nat, n: nat): set<Place> {
    if n == 0 then {} else PathsFrom(h, n - 1) + PathSet(Nth(h, n - 1))
  }

  lemma {:induction false} PathInside(h: nat, k: nat, n: nat)
    requires k < n
    ensures PathSet(Nth(h, k)) <= PathsFrom(h, n)
  {
    hide PathSet, Nth;
    if k < n - 1 { PathInside(h, k, n - 1); }
  }

  lemma {:induction false} PathsGrow(h: nat, k: nat, n: nat)
    requires k <= n
    ensures PathsFrom(h, k) <= PathsFrom(h, n)
    decreases n
  {
    hide PathSet, Nth;
    if k < n { PathsGrow(h, k, n - 1); }
  }

  /** Page numbers of consecutive pages are consecutive, wrap-around included. */
  lemma NumberAdvances(v: int, k: nat)
    ensures PageNumber(Wrap(v + 0x1000 * k)) == Nth(PageNumber(Wrap(v)), k)
  {
    NumberOfInt(v);
    NumberOfInt(v + 0x1000 * k);
    assert (v + 0x1000 * k) / 0x1000 == v / 0x1000 + k;
    AddModulo(v / 0x1000, k);
  }

  lemma NumberOfInt(x: int)
    ensures PageNumber(Wrap(x)) == x / 0x1000 % 0x10_0000_0000
  {
    var q, w := x / 0x1_0000_0000_0000_0000, Wrap(x);
    assert x == 0x1_0000_0000_0000_0000 * q + w;
    assert x / 0x1000 == 0x10_0000_0000_0000 * q + w / 0x1000;
    DropMultiples(w / 0x1000, 0x1_0000 * q);
  }

  lemma DropMultiples(x: int, q: int)
    ensures (0x10_0000_0000 * q + x) % 0x10_0000_0000 == x % 0x10_0000_0000
  {
  }

  lemma AddModulo(x: int, k: int)
    ensures (x + k) % 0x10_0000_0000 == (x % 0x10_0000_0000 + k) % 0x10_0000_0000
  {
    var q, r := x / 0x10_0000_0000, x % 0x10_0000_0000;
    assert x == 0x10_0000_0000 * q + r;
    DropMultiples(r + k, q);
  }

  // Bounds: a table serves 512, 512 * 512 or 512 * 512 * 512 pages.

  /** How many groups of d the numbers h to h + n - 1 touch. */
  function Groups(h: nat, n: nat, d: nat): int
    requires d > 0
  {
    if n == 0 then 0 else (h + n - 1) / d - h / d + 1
  }

  lemma IndicesOf(x: nat)
    ensures var p := x % 0x10_0000_0000;
      I2(p) == x / 0x200 % 512 && I3(p) == x / 0x4_0000 % 512 && I4(p) == x / 0x800_0000 % 512
  {
    var p, q := x % 0x10_0000_0000, x / 0x10_0000_0000;
    assert x == p + 0x10_0000_0000 * q;
    assert x / 0x200 == p / 0x200 + 512 * (0x4_0000 * q);
    assert x / 0x4_0000 == p / 0x4_0000 + 512 * (0x200 * q);
    assert x / 0x800_0000 == p / 0x800_0000 + 512 * q;
    DropRounds(p / 0x200, 0x4_0000 * q);
    DropRounds(p / 0x4_0000, 0x200 * q);
    DropRounds(p / 0x800_0000, q);
  }

  lemma DropRounds(x: nat, q: nat)
    ensures (x + 512 * q) % 512 == x % 512
  {
  }

  lemma CoarserGroups(x: nat, y: nat)
    ensures x / 0x200 == y / 0x200 ==> x / 0x4_0000 == y / 0x4_0000
    ensures x / 0x4_0000 == y / 0x4_0000 ==> x / 0x800_0000 == y / 0x800_0000
  {
    assert x / 0x4_0000 == x / 0x200 / 512 && y / 0x4_0000 == y / 0x200 / 512;
    assert x / 0x800_0000 == x / 0x4_0000 / 512 && y / 0x800_0000 == y / 0x4_0000 / 512;
  }

  /** Pages of one group share the table that serves it. */
  lemma SharedTables(h: nat, j: nat, k: nat)
    ensures (h + j) / 0x200 == (h + k) / 0x200 ==> P1(Nth(h, j)) == P1(Nth(h, k))
    ensures (h + j) / 0x4_0000 == (h + k) / 0x4_0000 ==> P2(Nth(h, j)) == P2(Nth(h, k))
    ensures (h + j) / 0x800_0000 == (h + k) / 0x800_0000 ==> P3(Nth(h, j)) == P3(Nth(h, k))
  {
    hide I1, I2, I3, I4;
    IndicesOf(h + j);
    IndicesOf(h + k);
    CoarserGroups(h + j, h + k);
  }

  /** Adding elements adds at most as many as are new. */
  lemma AddedSize(s: set<Place>, a: Place, b: Place, c: Place)
    ensures |s + {a, b, c}| <= |s| + (if a in s then 0 else 1) + (if b in s then 0 else 1) + (if c in s then 0 else 1)
  {
    assert s + {a, b, c} == s + {a} + {b} + {c};
    OneMore(s, a);
    OneMore(s + {a}, b);
    OneMore(s + {a} + {b}, c);
  }

  lemma OneMore(s: set<Place>, a: Place)
    ensures |s + {a}| == |s| + if a in s then 0 else 1
  {
    if a in s { assert s + {a} == s; }
  }

  lemma GroupsStep(h: nat, n: nat, d: nat)
    requires n > 0 && (d == 0x200 || d == 0x4_0000 || d == 0x800_0000)
    ensures Groups(h, n, d) >= Groups(h, n - 1, d)
    ensures n == 1 || (h + n - 1) / d != (h + n - 2) / d ==> Groups(h, n, d) >= Groups(h, n - 1, d) + 1
  {
  }

  /** A page needs a new table only when it opens a new group. */
  lemma NewTables(h: nat, n: nat)
    requires n > 0
    ensures var s, page := PathsFrom(h, n - 1), Nth(h, n - 1);
      && (P1(page) in s || n == 1 || (h + n - 1) / 0x200 != (h + n - 2) / 0x200)
      && (P2(page) in s || n == 1 || (h + n - 1) / 0x4_0000 != (h + n - 2) / 0x4_0000)
      && (P3(page) in s || n == 1 || (h + n - 1) / 0x800_0000 != (h + n - 2) / 0x800_0000)
  {
    hide P1, P2, P3, Nth;
    if n > 1 {
      SharedTables(h, n - 1, n - 2);
      PathInside(h, n - 2, n - 1);
    }
  }

  /** The tables of a range number at most one for each group of each size. */
  lemma {:induction false} TablesPerGroup(h: nat, n: nat)
    ensures |PathsFrom(h, n)| <= Groups(h, n, 0x200) + Groups(h, n, 0x4_0000) + Groups(h, n, 0x800_0000)
  {
    hide P1, P2, P3, Nth, Groups;
    if n > 0 {
      var s, page := PathsFrom(h, n - 1), Nth(h, n - 1);
      TablesPerGroup(h, n - 1);
      NewTables(h, n);
      GroupsStep(h, n, 0x200);
      GroupsStep(h, n, 0x4_0000);
      GroupsStep(h, n, 0x800_0000);
      AddedSize(s, P3(page), P2(page), P1(page));
    } else {
      NoGroups(h);
    }
  }

  lemma NoGroups(h: nat)
    ensures Groups(h, 0, 0x200) + Groups(h, 0, 0x4_0000) + Groups(h, 0, 0x800_0000) == 0
  {
  }

  /** Enough tables for n consecutive pages. */
  function TableBound(n: nat): nat { n / 0x200 + n / 0x4_0000 + n / 0x800_0000 + 6 }

  lemma TablesBounded(h: nat, n: nat)
    ensures |PathsFrom(h, n)| <= TableBound(n)
  {
    TablesPerGroup(h, n);
    GroupsBounded(h, n, 0x200);
    GroupsBounded(h, n, 0x4_0000);
    GroupsBounded(h, n, 0x800_0000);
  }

  lemma GroupsBounded(h: nat, n: nat, d: nat)
    requires d == 0x200 || d == 0x4_0000 || d == 0x800_0000
    ensures Groups(h, n, d) <= n / d + 2
  {
  }

  // The memory map.

  /** The page number an entry's first page is mapped at. */
  function FirstNumber(e: MemmapEntry, b: Bases): nat { PageNumber(VirtAt(e, 0, b)) }

  lemma EntryNumbers(e: MemmapEntry, n: nat, b: Bases)
    ensures PageNumber(VirtAt(e, n, b)) == Nth(FirstNumber(e, b), n)
  {
    hide PageNumber, Wrap;
    var shift := if e.kind.KernelAndModules? then b.kernelVirt - b.kernelPhys else b.hhdm;
    VirtIsSum(e, n, b);
    VirtIsSum(e, 0, b);
    NumberAdvances(e.base + shift, n);
  }

  lemma VirtIsSum(e: MemmapEntry, n: nat, b: Bases)
    ensures var shift := if e.kind.KernelAndModules? then b.kernelVirt - b.kernelPhys else b.hhdm;
      VirtAt(e, n, b) == Wrap(e.base + shift + 0x1000 * n)
  {
    var shift := if e.kind.KernelAndModules? then b.kernelVirt - b.kernelPhys else b.hhdm;
    AddWraps(e.base + 0x1000 * n, shift);
  }

  /** The places of the tables an entry needs; then those of entries i and up. */
  function EntryPlaces(e: MemmapEntry, b: Bases): set<Place> { PathsFrom(FirstNumber(e, b), PageCount(e)) }

  /** One page of an entry more. */
  lemma EntryStep(e: MemmapEntry, b: Bases, n: nat)
    requires n < PageCount(e)
    ensures var path, h := PathSet(PageNumber(VirtAt(e, n, b))), FirstNumber(e, b);
      path <= EntryPlaces(e, b) && PathsFrom(h, n + 1) == PathsFrom(h, n) + path
  {
    hide PageNumber, VirtAt, PathSet, PageCount;
    EntryNumbers(e, n, b);
    PathInside(FirstNumber(e, b), n, PageCount(e));
  }

  lemma EntryEnds(e: MemmapEntry, b: Bases)
    ensures PathsFrom(FirstNumber(e, b), 0) == {}
    ensures PathsFrom(FirstNumber(e, b), PageCount(e)) == EntryPlaces(e, b)
  {
  }

  function AllPlaces(entries: seq<MemmapEntry>, b: Bases, i: nat): set<Place>
    requires i <= |entries|
    decreases |entries| - i
  {
    if i == |entries| then {} else EntryPlaces(entries[i], b) + AllPlaces(entries, b, i + 1)
  }

  function BoundFor(entries: seq<MemmapEntry>, i: nat): nat
    requires i <= |entries|
    decreases |entries| - i
  {
    if i == |entries| then 0 else TableBound(PageCount(entries[i])) + BoundFor(entries, i + 1)
  }

  /** A closed form that is enough for any memory map: two tables in a thousand
      pages, and six more an entry. */
  lemma {:induction false} AllPlacesBounded(entries: seq<MemmapEntry>, b: Bases, i: nat)
    requires i <= |entries|
    ensures |AllPlaces(entries, b, i)| <= BoundFor(entries, i)
    decreases |entries| - i
  {
    hide PathsFrom, TableBound;
    if i < |entries| {
      TablesBounded(FirstNumber(entries[i], b), PageCount(entries[i]));
      AllPlacesBounded(entries, b, i + 1);
      UnionSize(EntryPlaces(entries[i], b), AllPlaces(entries, b, i + 1));
    }
  }

  lemma UnionSize(s: set<Place>, t: set<Place>)
    ensures |s + t| <= |s| + |t|
  {
    assert s + t == s + (t - s);
  }

  lemma {:induction false} RootNeedsNoPath(h: nat, n: nat)
    ensures Root !in PathsFrom(h, n)
  {
    if n > 0 { RootNeedsNoPath(h, n - 1); }
  }

  lemma {:induction false} RootNotListed(entries: seq<MemmapEntry>, b: Bases, i: nat)
    requires i <= |entries|
    ensures Root !in AllPlaces(entries, b, i)
    decreases |entries| - i
  {
    if i < |entries| {
      RootNeedsNoPath(FirstNumber(entries[i], b), PageCount(entries[i]));
      RootNotListed(entries, b, i + 1);
    }
  }

  /** How many tables of these places are still missing. */
  ghost function Owed(have: set<Place>, goal: set<Place>): nat { |goal - have| }

  /** Paying for a part of what is missing leaves the rest to pay. */
  lemma Budget(have: set<Place>, part: set<Place>, goal: set<Place>)
    requires part <= goal
    ensures Owed(have, goal) == Owed(have, part) + Owed(have + part, goal)
  {
    assert goal - have == (part - have) + (goal - (have + part));
  }

  lemma BudgetParts(have: set<Place>, part: set<Place>, rest: set<Place>)
    ensures Owed(have, part + rest) == Owed(have, part) + Owed(have + part, rest)
    ensures (have + part) + rest == have + (part + rest)
  {
    Budget(have, part, part + rest);
    assert (part + rest) - (have + part) == rest - (have + part);
  }

  lemma OweOne(have: set<Place>, p: Place, rest: set<Place>)
    requires p !in rest
    ensures Owed(have, {p} + rest) == (if p in have then 0 else 1) + Owed(have, rest)
  {
    if p in have {
      assert ({p} + rest) - have == rest - have;
    } else {
      assert ({p} + rest) - have == {p} + (rest - have);
    }
  }

  lemma NothingOwed(have: set<Place>, goal: set<Place>)
    requires goal <= have
    ensures Owed(have, goal) == 0
  {
    assert goal - have == {};
  }

  lemma AllOwed(have: set<Place>, goal: set<Place>)
    requires goal !! have
    ensures Owed(have, goal) == |goal|
  {
    assert goal - have == goal;
  }

  // Virtual windows that do not overlap, as the boot loader's numbers show it.

  /** The distance from page number a up to b, around the 36 bits. */
  function Distance(a: nat, b: nat): nat { (b - a) % 0x10_0000_0000 }

  /** No window is longer than the page numbers there are, and each begins no sooner
      after another's first page than that one ends. */
  predicate WindowsApart(entries: seq<MemmapEntry>, b: Bases) {
    && (forall i :: 0 <= i < |entries| ==> PageCount(entries[i]) <= 0x10_0000_0000)
    && (forall i, j :: 0 <= i < |entries| && 0 <= j < |entries| && i != j && PageCount(entries[j]) > 0 ==>
          PageCount(entries[i]) <= Distance(FirstNumber(entries[i], b), FirstNumber(entries[j], b)))
  }

  lemma NumbersMeet(h: nat, n: nat, g: nat, k: nat)
    requires h < 0x10_0000_0000 && g < 0x10_0000_0000 && n < 0x10_0000_0000 && k < 0x10_0000_0000
    requires Nth(h, n) == Nth(g, k)
    ensures if n >= k then n - k == Distance(h, g) else k - n == Distance(g, h)
  {
    var p, q := (h + n) / 0x10_0000_0000, (g + k) / 0x10_0000_0000;
    assert h + n == 0x10_0000_0000 * p + Nth(h, n) && g + k == 0x10_0000_0000 * q + Nth(g, k);
    if n >= k {
      DropMultiples(n - k, q - p);
    } else {
      DropMultiples(k - n, p - q);
    }
  }

  lemma NumberIsSmall(e: MemmapEntry, b: Bases)
    ensures FirstNumber(e, b) < 0x10_0000_0000
  {
  }

  /** Two listed pages with the same number are the same page. */
  lemma ListedOnce(entries: seq<MemmapEntry>, b: Bases, i: nat, n: nat, j: nat, k: nat, page: nat)
    requires WindowsApart(entries, b) && Listed(entries, b, i, n, page) && Listed(entries, b, j, k, page)
    ensures i == j && n == k
  {
    hide PageCount, FirstNumber, Nth, PageNumber, VirtAt;
    EntryNumbers(entries[i], n, b);
    EntryNumbers(entries[j], k, b);
    NumberIsSmall(entries[i], b);
    NumberIsSmall(entries[j], b);
    NumbersMeet(FirstNumber(entries[i], b), n, FirstNumber(entries[j], b), k);
  }

  /** The windows of a memory map overlap nowhere exactly if their first page numbers
      and lengths keep them apart. */
  lemma WindowsExactly(entries: seq<MemmapEntry>, b: Bases)
    ensures DisjointWindows(entries, b) <==> WindowsApart(entries, b)
  {
    hide Listed, WindowsApart;
    if WindowsApart(entries, b) {
      forall i: nat, n: nat, j: nat, k: nat, page: nat | Listed(entries, b, i, n, page) && Listed(entries, b, j, k, page)
        ensures i == j && n == k
      {
        ListedOnce(entries, b, i, n, j, k, page);
      }
    }
    if DisjointWindows(entries, b) {
      DisjointAreApart(entries, b);
    }
  }

  lemma DisjointAreApart(entries: seq<MemmapEntry>, b: Bases)
    requires DisjointWindows(entries, b)
    ensures WindowsApart(entries, b)
  {
    hide PageCount, FirstNumber, PageNumber, VirtAt;
    forall i | 0 <= i < |entries|
      ensures PageCount(entries[i]) <= 0x10_0000_0000
    {
      if PageCount(entries[i]) > 0x10_0000_0000 { FullCircle(entries, b, i); }
    }
    forall i, j | 0 <= i < |entries| && 0 <= j < |entries| && i != j && PageCount(entries[j]) > 0
      ensures PageCount(entries[i]) <= Distance(FirstNumber(entries[i], b), FirstNumber(entries[j], b))
    {
      var d := Distance(FirstNumber(entries[i], b), FirstNumber(entries[j], b));
      if d < PageCount(entries[i]) { WindowsMeet(entries, b, i, j); }
    }
  }

  /** A window that goes round: its first page comes twice. */
  lemma FullCircle(entries: seq<MemmapEntry>, b: Bases, i: nat)
    requires i < |entries| && PageCount(entries[i]) > 0x10_0000_0000
    ensures !DisjointWindows(entries, b)
  {
    hide PageCount, FirstNumber, PageNumber, VirtAt;
    var h := FirstNumber(entries[i], b);
    EntryNumbers(entries[i], 0, b);
    EntryNumbers(entries[i], 0x10_0000_0000, b);
    DropMultiples(h, 1);
    assert Listed(entries, b, i, 0, Nth(h, 0)) && Listed(entries, b, i, 0x10_0000_0000, Nth(h, 0));
  }

  lemma WindowsMeet(entries: seq<MemmapEntry>, b: Bases, i: nat, j: nat)
    requires i < |entries| && j < |entries| && i != j && PageCount(entries[j]) > 0
    requires Distance(FirstNumber(entries[i], b), FirstNumber(entries[j], b)) < PageCount(entries[i])
    ensures !DisjointWindows(entries, b)
  {
    hide PageCount, FirstNumber, PageNumber, VirtAt;
    var h, g := FirstNumber(entries[i], b), FirstNumber(entries[j], b);
    var d := Distance(h, g);
    EntryNumbers(entries[i], d, b);
    EntryNumbers(entries[j], 0, b);
    Reached(h, g);
    assert Listed(entries, b, i, d, Nth(g, 0)) && Listed(entries, b, j, 0, Nth(g, 0));
  }

  lemma Reached(h: nat, g: nat)
    ensures Nth(h, Distance(h, g)) == Nth(g, 0)
  {
    var q := (g - h) / 0x10_0000_0000;
    assert g - h == 0x10_0000_0000 * q + Distance(h, g);
    DropMultiples(h + Distance(h, g), q);
  }
}
