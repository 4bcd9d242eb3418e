/** Physical memory as bytes: 64-bit little-endian words laid over it, and the
    two copying loops of the kernel (kernel/src/mm/mem.c). */
module Memory {

  type byte = x: int | 0 <= x < 0x100
  type word = x: int | 0 <= x < 0x1_0000_0000_0000_0000

  const WORD_LIMIT: nat := 0x1_0000_0000_0000_0000

  /** Arithmetic on 64-bit words wraps around. */
  function Wrap(x: int): word { x % 0x1_0000_0000_0000_0000 }

  lemma SmallWraps(x: nat)
    requires x < WORD_LIMIT
    ensures Wrap(x) == x
  {
  }

  lemma AddWraps(x: int, y: int)
    ensures Wrap(Wrap(x) + y) == Wrap(x + y)
  {
  }

  /** A count as a uint16_t holds it. */
  function Count16(n: nat): (r: nat)
    ensures r <= n && r < 0x1_0000 && (n - r) % 0x1_0000 == 0 && (r == n <==> n < 0x1_0000)
  {
    n % 0x1_0000
  }

  function Pow256(n: nat): nat {
    if n == 0 then 1 else 256 * Pow256(n - 1)
  }

  /** The number stored little-endian in the n bytes from address a. */
  function LoadLE(m: seq<byte>, a: nat, n: nat): (x: nat)
    requires a + n <= |m|
    ensures x < Pow256(n)
    decreases n
  {
    if n == 0 then 0 else m[a] + 256 * LoadLE(m, a + 1, n - 1)
  }

  /** Memory after the low n bytes of x have been stored from address a on. */
  function StoreLE(m: seq<byte>, a: nat, n: nat, x: nat): (m': seq<byte>)
    requires a + n <= |m|
    ensures |m'| == |m|
    ensures forall i :: 0 <= i < |m| && !(a <= i < a + n) ==> m'[i] == m[i]
    decreases n
  {
    if n == 0 then m else StoreLE(m[a := x % 256], a + 1, n - 1, x / 256)
  }

  lemma {:induction false} LoadAfterStore(m: seq<byte>, a: nat, n: nat, x: nat)
    requires a + n <= |m|
    requires x < Pow256(n)
    ensures LoadLE(StoreLE(m, a, n, x), a, n) == x
    decreases n
  {
    if n > 0 {
      LoadAfterStore(m[a := x % 256], a + 1, n - 1, x / 256);
    }
  }

  lemma {:induction false} LoadDependsOnBytes(m: seq<byte>, m': seq<byte>, a: nat, n: nat)
    requires a + n <= |m| && a + n <= |m'|
    requires forall i :: a <= i < a + n ==> m[i] == m'[i]
    ensures LoadLE(m, a, n) == LoadLE(m', a, n)
    decreases n
  {
    if n > 0 {
      LoadDependsOnBytes(m, m', a + 1, n - 1);
    }
  }

  lemma {:induction false} LoadOfZeroes(m: seq<byte>, a: nat, n: nat)
    requires a + n <= |m|
    requires forall i :: a <= i < a + n ==> m[i] == 0
    ensures LoadLE(m, a, n) == 0
    decreases n
  {
    if n > 0 {
      LoadOfZeroes(m, a + 1, n - 1);
    }
  }

  /** The bytes of a word are determined by the word. */
  lemma {:induction false} LoadIsInjective(m: seq<byte>, m': seq<byte>, a: nat, n: nat)
    requires a + n <= |m| && a + n <= |m'| && LoadLE(m, a, n) == LoadLE(m', a, n)
    ensures forall i :: a <= i < a + n ==> m'[i] == m[i]
    decreases n
  {
    if n > 0 {
      var x, y := LoadLE(m, a + 1, n - 1), LoadLE(m', a + 1, n - 1);
      assert m[a] + 256 * x == m'[a] + 256 * y;
      assert x == y;
      LoadIsInjective(m, m', a + 1, n - 1);
    }
  }

  lemma EightBytesMakeAWord()
    ensures Pow256(8) == WORD_LIMIT
  {
  }

  /** The 64-bit word at address a. */
  function Word(m: seq<byte>, a: nat): word
    requires a + 8 <= |m|
  {
    EightBytesMakeAWord();
    LoadLE(m, a, 8)
  }

  /** Four bytes as a number, the lowest first. */
  function FourAsNumber(a: int, b: int, c: int, d: int): int { a + 0x100 * b + 0x1_0000 * c + 0x100_0000 * d }

  lemma LoadInBytes(m: seq<byte>, a: nat)
    requires a + 4 <= |m|
    ensures LoadLE(m, a, 4) == FourAsNumber(m[a], m[a + 1], m[a + 2], m[a + 3])
  {
    assert LoadLE(m, a + 1, 3) == m[a + 1] + 256 * LoadLE(m, a + 2, 2);
    assert LoadLE(m, a + 2, 2) == m[a + 2] + 256 * LoadLE(m, a + 3, 1);
    assert LoadLE(m, a + 3, 1) == m[a + 3] + 256 * LoadLE(m, a + 4, 0);
  }

  lemma WordInBytes(m: seq<byte>, a: nat)
    requires a + 8 <= |m|
    ensures Word(m, a) ==
            FourAsNumber(m[a], m[a + 1], m[a + 2], m[a + 3]) + 0x1_0000_0000 * FourAsNumber(m[a + 4], m[a + 5], m[a + 6], m[a + 7])
  {
    LoadInBytes(m, a + 4);
    assert LoadLE(m, a, 8) == m[a] + 256 * LoadLE(m, a + 1, 7);
    assert LoadLE(m, a + 1, 7) == m[a + 1] + 256 * LoadLE(m, a + 2, 6);
    assert LoadLE(m, a + 2, 6) == m[a + 2] + 256 * LoadLE(m, a + 3, 5);
    assert LoadLE(m, a + 3, 5) == m[a + 3] + 256 * LoadLE(m, a + 4, 4);
  }

  /** The bytes of s stand at p. */
  ghost predicate Stands(m: seq<byte>, p: nat, s: seq<byte>) {
    p + |s| <= |m| && forall i :: p <= i < p + |s| ==> m[i] == s[i - p]
  }

  lemma StandsParts(m: seq<byte>, p: nat, s: seq<byte>, t: seq<byte>)
    requires Stands(m, p, s + t)
    ensures Stands(m, p, s) && Stands(m, p + |s|, t)
  {
  }

  /** m and m' agree on every byte outside [lo, hi). */
  ghost predicate SameOutside(m: seq<byte>, m': seq<byte>, lo: int, hi: int) {
    |m| == |m'| && forall i :: 0 <= i < |m| && !(lo <= i < hi) ==> m'[i] == m[i]
  }

  /** m and m' agree on every byte of [lo, hi). */
  ghost predicate SameWithin(m: seq<byte>, m': seq<byte>, lo: nat, hi: nat) {
    forall i :: lo <= i < hi && i < |m| && i < |m'| ==> m'[i] == m[i]
  }

  lemma WordKept(m: seq<byte>, m': seq<byte>, a: nat)
    requires a + 8 <= |m| && a + 8 <= |m'|
    requires forall i :: a <= i < a + 8 ==> m'[i] == m[i]
    ensures Word(m', a) == Word(m, a)
  {
    LoadDependsOnBytes(m, m', a, 8);
  }

  /** m' is m with the word at address a replaced by x, and nothing else changed. */
  ghost predicate Stored(m: seq<byte>, m': seq<byte>, a: nat, x: nat) {
    a + 8 <= |m| && SameOutside(m, m', a, a + 8) && Word(m', a) == x
  }

  lemma ZeroBytesZeroWords(m: seq<byte>, lo: nat, hi: nat)
    requires hi <= |m|
    requires forall i :: lo <= i < hi ==> m[i] == 0
    ensures forall a: nat :: lo <= a && a + 8 <= hi ==> Word(m, a) == 0
  {
    forall a: nat | lo <= a && a + 8 <= hi
      ensures Word(m, a) == 0
    {
      LoadOfZeroes(m, a, 8);
    }
  }

  /** A 64-bit store, byte by byte. */
  method WriteWord(ram: array<byte>, a: nat, x: word)
    requires a + 8 <= ram.Length
    modifies ram
    ensures Stored(old(ram[..]), ram[..], a, x)
  {
    EightBytesMakeAWord();
    LoadAfterStore(ram[..], a, 8, x);
    var i, rest: nat := 0, x;
    while i < 8
      invariant 0 <= i <= 8
      invariant StoreLE(ram[..], a + i, 8 - i, rest) == StoreLE(old(ram[..]), a, 8, x)
    {
      ghost var before := ram[..];
      var low: byte := rest % 256;
      ram[a + i] := low;
      assert ram[..] == before[a + i := low];
      rest := rest / 256;
      i := i + 1;
    }
  }

  lemma StoreExists(m: seq<byte>, a: nat, x: nat) returns (m': seq<byte>)
    requires a + 8 <= |m| && x < WORD_LIMIT
    ensures Stored(m, m', a, x)
  {
    EightBytesMakeAWord();
    m' := StoreLE(m, a, 8, x);
    LoadAfterStore(m, a, 8, x);
  }

  /** A 64-bit load. */
  method ReadWord(ram: array<byte>, a: nat) returns (x: word)
    requires a + 8 <= ram.Length
    ensures x == Word(ram[..], a)
  {
    x := Word(ram[..], a);
  }

  /** Memory after the n bytes from d have been set to v. */
  function Filled(m: seq<byte>, d: nat, v: byte, n: nat): (m': seq<byte>)
    requires d + n <= |m|
    ensures SameOutside(m, m', d, d + n)
    ensures forall i :: d <= i < d + n ==> m'[i] == v
  {
    m[..d] + seq(n, _ => v) + m[d + n..]
  }

  /** memset: the int argument is truncated to a byte. */
  method Memset(ram: array<byte>, d: nat, val: int, n: nat)
    requires d + n <= ram.Length
    modifies ram
    ensures ram[..] == Filled(old(ram[..]), d, val % 256, n)
  {
    var i := 0;
    while i < n
      invariant 0 <= i <= n
      invariant SameOutside(old(ram[..]), ram[..], d, d + i)
      invariant forall k :: d <= k < d + i ==> ram[..][k] == val % 256
    {
      ram[d + i] := val % 256;
      i := i + 1;
    }
    ghost var goal := Filled(old(ram[..]), d, val % 256, n);
    assert forall k :: 0 <= k < |goal| ==> ram[..][k] == goal[k];
  }

  /** Memory after n bytes have been copied one at a time, lowest first. */
  function Copied(m: seq<byte>, d: nat, s: nat, n: nat): (m': seq<byte>)
    requires d + n <= |m| && s + n <= |m|
    ensures SameOutside(m, m', d, d + n)
  {
    if n == 0 then m
    else
      var m1 := Copied(m, d, s, n - 1);
      m1[d + n - 1 := m1[s + n - 1]]
  }

  method Memcpy(ram: array<byte>, d: nat, s: nat, n: nat)
    requires d + n <= ram.Length && s + n <= ram.Length
    modifies ram
    ensures ram[..] == Copied(old(ram[..]), d, s, n)
  {
    var i := 0;
    while i < n
      invariant 0 <= i <= n
      invariant ram[..] == Copied(old(ram[..]), d, s, i)
    {
      ghost var before := ram[..];
      ram[d + i] := ram[s + i];
      assert ram[..] == before[d + i := before[s + i]];
      i := i + 1;
    }
  }

  /** Copying onto lower or disjoint addresses moves the source intact. */
  lemma {:induction false} CopiedIsMove(m: seq<byte>, d: nat, s: nat, n: nat)
    requires d + n <= |m| && s + n <= |m|
    requires d <= s || s + n <= d
    ensures forall j :: d <= j < d + n ==> Copied(m, d, s, n)[j] == m[s + (j - d)]
  {
    if n > 0 {
      CopiedIsMove(m, d, s, n - 1);
    }
  }
}
