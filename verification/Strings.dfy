/** The C string loops the tar parser rests on (kernel/src/libs/string.c). */
module Strings {
  import opened Memory

  /** A char is signed on this target. */
  function Signed(b: byte): (c: int)
    ensures -0x80 <= c < 0x80 && (c == b || c == b - 0x100)
  {
    if b < 0x80 then b else b - 0x100
  }

  /** The bytes of the string at p: up to n of them, ending before a NUL. */
  function Text(m: seq<byte>, p: nat, n: nat): (t: seq<byte>)
    ensures |t| <= n
    decreases n
  {
    if n == 0 || p >= |m| || m[p] == 0 then [] else [m[p]] + Text(m, p + 1, n - 1)
  }

  /** Reading n characters of the string at p meets a NUL before memory ends. */
  predicate Readable(m: seq<byte>, p: nat, n: nat)
    decreases n
  {
    n == 0 || (p < |m| && (m[p] == 0 || Readable(m, p + 1, n - 1)))
  }

  lemma {:induction false} LongEnough(m: seq<byte>, p: nat, n: nat)
    requires p + n <= |m|
    ensures Readable(m, p, n)
    decreases n
  {
    if n > 0 { LongEnough(m, p + 1, n - 1); }
  }

  lemma {:induction false} TextDependsOnBytes(m: seq<byte>, m': seq<byte>, p: nat, n: nat)
    requires p + n <= |m| && p + n <= |m'|
    requires forall i :: p <= i < p + n ==> m'[i] == m[i]
    ensures Text(m', p, n) == Text(m, p, n)
    decreases n
  {
    if n > 0 { TextDependsOnBytes(m, m', p + 1, n - 1); }
  }

  /** A name in a field padded with NULs reads back as itself. */
  lemma {:induction false} TextOfField(m: seq<byte>, p: nat, n: nat, name: seq<byte>)
    requires p + n <= |m| && |name| <= n && 0 !in name
    requires forall i :: 0 <= i < |name| ==> m[p + i] == name[i]
    requires |name| < n ==> m[p + |name|] == 0
    ensures Text(m, p, n) == name
    decreases n
  {
    if |name| > 0 {
      assert m[p] == m[p + 0] == name[0];
      assert name[0] in name;
      var rest := name[1..];
      assert forall i :: 0 <= i < |rest| ==> m[p + 1 + i] == m[p + (i + 1)] == rest[i];
      assert 0 !in rest;
      TextOfField(m, p + 1, n - 1, rest);
      assert name == [name[0]] + rest;
    } else if n > 0 {
      assert m[p] == m[p + 0] == 0;
    }
  }

  /** The two strings have the same first k characters. */
  ghost predicate Alike(m1: seq<byte>, p1: nat, m2: seq<byte>, p2: nat, k: nat) {
    forall j: nat :: j < k ==> SameChar(m1, p1, m2, p2, j)
  }

  predicate SameChar(m1: seq<byte>, p1: nat, m2: seq<byte>, p2: nat, j: nat) {
    p1 + j < |m1| && p2 + j < |m2| && m1[p1 + j] == m2[p2 + j]
  }

  /** They first differ at character k, by r. */
  ghost predicate DifferBy(m1: seq<byte>, p1: nat, m2: seq<byte>, p2: nat, k: nat, r: int) {
    Alike(m1, p1, m2, p2, k) && p1 + k < |m1| && p2 + k < |m2| && r == Signed(m1[p1 + k]) - Signed(m2[p2 + k])
  }

  /** strncmp: zero exactly for strings alike in their first n characters, else
      the difference of the first characters that differ. */
  method Strncmp(m1: seq<byte>, p1: nat, m2: seq<byte>, p2: nat, n: nat) returns (r: int)
    requires p1 <= |m1| && p2 <= |m2| && Readable(m1, p1, n) && Readable(m2, p2, n)
    ensures r == 0 <==> Text(m1, p1, n) == Text(m2, p2, n)
    ensures r != 0 ==> exists k: nat :: k < n && DifferBy(m1, p1, m2, p2, k, r)
  {
    hide Text, Readable, Alike;
    NothingRead(m1, p1, m2, p2);
    var i := 0;
    ghost var same := Text(m1, p1, n) == Text(m2, p2, n);
    ReadableHere(m1, p1, n);
    ReadableHere(m2, p2, n);
    while i != n && m1[p1 + i] != 0 && m1[p1 + i] == m2[p2 + i]
      invariant 0 <= i <= n && Readable(m1, p1 + i, n - i) && Readable(m2, p2 + i, n - i)
      invariant i < n ==> p1 + i < |m1| && p2 + i < |m2|
      invariant Alike(m1, p1, m2, p2, i)
      invariant same <==> Text(m1, p1 + i, n - i) == Text(m2, p2 + i, n - i)
    {
      ReadableHere(m1, p1 + i, n - i);
      ReadableHere(m2, p2 + i, n - i);
      SameFirst(m1, p1 + i, m2, p2 + i, n - i);
      OneMoreAlike(m1, p1, m2, p2, i);
      i := i + 1;
      ReadableHere(m1, p1 + i, n - i);
      ReadableHere(m2, p2 + i, n - i);
    }
    if i == n {
      NothingRead(m1, p1 + i, m2, p2 + i);
      return 0;
    }
    r := Signed(m1[p1 + i]) - Signed(m2[p2 + i]);
    assert DifferBy(m1, p1, m2, p2, i, r);
    FirstsDecide(m1, p1 + i, m2, p2 + i, n - i);
  }

  lemma NothingRead(m1: seq<byte>, p1: nat, m2: seq<byte>, p2: nat)
    ensures Text(m1, p1, 0) == Text(m2, p2, 0) && Alike(m1, p1, m2, p2, 0)
  {
  }

  lemma OneMoreAlike(m1: seq<byte>, p1: nat, m2: seq<byte>, p2: nat, k: nat)
    requires Alike(m1, p1, m2, p2, k) && SameChar(m1, p1, m2, p2, k)
    ensures Alike(m1, p1, m2, p2, k + 1)
  {
  }

  /** What being readable says of the next character. */
  lemma ReadableHere(m: seq<byte>, p: nat, n: nat)
    requires Readable(m, p, n)
    ensures n > 0 ==> p < |m| && (m[p] != 0 ==> Readable(m, p + 1, n - 1))
  {
  }

  lemma SameFirst(m1: seq<byte>, p1: nat, m2: seq<byte>, p2: nat, n: nat)
    requires n > 0 && p1 < |m1| && p2 < |m2| && m1[p1] == m2[p2] != 0
    ensures Text(m1, p1, n) == Text(m2, p2, n) <==> Text(m1, p1 + 1, n - 1) == Text(m2, p2 + 1, n - 1)
  {
    var t1, t2 := Text(m1, p1 + 1, n - 1), Text(m2, p2 + 1, n - 1);
    assert ([m1[p1]] + t1)[1..] == t1 && ([m2[p2]] + t2)[1..] == t2;
  }

  /** Where the loop stops before n characters: the strings are alike exactly if both
      end here. */
  lemma FirstsDecide(m1: seq<byte>, p1: nat, m2: seq<byte>, p2: nat, n: nat)
    requires n > 0 && p1 < |m1| && p2 < |m2| && (m1[p1] == 0 || m1[p1] != m2[p2])
    ensures Text(m1, p1, n) == Text(m2, p2, n) <==> Signed(m1[p1]) - Signed(m2[p2]) == 0
  {
    var t1, t2 := Text(m1, p1, n), Text(m2, p2, n);
    if m1[p1] != 0 { assert t1[0] == m1[p1]; }
    if m2[p2] != 0 { assert t2[0] == m2[p2]; }
  }

  method Strnlen(m: seq<byte>, p: nat, n: nat) returns (r: nat)
    requires Readable(m, p, n)
    ensures r == |Text(m, p, n)|
  {
    var i := 0;
    while i < n && m[p + i] != 0
      invariant 0 <= i <= n && Readable(m, p + i, n - i)
      invariant |Text(m, p, n)| == i + |Text(m, p + i, n - i)|
    {
      i := i + 1;
    }
    r := i;
  }
}
