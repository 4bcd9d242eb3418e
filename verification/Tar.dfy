/** The ustar archive reader (kernel/src/obj/tar.cpp) against the ustar
    interchange format of POSIX.1-2017 (pax utility). */
module Tar {
  import opened Memory
  import opened Strings

  // Octal numerals.

  function Pow8(n: nat): nat { if n == 0 then 1 else 8 * Pow8(n - 1) }

  /** k octal digits of n, most significant first. */
  function OctalDigits(n: nat, k: nat): (ds: seq<byte>)
    ensures |ds| == k
    ensures forall i :: 0 <= i < k ==> 48 <= ds[i] < 56
  {
    if k == 0 then [] else OctalDigits(n / 8, k - 1) + [48 + n % 8]
  }

  /** What the characters from p + j to p + 10 are worth; any character counts,
      by its distance from '0'. */
  function Worth(m: seq<byte>, p: nat, j: nat): int
    requires p + 11 <= |m| && j <= 11
    decreases 11 - j
  {
    if j == 11 then 0 else (Signed(m[p + j]) - 48) * Pow8(10 - j) + Worth(m, p, j + 1)
  }

  lemma {:induction false} WorthOfDigits(m: seq<byte>, p: nat, n: nat, k: nat)
    requires p + 11 <= |m| && k <= 11 && n < Pow8(k)
    requires Stands(m, p, OctalDigits(n, k))
    ensures Worth(m, p, 0) - Worth(m, p, k) == n * Pow8(11 - k)
    decreases k
  {
    hide Stands, Signed, OctalDigits, Worth;
    if k > 0 {
      var q, r := n / 8, n % 8;
      LastDigit(m, p, n, k);
      WorthOfDigits(m, p, q, k - 1);
      WorthStep(m, p, k - 1, r);
      assert Pow8(12 - k) == 8 * Pow8(11 - k);
      Distribute(q, r, Pow8(11 - k));
    }
  }

  lemma WorthStep(m: seq<byte>, p: nat, j: nat, d: int)
    requires p + 11 <= |m| && j < 11 && Signed(m[p + j]) - 48 == d
    ensures Worth(m, p, j) == d * Pow8(10 - j) + Worth(m, p, j + 1)
  {
  }

  lemma LastDigit(m: seq<byte>, p: nat, n: nat, k: nat)
    requires k > 0 && Stands(m, p, OctalDigits(n, k))
    ensures Stands(m, p, OctalDigits(n / 8, k - 1))
    ensures Signed(m[p + (k - 1)]) - 48 == n % 8
  {
  }

  lemma Distribute(q: nat, r: nat, w: nat)
    ensures q * (8 * w) + r * w == (8 * q + r) * w
  {
  }

  /** An 11-digit octal field is worth the number written in it. */
  lemma FieldIsWorth(m: seq<byte>, p: nat, n: nat)
    requires p + 11 <= |m| && n < Pow8(11) && Stands(m, p, OctalDigits(n, 11))
    ensures Worth(m, p, 0) == n
  {
    WorthOfDigits(m, p, n, 11);
    assert Pow8(0) == 1;
  }

  lemma {:induction false} Pow8Bound(k: nat)
    requires k <= 11
    ensures 0 < Pow8(k) <= 0x2_0000_0000
  {
    assert Pow8(4) == 0x1000;
    assert Pow8(8) == 0x100_0000;
    assert Pow8(11) == 0x2_0000_0000;
    Pow8Grows(k);
  }

  lemma {:induction false} Pow8Grows(k: nat)
    requires k <= 11
    ensures 0 < Pow8(k) <= Pow8(11)
    decreases 11 - k
  {
    Pow8Positive(k);
    if k < 11 {
      Pow8Grows(k + 1);
    }
  }

  lemma {:induction false} Pow8Positive(k: nat)
    ensures Pow8(k) > 0
  {
    if k > 0 { Pow8Positive(k - 1); }
  }

  lemma WorthEnd(m: seq<byte>, p: nat)
    requires p + 11 <= |m|
    ensures Worth(m, p, 11) == 0
  {
  }

  lemma FirstPower()
    ensures Pow8(0) == 1 && Wrap(0) == 0
  {
  }

  lemma NextPower(k: nat)
    requires k < 11
    ensures Wrap(Pow8(k) * 8) == Pow8(k + 1)
  {
    Pow8Bound(k + 1);
    SmallWraps(Pow8(k + 1));
  }

  method DecodeTarNumeral(m: seq<byte>, p: nat) returns (ret: word)
    requires p + 11 <= |m|
    ensures ret == Wrap(Worth(m, p, 0))
  {
    hide Worth, Signed, Wrap, Pow8;
    ret := 0;
    WorthEnd(m, p);
    FirstPower();
    var count: word := 1;
    var j := 11;
    while j > 0
      invariant 0 <= j <= 11
      invariant j > 0 ==> count == Pow8(11 - j)
      invariant ret == Wrap(Worth(m, p, j))
    {
      var digit := Signed(m[p + (j - 1)]) - 48;
      WorthStep(m, p, j - 1, digit);
      AddWraps(Worth(m, p, j), digit * count);
      if j > 1 { NextPower(11 - j); }
      ret := Wrap(ret + digit * count);
      j := j - 1;
      count := Wrap(count * 8);
    }
  }

  // Archives.

  /** A member of an archive, with the bytes of its header the reader ignores. */
  datatype Entry = Entry(name: seq<byte>, kind: byte, data: seq<byte>, ignored: seq<byte>)

  /** Names of 1 to 100 bytes without NUL, sizes that fit 11 octal digits. */
  predicate EntryOk(e: Entry) {
    1 <= |e.name| <= 100 && 0 !in e.name && |e.data| < Pow8(11) && |e.ignored| == 512
  }

  const USTAR: seq<byte> := [0x75, 0x73, 0x74, 0x61, 0x72]

  /** Byte i of the header block. */
  function HeaderByte(e: Entry, i: nat): byte
    requires EntryOk(e) && i < 512
  {
    if i < 100 then (if i < |e.name| then e.name[i] else 0)
    else if 124 <= i < 135 then OctalDigits(|e.data|, 11)[i - 124]
    else if i == 156 then e.kind
    else if 257 <= i < 262 then USTAR[i - 257]
    else e.ignored[i]
  }

  /** Header and data take whole blocks of 512 bytes. */
  function RecordSize(size: nat): nat { 512 + (size + 511) / 512 * 512 }

  /** The archive writer: each member's header, data and padding, then two blocks
      of zeroes. */
  function Record(e: Entry): (r: seq<byte>)
    requires EntryOk(e)
    ensures |r| == RecordSize(|e.data|)
  {
    seq(RecordSize(|e.data|), i requires 0 <= i < RecordSize(|e.data|) =>
      if i < 512 then HeaderByte(e, i) else if i - 512 < |e.data| then e.data[i - 512] else 0)
  }

  /** A record piece by piece: name, size in octal, type flag, "ustar" and the bytes of no
      concern; then the data, and zeroes up to a whole block. */
  lemma RecordInPieces(e: Entry)
    requires EntryOk(e)
    ensures var r, n := Record(e), |e.name|;
      && |r| % 512 == 0 && 512 + |e.data| <= |r| < 1024 + |e.data|
      && r[..n] == e.name && (forall i :: n <= i < 100 ==> r[i] == 0) && r[100..124] == e.ignored[100..124]
      && r[124..135] == OctalDigits(|e.data|, 11) && r[135..156] == e.ignored[135..156] && r[156] == e.kind
      && r[157..257] == e.ignored[157..257] && r[262..512] == e.ignored[262..512]
      && r[257] == 'u' as int && r[258] == 's' as int && r[259] == 't' as int && r[260] == 'a' as int && r[261] == 'r' as int
      && r[512..512 + |e.data|] == e.data && (forall i :: 512 + |e.data| <= i < |r| ==> r[i] == 0)
  {
    hide OctalDigits, HeaderByte, Record, RecordSize;
    WholeBlocks(|e.data|);
    BlocksOf(e);
    forall i | 0 <= i < 512
      ensures Record(e)[i] == HeaderByte(e, i)
    {
    }
    HeaderFields(e);
    MagicBytes(e);
    assert Record(e)[124..135] == OctalDigits(|e.data|, 11);
  }

  lemma BlocksOf(e: Entry)
    requires EntryOk(e)
    ensures var r := Record(e);
      && |r| == RecordSize(|e.data|) && 512 + |e.data| <= |r|
      && (forall i :: 0 <= i < 512 ==> r[i] == HeaderByte(e, i))
      && r[512..512 + |e.data|] == e.data && (forall i :: 512 + |e.data| <= i < |r| ==> r[i] == 0)
  {
    hide HeaderByte;
    WholeBlocks(|e.data|);
  }

  lemma HeaderFields(e: Entry)
    requires EntryOk(e)
    ensures forall i :: 0 <= i < |e.name| ==> HeaderByte(e, i) == e.name[i]
    ensures forall i :: |e.name| <= i < 100 ==> HeaderByte(e, i) == 0
    ensures forall i :: 124 <= i < 135 ==> HeaderByte(e, i) == OctalDigits(|e.data|, 11)[i - 124]
    ensures forall i :: 100 <= i < 124 || 135 <= i < 156 || 157 <= i < 257 || 262 <= i < 512 ==> HeaderByte(e, i) == e.ignored[i]
    ensures HeaderByte(e, 156) == e.kind
  {
    hide OctalDigits;
  }

  lemma MagicBytes(e: Entry)
    requires EntryOk(e)
    ensures HeaderByte(e, 257) == 'u' as int && HeaderByte(e, 258) == 's' as int && HeaderByte(e, 259) == 't' as int
    ensures HeaderByte(e, 260) == 'a' as int && HeaderByte(e, 261) == 'r' as int
  {
  }

  lemma WholeBlocks(size: nat)
    ensures RecordSize(size) % 512 == 0 && 512 + size <= RecordSize(size) < 1024 + size
  {
    var k := (size + 511) / 512;
    assert RecordSize(size) == 512 * (1 + k);
  }

  /** Each octal digit is a character from '0' on. */
  lemma OctalInCharacters(n: nat, k: nat)
    requires k > 0
    ensures OctalDigits(n, k) == OctalDigits(n / 8, k - 1) + ['0' as int + n % 8]
  {
  }

  function Archive(es: seq<Entry>): seq<byte>
    requires forall k :: 0 <= k < |es| ==> EntryOk(es[k])
  {
    if |es| == 0 then seq(1024, _ => 0) else Record(es[0]) + Archive(es[1..])
  }

  /** The record of e stands at p. */
  ghost predicate RecordAt(m: seq<byte>, p: nat, e: Entry) {
    && EntryOk(e) && p + RecordSize(|e.data|) <= |m|
    && (forall i :: p <= i < p + 512 ==> m[i] == HeaderByte(e, i - p))
    && Stands(m, p + 512, e.data)
  }

  /** The records of es stand one after the other from p, then a zero block. */
  ghost predicate ArchiveAt(m: seq<byte>, p: nat, es: seq<Entry>)
    decreases |es|
  {
    if |es| == 0 then p + 512 <= |m| && forall i :: p <= i < p + 512 ==> m[i] == 0
    else RecordAt(m, p, es[0]) && ArchiveAt(m, p + RecordSize(|es[0].data|), es[1..])
  }

  /** What the writer writes is an archive, wherever it is loaded. */
  lemma {:induction false} WrittenArchive(m: seq<byte>, p: nat, es: seq<Entry>)
    requires forall k :: 0 <= k < |es| ==> EntryOk(es[k])
    requires Stands(m, p, Archive(es))
    ensures ArchiveAt(m, p, es)
    decreases |es|
  {
    hide EntryOk, Record, Stands, RecordAt, RecordSize;
    if |es| == 0 {
      ZeroBlocks(m, p);
    } else {
      StandsParts(m, p, Record(es[0]), Archive(es[1..]));
      WrittenRecord(m, p, es[0]);
      WrittenArchive(m, p + |Record(es[0])|, es[1..]);
    }
  }

  lemma ZeroBlocks(m: seq<byte>, p: nat)
    requires Stands(m, p, seq(1024, _ => 0))
    ensures p + 512 <= |m| && forall i :: p <= i < p + 512 ==> m[i] == 0
  {
  }

  lemma WrittenRecord(m: seq<byte>, p: nat, e: Entry)
    requires EntryOk(e) && Stands(m, p, Record(e))
    ensures RecordAt(m, p, e)
  {
  }

  /** Where the record of member k starts. */
  function Offset(es: seq<Entry>, k: nat): nat
    requires k <= |es|
  {
    if k == 0 then 0 else Offset(es, k - 1) + RecordSize(|es[k - 1].data|)
  }

  /** Old archives mark directories by a trailing slash; the reader drops it. */
  function Trimmed(name: seq<byte>): seq<byte> {
    if |name| > 0 && name[|name| - 1] == 0x2F then name[..|name| - 1] else name
  }

  lemma SlashDropped(name: seq<byte>)
    ensures Trimmed(name + ['/' as int]) == name
    ensures |name| == 0 || name[|name| - 1] != '/' as int ==> Trimmed(name) == name
  {
  }

  // The reader.

  /** What the reader keeps of a member: pointers into the archive, and values. */
  datatype File = File(path: nat, size: word, kind: byte, address: nat)

  predicate IsUstar(m: seq<byte>, p: nat)
    requires p + 512 <= |m|
  {
    Text(m, p + 257, 5) == Text(USTAR, 0, 5)
  }

  /** The files the first k members should give. */
  function FilesOf(p: nat, es: seq<Entry>, k: nat): seq<File>
    requires k <= |es| && forall j :: 0 <= j < |es| ==> EntryOk(es[j])
  {
    if k == 0 then []
    else
      var e, at := es[k - 1], p + Offset(es, k - 1);
      SizeIsWord(e);
      FilesOf(p, es, k - 1) + [File(at, |e.data|, e.kind, at + 512)]
  }

  lemma SizeIsWord(e: Entry)
    requires EntryOk(e)
    ensures |e.data| < WORD_LIMIT
  {
  }

  lemma {:induction false} FileAt(p: nat, es: seq<Entry>, k: nat, j: nat)
    requires j < k <= |es| && forall i :: 0 <= i < |es| ==> EntryOk(es[i])
    ensures |FilesOf(p, es, k)| == k
    ensures FilesOf(p, es, k)[j] == File(p + Offset(es, j), |es[j].data|, es[j].kind, p + Offset(es, j) + 512)
    decreases k
  {
    if k > 1 {
      FileAt(p, es, k - 1, if j < k - 1 then j else 0);
    }
  }

  /** Member j can be read back: its name, less one trailing slash, and its data. */
  ghost predicate ReadBack(m: seq<byte>, p: nat, e: Entry) {
    p + 100 <= |m| && Text(m, p, 100) == Trimmed(e.name) && Stands(m, p + 512, e.data)
  }

  ghost predicate AllReadBack(m: seq<byte>, p: nat, es: seq<Entry>, k: nat) {
    forall j: nat :: j < k && j < |es| ==> ReadBack(m, p + Offset(es, j), es[j])
  }

  lemma {:induction false} OffsetsApart(es: seq<Entry>, j: nat, k: nat)
    requires j < k <= |es|
    ensures Offset(es, j) + RecordSize(|es[j].data|) <= Offset(es, k)
    decreases k
  {
    if j < k - 1 { OffsetsApart(es, j, k - 1); }
  }

  lemma {:induction false} ArchiveDependsOnBytes(m: seq<byte>, m': seq<byte>, p: nat, es: seq<Entry>)
    requires ArchiveAt(m, p, es) && |m| == |m'|
    requires forall i :: p <= i < |m| ==> m'[i] == m[i]
    ensures ArchiveAt(m', p, es)
    decreases |es|
  {
    if |es| > 0 {
      RecordDependsOnBytes(m, m', p, es[0]);
      ArchiveDependsOnBytes(m, m', p + RecordSize(|es[0].data|), es[1..]);
    }
  }

  lemma RecordDependsOnBytes(m: seq<byte>, m': seq<byte>, p: nat, e: Entry)
    requires RecordAt(m, p, e) && |m| == |m'|
    requires forall i :: p <= i < |m| ==> m'[i] == m[i]
    ensures RecordAt(m', p, e)
  {
  }

  /** What the header of a record shows to the reader. */
  lemma RecordFields(m: seq<byte>, p: nat, e: Entry)
    requires RecordAt(m, p, e)
    ensures m[p] != 0 && Text(m, p, 100) == e.name && 1 <= |e.name| <= 100
    ensures Stands(m, p + 124, OctalDigits(|e.data|, 11)) && |e.data| < Pow8(11)
    ensures m[p + 156] == e.kind
    ensures IsUstar(m, p)
    ensures forall i :: 0 <= i < |e.name| ==> m[p + i] == e.name[i]
  {
    hide OctalDigits;
    assert e.name[0] in e.name && m[p] == e.name[0];
    forall i | 0 <= i < 100
      ensures m[p + i] == if i < |e.name| then e.name[i] else 0
    {
      assert m[p + i] == HeaderByte(e, i);
    }
    TextOfField(m, p, 100, e.name);
    assert m[p + 156] == HeaderByte(e, 156);
    MagicText(m, p, e);
  }

  lemma MagicText(m: seq<byte>, p: nat, e: Entry)
    requires RecordAt(m, p, e)
    ensures IsUstar(m, p)
  {
    forall i | 0 <= i < 5
      ensures m[p + 257 + i] == USTAR[i]
    {
      assert m[p + 257 + i] == HeaderByte(e, 257 + i);
    }
    TextOfField(m, p + 257, 5, USTAR);
    TextOfField(USTAR, 0, 5, USTAR);
  }

  /** The header of e at p after the reader has dropped a trailing slash. */
  ghost predicate Edited(m: seq<byte>, m': seq<byte>, p: nat, e: Entry)
    requires RecordAt(m, p, e)
  {
    m' == if e.name[|e.name| - 1] == 0x2F then m[p + |e.name| - 1 := 0] else m
  }

  /** Dropping the trailing slash in place. */
  lemma NameTrimmed(m: seq<byte>, m': seq<byte>, p: nat, e: Entry)
    requires RecordAt(m, p, e) && Edited(m, m', p, e)
    ensures ReadBack(m', p, e)
  {
    hide OctalDigits;
    RecordFields(m, p, e);
    var name := Trimmed(e.name);
    assert forall x :: x in name ==> x in e.name;
    if m' != m {
      forall i | 0 <= i < |name|
        ensures m'[p + i] == name[i]
      {
        assert m[p + i] == e.name[i];
      }
      TextOfField(m', p, 100, name);
    }
  }

  /** The members already read stay readable while a later header is edited. */
  lemma ReadBackStays(m: seq<byte>, m': seq<byte>, p: nat, es: seq<Entry>, k: nat, hi: int)
    requires AllReadBack(m, p, es, k) && k <= |es| && SameOutside(m, m', p + Offset(es, k), hi)
    ensures AllReadBack(m', p, es, k)
  {
    hide Text, ReadBack, Offset, RecordSize;
    forall j: nat | j < k
      ensures ReadBack(m', p + Offset(es, j), es[j])
    {
      OffsetsApart(es, j, k);
      ReadBackKept(m, m', p + Offset(es, j), es[j], p + Offset(es, k), hi);
    }
  }

  lemma ReadBackKept(m: seq<byte>, m': seq<byte>, p: nat, e: Entry, lo: int, hi: int)
    requires ReadBack(m, p, e) && SameOutside(m, m', lo, hi) && p + RecordSize(|e.data|) <= lo
    ensures ReadBack(m', p, e)
  {
    hide Text;
    TextDependsOnBytes(m, m', p, 100);
  }

  /** The size arithmetic of the reader does not wrap for sizes of 11 octal digits. */
  lemma NextHeader(size: nat)
    requires size < 0x2_0000_0000
    ensures Wrap(Wrap(size + 512) + 511) / 512 * 512 == RecordSize(size)
  {
    assert (size + 1023) / 512 == (size + 511) / 512 + 1;
  }

  /** The reader's edit touches the name field only. */
  lemma EditedBytes(m: seq<byte>, m': seq<byte>, p: nat, e: Entry)
    requires RecordAt(m, p, e) && Edited(m, m', p, e)
    ensures SameOutside(m, m', p, p + 100)
    ensures p + RecordSize(|e.data|) <= |m|
  {
  }

  /** Dropping the slash of member k leaves the members before and after it as
      they are, and makes it readable itself. */
  lemma EditKeepsOthers(m: seq<byte>, m': seq<byte>, ptr: nat, p: nat, es: seq<Entry>, k: nat)
    requires k < |es| && p == ptr + Offset(es, k) && RecordAt(m, p, es[k]) && Edited(m, m', p, es[k])
    requires ArchiveAt(m, p + RecordSize(|es[k].data|), es[k + 1..]) && AllReadBack(m, ptr, es, k)
    ensures AllReadBack(m', ptr, es, k + 1)
    ensures ArchiveAt(m', p + RecordSize(|es[k].data|), es[k + 1..])
  {
    hide RecordAt, ReadBack, ArchiveAt, Edited, Offset;
    EditedBytes(m, m', p, es[k]);
    NameTrimmed(m, m', p, es[k]);
    ReadBackStays(m, m', ptr, es, k, p + 100);
    ArchiveDependsOnBytes(m, m', p + RecordSize(|es[k].data|), es[k + 1..]);
  }

  /** The numeral and type the reader finds are those of the member. */
  lemma EditKeepsFields(m: seq<byte>, m': seq<byte>, p: nat, e: Entry)
    requires RecordAt(m, p, e) && Edited(m, m', p, e)
    ensures p + 512 <= |m'| && Wrap(Worth(m', p + 124, 0)) == |e.data| < 0x2_0000_0000
    ensures m'[p + 156] == e.kind
  {
    hide RecordAt, Edited, Text, OctalDigits, Worth, EntryOk;
    RecordFields(m, p, e);
    EditedBytes(m, m', p, e);
    Pow8Bound(11);
    FieldIsWorth(m', p + 124, |e.data|);
  }

  /** The reader's edit of one name: a slash at its end becomes a NUL. */
  method DropSlash(ram: array<byte>, header: nat, ghost e: Entry)
    requires RecordAt(ram[..], header, e)
    modifies ram
    ensures Edited(old(ram[..]), ram[..], header, e)
  {
    hide *;
    ghost var m := ram[..];
    NameReadable(m, header, e);
    var len := Strnlen(ram[..], header, 100);
    if ram[header + len - 1] == 0x2F {
      ram[header + len - 1] := 0;
    }
    EditedMeans(m, ram[..], header, e);
  }

  class TarObject {
    var files: seq<File>

    /** The constructor reads the archive at ptr and drops trailing slashes in it. */
    constructor (ram: array<byte>, ptr: nat, ghost es: seq<Entry>)
      requires ptr + 512 <= ram.Length
      requires forall k :: 0 <= k < |es| ==> EntryOk(es[k])
      requires IsUstar(ram[..], ptr) ==> ArchiveAt(ram[..], ptr, es)
      modifies ram
      ensures !old(IsUstar(ram[..], ptr)) ==> files == [] && ram[..] == old(ram[..])
      ensures old(ArchiveAt(ram[..], ptr, es)) ==> files == FilesOf(ptr, es, |es|) && AllReadBack(ram[..], ptr, es, |es|)
      ensures SameOutside(old(ram[..]), ram[..], ptr, ptr + Offset(es, |es|))
    {
      files := [];
      new;
      hide *;
      ghost var m0 := ram[..];
      MagicReadable(m0, ptr);
      var different := Strncmp(ram[..], ptr + 257, USTAR, 0, 5);
      ReadingStarts(m0, ptr, es);
      if different != 0 {
        return;
      }
      var header := ptr;
      ghost var k := 0;
      while ram[header] != 0
        invariant k <= |es| && header == ptr + Offset(es, k)
        invariant header < ram.Length && ArchiveAt(ram[..], header, es[k..])
        invariant files == FilesOf(ptr, es, k) && AllReadBack(ram[..], ptr, es, k)
        invariant SameOutside(m0, ram[..], ptr, header)
        decreases |es| - k
      {
        ghost var m := ram[..];
        MoreToRead(m, header, es, k);
        DropSlash(ram, header, es[k]);
        ghost var m1 := ram[..];
        EditKeepsFields(m, m1, header, es[k]);
        EditKeepsOthers(m, m1, ptr, header, es, k);
        EditKeepsOutside(m0, m, m1, ptr, header, es[k]);
        var size := DecodeTarNumeral(ram[..], header + 124);
        files := files + [File(header, size, ram[header + 156], header + 512)];
        FilesGrow(ptr, es, k);
        size := DecodeTarNumeral(ram[..], header + 124);
        NextHeader(size);
        header := header + Wrap(Wrap(size + 512) + 511) / 512 * 512;
        k := k + 1;
        ArchiveInside(m1, header, es[k..]);
      }
      ReadingEnds(ram[..], header, es, k);
    }

    /** The first file whose name matches path on up to 100 characters, among as
        many files as the 16-bit count says there are. */
    method Get(ram: array<byte>, path: nat) returns (f: File)
      requires path <= ram.Length && Readable(ram[..], path, 100)
      requires forall j :: 0 <= j < |files| ==> files[j].path <= ram.Length && Readable(ram[..], files[j].path, 100)
      ensures var n := Count16(|files|); var j := Search(ram[..], files, n, Text(ram[..], path, 100), 0);
        f == if j < n then files[j] else File(0, 0, 0, 0)
    {
      hide Text, Readable;
      var i := 0;
      while i < Count16(|files|)
        invariant 0 <= i <= Count16(|files|)
        invariant var n, name := Count16(|files|), Text(ram[..], path, 100);
          Search(ram[..], files, n, name, 0) == Search(ram[..], files, n, name, i)
      {
        var different := Strncmp(ram[..], files[i].path, ram[..], path, 100);
        if different == 0 {
          return files[i];
        }
        i := i + 1;
      }
      f := File(0, 0, 0, 0);
    }
  }

  lemma MagicReadable(m: seq<byte>, p: nat)
    requires p + 512 <= |m|
    ensures Readable(m, p + 257, 5) && Readable(USTAR, 0, 5) && |USTAR| == 5
    ensures IsUstar(m, p) <==> Text(m, p + 257, 5) == Text(USTAR, 0, 5)
  {
  }

  lemma ReadingStarts(m: seq<byte>, p: nat, es: seq<Entry>)
    requires p + 512 <= |m| && forall k :: 0 <= k < |es| ==> EntryOk(es[k])
    ensures Offset(es, 0) == 0 && es[0..] == es && FilesOf(p, es, 0) == [] && AllReadBack(m, p, es, 0)
    ensures SameOutside(m, m, p, p) && SameOutside(m, m, p, p + Offset(es, |es|))
    ensures ArchiveAt(m, p, es) && !IsUstar(m, p) ==> es == []
  {
    hide IsUstar, ArchiveAt, EntryOk, ReadBack, RecordSize, Text;
    if |es| > 0 && ArchiveAt(m, p, es) { FirstIsUstar(m, p, es); }
  }

  lemma FirstIsUstar(m: seq<byte>, p: nat, es: seq<Entry>)
    requires |es| > 0 && ArchiveAt(m, p, es)
    ensures p + 512 <= |m| && IsUstar(m, p)
  {
    hide Text, OctalDigits, HeaderByte;
    MagicText(m, p, es[0]);
  }

  lemma NameReadable(m: seq<byte>, p: nat, e: Entry)
    requires RecordAt(m, p, e)
    ensures p + 512 <= |m| && Readable(m, p, 100)
    ensures |Text(m, p, 100)| == |e.name| && 1 <= |e.name| <= 100
  {
    hide Text, Readable, OctalDigits;
    RecordFields(m, p, e);
    LongEnough(m, p, 100);
  }

  lemma EditedMeans(m: seq<byte>, m': seq<byte>, p: nat, e: Entry)
    requires RecordAt(m, p, e)
    requires p + |e.name| <= |m| && 1 <= |e.name|
    requires m' == if m[p + |e.name| - 1] == 0x2F then m[p + |e.name| - 1 := 0] else m
    ensures Edited(m, m', p, e)
  {
  }

  lemma EditKeepsOutside(m0: seq<byte>, m: seq<byte>, m': seq<byte>, ptr: nat, p: nat, e: Entry)
    requires RecordAt(m, p, e) && Edited(m, m', p, e) && ptr <= p && SameOutside(m0, m, ptr, p)
    ensures SameOutside(m0, m', ptr, p + RecordSize(|e.data|))
  {
  }

  lemma FilesGrow(ptr: nat, es: seq<Entry>, k: nat)
    requires k < |es| && forall j :: 0 <= j < |es| ==> EntryOk(es[j])
    ensures Offset(es, k + 1) == Offset(es, k) + RecordSize(|es[k].data|)
    ensures |es[k].data| < WORD_LIMIT
    ensures FilesOf(ptr, es, k + 1) ==
      FilesOf(ptr, es, k) + [File(ptr + Offset(es, k), |es[k].data|, es[k].kind, ptr + Offset(es, k) + 512)]
  {
    hide EntryOk;
    SizeIsWord(es[k]);
  }

  lemma MoreToRead(m: seq<byte>, p: nat, es: seq<Entry>, k: nat)
    requires k <= |es| && ArchiveAt(m, p, es[k..]) && p < |m| && m[p] != 0
    ensures k < |es| && RecordAt(m, p, es[k])
    ensures ArchiveAt(m, p + RecordSize(|es[k].data|), es[k + 1..])
  {
    hide RecordAt, RecordSize;
    if k < |es| {
      assert es[k..][0] == es[k] && es[k..][1..] == es[k + 1..];
    }
  }

  lemma ReadingEnds(m: seq<byte>, p: nat, es: seq<Entry>, k: nat)
    requires k <= |es| && ArchiveAt(m, p, es[k..]) && p < |m| && m[p] == 0
    ensures k == |es|
  {
  }

  lemma ArchiveInside(m: seq<byte>, p: nat, es: seq<Entry>)
    requires ArchiveAt(m, p, es)
    ensures p < |m|
  {
  }

  // Lookup.

  /** The first of the files from i below n with that name, or n. */
  function Search(m: seq<byte>, files: seq<File>, n: nat, name: seq<byte>, i: nat): (r: nat)
    requires i <= n <= |files|
    ensures i <= r <= n
    ensures r < n ==> Text(m, files[r].path, 100) == name
    ensures forall j :: i <= j < r ==> Text(m, files[j].path, 100) != name
    decreases n - i
  {
    if i == n || Text(m, files[i].path, 100) == name then i else Search(m, files, n, name, i + 1)
  }

  /** The first member called name, or the number of members. */
  ghost predicate FirstMember(es: seq<Entry>, name: seq<byte>, r: nat) {
    && r <= |es| && (r < |es| ==> Trimmed(es[r].name) == name)
    && forall j :: 0 <= j < r ==> Trimmed(es[j].name) != name
  }

  /** On the files of an archive, the search finds the first member with the name. */
  lemma LookupFindsMember(m: seq<byte>, p: nat, es: seq<Entry>, name: seq<byte>)
    requires AllReadBack(m, p, es, |es|) && forall k :: 0 <= k < |es| ==> EntryOk(es[k])
    requires |es| < 0x1_0000
    ensures |FilesOf(p, es, |es|)| == |es|
    ensures FirstMember(es, name, Search(m, FilesOf(p, es, |es|), Count16(|es|), name, 0))
  {
    hide FilesOf, Search, EntryOk, FirstMember, AllReadBack;
    FileCount(p, es, |es|);
    SearchFindsMember(m, p, es, name);
  }

  lemma SearchFindsMember(m: seq<byte>, p: nat, es: seq<Entry>, name: seq<byte>)
    requires AllReadBack(m, p, es, |es|) && forall k :: 0 <= k < |es| ==> EntryOk(es[k])
    requires |FilesOf(p, es, |es|)| == |es|
    ensures FirstMember(es, name, Search(m, FilesOf(p, es, |es|), |es|, name, 0))
  {
    hide Text, EntryOk, FilesOf, Trimmed, AllReadBack, Search;
    var files := FilesOf(p, es, |es|);
    var r := Search(m, files, |es|, name, 0);
    if r < |es| {
      MemberName(m, p, es, r);
    }
    forall j | 0 <= j < r
      ensures Trimmed(es[j].name) != name
    {
      MemberName(m, p, es, j);
    }
  }

  lemma MemberName(m: seq<byte>, p: nat, es: seq<Entry>, j: nat)
    requires AllReadBack(m, p, es, |es|) && forall k :: 0 <= k < |es| ==> EntryOk(es[k])
    requires j < |es|
    ensures |FilesOf(p, es, |es|)| == |es|
    ensures Text(m, FilesOf(p, es, |es|)[j].path, 100) == Trimmed(es[j].name)
  {
    hide Text, EntryOk, FilesOf, Trimmed, Offset;
    FileAt(p, es, |es|, j);
    assert ReadBack(m, p + Offset(es, j), es[j]);
  }

  lemma {:induction false} FileCount(p: nat, es: seq<Entry>, k: nat)
    requires k <= |es| && forall j :: 0 <= j < |es| ==> EntryOk(es[j])
    ensures |FilesOf(p, es, k)| == k
  {
    if k > 0 { FileCount(p, es, k - 1); }
  }

  /** Get finds every file of a list without repeated names exactly when the
      16-bit count does not cut the list short. */
  lemma EveryFileFound(m: seq<byte>, files: seq<File>)
    requires forall i, j :: 0 <= i < j < |files| ==> Text(m, files[i].path, 100) != Text(m, files[j].path, 100)
    ensures (forall j :: 0 <= j < |files| ==>
        Search(m, files, Count16(|files|), Text(m, files[j].path, 100), 0) == j < Count16(|files|))
      <==> |files| < 0x1_0000
  {
    hide Text;
    var n := Count16(|files|);
    if |files| >= 0x1_0000 {
      var last := |files| - 1;
      assert n <= last;
      assert !(Search(m, files, n, Text(m, files[last].path, 100), 0) == last < n);
    }
  }
}
