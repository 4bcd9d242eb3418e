/** System description tables as firmware writes them (section 5.2.6 of ACPI 6.5): a
    signature of four bytes, the length of the whole in four, lowest first, the rest. */
module AcpiFormat {
  import opened Memory

  function FourBytes(n: nat): (bytes: seq<byte>)
    requires n < 0x1_0000_0000
    ensures |bytes| == 4
  {
    [n % 0x100, n / 0x100 % 0x100, n / 0x1_0000 % 0x100, n / 0x100_0000]
  }

  /** The header takes 36 bytes in all. */
  predicate TableOk(signature: seq<byte>, rest: seq<byte>) {
    |signature| == 4 && 28 <= |rest| && 8 + |rest| < 0x1_0000_0000
  }

  function TableBytes(signature: seq<byte>, rest: seq<byte>): (bytes: seq<byte>)
    requires TableOk(signature, rest)
    ensures |bytes| == 8 + |rest|
  {
    signature + FourBytes(8 + |rest|) + rest
  }

  lemma FourBytesAdd(n: nat)
    requires n < 0x1_0000_0000
    ensures var b := FourBytes(n); FourAsNumber(b[0], b[1], b[2], b[3]) == n
  {
    NextByte(n, 0x100);
    NextByte(n, 0x1_0000);
  }

  lemma NextByte(n: nat, d: nat)
    requires d == 0x100 || d == 0x1_0000
    ensures n / d == 0x100 * (n / (0x100 * d)) + n / d % 0x100
  {
    if d == 0x100 {
      assert n / 0x1_0000 == n / 0x100 / 0x100;
    } else {
      assert n / 0x100_0000 == n / 0x1_0000 / 0x100;
    }
  }

  /** The length field of a written table is its number of bytes. */
  lemma LengthField(m: seq<byte>, p: nat, signature: seq<byte>, rest: seq<byte>)
    requires TableOk(signature, rest) && Stands(m, p, TableBytes(signature, rest))
    ensures LoadLE(m, p + 4, 4) == 8 + |rest|
  {
    hide FourBytes, LoadLE;
    var bytes, n := TableBytes(signature, rest), FourBytes(8 + |rest|);
    assert forall i :: 0 <= i < 4 ==> bytes[4 + i] == n[i];
    var q := p + 4;
    forall i | q <= i < q + 4
      ensures m[i] == n[i - q]
    {
      assert m[i] == bytes[i - p];
    }
    LoadInBytes(m, p + 4);
    FourBytesAdd(8 + |rest|);
  }
}
