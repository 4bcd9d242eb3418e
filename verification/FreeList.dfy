/** The free list both allocators thread through the memory it manages: each
    free block starts with the words {size, next}, and links are virtual
    addresses (physical address + the higher-half offset), null being 0. */
module FreeList {
  import opened Memory

  const HEADER: nat := 16

  /** The bytes [base, base + size) of physical memory. */
  datatype Block = Block(base: nat, size: nat) {
    function End(): nat { base + size }

    predicate Has(b: int) { base <= b < base + size }
  }

  /** The pointer to the k-th block, null past the last one. */
  function Link(blocks: seq<Block>, k: nat, off: nat): nat {
    if k < |blocks| then blocks[k].base + off else 0
  }

  /** The words {size, next} stand at base. */
  ghost predicate HeaderIs(m: seq<byte>, base: nat, size: nat, next: nat) {
    && base + HEADER <= |m|
    && Word(m, base) == size
    && Word(m, base + 8) == next
  }

  lemma HeaderKept(m: seq<byte>, m': seq<byte>, base: nat, size: nat, next: nat)
    requires HeaderIs(m, base, size, next) && |m| == |m'|
    requires SameWithin(m, m', base, base + HEADER)
    ensures HeaderIs(m', base, size, next)
  {
    WordKept(m, m', base);
    WordKept(m, m', base + 8);
  }

  /** The k-th block's header holds its size and the link to the next block. */
  ghost predicate NodeAt(m: seq<byte>, off: nat, blocks: seq<Block>, k: nat) {
    k < |blocks| && HeaderIs(m, blocks[k].base, blocks[k].size, Link(blocks, k + 1, off))
  }

  /** Following the links from head visits exactly these blocks, in this order. */
  ghost predicate Threaded(m: seq<byte>, head: nat, off: nat, blocks: seq<Block>) {
    && head == Link(blocks, 0, off)
    && forall k: nat :: k < |blocks| ==> NodeAt(m, off, blocks, k)
  }

  /** Memory determines the list: no second reading of the same links exists. */
  lemma {:induction false} ThreadedIsUnique(m: seq<byte>, head: nat, off: nat, xs: seq<Block>, ys: seq<Block>)
    requires off > 0
    requires Threaded(m, head, off, xs) && Threaded(m, head, off, ys)
    ensures xs == ys
    decreases |xs|
  {
    if |xs| > 0 {
      assert NodeAt(m, off, xs, 0);
      assert NodeAt(m, off, ys, 0);
      TailThreaded(m, head, off, xs);
      TailThreaded(m, head, off, ys);
      ThreadedIsUnique(m, Link(xs, 1, off), off, xs[1..], ys[1..]);
      assert xs == [xs[0]] + xs[1..] && ys == [ys[0]] + ys[1..];
    }
  }

  /** Unlinking the first block leaves the rest threaded from its next word. */
  lemma TailThreaded(m: seq<byte>, head: nat, off: nat, blocks: seq<Block>)
    requires Threaded(m, head, off, blocks) && |blocks| > 0
    ensures NodeAt(m, off, blocks, 0)
    ensures Threaded(m, Word(m, blocks[0].base + 8), off, blocks[1..])
  {
    assert NodeAt(m, off, blocks, 0);
    var rest := blocks[1..];
    forall k: nat | k < |rest|
      ensures NodeAt(m, off, rest, k)
    {
      assert NodeAt(m, off, blocks, k + 1);
    }
  }

  /** No header of these blocks touches [lo, hi). */
  ghost predicate HeadersOutside(lo: nat, hi: nat, blocks: seq<Block>) {
    forall k :: 0 <= k < |blocks| ==> blocks[k].base + HEADER <= lo || hi <= blocks[k].base
  }

  /** Every header of these blocks has the same bytes in m and m'. */
  ghost predicate HeadersKept(m: seq<byte>, m': seq<byte>, blocks: seq<Block>) {
    forall k :: 0 <= k < |blocks| ==> SameWithin(m, m', blocks[k].base, blocks[k].base + HEADER)
  }

  /** m' is m with the header {size, next} written at base, and nothing else changed. */
  ghost predicate HeaderWritten(m: seq<byte>, m': seq<byte>, base: nat, size: nat, next: nat) {
    SameOutside(m, m', base, base + HEADER) && HeaderIs(m', base, size, next)
  }

  /** A list survives every change that misses its headers. */
  lemma ThreadedElsewhere(m: seq<byte>, m': seq<byte>, head: nat, off: nat, blocks: seq<Block>)
    requires Threaded(m, head, off, blocks)
    requires |m| == |m'| && HeadersKept(m, m', blocks)
    ensures Threaded(m', head, off, blocks)
  {
    forall k: nat | k < |blocks|
      ensures NodeAt(m', off, blocks, k)
    {
      assert NodeAt(m, off, blocks, k);
      HeaderKept(m, m', blocks[k].base, blocks[k].size, Link(blocks, k + 1, off));
    }
  }

  /** Writing {size, head} at base pushes that block onto the list. */
  lemma PushFront(m: seq<byte>, m': seq<byte>, head: nat, off: nat, blocks: seq<Block>, base: nat, size: nat)
    requires Threaded(m, head, off, blocks)
    requires HeaderWritten(m, m', base, size, head) && HeadersOutside(base, base + HEADER, blocks)
    ensures Threaded(m', base + off, off, [Block(base, size)] + blocks)
  {
    ThreadedElsewhere(m, m', head, off, blocks);
    var bs := [Block(base, size)] + blocks;
    forall k: nat | k < |bs|
      ensures NodeAt(m', off, bs, k)
    {
      if k > 0 {
        assert NodeAt(m', off, blocks, k - 1);
      }
    }
  }

  /** blocks without the one at position k. */
  function Without(blocks: seq<Block>, k: nat): (rest: seq<Block>)
    requires k < |blocks|
    ensures |rest| == |blocks| - 1
    ensures forall i :: 0 <= i < |rest| ==> rest[i] == blocks[if i < k then i else i + 1]
  {
    blocks[..k] + blocks[k + 1..]
  }

  /** Unlinking an inner block: its predecessor takes over its next word. */
  lemma Unlink(m: seq<byte>, m': seq<byte>, head: nat, off: nat, blocks: seq<Block>, k: nat)
    requires Threaded(m, head, off, blocks)
    requires 0 < k < |blocks|
    requires HeadersOutside(blocks[k - 1].base, blocks[k - 1].base + HEADER, Without(blocks, k - 1))
    requires Stored(m, m', blocks[k - 1].base + 8, Link(blocks, k + 1, off))
    ensures Threaded(m', head, off, Without(blocks, k))
  {
    var rest := Without(blocks, k);
    forall i: nat | i < |rest|
      ensures NodeAt(m', off, rest, i)
    {
      var j := if i < k then i else i + 1;
      assert NodeAt(m, off, blocks, j);
      if i == k - 1 {
        WordKept(m, m', rest[i].base);
      } else {
        assert blocks[j] == Without(blocks, k - 1)[if j < k - 1 then j else j - 1];
        HeaderKept(m, m', rest[i].base, rest[i].size, Link(blocks, j + 1, off));
      }
      assert Link(rest, i + 1, off) == if i == k - 1 then Link(blocks, k + 1, off) else Link(blocks, j + 1, off);
    }
  }

  /** How many of the blocks contain byte b. */
  function Count(blocks: seq<Block>, b: int): nat {
    if |blocks| == 0 then 0 else (if blocks[0].Has(b) then 1 else 0) + Count(blocks[1..], b)
  }

  lemma {:induction false} CountConcat(xs: seq<Block>, ys: seq<Block>, b: int)
    ensures Count(xs + ys, b) == Count(xs, b) + Count(ys, b)
  {
    if |xs| == 0 {
      assert xs + ys == ys;
    } else {
      assert (xs + ys)[1..] == xs[1..] + ys;
      CountConcat(xs[1..], ys, b);
    }
  }

  lemma CountSplit(blocks: seq<Block>, k: nat, b: int)
    requires k < |blocks|
    ensures Count(blocks, b) == Count(Without(blocks, k), b) + (if blocks[k].Has(b) then 1 else 0)
  {
    CountConcat(blocks[..k], blocks[k + 1..], b);
    assert blocks == blocks[..k] + ([blocks[k]] + blocks[k + 1..]);
    CountConcat(blocks[..k], [blocks[k]] + blocks[k + 1..], b);
    CountConcat([blocks[k]], blocks[k + 1..], b);
  }

  lemma CountOne(blocks: seq<Block>, k: nat, b: int)
    requires k < |blocks| && blocks[k].Has(b)
    ensures Count(blocks, b) >= 1
  {
    CountSplit(blocks, k, b);
  }

  /** Two different positions holding the same byte count twice. */
  lemma CountTwo(blocks: seq<Block>, i: nat, j: nat, b: int)
    requires i < j < |blocks| && blocks[i].Has(b) && blocks[j].Has(b)
    ensures Count(blocks, b) >= 2
  {
    CountSplit(blocks, j, b);
    assert Without(blocks, j)[i] == blocks[i];
    CountOne(Without(blocks, j), i, b);
  }
}
