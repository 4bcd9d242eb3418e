/** The growing array of the kernel library (kernel/include/libs/kernel.hpp). */
module Vectors {
  import opened Memory
  import opened Options
  import opened Arithmetic

  // How the storage grows over a run.

  predicate PowerOfTwo(n: nat) {
    n > 0 && (n == 1 || (n % 2 == 0 && PowerOfTwo(n / 2)))
  }

  /** Capacity, elements held, and elements copied by reallocations so far. */
  datatype Shape = Shape(capacity: nat, count: nat, copied: nat)

  /** Drop stands for pop_back and remove; an empty vector has nothing to drop. */
  datatype Op = Push | Drop

  function AfterOp(s: Shape, op: Op): Shape {
    match op
    case Push =>
      if s.capacity == s.count then Shape(2 * s.capacity, s.count + 1, s.copied + s.capacity)
      else s.(count := s.count + 1)
    case Drop => if s.count == 0 then s else s.(count := s.count - 1)
  }

  /** The shape of a new vector after these calls. */
  function After(ops: seq<Op>): Shape {
    if |ops| == 0 then Shape(1, 0, 0) else AfterOp(After(ops[..|ops| - 1]), ops[|ops| - 1])
  }

  lemma AfterDrop(ops: seq<Op>)
    ensures After(ops + [Drop]) == AfterOp(After(ops), Drop)
  {
    assert (ops + [Drop])[..|ops|] == ops;
  }

  function Pushes(ops: seq<Op>): nat {
    if |ops| == 0 then 0 else Pushes(ops[..|ops| - 1]) + (if ops[|ops| - 1] == Push then 1 else 0)
  }

  /** In every run the capacity is a power of two that holds the elements, and all
      reallocations together copy fewer than two elements a push. */
  lemma {:induction false} FewCopies(ops: seq<Op>)
    ensures var s := After(ops);
      && PowerOfTwo(s.capacity) && s.count <= s.capacity && s.count <= Pushes(ops)
      && s.copied == s.capacity - 1
      && (Pushes(ops) > 0 ==> s.copied < 2 * Pushes(ops))
      && (s.capacity > 1 ==> s.capacity < 2 * Pushes(ops))
  {
    if |ops| > 0 {
      FewCopies(ops[..|ops| - 1]);
      assert PowerOfTwo(2 * After(ops[..|ops| - 1]).capacity);
    }
  }

  function OnlyPushes(n: nat): seq<Op> { seq(n, _ => Push) }

  /** After n pushes the capacity is the least power of two that holds them, so
      the vector is full exactly at the powers of two. */
  lemma {:induction false} FullAtPowersOfTwo(n: nat)
    requires n > 0
    ensures var s := After(OnlyPushes(n)); s.count == n && n <= s.capacity < 2 * n
    ensures After(OnlyPushes(n)).capacity == n <==> PowerOfTwo(n)
    decreases n
  {
    var ops := OnlyPushes(n);
    assert ops[..n - 1] == OnlyPushes(n - 1);
    FewCopies(ops);
    if n > 1 {
      FullAtPowersOfTwo(n - 1);
    } else {
      assert After(ops[..0]) == Shape(1, 0, 0);
    }
    if PowerOfTwo(n) {
      OnePowerBelowDouble(n, After(ops).capacity);
    }
  }

  /** Between n and 2n lies only one power of two. */
  lemma {:induction false} OnePowerBelowDouble(a: nat, b: nat)
    requires PowerOfTwo(a) && PowerOfTwo(b) && a <= b < 2 * a
    ensures a == b
    decreases a
  {
    if a > 1 { OnePowerBelowDouble(a / 2, b / 2); }
  }

  lemma AddPush(ops: seq<Op>)
    ensures After(ops + [Push]) == AfterOp(After(ops), Push)
  {
    assert (ops + [Push])[..|ops|] == ops;
  }

  lemma DropLast(ops: seq<Op>)
    ensures After(ops + [Drop]) == AfterOp(After(ops), Drop)
  {
  }

  /** What Mem::Reallocate does for a vector: the whole old block is copied, the
      rest of the new one holds anything. */
  method Reallocate<T(0)>(a: array<T>, n: nat) returns (b: array<T>)
    requires a.Length <= n
    ensures fresh(b) && b.Length == n && b[..a.Length] == a[..]
  {
    b := new T[n];
    var i := 0;
    while i < a.Length
      invariant 0 <= i <= a.Length && b[..i] == a[..i]
    {
      b[i] := a[i];
      i := i + 1;
    }
  }

  class Vector<T(0)> {
    var data: array<T>
    var capacity: nat
    var count: nat
    const elementSize: nat
    ghost var ops: seq<Op>
    ghost var copied: nat

    ghost predicate Valid() reads this {
      elementSize > 0 && data.Length == capacity && count <= capacity
      && Shape(capacity, count, copied) == After(ops)
      && elementSize * capacity < WORD_LIMIT
    }

    ghost function Contents(): seq<T>
      requires Valid()
      reads this, data
    {
      data[..count]
    }

    constructor (elementSize: nat)
      requires 0 < elementSize < WORD_LIMIT
      ensures Valid() && fresh(data) && Contents() == [] && ops == [] && this.elementSize == elementSize
    {
      data := new T[1];
      capacity, count, copied := 1, 0, 0;
      this.elementSize := elementSize;
      ops := [];
    }

    /** Appends, moving to twice the storage when full. The byte size of the new
        block must be a 64-bit number; no machine holds a larger one. */
    method PushBack(value: T)
      requires Valid()
      requires count == capacity ==> elementSize * (capacity * 2) < WORD_LIMIT
      modifies this, data
      ensures Valid() && ops == old(ops) + [Push]
      ensures Contents() == old(Contents()) + [value]
      ensures data == old(data) || fresh(data)
    {
      hide After, PowerOfTwo;
      FewCopies(ops);
      AddPush(ops);
      if capacity == count {
        AtLeastOne(elementSize, capacity * 2);
        data := Reallocate(data, Wrap(elementSize * Wrap(capacity * 2)) / elementSize);
        copied := copied + capacity;
        capacity := capacity * 2;
      }
      data[count] := value;
      count := count + 1;
      ops := ops + [Push];
    }

    /** at() panics, here None, exactly outside the capacity; past the elements it
        gives whatever the storage holds. */
    method At(index: nat) returns (r: Option<T>)
      requires Valid()
      ensures r.None? <==> index >= capacity
      ensures index < count ==> r == Some(Contents()[index])
    {
      if index < capacity {
        r := Some(data[index]);
      } else {
        r := None;
      }
    }

    /** Assigning through the reference at() returns. */
    method SetAt(index: nat, value: T) returns (ok: bool)
      requires Valid()
      modifies data
      ensures Valid() && (ok <==> index < capacity)
      ensures Contents() == if index < count then old(Contents())[index := value] else old(Contents())
    {
      ok := index < capacity;
      if ok {
        data[index] := value;
      }
    }

    /** pop_back does not look whether there is an element: the vector survives
        exactly when there was one. */
    method PopBack()
      requires Valid()
      modifies this
      ensures data == old(data)
      ensures Valid() <==> old(count) > 0
      ensures Valid() ==> Contents() == old(Contents()[..count - 1]) && ops == old(ops) + [Drop]
    {
      hide After;
      AtLeastOne(elementSize, capacity);
      AfterDrop(ops);
      count := Wrap(count - 1);
      ops := ops + [Drop];
    }

    method Size() returns (n: nat)
      requires Valid()
      ensures n == Count16(|Contents()|)
    {
      n := Count16(count);
    }

    /** remove shifts the elements down and reads one past the last: it panics
        exactly when index is no element or the storage is full. */
    method Remove(index: nat) returns (ok: bool)
      requires Valid()
      modifies this, data
      ensures Valid() && data == old(data)
      ensures ok <==> index < old(count) < capacity
      ensures ok ==> Contents() == old(Contents())[..index] + old(Contents())[index + 1..] && ops == old(ops) + [Drop]
    {
      hide After;
      ok := false;
      if index >= count {
        return;
      }
      ghost var was := Contents();
      var i := index;
      while i < count
        invariant index <= i <= count && Valid() && unchanged(this)
        invariant i == count ==> count < capacity
        invariant ShiftedTo(was, Contents(), index, i)
        modifies data
      {
        ghost var before := Contents();
        var next := At(i + 1);
        if next.None? {
          return;
        }
        var stored := SetAt(i, next.value);
        ShiftStep(was, before, Contents(), index, i, next.value);
        i := i + 1;
      }
      ShiftDone(was, Contents(), index);
      ghost var shifted := Contents();
      count := count - 1;
      DropLast(ops);
      ops := ops + [Drop];
      assert Contents() == shifted[..count];
      ok := true;
    }
  }

  /** Elements index + 1 to i have moved down by one. */
  ghost predicate ShiftedTo<T>(was: seq<T>, now: seq<T>, index: nat, i: nat) {
    && |now| == |was| && index <= i <= |was|
    && (forall j :: 0 <= j < index ==> now[j] == was[j])
    && (forall j :: index < j <= i && j < |was| ==> now[j - 1] == was[j])
    && (forall j :: i <= j < |was| ==> now[j] == was[j])
  }

  lemma ShiftStep<T>(was: seq<T>, before: seq<T>, now: seq<T>, index: nat, i: nat, next: T)
    requires ShiftedTo(was, before, index, i) && i < |was| && now == before[i := next]
    requires i + 1 < |was| ==> next == before[i + 1]
    ensures ShiftedTo(was, now, index, i + 1)
  {
  }

  lemma ShiftDone<T>(was: seq<T>, now: seq<T>, index: nat)
    requires ShiftedTo(was, now, index, |was|) && index < |was|
    ensures now[..|was| - 1] == was[..index] + was[index + 1..]
  {
  }

  lemma AtLeastOne(size: nat, n: nat)
    requires size > 0 && size * n < WORD_LIMIT
    ensures n < WORD_LIMIT && Wrap(n) == n && Wrap(size * n) / size == n
  {
    AtLeastFactor(size, n);
    SmallWraps(n);
    SmallWraps(size * n);
    QuotientOfProduct(size, n);
  }

  lemma AtLeastFactor(size: nat, n: nat)
    requires size > 0
    ensures n <= size * n
  {
  }

  lemma QuotientOfProduct(size: nat, n: nat)
    requires size > 0
    ensures size * n / size == n
  {
    Division(size * n, size, n, 0);
  }
}
