/** Sleeping on the ACPI power management timer (kernel/src/hal/acpi.cpp:111-136).
    The timer counts up without end; its register shows the low 24 or 32 bits.
    clock(k) is the true count when the register is read for the k-th time. */
module Timer {
  import opened Memory

  const RATE: nat := 3579545

  /** The ticks to wait, in 64-bit arithmetic. */
  function Target(us: word): (t: nat)
    ensures 1_000_000 * t <= Wrap(us * 3579545) < 1_000_000 * (t + 1)
  {
    Wrap(us * RATE) / 1_000_000
  }

  /** The product overflows for sleeps of 59 days and more, and then the target is
      too small. */
  lemma TargetExactly(us: word)
    ensures Target(us) == us * 3579545 / 1_000_000 <==> us * 3579545 < WORD_LIMIT
    ensures Target(us) <= us * 3579545 / 1_000_000
  {
  }

  ghost predicate Rises(clock: nat -> nat) {
    forall j: nat, k: nat :: j <= k ==> clock(j) <= clock(k)
  }

  /** The registers that ACPI allows: 24 or 32 bits. */
  predicate TimerWidth(modulus: nat) { modulus == 0x100_0000 || modulus == 0x1_0000_0000 }

  /** What inl returns at read k. */
  function Register(clock: nat -> nat, modulus: nat, k: nat): nat
    requires TimerWidth(modulus)
  {
    if modulus == 0x100_0000 then clock(k) % 0x100_0000 else clock(k) % 0x1_0000_0000
  }

  /** The difference the loop computes. */
  function Difference(now: nat, count: nat): (t: nat)
    ensures t < 0x100_0000
  {
    Wrap(now - count) % 0x100_0000
  }

  /** The loop's view of the time passed at read k. */
  function Masked(clock: nat -> nat, modulus: nat, k: nat): (t: nat)
    requires TimerWidth(modulus)
    ensures t < 0x100_0000
  {
    Difference(Register(clock, modulus, k), Register(clock, modulus, 0))
  }

  /** Whatever the start count and however often it wrapped since, the masked
      difference is the time passed modulo 2^24. */
  lemma MaskedIsElapsed(clock: nat -> nat, modulus: nat, k: nat)
    requires TimerWidth(modulus) && clock(0) <= clock(k)
    ensures Masked(clock, modulus, k) == (clock(k) - clock(0)) % 0x100_0000
  {
    var a: int, b: int := clock(k), clock(0);
    var d: int := Register(clock, modulus, k) as int - Register(clock, modulus, 0);
    if modulus == 0x100_0000 {
      SameResidue(d, a - b, b / 0x100_0000 - a / 0x100_0000);
    } else {
      SameResidue(d, a - b, 0x100 * (b / 0x1_0000_0000 - a / 0x1_0000_0000));
    }
    SameResidue(Wrap(d), d, -0x100_0000_0000 * WrapTurns(d));
  }

  function WrapTurns(x: int): (q: int)
    ensures x == 0x1_0000_0000_0000_0000 * q + Wrap(x)
  {
    x / 0x1_0000_0000_0000_0000
  }

  lemma SameResidue(x: int, y: int, q: int)
    requires x == y + 0x100_0000 * q
    ensures x % 0x100_0000 == y % 0x100_0000
  {
  }

  /** Some read after the first shows the target as reached. */
  ghost predicate Wakes(clock: nat -> nat, modulus: nat, target: nat)
    requires TimerWidth(modulus)
  {
    target == 0 || exists k: nat :: k > 0 && Masked(clock, modulus, k) >= target
  }

  /** PMTMRSleep. It fails exactly when there is no timer; otherwise it returns only
      after the target has truly elapsed. */
  method PMTMRSleep(us: word, timerLength: byte, timerBlock: nat, clock: nat -> nat, modulus: nat) returns (ok: bool, polls: nat)
    requires TimerWidth(modulus) && Rises(clock) && Wakes(clock, modulus, Target(us))
    ensures ok <==> timerLength == 4 && timerBlock != 0
    ensures ok ==> polls > 0 && clock(polls - 1) - clock(0) >= Target(us)
    ensures ok ==> forall k: nat :: 0 < k < polls - 1 ==> Masked(clock, modulus, k) < Target(us)
  {
    polls := 0;
    if timerLength != 4 || timerBlock == 0 {
      return false, 0;
    }
    hide Masked, Difference, Register, Rises, Target;
    var count := Register(clock, modulus, 0);
    polls := 1;
    var target := Target(us);
    var current := 0;
    ghost var last := if target == 0 then 0 else var k: nat :| k > 0 && Masked(clock, modulus, k) >= target; k;
    while current < target
      invariant 1 <= polls
      invariant current == if polls == 1 then 0 else Masked(clock, modulus, polls - 1)
      invariant forall k: nat :: 0 < k < polls - 1 ==> Masked(clock, modulus, k) < target
      invariant current < target ==> polls <= last
      decreases last + 1 - polls
    {
      current := Difference(Register(clock, modulus, polls), count);
      assert current == Masked(clock, modulus, polls) by { MaskedMeans(clock, modulus, polls); }
      polls := polls + 1;
    }
    WokenLate(clock, modulus, polls - 1, current, target);
    ok := true;
  }

  lemma WokenLate(clock: nat -> nat, modulus: nat, k: nat, current: nat, target: nat)
    requires TimerWidth(modulus) && Rises(clock) && current >= target
    requires current == if k == 0 then 0 else Masked(clock, modulus, k)
    ensures clock(k) - clock(0) >= target
  {
    MaskedIsElapsed(clock, modulus, k);
  }

  lemma MaskedMeans(clock: nat -> nat, modulus: nat, k: nat)
    requires TimerWidth(modulus)
    ensures Masked(clock, modulus, k) == Difference(Register(clock, modulus, k), Register(clock, modulus, 0))
  {
  }

  /** Between any two polls pass fewer than 2^24 - target ticks, and time goes on. */
  ghost predicate PolledOften(clock: nat -> nat, target: nat) {
    && (forall k: nat :: clock(k + 1) - clock(k) < 0x100_0000 - target)
    && exists k: nat :: clock(k) - clock(0) >= target
  }

  lemma PolledOftenWakes(clock: nat -> nat, modulus: nat, target: nat)
    requires TimerWidth(modulus) && Rises(clock) && target < 0x100_0000 && PolledOften(clock, target)
    ensures Wakes(clock, modulus, target)
  {
    if target > 0 {
      var k: nat :| clock(k) - clock(0) >= target;
      FirstRead(clock, modulus, target, k);
    }
  }

  lemma {:induction false} FirstRead(clock: nat -> nat, modulus: nat, target: nat, k: nat)
    requires TimerWidth(modulus) && Rises(clock) && 0 < target
    requires forall j: nat :: clock(j + 1) - clock(j) < 0x100_0000 - target
    requires clock(k) - clock(0) >= target
    ensures Wakes(clock, modulus, target)
  {
    if clock(k - 1) - clock(0) >= target {
      FirstRead(clock, modulus, target, k - 1);
    } else {
      assert clock(k - 1 + 1) - clock(k - 1) < 0x100_0000 - target;
      MaskedIsElapsed(clock, modulus, k);
      assert Masked(clock, modulus, k) >= target;
    }
  }

  /** Read at every tick, the loop ends exactly for targets below 2^24, that is for
      sleeps of at most 4686968 microseconds (or so long that the product wraps). */
  lemma SteadyClockWakes(start: nat, modulus: nat, target: nat)
    requires TimerWidth(modulus)
    ensures Wakes((k: nat) => start + k, modulus, target) <==> target < 0x100_0000
  {
    var clock := (k: nat) => start + k;
    if target < 0x100_0000 {
      assert clock(target) - clock(0) >= target;
      PolledAtEveryTick(start, modulus, target);
    }
  }

  lemma PolledAtEveryTick(start: nat, modulus: nat, target: nat)
    requires TimerWidth(modulus) && target < 0x100_0000
    ensures Wakes((k: nat) => start + k, modulus, target)
  {
    var clock := (k: nat) => start + k;
    if target > 0 {
      MaskedIsElapsed(clock, modulus, target);
      assert Masked(clock, modulus, target) >= target;
    }
  }

  lemma LongestSleep(us: word)
    requires us * 3579545 < WORD_LIMIT
    ensures Target(us) < 0x100_0000 <==> us <= 4686968
  {
  }
}
