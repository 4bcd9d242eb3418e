/** Nonlinear arithmetic that several proofs share. */
module Arithmetic {

  /** The multiples of d other than 0 are at least d away from it. */
  lemma Multiples(d: int, e: int)
    requires d > 0
    ensures e >= 1 ==> d * e >= d
    ensures e <= -1 ==> d * e <= -d
  {
    if e >= 1 { assert d * (e - 1) >= 0; }
    if e <= -1 { assert d * (-e - 1) >= 0; }
  }

  /** Quotient and remainder are unique. */
  lemma Division(v: nat, d: nat, t: nat, r: nat)
    requires d > 0 && v == d * t + r && r < d
    ensures v / d == t && v % d == r
  {
    var q, r' := v / d, v % d;
    var e := t - q;
    assert d * e == r' - r by { assert d * e == d * t - d * q; }
    Multiples(d, e);
  }
}
