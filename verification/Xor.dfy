/**
 Exclusive or of two's-complement integers of any size, and the two identities that
 constant synthesis relies on.
 */
module Xor {
  import opened Words

  /** Bits still to be consumed before a number is all zeros or all ones. */
  function Magnitude(x: int): nat {
    if x >= 0 then x else -x - 1
  }

  function XorInt(a: int, b: int): int
    decreases Magnitude(a) + Magnitude(b)
  {
    if Magnitude(a) + Magnitude(b) == 0 then (if a == b then 0 else -1)
    else 2 * XorInt(a / 2, b / 2) + (if a % 2 == b % 2 then 0 else 1)
  }

  lemma {:induction false} XorZero(a: int)
    ensures XorInt(a, 0) == a
    decreases Magnitude(a)
  {
    if Magnitude(a) > 0 {
      XorZero(a / 2);
    }
  }

  lemma {:induction false} XorOnes(a: int)
    ensures XorInt(a, -1) == -a - 1
    decreases Magnitude(a)
  {
    if Magnitude(a) > 0 {
      XorOnes(a / 2);
    }
  }

  /** `x` shifted left by `k`. */
  function Shifted(x: int, k: nat): int {
    if k == 0 then x else 2 * Shifted(x, k - 1)
  }

  lemma {:induction false} ShiftedIs(x: int, k: nat)
    ensures Shifted(x, k) == x * Pow2(k)
  {
    if k > 0 {
      ShiftedIs(x, k - 1);
    }
  }

  lemma {:induction false} ShiftedSum(x: int, j: nat, k: nat)
    ensures Shifted(x, j + k) == Shifted(Shifted(x, j), k)
  {
    if k > 0 {
      ShiftedSum(x, j, k - 1);
    }
  }

  /** XOR of a number with `k` low zero bits and a small one: concatenation, with the upper part
      inverted if the small number is negative. */
  lemma {:induction false} XorSplit(hi: int, k: nat, d: int)
    requires -(Pow2(k) as int) <= d < Pow2(k)
    ensures XorInt(Shifted(hi, k), d) == if d >= 0 then Shifted(hi, k) + d else Shifted(-hi - 1, k) + d + Pow2(k)
    decreases k
  {
    if k == 0 {
      if d == 0 { XorZero(hi); } else { XorOnes(hi); }
    } else {
      XorSplit(hi, k - 1, d / 2);
      XorStep(Shifted(hi, k - 1), d);
    }
  }

  lemma XorStep(q: int, d: int)
    ensures XorInt(2 * q, d) == 2 * XorInt(q, d / 2) + d % 2
  {
    if Magnitude(2 * q) + Magnitude(d) == 0 {
      XorBase(d);
    }
  }

  lemma XorBase(d: int)
    requires d == 0 || d == -1
    ensures XorInt(0, d) == d
  {
  }
}
