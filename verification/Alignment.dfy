/** align<alignment> (GeneralUtils.h) for the alignment 2^k. */
module Alignment {
  import opened Wrappers

  function Pow2(k: nat): (p: nat)
    ensures p > 0
  {
    if k == 0 then 1 else 2 * Pow2(k - 1)
  }

  /** Bit i of a two's complement number; the halves are rounded down. */
  function Bit(n: int, i: nat): nat
    decreases i
  {
    if i == 0 then n % 2 else Bit(n / 2, i - 1)
  }

  /** n & ~mask for the mask of the k low bits. */
  function ClearLow(n: int, k: nat): (c: int)
    ensures n >= 0 ==> c >= 0
    decreases k
  {
    if k == 0 then n else 2 * ClearLow(n / 2, k - 1)
  }

  /** (number + mask) & ~mask */
  function Align(number: int, k: nat): (a: int)
    ensures number >= 0 ==> a >= 0
  {
    ClearLow(number + (Pow2(k) - 1), k)
  }

  predicate IsInt(n: int) {
    -0x8000_0000 <= n < 0x8000_0000
  }

  /** The same on an int of 32 bits; None when the addition overflows. */
  function AlignInt(number: int, k: nat): Option<int>
    requires IsInt(number) && k <= 30
  {
    if IsInt(number + (Pow2(k) - 1)) then Some(Align(number, k)) else None
  }

  /** Bit by bit: the low k bits are cleared, the others stay. */
  lemma {:induction false} ClearLowBits(n: int, k: nat, i: nat)
    ensures Bit(ClearLow(n, k), i) == if i < k then 0 else Bit(n, i)
    decreases k
  {
    if k > 0 && i > 0 {
      ClearLowBits(n / 2, k - 1, i - 1);
    }
  }

  lemma MulDouble(q: int, p: nat)
    ensures q * (2 * p) == 2 * (q * p)
  {
  }

  lemma {:induction false} ClearLowIsFloor(n: int, k: nat) returns (q: int)
    ensures ClearLow(n, k) == q * Pow2(k)
    ensures q * Pow2(k) <= n < (q + 1) * Pow2(k)
    decreases k
  {
    if k == 0 {
      q := n;
    } else {
      q := ClearLowIsFloor(n / 2, k - 1);
      MulDouble(q, Pow2(k - 1));
      MulDouble(q + 1, Pow2(k - 1));
    }
  }

  /** The least multiple of the alignment that is not below the number. */
  lemma LeastMultiple(number: int, k: nat, m: int)
    ensures exists q: int :: Align(number, k) == q * Pow2(k)
    ensures number <= Align(number, k) < number + Pow2(k)
    ensures m * Pow2(k) >= number ==> Align(number, k) <= m * Pow2(k)
  {
    var q := ClearLowIsFloor(number + (Pow2(k) - 1), k);
    MulNext(q, Pow2(k));
    if m * Pow2(k) >= number && m < q {
      MulNext(m, Pow2(k));
      MulMonotone(m + 1, q, Pow2(k));
    } else if m >= q {
      MulMonotone(q, m, Pow2(k));
    }
  }

  lemma MulNext(q: int, p: nat)
    ensures (q + 1) * p == q * p + p
  {
  }

  lemma MulMonotone(a: int, b: int, p: nat)
    requires a <= b
    ensures a * p <= b * p
  {
    assert b * p == a * p + (b - a) * p;
  }

  lemma Idempotent(number: int, k: nat)
    ensures Align(Align(number, k), k) == Align(number, k)
  {
    LeastMultiple(number, k, 0);
    var q: int :| Align(number, k) == q * Pow2(k);
    LeastMultiple(Align(number, k), k, q);
  }

  lemma Monotone(a: int, b: int, k: nat)
    requires a <= b
    ensures Align(a, k) <= Align(b, k)
  {
    LeastMultiple(b, k, 0);
    var q: int :| Align(b, k) == q * Pow2(k);
    LeastMultiple(a, k, q);
  }

  /** 2^n is a multiple of 2^k. */
  lemma {:induction false} PowerMultiple(k: nat, n: nat)
    requires k <= n
    ensures Pow2(n) == Pow2(n - k) * Pow2(k)
    decreases k
  {
    if k > 0 {
      PowerMultiple(k - 1, n);
      assert Pow2(n - k + 1) == 2 * Pow2(n - k);
      MulDouble(Pow2(n - k), Pow2(k - 1));
      Factor(Pow2(n - k), Pow2(k - 1));
    }
  }

  lemma Factor(a: nat, p: nat)
    ensures 2 * a * p == a * (2 * p)
  {
  }

  lemma PowerThirtyOne()
    ensures Pow2(31) == 0x8000_0000
  {
    assert Pow2(8) == 256 by {
      assert Pow2(2) == 4;
      assert Pow2(4) == 16;
      assert Pow2(6) == 64;
    }
    PowerMultiple(8, 16);
    PowerMultiple(8, 24);
    assert Pow2(26) == 4 * Pow2(24);
    assert Pow2(28) == 4 * Pow2(26);
    assert Pow2(30) == 4 * Pow2(28);
  }

  /** The addition overflows exactly when the least multiple that is not below the number fits no int. */
  lemma OverflowsExactly(number: int, k: nat)
    requires IsInt(number) && k <= 30
    ensures AlignInt(number, k) == if IsInt(Align(number, k)) then Some(Align(number, k)) else None
  {
    var n := number + (Pow2(k) - 1);
    PowerThirtyOne();
    PowerMultiple(k, 31);
    LeastMultiple(number, k, Pow2(31 - k));
    var q := ClearLowIsFloor(n, k);
    if n >= 0x8000_0000 {
      if q < Pow2(31 - k) {
        MulMonotone(q + 1, Pow2(31 - k), Pow2(k));
      } else {
        MulMonotone(Pow2(31 - k), q, Pow2(k));
      }
    }
  }

  lemma TimesFour(q: int)
    ensures (4 * q) % 4 == 0
    ensures 4 * q > 0 ==> 4 * q >= 4
  {
  }

  /** align<4> */
  lemma AlignedToFour(n: int)
    ensures Align(n, 2) % 4 == 0
    ensures n <= Align(n, 2) < n + 4
    ensures Align(n, 2) > 0 ==> Align(n, 2) >= 4
  {
    assert Pow2(1) == 2 * Pow2(0) && Pow2(2) == 2 * Pow2(1);
    var half := (n + 3) / 2;
    var quarter := half / 2;
    assert ClearLow(half, 1) == 2 * ClearLow(quarter, 0) == 2 * quarter;
    assert Align(n, 2) == ClearLow(n + 3, 2) == 2 * ClearLow(half, 1) == 4 * quarter;
    TimesFour(quarter);
  }

  lemma AlignToFour(n: nat)
    ensures Align(n, 2) == (n + 3) / 4 * 4
  {
    AlignedToFour(n);
  }

  lemma MultiplesOfFour(a: nat, b: nat)
    requires a % 4 == 0 && b % 4 == 0
    ensures (a + b) % 4 == 0
  {
  }
}
