/** Single bits of machine words. */
module Bits {
  predicate HasBit(b: nat, i: nat) {
    if i == 0 then b % 2 == 1 else HasBit(b / 2, i - 1)
  }

  /** Bitwise or with bit `i`. */
  function WithBit(b: nat, i: nat): nat {
    if i == 0 then b / 2 * 2 + 1 else WithBit(b / 2, i - 1) * 2 + b % 2
  }

  function Power2(n: nat): (p: nat)
    ensures p > 0
  {
    if n == 0 then 1 else 2 * Power2(n - 1)
  }

  lemma {:induction false} WithBitFits(b: nat, i: nat, n: nat)
    requires i < n && b < Power2(n)
    ensures WithBit(b, i) < Power2(n)
  {
    if i > 0 {
      WithBitFits(b / 2, i - 1, n - 1);
    }
  }

  /** The bit is set, and the others are as they were. */
  lemma {:induction false} WithBitHas(b: nat, i: nat, j: nat)
    ensures HasBit(WithBit(b, i), j) <==> j == i || HasBit(b, j)
  {
    if i > 0 && j > 0 {
      WithBitHas(b / 2, i - 1, j - 1);
    }
  }

  /** One less than a power of two has just the bits below set. */
  lemma {:induction false} OnesHave(m: nat, i: nat)
    ensures HasBit(Power2(m) - 1, i) <==> i < m
  {
    if m > 0 {
      assert (Power2(m) - 1) / 2 == Power2(m - 1) - 1;
      if i > 0 {
        OnesHave(m - 1, i - 1);
      }
    } else {
      ZeroHasNone(i);
    }
  }

  lemma {:induction false} ZeroHasNone(i: nat)
    ensures !HasBit(0, i)
  {
    if i > 0 {
      ZeroHasNone(i - 1);
    }
  }

  /** A word is known by its bits. */
  lemma {:induction false} SameBits(a: nat, b: nat, n: nat)
    requires a < Power2(n) && b < Power2(n) && forall i: nat :: i < n ==> (HasBit(a, i) <==> HasBit(b, i))
    ensures a == b
  {
    if n > 0 {
      assert HasBit(a, 0) <==> HasBit(b, 0);
      forall i: nat | i < n - 1
        ensures HasBit(a / 2, i) <==> HasBit(b / 2, i)
      {
        assert HasBit(a, i + 1) <==> HasBit(b, i + 1);
      }
      SameBits(a / 2, b / 2, n - 1);
    }
  }

  /** Of the lowest `n` bits, those below `m` are set and no others. */
  predicate JustBelow(b: nat, n: nat, m: nat) {
    forall i: nat :: i < n ==> (HasBit(b, i) <==> i < m)
  }

  /** A word is one less than the `m`-th power of two exactly when the bits below `m` are those set. */
  lemma AllBits(b: nat, n: nat, m: nat)
    requires m <= n && b < Power2(n)
    ensures b == Power2(m) - 1 <==> JustBelow(b, n, m)
  {
    PowersRise(m, n);
    var ones: nat := Power2(m) - 1;
    forall i: nat | i < n
      ensures HasBit(ones, i) <==> i < m
    {
      OnesHave(m, i);
    }
    if JustBelow(b, n, m) {
      SameBits(b, ones, n);
    }
  }

  lemma {:induction false} PowersRise(m: nat, n: nat)
    requires m <= n
    ensures Power2(m) <= Power2(n)
  {
    if m < n {
      PowersRise(m, n - 1);
    }
  }
}
