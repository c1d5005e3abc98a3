/**
 * Bitwise `&`, `|` and `!` on unsigned integers, defined one bit at a time
 * on natural numbers, and the per-bit facts that the mask operations of the
 * device protocol rest on.
 */
module BitOps {
  function Pow2(n: nat): (p: nat)
    ensures p >= 1
  {
    if n == 0 then 1 else 2 * Pow2(n - 1)
  }

  /** Bit `k` of `x` (bit 0 is the least significant). */
  predicate Bit(x: nat, k: nat)
    decreases k
  {
    if k == 0 then x % 2 == 1 else Bit(x / 2, k - 1)
  }

  /** `x & y`. */
  function And(x: nat, y: nat): nat
    decreases x
  {
    if x == 0 || y == 0 then 0
    else (if x % 2 == 1 && y % 2 == 1 then 1 else 0) + 2 * And(x / 2, y / 2)
  }

  /** `x | y`. */
  function Or(x: nat, y: nat): nat
    decreases x + y
  {
    if x == 0 then y
    else if y == 0 then x
    else (if x % 2 == 1 || y % 2 == 1 then 1 else 0) + 2 * Or(x / 2, y / 2)
  }

  /** `!x` on a `width`-bit unsigned integer. */
  function Not(x: nat, width: nat): nat
    decreases width
  {
    if width == 0 then 0 else (1 - x % 2) + 2 * Not(x / 2, width - 1)
  }

  /** The two numbers have a set bit in common. */
  ghost predicate SharesBit(x: nat, y: nat)
  {
    exists k :: Bit(x, k) && Bit(y, k)
  }

  lemma {:induction false} ZeroHasNoBits(k: nat)
    ensures !Bit(0, k)
  {
    if k > 0 { ZeroHasNoBits(k - 1); }
  }

  lemma {:induction false} AndBit(x: nat, y: nat, k: nat)
    ensures Bit(And(x, y), k) == (Bit(x, k) && Bit(y, k))
    decreases x
  {
    if x == 0 || y == 0 {
      ZeroHasNoBits(k);
    } else if k > 0 {
      AndBit(x / 2, y / 2, k - 1);
    }
  }

  lemma {:induction false} OrBit(x: nat, y: nat, k: nat)
    ensures Bit(Or(x, y), k) == (Bit(x, k) || Bit(y, k))
    decreases x + y
  {
    if x == 0 || y == 0 {
      ZeroHasNoBits(k);
    } else if k > 0 {
      OrBit(x / 2, y / 2, k - 1);
    }
  }

  lemma {:induction false} NotBit(x: nat, width: nat, k: nat)
    ensures Bit(Not(x, width), k) == (k < width && !Bit(x, k))
    decreases width
  {
    if width == 0 {
      ZeroHasNoBits(k);
    } else if k > 0 {
      NotBit(x / 2, width - 1, k - 1);
    }
  }

  /** Every non-zero number has a set bit, and only below its width. */
  lemma {:induction false} SomeBit(x: nat, width: nat) returns (k: nat)
    requires 0 < x < Pow2(width)
    ensures Bit(x, k) && k < width
    decreases width
  {
    if x % 2 == 1 {
      k := 0;
    } else {
      var j := SomeBit(x / 2, width - 1);
      k := j + 1;
    }
  }

  /** A number below 2^width has no set bit at or above `width`. */
  lemma {:induction false} NoBitAbove(x: nat, width: nat, k: nat)
    requires x < Pow2(width) && width <= k
    ensures !Bit(x, k)
    decreases k
  {
    if width == 0 {
      assert x == 0;
      ZeroHasNoBits(k);
    } else {
      NoBitAbove(x / 2, width - 1, k - 1);
    }
  }

  /** `x & y != 0` exactly when x and y share a set bit. */
  lemma AndNonZero(x: nat, y: nat)
    ensures And(x, y) != 0 <==> SharesBit(x, y)
  {
    if SharesBit(x, y) {
      var k :| Bit(x, k) && Bit(y, k);
      AndBit(x, y, k);
      if And(x, y) == 0 { ZeroHasNoBits(k); }
    }
    if And(x, y) != 0 {
      AndBelow(x, y);
      var k := SomeBit(And(x, y), And(x, y));
      AndBit(x, y, k);
    }
  }

  /** `x & y` never exceeds `x`. */
  lemma {:induction false} AndBelow(x: nat, y: nat)
    ensures And(x, y) <= x
    ensures And(x, y) < Pow2(And(x, y))
    decreases x
  {
    if x != 0 && y != 0 {
      AndBelow(x / 2, y / 2);
      SelfBelowPow2(And(x, y));
    }
  }

  lemma {:induction false} SelfBelowPow2(n: nat)
    ensures n < Pow2(n)
  {
    if n > 0 { SelfBelowPow2(n - 1); }
  }

  lemma {:induction false} OrBelow(x: nat, y: nat, width: nat)
    requires x < Pow2(width) && y < Pow2(width)
    ensures Or(x, y) < Pow2(width)
    decreases width
  {
    if width > 0 && x != 0 && y != 0 {
      OrBelow(x / 2, y / 2, width - 1);
    }
  }

  lemma {:induction false} NotBelow(x: nat, width: nat)
    ensures Not(x, width) < Pow2(width)
    decreases width
  {
    if width > 0 { NotBelow(x / 2, width - 1); }
  }

  /** 2^j has exactly one set bit, bit j. */
  lemma {:induction false} Pow2Bit(j: nat, k: nat)
    ensures Bit(Pow2(j), k) == (j == k)
    decreases j
  {
    if j == 0 {
      if k > 0 { ZeroHasNoBits(k - 1); }
    } else if k > 0 {
      Pow2Bit(j - 1, k - 1);
    }
  }

  lemma {:induction false} Pow2Increasing(i: nat, j: nat)
    requires i < j
    ensures Pow2(i) < Pow2(j)
    decreases j
  {
    if i < j - 1 { Pow2Increasing(i, j - 1); }
  }

  /** Two numbers below 2^width with the same bits are equal. */
  lemma {:induction false} BitsDetermine(x: nat, y: nat, width: nat)
    requires x < Pow2(width) && y < Pow2(width)
    requires forall k | 0 <= k < width :: Bit(x, k) == Bit(y, k)
    ensures x == y
    decreases width
  {
    if width > 0 {
      forall k | 0 <= k < width - 1 ensures Bit(x / 2, k) == Bit(y / 2, k) {
        assert Bit(x, k + 1) == Bit(y, k + 1);
      }
      BitsDetermine(x / 2, y / 2, width - 1);
      assert Bit(x, 0) == Bit(y, 0);
    }
  }

  lemma AllAndBits(x: nat, y: nat)
    ensures forall k :: Bit(And(x, y), k) == (Bit(x, k) && Bit(y, k))
  {
    forall k ensures Bit(And(x, y), k) == (Bit(x, k) && Bit(y, k)) { AndBit(x, y, k); }
  }

  lemma AllOrBits(x: nat, y: nat)
    ensures forall k :: Bit(Or(x, y), k) == (Bit(x, k) || Bit(y, k))
  {
    forall k ensures Bit(Or(x, y), k) == (Bit(x, k) || Bit(y, k)) { OrBit(x, y, k); }
  }
}
