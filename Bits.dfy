/*
 * Bitwise operators of C on unsigned words, defined one binary digit at a
 * time on naturals. A word of n bits is a natural below Pow2(n); the
 * operators below keep that bound (OrBound, NotBound, and the contract of And).
 */
module Bits {
  import opened Config

  /** a | b */
  function Or(a: nat, b: nat): (r: nat)
    decreases a + b
    ensures a <= r && b <= r && r <= a + b
  {
    if a == 0 && b == 0 then 0
    else 2 * Or(a / 2, b / 2) + (if a % 2 == 1 || b % 2 == 1 then 1 else 0)
  }

  /** a & b */
  function And(a: nat, b: nat): (r: nat)
    decreases a + b
    ensures r <= a && r <= b
  {
    if a == 0 || b == 0 then 0
    else 2 * And(a / 2, b / 2) + (if a % 2 == 1 && b % 2 == 1 then 1 else 0)
  }

  /** a ^ b */
  function Xor(a: nat, b: nat): (r: nat)
    decreases a + b
    ensures r <= a + b && (a + b - r) % 2 == 0
    ensures a == b ==> r == 0
  {
    if a == 0 && b == 0 then 0
    else 2 * Xor(a / 2, b / 2) + (if (a % 2 == 1) != (b % 2 == 1) then 1 else 0)
  }

  /** ~a on a word of n bits: for a word a, the all-ones word minus a. */
  function Not(a: nat, n: nat): (r: nat)
    decreases n
    ensures a < Pow2(n) ==> r == Pow2(n) - 1 - a
  {
    if n == 0 then 0
    else 2 * Not(a / 2, n - 1) + (if a % 2 == 1 then 0 else 1)
  }

  /** Binary digit k of w. */
  predicate Bit(w: nat, k: nat)
    decreases k
    ensures Bit(w, k) ==> Pow2(k) <= w
  {
    if k == 0 then w % 2 == 1 else Bit(w / 2, k - 1)
  }

  lemma {:induction false} BitZero(k: nat)
    decreases k
    ensures !Bit(0, k)
  {
    if k > 0 {
      BitZero(k - 1);
    }
  }

  /** The last digit and the rest of 2 * x + c. */
  lemma HalfDigit(x: nat, c: nat)
    requires c < 2
    ensures (2 * x + c) / 2 == x && (2 * x + c) % 2 == c
  {
  }

  lemma {:induction false} BitOr(a: nat, b: nat, k: nat)
    decreases k
    ensures Bit(Or(a, b), k) == (Bit(a, k) || Bit(b, k))
  {
    if a == 0 && b == 0 {
      BitZero(k);
    } else {
      HalfDigit(Or(a / 2, b / 2), if a % 2 == 1 || b % 2 == 1 then 1 else 0);
      if k > 0 {
        BitOr(a / 2, b / 2, k - 1);
      }
    }
  }

  lemma {:induction false} BitAnd(a: nat, b: nat, k: nat)
    decreases k
    ensures Bit(And(a, b), k) == (Bit(a, k) && Bit(b, k))
  {
    if a == 0 || b == 0 {
      BitZero(k);
    } else {
      HalfDigit(And(a / 2, b / 2), if a % 2 == 1 && b % 2 == 1 then 1 else 0);
      if k > 0 {
        BitAnd(a / 2, b / 2, k - 1);
      }
    }
  }

  lemma {:induction false} BitXor(a: nat, b: nat, k: nat)
    decreases k
    ensures Bit(Xor(a, b), k) == (Bit(a, k) != Bit(b, k))
  {
    if a == 0 && b == 0 {
      BitZero(k);
    } else {
      HalfDigit(Xor(a / 2, b / 2), if (a % 2 == 1) != (b % 2 == 1) then 1 else 0);
      if k > 0 {
        BitXor(a / 2, b / 2, k - 1);
      }
    }
  }

  /** Below the word width, ~ flips every digit. */
  lemma {:induction false} BitNot(a: nat, n: nat, k: nat)
    requires k < n
    decreases k
    ensures Bit(Not(a, n), k) == !Bit(a, k)
  {
    if k > 0 {
      BitNot(a / 2, n - 1, k - 1);
    }
  }

  /** The mask 1 << k has digit k alone. */
  lemma {:induction false} BitPow2(k: nat, j: nat)
    decreases k
    ensures Bit(Pow2(k), j) == (j == k)
  {
    if k > 0 && j > 0 {
      BitPow2(k - 1, j - 1);
    } else if j > 0 {
      BitZero(j - 1);
    }
  }

  /** Two words agreeing on every digit are equal. */
  lemma {:induction false} BitsEqual(a: nat, b: nat)
    requires forall k: nat :: Bit(a, k) == Bit(b, k)
    decreases a + b
    ensures a == b
  {
    assert Bit(a, 0) == Bit(b, 0);
    if a != 0 || b != 0 {
      forall k: nat
        ensures Bit(a / 2, k) == Bit(b / 2, k)
      {
        assert Bit(a, k + 1) == Bit(b, k + 1);
      }
      BitsEqual(a / 2, b / 2);
    }
  }

  lemma {:induction false} OrBound(a: nat, b: nat, n: nat)
    requires a < Pow2(n) && b < Pow2(n)
    decreases n
    ensures Or(a, b) < Pow2(n)
  {
    if n > 0 && !(a == 0 && b == 0) {
      OrBound(a / 2, b / 2, n - 1);
    }
  }

  lemma {:induction false} XorBound(a: nat, b: nat, n: nat)
    requires a < Pow2(n) && b < Pow2(n)
    decreases n
    ensures Xor(a, b) < Pow2(n)
  {
    if n > 0 && !(a == 0 && b == 0) {
      XorBound(a / 2, b / 2, n - 1);
    }
  }

  lemma {:induction false} NotBound(a: nat, n: nat)
    decreases n
    ensures Not(a, n) < Pow2(n)
  {
    if n > 0 {
      NotBound(a / 2, n - 1);
    }
  }

  /** For a word of n bits, ~~a == a. */
  lemma NotNot(a: nat, n: nat)
    requires a < Pow2(n)
    ensures Not(Not(a, n), n) == a
  {
    forall k: nat
      ensures Bit(Not(Not(a, n), n), k) == Bit(a, k)
    {
      if k < n {
        BitNot(Not(a, n), n, k);
        BitNot(a, n, k);
      } else {
        NotBound(Not(a, n), n);
        HighBits(Not(Not(a, n), n), n, k);
        HighBits(a, n, k);
      }
    }
    BitsEqual(Not(Not(a, n), n), a);
  }

  /** A word of n bits has no digit at or above n. */
  lemma {:induction false} HighBits(a: nat, n: nat, k: nat)
    requires a < Pow2(n) && n <= k
    decreases n
    ensures !Bit(a, k)
  {
    if n == 0 {
      assert a == 0;
      BitZero(k);
    } else {
      HighBits(a / 2, n - 1, k - 1);
    }
  }

  lemma {:induction false} OrZero(a: nat)
    decreases a
    ensures Or(a, 0) == a
  {
    if a != 0 {
      OrZero(a / 2);
    }
  }

  /** hi << k | lo, with lo below 2^k, is an addition: the digits do not meet. */
  lemma {:induction false} OrDisjoint(hi: nat, lo: nat, k: nat)
    requires lo < Pow2(k)
    decreases k
    ensures Or(hi * Pow2(k), lo) == hi * Pow2(k) + lo
  {
    if k == 0 {
      OrZero(hi);
    } else {
      var h := hi * Pow2(k);
      assert h == 2 * (hi * Pow2(k - 1));
      OrDisjoint(hi, lo / 2, k - 1);
    }
  }
}
