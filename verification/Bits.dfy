/** Bitwise operations on natural numbers. */
module Bits {
  /** Bitwise and of two words. */
  function And(a: nat, b: nat): (r: nat)
    ensures r <= a && r <= b
  {
    if a == 0 || b == 0 then 0 else (a % 2) * (b % 2) + 2 * And(a / 2, b / 2)
  }

  /** Bitwise or of two words. */
  function Or(a: nat, b: nat): nat {
    if a == 0 && b == 0 then 0 else (if a % 2 + b % 2 > 0 then 1 else 0) + 2 * Or(a / 2, b / 2)
  }

  /** Bitwise exclusive or of two words. */
  function Xor(a: nat, b: nat): nat {
    if a == 0 && b == 0 then 0 else (if a % 2 != b % 2 then 1 else 0) + 2 * Xor(a / 2, b / 2)
  }

  /** `x >> n`. */
  function Shr(x: nat, n: nat): nat {
    if n == 0 then x else Shr(x / 2, n - 1)
  }

  /** `1 << n`. */
  function Pow2(n: nat): (r: nat)
    ensures r >= 1
  {
    if n == 0 then 1 else 2 * Pow2(n - 1)
  }

  lemma {:induction false} ShrTwice(x: nat, m: nat, n: nat)
    ensures Shr(Shr(x, m), n) == Shr(x, m + n)
    decreases m
  {
    if m > 0 {
      ShrTwice(x / 2, m - 1, n);
    }
  }

  lemma {:induction false} ShrXor(a: nat, b: nat, n: nat)
    ensures Shr(Xor(a, b), n) == Xor(Shr(a, n), Shr(b, n))
    decreases n
  {
    if n > 0 {
      ShrXor(a / 2, b / 2, n - 1);
    }
  }

  /** Shifting right and left again clears low bits. */
  lemma {:induction false} ShrTimesPow2(x: nat, n: nat)
    ensures Shr(x, n) * Pow2(n) <= x
    decreases n
  {
    if n > 0 {
      ShrTimesPow2(x / 2, n - 1);
      assert Shr(x, n) * Pow2(n) == 2 * (Shr(x / 2, n - 1) * Pow2(n - 1));
    }
  }

  lemma {:induction false} ShrOfTimesPow2(y: nat, n: nat)
    ensures Shr(y * Pow2(n), n) == y
    decreases n
  {
    if n > 0 {
      assert y * Pow2(n) == 2 * (y * Pow2(n - 1));
      ShrOfTimesPow2(y, n - 1);
    }
  }

  /** A mask whose low bits are clear sees only what a right shift keeps. */
  lemma {:induction false} AndShiftedMask(x: nat, mask: nat, n: nat)
    ensures And(x, mask * Pow2(n)) == And(Shr(x, n), mask) * Pow2(n)
    decreases n
  {
    if n > 0 {
      AndShiftedMask(x / 2, mask, n - 1);
      AndShiftedOnce(x, mask, And(Shr(x, n), mask), Pow2(n - 1));
    }
  }

  lemma AndShiftedOnce(x: nat, mask: nat, y: nat, p: nat)
    requires And(x / 2, mask * p) == y * p
    ensures And(x, mask * (2 * p)) == y * (2 * p)
  {
    Doubled(mask, p);
    Doubled(y, p);
    AndTwice(x, mask * p);
  }

  lemma Doubled(a: nat, b: nat)
    ensures a * (2 * b) == 2 * (a * b)
  {
  }

  lemma AndTwice(x: nat, m: nat)
    ensures And(x, 2 * m) == 2 * And(x / 2, m)
  {
    if x != 0 && m != 0 {
      var k := 2 * m;
      assert k % 2 == 0 && k / 2 == m;
      calc {
        And(x, k);
        (x % 2) * (k % 2) + 2 * And(x / 2, k / 2);
        2 * And(x / 2, m);
      }
    }
  }

  /** Words without common ones are joined by adding them. */
  lemma {:induction false} OrAdds(a: nat, b: nat, n: nat)
    requires b < Pow2(n)
    ensures Or(a * Pow2(n), b) == a * Pow2(n) + b
    decreases n
  {
    if n == 0 {
      OrZero(a);
    } else {
      OrAdds(a, b / 2, n - 1);
      Doubled(a, Pow2(n - 1));
      OrTwice(a * Pow2(n - 1), b);
    }
  }

  lemma OrTwice(c: nat, b: nat)
    requires Or(c, b / 2) == c + b / 2
    ensures Or(2 * c, b) == 2 * c + b
  {
    OrHalf(2 * c, b);
  }

  lemma {:induction false} OrZero(a: nat)
    ensures Or(a, 0) == a
  {
    if a > 0 {
      OrZero(a / 2);
    }
  }

  lemma {:induction false} Pow2Monotone(m: nat, n: nat)
    requires m <= n
    ensures Pow2(m) <= Pow2(n)
    decreases n
  {
    if m < n {
      Pow2Monotone(m, n - 1);
    }
  }

  /** What a right shift drops is what a mask of low bits keeps. */
  lemma {:induction false} HighAndLow(x: nat, n: nat)
    ensures x == Shr(x, n) * Pow2(n) + And(x, Pow2(n) - 1)
    decreases n
  {
    if n > 0 {
      var m, y := Pow2(n - 1), Shr(x, n);
      HighAndLow(x / 2, n - 1);
      Doubled(y, m);
      AndOdd(x, m - 1);
    }
  }

  lemma AndOdd(x: nat, m: nat)
    ensures And(x, 2 * m + 1) == 2 * And(x / 2, m) + x % 2
  {
    if x != 0 {
      var k := 2 * m + 1;
      assert k % 2 == 1 && k / 2 == m;
    }
  }

  // ---------------------------------------------------------------- bit by bit

  /** Bit `k` of a word is set. */
  predicate Bit(x: nat, k: nat) { Shr(x, k) % 2 == 1 }

  lemma {:induction false} AndBit(a: nat, b: nat, k: nat)
    ensures Bit(And(a, b), k) <==> Bit(a, k) && Bit(b, k)
    decreases k
  {
    AndHalf(a, b);
    if k > 0 {
      AndBit(a / 2, b / 2, k - 1);
    }
  }

  lemma AndHalf(a: nat, b: nat)
    ensures And(a, b) / 2 == And(a / 2, b / 2)
    ensures And(a, b) % 2 == if a % 2 == 1 && b % 2 == 1 then 1 else 0
  {
    if a != 0 && b != 0 {
      Halves((a % 2) * (b % 2), And(a / 2, b / 2));
      ParityOfProduct(a % 2, b % 2);
    }
  }

  lemma ParityOfProduct(a: nat, b: nat)
    requires a < 2 && b < 2
    ensures a * b == if a == 1 && b == 1 then 1 else 0
  {
  }

  lemma Halves(low: nat, high: nat)
    ensures low < 2 ==> (low + 2 * high) / 2 == high && (low + 2 * high) % 2 == low
  {
  }

  lemma OrHalf(a: nat, b: nat)
    ensures Or(a, b) / 2 == Or(a / 2, b / 2)
    ensures Or(a, b) % 2 == if a % 2 == 1 || b % 2 == 1 then 1 else 0
  {
    if a != 0 || b != 0 {
      Halves(if a % 2 + b % 2 > 0 then 1 else 0, Or(a / 2, b / 2));
    }
  }

  lemma XorHalf(a: nat, b: nat)
    ensures Xor(a, b) / 2 == Xor(a / 2, b / 2)
    ensures Xor(a, b) % 2 == if a % 2 != b % 2 then 1 else 0
  {
  }

  lemma {:induction false} OrBit(a: nat, b: nat, k: nat)
    ensures Bit(Or(a, b), k) <==> Bit(a, k) || Bit(b, k)
    decreases k
  {
    OrHalf(a, b);
    if k > 0 {
      OrBit(a / 2, b / 2, k - 1);
    }
  }

  lemma {:induction false} XorBit(a: nat, b: nat, k: nat)
    ensures Bit(Xor(a, b), k) <==> Bit(a, k) != Bit(b, k)
    decreases k
  {
    XorHalf(a, b);
    if k > 0 {
      XorBit(a / 2, b / 2, k - 1);
    }
  }

  /** A word that is not zero has a bit. */
  lemma {:induction false} HasBit(x: nat) returns (k: nat)
    requires x != 0
    ensures Bit(x, k)
  {
    if x % 2 == 1 {
      k := 0;
    } else {
      k := HasBit(x / 2);
      k := k + 1;
    }
  }

  lemma {:induction false} ZeroHasNoBit(k: nat)
    ensures !Bit(0, k)
  {
    if k > 0 {
      ZeroHasNoBit(k - 1);
    }
  }

  /** Words with the same bits are the same. */
  lemma {:induction false} SameBits(a: nat, b: nat)
    requires forall k: nat :: Bit(a, k) <==> Bit(b, k)
    ensures a == b
    decreases a + b
  {
    if a != 0 || b != 0 {
      assert Bit(a, 0) <==> Bit(b, 0);
      forall k: nat
        ensures Bit(a / 2, k) <==> Bit(b / 2, k)
      {
        assert Bit(a, k + 1) <==> Bit(b, k + 1);
      }
      SameBits(a / 2, b / 2);
    }
  }

  /** Every bit of `a` is set in `b`. */
  lemma AndIsFirst(a: nat, b: nat)
    ensures And(a, b) == a <==> forall k: nat :: Bit(a, k) ==> Bit(b, k)
  {
    forall k: nat
      ensures Bit(And(a, b), k) <==> Bit(a, k) && Bit(b, k)
    {
      AndBit(a, b, k);
    }
    if forall k: nat :: Bit(a, k) ==> Bit(b, k) {
      SameBits(And(a, b), a);
    }
  }

  /** No bit is set in both. */
  lemma AndIsZero(a: nat, b: nat)
    ensures And(a, b) == 0 <==> forall k: nat :: Bit(a, k) ==> !Bit(b, k)
  {
    forall k: nat
      ensures Bit(And(a, b), k) <==> Bit(a, k) && Bit(b, k)
    {
      AndBit(a, b, k);
    }
    if And(a, b) == 0 {
      forall k: nat
        ensures !Bit(0, k)
      {
        ZeroHasNoBit(k);
      }
    } else {
      var k := HasBit(And(a, b));
    }
  }
}
