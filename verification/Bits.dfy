/** Natural numbers as bit strings: and, xor, or and shifts by their bits. */
module Bits {
  import opened Values

  /** Bit i of x. */
  predicate Bit(x: nat, i: nat) { x / Pow2(i) % 2 == 1 }

  // ---- the operations, one bit at a time ----------------------------------------------------

  function AndBits(a: nat, b: nat): nat {
    if a == 0 || b == 0 then 0 else (a % 2) * (b % 2) + 2 * AndBits(a / 2, b / 2)
  }

  function XorBits(a: nat, b: nat): nat {
    if a == 0 then b else if b == 0 then a else (if a % 2 == b % 2 then 0 else 1) + 2 * XorBits(a / 2, b / 2)
  }

  /** a | b: the carries of a + b are where both have a bit. */
  function OrBits(a: nat, b: nat): nat { AndBits(a, b) + XorBits(a, b) }

  // ---- their bits ---------------------------------------------------------------------------

  lemma DivDiv(x: nat, a: nat, b: nat)
    requires a > 0 && b > 0
    ensures x / a / b == x / (a * b)
  {
    var q := x / a / b;
    var r1, r2 := x % a, x / a % b;
    assert x == (q * b + r2) * a + r1 == q * (a * b) + (r2 * a + r1);
    assert r2 * a + r1 < a * b by {
      assert r2 * a <= (b - 1) * a;
    }
    Quotient(x, a * b, q, r2 * a + r1);
  }

  lemma Multiple(d: int, n: nat)
    ensures d >= 1 ==> d * n >= n
    ensures d <= -1 ==> d * n <= 0 - n
  {
    assert (d - 1) * n == d * n - n && (d + 1) * n == d * n + n;
    if d >= 1 {
      assert (d - 1) * n >= 0;
    } else {
      assert (0 - d - 1) * n == 0 - d * n - n;
    }
  }

  lemma Quotient(x: int, n: nat, q: int, r: nat)
    requires n > 0 && x == q * n + r && r < n
    ensures x / n == q && x % n == r
  {
    var d := q - x / n;
    assert d * n == x % n - r;
    Multiple(d, n);
  }

  lemma DivSmaller(u: nat, p: nat)
    requires p > 0
    ensures 0 <= u / p <= u
  {
    DivMod(u, p);
    Multiple(u / p, p);
    MulGrows(u / p, p);
  }

  lemma DivMod(u: nat, p: nat)
    requires p > 0
    ensures u == (u / p) * p + u % p
  {
  }

  lemma MulGrows(q: int, p: nat)
    requires p > 0
    ensures q >= 0 ==> q * p >= q
  {
    assert q * p == q + q * (p - 1);
  }

  /** Bit i of x is bit i - 1 of its half. */
  lemma {:induction false} BitHalf(x: nat, i: nat)
    requires i > 0
    ensures Bit(x, i) == Bit(x / 2, i - 1)
  {
    DivDiv(x, 2, Pow2(i - 1));
  }

  lemma {:induction false} BitZero(x: nat)
    ensures Bit(x, 0) <==> x % 2 == 1
  {
    assert Pow2(0) == 1;
  }

  lemma {:induction false} NoBits(i: nat)
    ensures !Bit(0, i)
  {
  }

  lemma {:induction false} AndHalves(a: nat, b: nat)
    ensures AndBits(a, b) % 2 == (if a % 2 == 1 && b % 2 == 1 then 1 else 0)
    ensures AndBits(a, b) / 2 == AndBits(a / 2, b / 2)
  {
    if a != 0 && b != 0 {
      assert (a % 2) * (b % 2) == if a % 2 == 1 && b % 2 == 1 then 1 else 0;
    }
  }

  lemma LowAndHalf(b: nat, x: nat)
    requires b < 2
    ensures (b + 2 * x) % 2 == b && (b + 2 * x) / 2 == x
  {
  }

  lemma {:induction false} XorHalves(a: nat, b: nat)
    ensures XorBits(a, b) % 2 == (if a % 2 == b % 2 then 0 else 1)
    ensures XorBits(a, b) / 2 == XorBits(a / 2, b / 2)
  {
    if a != 0 && b != 0 {
      LowAndHalf(if a % 2 == b % 2 then 0 else 1, XorBits(a / 2, b / 2));
    } else if a == 0 {
      assert XorBits(0, b / 2) == b / 2;
    } else {
      assert XorBits(a / 2, 0) == a / 2;
    }
  }

  lemma {:induction false} AndBit(a: nat, b: nat, i: nat)
    ensures Bit(AndBits(a, b), i) <==> Bit(a, i) && Bit(b, i)
    decreases i
  {
    AndHalves(a, b);
    if i == 0 {
      BitZero(a);
      BitZero(b);
      BitZero(AndBits(a, b));
    } else {
      AndBit(a / 2, b / 2, i - 1);
      BitHalf(a, i);
      BitHalf(b, i);
      BitHalf(AndBits(a, b), i);
    }
  }

  lemma {:induction false} XorBit(a: nat, b: nat, i: nat)
    ensures Bit(XorBits(a, b), i) <==> (Bit(a, i) != Bit(b, i))
    decreases i
  {
    XorHalves(a, b);
    if i == 0 {
      BitZero(a);
      BitZero(b);
      BitZero(XorBits(a, b));
    } else {
      XorBit(a / 2, b / 2, i - 1);
      BitHalf(a, i);
      BitHalf(b, i);
      BitHalf(XorBits(a, b), i);
    }
  }

  lemma {:induction false} OrHalves(a: nat, b: nat)
    ensures OrBits(a, b) % 2 == (if a % 2 == 1 || b % 2 == 1 then 1 else 0)
    ensures OrBits(a, b) / 2 == OrBits(a / 2, b / 2)
  {
    AndHalves(a, b);
    XorHalves(a, b);
  }

  lemma {:induction false} OrBit(a: nat, b: nat, i: nat)
    ensures Bit(OrBits(a, b), i) <==> Bit(a, i) || Bit(b, i)
    decreases i
  {
    OrHalves(a, b);
    if i == 0 {
      BitZero(a);
      BitZero(b);
      BitZero(OrBits(a, b));
    } else {
      OrBit(a / 2, b / 2, i - 1);
      BitHalf(a, i);
      BitHalf(b, i);
      BitHalf(OrBits(a, b), i);
    }
  }

  // ---- ranges and equality ------------------------------------------------------------------

  /** A number below 2^n has no bit at n or above. */
  lemma {:induction false} BitAbove(x: nat, n: nat, i: nat)
    requires x < Pow2(n) && n <= i
    ensures !Bit(x, i)
  {
    Pow2Mono(n, i);
    Quotient(x, Pow2(i), 0, x);
  }

  /** Without bits at n and above, a number is below 2^n. */
  lemma {:induction false} BitsBelow(x: nat, n: nat)
    requires forall i: nat {:trigger Bit(x, i)} :: n <= i ==> !Bit(x, i)
    ensures x < Pow2(n)
    decreases x
  {
    if x > 0 {
      if n == 0 {
        TopBit(x);
      } else {
        forall i: nat {:trigger Bit(x / 2, i)} | n - 1 <= i
          ensures !Bit(x / 2, i)
        {
          BitHalf(x, i + 1);
        }
        BitsBelow(x / 2, n - 1);
      }
    }
  }

  /** A positive number has a bit. */
  lemma {:induction false} TopBit(x: nat)
    requires x > 0
    ensures exists i: nat :: Bit(x, i)
    decreases x
  {
    if x == 1 {
      BitZero(x);
    } else {
      TopBit(x / 2);
      var i: nat :| Bit(x / 2, i);
      BitHalf(x, i + 1);
    }
  }

  /** Numbers below 2^n with the same n bits are equal. */
  lemma {:induction false} SameBits(x: nat, y: nat, n: nat)
    requires x < Pow2(n) && y < Pow2(n) && forall i: nat {:trigger Bit(x, i)} :: i < n ==> Bit(x, i) == Bit(y, i)
    ensures x == y
    decreases n
  {
    if n > 0 {
      forall i: nat {:trigger Bit(x / 2, i)} | i < n - 1
        ensures Bit(x / 2, i) == Bit(y / 2, i)
      {
        BitHalf(x, i + 1);
        BitHalf(y, i + 1);
      }
      SameBits(x / 2, y / 2, n - 1);
      assert Bit(x, 0) == Bit(y, 0);
      BitZero(x);
      BitZero(y);
    }
  }

  lemma {:induction false} AndBelow(a: nat, b: nat, n: nat)
    requires a < Pow2(n)
    ensures AndBits(a, b) < Pow2(n)
  {
    forall i: nat {:trigger Bit(AndBits(a, b), i)} | n <= i
      ensures !Bit(AndBits(a, b), i)
    {
      AndBit(a, b, i);
      BitAbove(a, n, i);
    }
    BitsBelow(AndBits(a, b), n);
  }

  lemma {:induction false} XorBelow(a: nat, b: nat, n: nat)
    requires a < Pow2(n) && b < Pow2(n)
    ensures XorBits(a, b) < Pow2(n)
  {
    forall i: nat {:trigger Bit(XorBits(a, b), i)} | n <= i
      ensures !Bit(XorBits(a, b), i)
    {
      XorBit(a, b, i);
      BitAbove(a, n, i);
      BitAbove(b, n, i);
    }
    BitsBelow(XorBits(a, b), n);
  }

  lemma {:induction false} OrBelow(a: nat, b: nat, n: nat)
    requires a < Pow2(n) && b < Pow2(n)
    ensures OrBits(a, b) < Pow2(n)
  {
    forall i: nat {:trigger Bit(OrBits(a, b), i)} | n <= i
      ensures !Bit(OrBits(a, b), i)
    {
      OrBit(a, b, i);
      BitAbove(a, n, i);
      BitAbove(b, n, i);
    }
    BitsBelow(OrBits(a, b), n);
  }

  // ---- shifts -------------------------------------------------------------------------------

  lemma {:induction false} Pow2Sum(a: nat, b: nat)
    ensures Pow2(a + b) == Pow2(a) * Pow2(b)
    decreases b
  {
    if b > 0 {
      Pow2Sum(a, b - 1);
    }
  }

  lemma Pow2Word()
    ensures Pow2(64) == TWO_64
  {
    Pow2Values();
    Pow2Sum(32, 32);
  }

  /** Shifting right moves bit i + n to bit i. */
  lemma {:induction false} RightBit(x: nat, n: nat, y: nat, i: nat)
    requires y == x / Pow2(n)
    ensures Bit(y, i) == Bit(x, i + n)
  {
    DivDiv(x, Pow2(n), Pow2(i));
    Pow2Sum(n, i);
  }

  /** Shifting left moves bit i to bit i + n, and clears the bits below. */
  lemma {:induction false} LeftBit(x: nat, n: nat, i: nat)
    ensures Bit(x * Pow2(n), i) <==> i >= n && Bit(x, i - n)
    decreases n
  {
    if n > 0 {
      var y := x * Pow2(n - 1);
      assert x * Pow2(n) == 2 * y;
      if i == 0 {
        BitZero(2 * y);
      } else {
        BitHalf(2 * y, i);
        LeftBit(x, n - 1, i - 1);
      }
    }
  }

  /** Dropping the bits from n on keeps the others. */
  lemma {:induction false} LowBit(x: nat, n: nat, i: nat)
    requires i < n
    ensures Bit(x % Pow2(n), i) == Bit(x, i)
    decreases i
  {
    ModHalf(x, n);
    var r := x % Pow2(n);
    if i == 0 {
      BitZero(x);
      BitZero(r);
    } else {
      BitHalf(x, i);
      BitHalf(r, i);
      LowBit(x / 2, n - 1, i - 1);
    }
  }

  lemma {:induction false} ModHalf(x: nat, n: nat)
    requires n > 0
    ensures x % Pow2(n) % 2 == x % 2 && x % Pow2(n) / 2 == x / 2 % Pow2(n - 1)
  {
    var k, r, p := x / Pow2(n), x % Pow2(n), Pow2(n - 1);
    assert x == k * Pow2(n) + r == 2 * (k * p) + r by {
      assert k * (2 * p) == 2 * (k * p);
    }
    assert x / 2 == k * p + r / 2;
    Quotient(x / 2, p, k, r / 2);
  }
}
