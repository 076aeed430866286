/** The 64-bit integer helpers shared by learners and leaves. */
module Arithmetic {
  import opened Values
  import opened Bits

  function Unsigned(x: int64): uint64 { if x < 0 then x + TWO_64 else x }

  function IntAdd(a: int64, b: int64): int64 { Wrap64(a + b) }
  function IntSub(a: int64, b: int64): int64 { Wrap64(a - b) }
  function IntMul(a: int64, b: int64): int64 { Wrap64(a * b) }

  function BitAnd(a: int64, b: int64): int64 { Wrap64(AndBits(Unsigned(a), Unsigned(b))) }
  function BitOr(a: int64, b: int64): int64 { Wrap64(OrBits(Unsigned(a), Unsigned(b))) }
  function BitXor(a: int64, b: int64): int64 { Wrap64(XorBits(Unsigned(a), Unsigned(b))) }

  /** C division and remainder: the quotient is truncated toward zero. */
  function TruncQuotient(m: int, n: int): int
    requires n != 0
  {
    if m >= 0 then m / n else 0 - ((0 - m) / n)
  }

  function TruncRemainder(m: int, n: int): int
    requires n != 0
  {
    m - TruncQuotient(m, n) * n
  }

  /** The sign bits of m and n differ. */
  predicate SignsDiffer(m: int, n: int) { (m < 0) != (n < 0) }

  /** v2_idiv; the first test holds for n == -1 (and for 0, excluded by callers). */
  function FloorDiv(m: int64, n: int64): int64
    requires n != 0
  {
    if (Unsigned(n) + 1) % TWO_64 <= 1 then IntSub(0, m)
    else
      QuotientRange(m, n);
      var q := TruncQuotient(m, n);
      if SignsDiffer(m, n) && TruncRemainder(m, n) != 0 then q - 1 else q
  }

  /** v2_mod. */
  function FloorMod(m: int64, n: int64): int64
    requires n != 0
  {
    if (Unsigned(n) + 1) % TWO_64 <= 1 then 0
    else
      RemainderRange(m, n);
      var r := TruncRemainder(m, n);
      if r != 0 && SignsDiffer(r, n) then r + n else r
  }

  /** v2_shiftl: a logical shift, right for negative counts, 0 from 64 on. */
  function ShiftLeft(x: int64, y: int64): int64 {
    if y < 0 then (if y <= -64 then 0 else Wrap64(Unsigned(x) / Pow2(0 - y)))
    else if y >= 64 then 0
    else Wrap64(Unsigned(x) * Pow2(y))
  }

  function Negate(x: int64): int64 { Wrap64(0 - x) }

  // ---- what they compute ------------------------------------------------------------------

  /** Euclidean division: the remainder is in range whatever the signs. */
  lemma DivFacts(m: int, n: int)
    requires n != 0
    ensures m == (m / n) * n + m % n && 0 <= m % n < (if n < 0 then 0 - n else n)
  {
  }

  lemma RemainderIs(m: int, n: int)
    requires n != 0
    ensures TruncRemainder(m, n) == if m >= 0 then m % n else 0 - (0 - m) % n
  {
    if m >= 0 {
      DivFacts(m, n);
    } else {
      DivFacts(0 - m, n);
      assert (0 - (0 - m) / n) * n == 0 - ((0 - m) / n) * n;
    }
  }

  lemma RemainderRange(m: int, n: int)
    requires n != 0
    ensures 0 - (if n < 0 then 0 - n else n) < TruncRemainder(m, n) < (if n < 0 then 0 - n else n)
    ensures TruncRemainder(m, n) > 0 ==> m > 0
    ensures TruncRemainder(m, n) < 0 ==> m < 0
  {
    RemainderIs(m, n);
    if m >= 0 {
      DivFacts(m, n);
      assert m == 0 ==> m % n == 0;
    } else {
      DivFacts(0 - m, n);
    }
  }

  lemma MulAtLeastTwice(q: nat, n: nat)
    requires n >= 2
    ensures q * n >= 2 * q
  {
    assert q * n == 2 * q + q * (n - 2);
  }

  /** Dividing by 2 or more at least halves. */
  lemma Halves(a: nat, n: int)
    requires n >= 2 || n <= -2
    ensures 0 - a <= 2 * (a / n) <= a
  {
    DivFacts(a, n);
    var q := a / n;
    if n > 0 {
      assert q >= 0;
      MulAtLeastTwice(q, n);
    } else {
      assert q <= 0;
      assert q * n == (0 - q) * (0 - n);
      MulAtLeastTwice(0 - q, 0 - n);
    }
  }

  lemma QuotientRange(m: int64, n: int64)
    requires n != 0 && n != -1
    ensures -TWO_63 <= TruncQuotient(m, n) < TWO_63
    ensures TruncQuotient(m, n) == -TWO_63 ==> TruncRemainder(m, n) == 0
  {
    if n != 1 {
      Halves(if m >= 0 then m else 0 - m, n);
    }
  }

  /** Floor division and modulo: m = q * n + r with r between 0 and n, on n's side,
      for every pair but INT64_MIN // -1, whose quotient wraps. */
  lemma FloorDivMod(m: int64, n: int64)
    requires n != 0
    ensures var q, r := FloorDiv(m, n), FloorMod(m, n);
            && (if n > 0 then 0 <= r < n else n < r <= 0)
            && (m == q * n + r <==> !(m == -TWO_63 && n == -1))
  {
    if n == -1 {
      MinusOne(m);
    } else {
      Floored(m, n);
    }
  }

  lemma MinusOne(m: int64)
    ensures FloorMod(m, -1) == 0
    ensures m == FloorDiv(m, -1) * -1 <==> m != -TWO_63
  {
    WrapExact(0 - m);
  }

  lemma Floored(m: int64, n: int64)
    requires n != 0 && n != -1
    ensures var q, r := FloorDiv(m, n), FloorMod(m, n);
            (if n > 0 then 0 <= r < n else n < r <= 0) && m == q * n + r
  {
    RemainderRange(m, n);
    QuotientRange(m, n);
    Adjusted(m, n, TruncQuotient(m, n), TruncRemainder(m, n));
  }

  /** One step down where the remainder is on the wrong side of n. */
  lemma Adjusted(m: int, n: int, q: int, r: int)
    requires n != 0 && m == q * n + r && 0 - (if n < 0 then 0 - n else n) < r < (if n < 0 then 0 - n else n)
    requires (r > 0 ==> m > 0) && (r < 0 ==> m < 0)
    ensures r != 0 ==> SignsDiffer(m, n) == SignsDiffer(r, n)
    ensures var down := r != 0 && SignsDiffer(r, n);
            var q', r' := if down then q - 1 else q, if down then r + n else r;
            (if n > 0 then 0 <= r' < n else n < r' <= 0) && m == q' * n + r'
  {
    assert (q - 1) * n == q * n - n;
  }
}
