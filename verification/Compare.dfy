/** Mixed integer/float comparison: the exact helpers on a 64-bit integer and a
    binary64 number, against comparison of the mathematical values. */
module Compare {
  import opened Values

  /** 2^52 and 2^53. */
  const SIG_MIN := 0x10_0000_0000_0000
  const SIG_END := 0x20_0000_0000_0000

  /** A binary64 datum: finite ones are (-1)^neg * sig * 2^exp. */
  datatype Double = NaN | Inf(neg: bool) | Finite(neg: bool, sig: nat, exp: int)

  predicate Canonical(d: Double) {
    d.Finite? ==> d.sig < SIG_END && -1074 <= d.exp <= 971 && (d.sig >= SIG_MIN || d.exp == -1074)
  }

  type double = d: Double | Canonical(d) witness NaN

  /** The 11-bit exponent field. */
  function ExponentField(d: double): nat {
    match d
    case NaN => 2047
    case Inf(_) => 2047
    case Finite(_, sig, exp) => if sig < SIG_MIN then 0 else exp + 1075
  }

  /** magnitude_at_least_2_63: a test on the exponent field. */
  predicate Large(d: double) { ExponentField(d) >= 0x43e }

  // ---- values -----------------------------------------------------------------------

  /** A finite datum is the fraction Top / Bottom. */
  function Magnitude(d: Double): nat
    requires d.Finite?
  {
    d.sig * Pow2(if d.exp > 0 then d.exp else 0)
  }

  function Top(d: Double): int
    requires d.Finite?
  {
    if d.neg then 0 - Magnitude(d) else Magnitude(d)
  }

  function Bottom(d: Double): (b: nat)
    requires d.Finite?
    ensures b > 0
  {
    Pow2(if d.exp < 0 then 0 - d.exp else 0)
  }

  /** The processor's comparisons: of the values; false with a NaN. */
  predicate Less(x: Double, y: Double) {
    match (x, y)
    case (NaN, _) => false
    case (_, NaN) => false
    case (Inf(s), Inf(t)) => s && !t
    case (Inf(s), _) => s
    case (_, Inf(t)) => !t
    case (Finite(_, _, _), Finite(_, _, _)) => Top(x) * Bottom(y) < Top(y) * Bottom(x)
  }

  predicate Equal(x: Double, y: Double) {
    match (x, y)
    case (Inf(s), Inf(t)) => s == t
    case (Finite(_, _, _), Finite(_, _, _)) => Top(x) * Bottom(y) == Top(y) * Bottom(x)
    case _ => false
  }

  predicate LessEq(x: Double, y: Double) { Less(x, y) || Equal(x, y) }

  /** `x < 0` and `x > 0`. */
  predicate Negative(x: Double) { if x.Finite? then Top(x) < 0 else x.Inf? && x.neg }

  predicate Positive(x: Double) { if x.Finite? then Top(x) > 0 else x.Inf? && !x.neg }

  // ---- conversions ---------------------------------------------------------------------

  /** `(int64_t)x` for a finite x below 2^63 in magnitude: truncation. */
  function Trunc(d: double): (i: int64)
    requires d.Finite? && !Large(d)
    ensures -TWO_63 < i
  {
    TruncRange(d);
    var q := Quot(Magnitude(d), Bottom(d));
    if d.neg then 0 - q else q
  }

  function Quot(m: nat, b: nat): nat
    requires b > 0
  {
    m / b
  }

  /** Halving to 53 bits with a guard and a sticky bit, then rounding half to even. */
  function Round(m: nat, e: nat, guard: bool, sticky: bool): (r: (nat, nat))
    ensures r.0 < SIG_END
    decreases m
  {
    if m >= SIG_END then Round(m / 2, e + 1, m % 2 == 1, sticky || guard)
    else if guard && (sticky || m % 2 == 1) then (if m + 1 == SIG_END then (SIG_MIN, e + 1) else (m + 1, e))
    else (m, e)
  }

  /** Shifting a short significand up to its canonical place. */
  function Normalise(m: nat, e: int): (r: (nat, int))
    requires m < SIG_END && e >= -1074
    ensures r.0 < SIG_END && -1074 <= r.1 <= e && (r.0 >= SIG_MIN || r.1 == -1074)
    decreases e + 1074
  {
    if m >= SIG_MIN || e == -1074 then (m, e) else Normalise(2 * m, e - 1)
  }

  /** Halvings stop after as many steps as the magnitude has excess bits. */
  lemma {:induction false} RoundShort(m: nat, e: nat, guard: bool, sticky: bool, k: nat)
    requires m < SIG_END * Pow2(k)
    ensures Round(m, e, guard, sticky).1 <= e + k + 1
    decreases k
  {
    if m >= SIG_END && k > 0 {
      assert SIG_END * Pow2(k) == 2 * (SIG_END * Pow2(k - 1));
      RoundShort(m / 2, e + 1, m % 2 == 1, sticky || guard, k - 1);
    }
  }

  /** `(double)i`. */
  function FromInt(i: int64): double {
    var m := if i < 0 then 0 - i else i;
    assert m < SIG_END * Pow2(11);
    RoundShort(m, 0, false, false, 11);
    var (sig, e) := Round(m, 0, false, false);
    var (sig', e') := Normalise(sig, e);
    Finite(i < 0, sig', e')
  }

  // ---- the helpers, as the code has them --------------------------------------------------

  function LuaFloor(x: double): double {
    if Large(x) then x
    else
      var i := Trunc(x);
      var t := FromInt(i);
      if Negative(x) && !Equal(t, x) then FromInt(i - 1) else t
  }

  function LuaCeil(x: double): double {
    if Large(x) then x
    else
      var i := Trunc(x);
      var t := FromInt(i);
      if Positive(x) && !Equal(t, x) then CeilRange(x); FromInt(i + 1) else t
  }

  datatype Mode = ToEqual | ToCeil | ToFloor

  function FloatToInt(f: double, mode: Mode): Option<int64> {
    if !Equal(f, f) then None
    else
      var v := LuaFloor(f);
      if !Equal(v, f) && mode == ToEqual then None
      else
        var w := if !Equal(v, f) && mode == ToCeil then LuaCeil(f) else v;
        if Large(w) || !w.Finite? then None else Some(Trunc(w))
  }

  predicate FitsFloat(i: int64) { 0 - SIG_MIN <= i <= SIG_MIN }

  predicate EqIntFloat(i: int64, f: double) { FloatToInt(f, ToEqual) == Some(i) }

  predicate LtIntFloat(i: int64, f: double) {
    if FitsFloat(i) then Less(FromInt(i), f)
    else match FloatToInt(f, ToCeil) case Some(c) => i < c case None => Positive(f)
  }

  predicate LeIntFloat(i: int64, f: double) {
    if FitsFloat(i) then LessEq(FromInt(i), f)
    else match FloatToInt(f, ToFloor) case Some(c) => i <= c case None => Positive(f)
  }

  predicate LtFloatInt(f: double, i: int64) {
    if FitsFloat(i) then Less(f, FromInt(i))
    else match FloatToInt(f, ToFloor) case Some(c) => c < i case None => Negative(f)
  }

  predicate LeFloatInt(f: double, i: int64) {
    if FitsFloat(i) then LessEq(f, FromInt(i))
    else match FloatToInt(f, ToCeil) case Some(c) => c <= i case None => Negative(f)
  }

  // ---- the mathematical comparisons ---------------------------------------------------------

  /** -1, 0 or 1 as i is below, equal to or above f; None for NaN. */
  ghost function Order(i: int, f: Double): Option<int> {
    match f
    case NaN => None
    case Inf(neg) => Some(if neg then 1 else -1)
    case Finite(_, _, _) =>
      Some(if i * Bottom(f) < Top(f) then -1 else if i * Bottom(f) == Top(f) then 0 else 1)
  }

  // ---- magnitude ---------------------------------------------------------------------------------

  lemma MulBounds(a: nat, b: nat, c: nat, d: nat)
    requires a <= c && b <= d
    ensures a * b <= c * d
  {
    assert a * b <= c * b;
    assert c * b <= c * d;
  }

  /** The exponent test is exactly |x| >= 2^63. */
  lemma LargeIff(d: double)
    requires d.Finite?
    ensures Large(d) <==> Magnitude(d) >= TWO_63 * Bottom(d)
  {
    assert Pow2(11) == 2048 && Pow2(10) == 1024;
    if d.sig >= SIG_MIN && d.exp >= 11 {
      Pow2Mono(11, d.exp);
      MulBounds(SIG_MIN, Pow2(11), d.sig, Pow2(d.exp));
      assert Bottom(d) == 1;
    } else if d.exp >= 0 {
      Pow2Mono(d.exp, 10);
      MulBounds(d.sig, Pow2(d.exp), SIG_END - 1, Pow2(10));
      assert Bottom(d) == 1;
    } else {
      assert d.sig * Pow2(0) == d.sig;
      MulBounds(TWO_63, 1, TWO_63, Bottom(d));
    }
  }

  lemma DivBound(m: nat, b: nat, n: nat)
    requires b > 0 && m < n * b
    ensures Quot(m, b) < n
  {
    if m / b >= n {
      MulBounds(n, b, m / b, b);
    }
  }

  lemma TruncRange(d: double)
    requires d.Finite? && !Large(d)
    ensures Quot(Magnitude(d), Bottom(d)) < TWO_63
  {
    LargeIff(d);
    DivBound(Magnitude(d), Bottom(d), TWO_63);
  }

  // ---- exact conversions ------------------------------------------------------------------------

  /** d is the integer n. */
  ghost predicate ExactInt(d: Double, n: int) { d.Finite? && Top(d) == n * Bottom(d) }

  /** sig * 2^e is the natural number n. */
  ghost predicate Denotes(sig: nat, e: int, n: nat) {
    if e >= 0 then sig * Pow2(e) == n else sig == n * Pow2(0 - e)
  }

  /** Rounding does nothing to a number with at most 53 significant bits. */
  lemma {:induction false} RoundExact(s: nat, j: nat, e: nat)
    requires s < SIG_END
    ensures var (m, e') := Round(s * Pow2(j), e, false, false);
            e <= e' && m * Pow2(e' - e) == s * Pow2(j)
    decreases j
  {
    var m := s * Pow2(j);
    if m >= SIG_END && j > 0 {
      var half := s * Pow2(j - 1);
      assert m == 2 * half;
      RoundExact(s, j - 1, e + 1);
      var (m', e') := Round(half, e + 1, false, false);
      assert m' * Pow2(e' - e) == 2 * (m' * Pow2(e' - e - 1));
    }
  }

  lemma {:induction false} NormaliseExact(m: nat, e: int, n: nat)
    requires m < SIG_END && e >= -1074 && Denotes(m, e, n)
    ensures Denotes(Normalise(m, e).0, Normalise(m, e).1, n)
    decreases e + 1074
  {
    if m < SIG_MIN && e > -1074 {
      if e > 0 {
        assert 2 * m * Pow2(e - 1) == m * Pow2(e);
      } else {
        assert 2 * (n * Pow2(0 - e)) == n * Pow2(1 - e);
      }
      NormaliseExact(2 * m, e - 1, n);
    }
  }

  lemma FromIntExact(i: int64, s: nat, j: nat)
    requires s < SIG_END && (if i < 0 then 0 - i else i) == s * Pow2(j)
    ensures ExactInt(FromInt(i), i)
  {
    var m := if i < 0 then 0 - i else i;
    RoundExact(s, j, 0);
    var (sig, e) := Round(m, 0, false, false);
    RoundShort(m, 0, false, false, 11);
    NormaliseExact(sig, e, m);
    DenotesTop(FromInt(i), m);
  }

  lemma DenotesTop(d: Double, n: nat)
    requires d.Finite? && Denotes(d.sig, d.exp, n)
    ensures ExactInt(d, if d.neg then 0 - n else n)
  {
    assert Pow2(0) == 1;
    assert (0 - n) * Bottom(d) == 0 - n * Bottom(d);
  }

  lemma FromSmall(i: int64)
    requires 0 - SIG_END < i < SIG_END
    ensures ExactInt(FromInt(i), i)
  {
    FromIntExact(i, if i < 0 then 0 - i else i, 0);
  }

  lemma Cancel(x: int, y: int, b: nat)
    requires b > 0
    ensures x * b < y * b <==> x < y
    ensures x * b == y * b <==> x == y
  {
    if x < y {
      MulBounds(1, b, y - x, b);
    } else if x > y {
      MulBounds(1, b, x - y, b);
    }
  }

  /** Comparing with the datum of an integer compares with the integer. */
  lemma IntCompare(t: Double, n: int, x: Double)
    requires ExactInt(t, n) && x.Finite?
    ensures Less(t, x) <==> n * Bottom(x) < Top(x)
    ensures Less(x, t) <==> Top(x) < n * Bottom(x)
    ensures Equal(t, x) <==> n * Bottom(x) == Top(x)
    ensures Equal(x, t) <==> n * Bottom(x) == Top(x)
  {
    assert n * Bottom(t) * Bottom(x) == n * Bottom(x) * Bottom(t);
    Cancel(n * Bottom(x), Top(x), Bottom(t));
    Cancel(Top(x), n * Bottom(x), Bottom(t));
  }

  // ---- truncation, floor and ceiling --------------------------------------------------------------

  /** The truncation of a datum converts back exactly. */
  lemma TruncBack(x: double)
    requires x.Finite? && !Large(x)
    ensures ExactInt(FromInt(Trunc(x)), Trunc(x))
    ensures Equal(FromInt(Trunc(x)), x) <==> Trunc(x) * Bottom(x) == Top(x)
  {
    TruncRange(x);
    var q := Quot(Magnitude(x), Bottom(x));
    if x.exp >= 0 {
      assert q == x.sig * Pow2(x.exp);
      FromIntExact(Trunc(x), x.sig, x.exp);
    } else {
      QuotSmall(x);
      FromIntExact(Trunc(x), q, 0);
    }
    IntCompare(FromInt(Trunc(x)), Trunc(x), x);
  }

  /** A datum with a fraction part is below 2^52. */
  lemma QuotSmall(x: double)
    requires x.Finite? && x.exp < 0
    ensures Quot(Magnitude(x), Bottom(x)) < SIG_MIN
  {
    assert Magnitude(x) == x.sig;
    assert Bottom(x) == 2 * Pow2(0 - x.exp - 1);
    MulBounds(SIG_MIN, 2, SIG_MIN, Bottom(x));
    DivBound(x.sig, Bottom(x), SIG_MIN);
  }

  lemma Fractional(x: double)
    requires x.Finite? && !Large(x) && Trunc(x) * Bottom(x) != Top(x)
    ensures x.exp < 0 && 0 - SIG_MIN < Trunc(x) < SIG_MIN
  {
    if x.exp < 0 {
      QuotSmall(x);
    }
  }

  lemma CeilRange(x: double)
    requires x.Finite? && !Large(x) && !Equal(FromInt(Trunc(x)), x)
    ensures Trunc(x) < SIG_MIN
  {
    TruncBack(x);
    Fractional(x);
  }

  /** n is the floor of t / b; n is the ceiling. */
  ghost predicate IsFloor(n: int, t: int, b: nat) { n * b <= t < (n + 1) * b }

  ghost predicate IsCeil(n: int, t: int, b: nat) { (n - 1) * b < t <= n * b }

  lemma QuotFloor(m: nat, b: nat)
    requires b > 0
    ensures IsFloor(Quot(m, b), m, b)
  {
  }

  /** Floor and ceiling from the truncated quotient: one step away from zero when
      the signed fraction is on that side and not whole. */
  lemma SignedFloor(neg: bool, q: nat, m: nat, b: nat)
    requires b > 0 && IsFloor(q, m, b)
    ensures var t, i := if neg then 0 - m else m, if neg then 0 - q else q;
            && IsFloor(if t < 0 && i * b != t then i - 1 else i, t, b)
            && IsCeil(if t > 0 && i * b != t then i + 1 else i, t, b)
  {
    var p := q * b;
    assert (q + 1) * b == p + b && (0 - q) * b == 0 - p;
    assert (0 - q - 1) * b == 0 - p - b && (1 - q) * b == b - p && (q - 1) * b == p - b;
  }

  lemma SmallNotLarge(d: double, n: int)
    requires ExactInt(d, n) && -TWO_63 < n < TWO_63
    ensures !Large(d)
  {
    LargeIff(d);
    var k := if n < 0 then 0 - n else n;
    assert Magnitude(d) == k * Bottom(d);
    Cancel(k, TWO_63, Bottom(d));
  }

  lemma FloorValue(x: double) returns (n: int64)
    requires x.Finite? && !Large(x)
    ensures IsFloor(n, Top(x), Bottom(x)) && ExactInt(LuaFloor(x), n) && !Large(LuaFloor(x))
    ensures Equal(LuaFloor(x), x) <==> n * Bottom(x) == Top(x)
  {
    TruncBack(x);
    var b, i := Bottom(x), Trunc(x);
    QuotFloor(Magnitude(x), b);
    SignedFloor(x.neg, Quot(Magnitude(x), b), Magnitude(x), b);
    if Negative(x) && i * b != Top(x) {
      Fractional(x);
      n := i - 1;
      FromSmall(n);
    } else {
      n := i;
    }
    SmallNotLarge(LuaFloor(x), n);
    IntCompare(LuaFloor(x), n, x);
  }

  lemma CeilValue(x: double) returns (n: int64)
    requires x.Finite? && !Large(x)
    ensures IsCeil(n, Top(x), Bottom(x)) && ExactInt(LuaCeil(x), n) && !Large(LuaCeil(x))
  {
    TruncBack(x);
    var b, i := Bottom(x), Trunc(x);
    QuotFloor(Magnitude(x), b);
    SignedFloor(x.neg, Quot(Magnitude(x), b), Magnitude(x), b);
    if Positive(x) && i * b != Top(x) {
      Fractional(x);
      n := i + 1;
      FromSmall(n);
    } else {
      n := i;
    }
    SmallNotLarge(LuaCeil(x), n);
  }

  /** Truncating the datum of an integer gives the integer. */
  lemma TruncInt(d: double, n: int)
    requires ExactInt(d, n) && !Large(d)
    ensures Trunc(d) == n
  {
    TruncRange(d);
    var b := Bottom(d);
    var k := if n < 0 then 0 - n else n;
    assert Magnitude(d) == k * b;
    QuotMul(k, b);
  }

  lemma QuotMul(k: nat, b: nat)
    requires b > 0
    ensures Quot(k * b, b) == k
  {
    var q := Quot(k * b, b);
    QuotFloor(k * b, b);
    Cancel(k, q + 1, b);
    Cancel(q, k, b);
  }

  /** flt_to_int is exact: nothing for NaN, infinities and magnitudes of 2^63 and
      more; otherwise the floor, the ceiling, or the integer the datum is. */
  lemma FloatToIntExact(f: double, mode: Mode)
    ensures !f.Finite? || Large(f) ==> FloatToInt(f, mode).None?
    ensures f.Finite? && !Large(f) && mode == ToFloor ==>
              FloatToInt(f, mode).Some? && IsFloor(FloatToInt(f, mode).value, Top(f), Bottom(f))
    ensures f.Finite? && !Large(f) && mode == ToCeil ==>
              FloatToInt(f, mode).Some? && IsCeil(FloatToInt(f, mode).value, Top(f), Bottom(f))
    ensures f.Finite? && !Large(f) && mode == ToEqual ==>
              if FloatToInt(f, mode).Some? then ExactInt(f, FloatToInt(f, mode).value)
              else forall n: int :: !ExactInt(f, n)
  {
    if f.Finite? && !Large(f) {
      var n := FloorValue(f);
      TruncInt(LuaFloor(f), n);
      if n * Bottom(f) != Top(f) {
        NotInt(f, n);
        var c := CeilValue(f);
        TruncInt(LuaCeil(f), c);
      } else {
        assert (n - 1) * Bottom(f) == n * Bottom(f) - Bottom(f);
      }
    }
  }

  lemma NotInt(f: Double, n: int)
    requires f.Finite? && IsFloor(n, Top(f), Bottom(f)) && n * Bottom(f) != Top(f)
    ensures forall k: int :: !ExactInt(f, k)
  {
    forall k: int
      ensures !ExactInt(f, k)
    {
      Cancel(n, k, Bottom(f));
      Cancel(k, n + 1, Bottom(f));
    }
  }

  // ---- the theorems ---------------------------------------------------------------------------------

  /** Comparing an integer with a fraction through its floor or ceiling. */
  lemma ThroughFloor(i: int, n: int, t: int, b: nat)
    requires b > 0 && IsFloor(n, t, b)
    ensures i <= n <==> i * b <= t
    ensures n < i <==> t < i * b
  {
    Cancel(n, i, b);
    Cancel(i, n + 1, b);
  }

  lemma ThroughCeil(i: int, n: int, t: int, b: nat)
    requires b > 0 && IsCeil(n, t, b)
    ensures i < n <==> i * b < t
    ensures n <= i <==> t <= i * b
  {
    Cancel(i, n, b);
    Cancel(n - 1, i, b);
  }

  /** Where a finite magnitude is 2^63 or more, its sign decides against any int64,
      except that -2^63 equals itself. */
  lemma LargeOrder(i: int64, f: double)
    requires f.Finite? && Large(f)
    ensures Order(i, f) == if Top(f) > 0 then Some(-1)
                           else if ExactInt(f, i) then Some(0) else Some(1)
    ensures ExactInt(f, i) ==> i == -TWO_63
    ensures Top(f) != 0
  {
    LargeIff(f);
    var b := Bottom(f);
    MulBounds(TWO_63, 1, TWO_63, b);
    Cancel(i, TWO_63, b);
    Cancel(i, 0 - TWO_63, b);
    assert (0 - TWO_63) * b == 0 - TWO_63 * b;
  }

  /** The one pair the exponent test misjudges. */
  ghost predicate MinPair(i: int64, f: double) { i == -TWO_63 && ExactInt(f, -TWO_63) }

  lemma SmallCompare(i: int64, f: double)
    requires FitsFloat(i)
    ensures Less(FromInt(i), f) <==> Order(i, f) == Some(-1)
    ensures Less(f, FromInt(i)) <==> Order(i, f) == Some(1)
    ensures Equal(FromInt(i), f) <==> Order(i, f) == Some(0)
    ensures Equal(f, FromInt(i)) <==> Order(i, f) == Some(0)
    ensures !MinPair(i, f)
  {
    FromSmall(i);
    if f.Finite? {
      IntCompare(FromInt(i), i, f);
    }
  }

  /** i < f holds exactly when the value of i is below that of f. */
  lemma LtIntFloatExact(i: int64, f: double)
    ensures LtIntFloat(i, f) <==> Order(i, f) == Some(-1)
  {
    if FitsFloat(i) {
      SmallCompare(i, f);
    } else {
      FloatToIntExact(f, ToCeil);
      if f.Finite? {
        if Large(f) {
          LargeOrder(i, f);
        } else {
          ThroughCeil(i, FloatToInt(f, ToCeil).value, Top(f), Bottom(f));
        }
      }
    }
  }

  /** f <= i holds exactly when the value of f is at most that of i. */
  lemma LeFloatIntExact(i: int64, f: double)
    ensures LeFloatInt(f, i) <==> Order(i, f) == Some(0) || Order(i, f) == Some(1)
  {
    if FitsFloat(i) {
      SmallCompare(i, f);
    } else {
      FloatToIntExact(f, ToCeil);
      if f.Finite? {
        if Large(f) {
          LargeOrder(i, f);
        } else {
          ThroughCeil(i, FloatToInt(f, ToCeil).value, Top(f), Bottom(f));
        }
      }
    }
  }

  /** i <= f is right for every pair but (INT64_MIN, -2^63), where it is wrong. */
  lemma LeIntFloatExactIff(i: int64, f: double)
    ensures (LeIntFloat(i, f) <==> Order(i, f) == Some(-1) || Order(i, f) == Some(0)) <==> !MinPair(i, f)
  {
    if FitsFloat(i) {
      SmallCompare(i, f);
    } else {
      FloatToIntExact(f, ToFloor);
      if f.Finite? {
        if Large(f) {
          LargeOrder(i, f);
        } else {
          ThroughFloor(i, FloatToInt(f, ToFloor).value, Top(f), Bottom(f));
          MinIsLarge(i, f);
        }
      }
    }
  }

  /** f < i is right for every pair but (INT64_MIN, -2^63), where it is wrong. */
  lemma LtFloatIntExactIff(i: int64, f: double)
    ensures (LtFloatInt(f, i) <==> Order(i, f) == Some(1)) <==> !MinPair(i, f)
  {
    if FitsFloat(i) {
      SmallCompare(i, f);
    } else {
      FloatToIntExact(f, ToFloor);
      if f.Finite? {
        if Large(f) {
          LargeOrder(i, f);
        } else {
          ThroughFloor(i, FloatToInt(f, ToFloor).value, Top(f), Bottom(f));
          MinIsLarge(i, f);
        }
      }
    }
  }

  /** i == f is right for every pair but (INT64_MIN, -2^63), where it is wrong. */
  lemma EqIntFloatExactIff(i: int64, f: double)
    ensures (EqIntFloat(i, f) <==> Order(i, f) == Some(0)) <==> !MinPair(i, f)
  {
    FloatToIntExact(f, ToEqual);
    if f.Finite? {
      if Large(f) {
        LargeOrder(i, f);
      } else {
        MinIsLarge(i, f);
        var r := FloatToInt(f, ToEqual);
        if r.Some? {
          Cancel(i, r.value, Bottom(f));
        } else {
          assert !ExactInt(f, i);
        }
      }
    }
  }

  lemma MinIsLarge(i: int64, f: double)
    requires f.Finite? && !Large(f)
    ensures !MinPair(i, f)
  {
    LargeIff(f);
  }

  /** The exceptional pair exists: -2^63 is -2^52 * 2^11. */
  lemma MinPairExists()
    ensures MinPair(-TWO_63, Finite(true, SIG_MIN, 11))
  {
    assert Pow2(11) == 2048 && Pow2(0) == 1;
  }
}
