/** Mixed comparison after conversion: the ordering opcodes convert the integer to
    binary64 and compare two doubles. Conversion rounds to the nearest datum, so it
    keeps every order but may turn a strict one into equality. */
module Rounding {
  import opened Values
  import opened Bits
  import opened Compare
  import opened Learning
  import opened Operators

  // ---- the nearest datum ----------------------------------------------------------------

  function Dist(a: int, b: int): nat { if a < b then b - a else a - b }

  /** The value `v` is m * 2^e and a remainder, which guard and sticky bit describe. */
  ghost predicate Pending(v: nat, m: nat, e: nat, guard: bool, sticky: bool) {
    var rest := v - Scaled(m, e);
    && 0 <= rest < Pow2(e) && (e > 0 ==> m >= SIG_MIN)
    && (guard <==> 2 * rest >= Pow2(e)) && (guard && !sticky <==> 2 * rest == Pow2(e))
    && (!guard && !sticky <==> rest == 0)
  }

  lemma PendingHalf(v: nat, m: nat, e: nat, guard: bool, sticky: bool)
    requires Pending(v, m, e, guard, sticky) && m >= SIG_END
    ensures Pending(v, m / 2, e + 1, m % 2 == 1, sticky || guard)
  {
    assert Scaled(m, e) == (m / 2) * Pow2(e + 1) + (m % 2) * Pow2(e);
  }

  /** The number with significand s and exponent j. */
  function Scaled(s: nat, j: nat): nat { s * Pow2(j) }

  lemma ScaledMono(s: nat, j: nat, t: nat, k: nat)
    requires s <= t && j <= k
    ensures Scaled(s, j) <= Scaled(t, k)
  {
    Pow2Mono(j, k);
    MulBounds(s, Pow2(j), t, Pow2(k));
  }

  lemma ScaledSplit(s: nat, j: nat, e: nat)
    requires e <= j
    ensures Scaled(s, j) == Scaled(s * Pow2(j - e), e)
  {
    Pow2Sum(j - e, e);
    assert s * (Pow2(j - e) * Pow2(e)) == s * Pow2(j - e) * Pow2(e);
  }

  /** No number of 53 significant bits lies strictly between two neighbours. */
  lemma Neighbours(s: nat, j: nat, m: nat, e: nat)
    requires s < SIG_END && (e > 0 ==> m >= SIG_MIN)
    ensures Scaled(s, j) <= Scaled(m, e) || Scaled(s, j) >= Scaled(m + 1, e)
  {
    if j >= e {
      var t := s * Pow2(j - e);
      ScaledSplit(s, j, e);
      if t <= m {
        ScaledMono(t, e, m, e);
      } else {
        ScaledMono(m + 1, e, t, e);
      }
    } else {
      ScaledMono(s, j, SIG_END, e - 1);
      assert Scaled(SIG_END, e - 1) == Scaled(SIG_MIN, e);
      ScaledMono(SIG_MIN, e, m, e);
    }
  }

  /** Between two neighbours, the chosen one is nearest; of two at the same distance, the
      one with the even significand. */
  lemma ChosenNearest(v: nat, m: nat, e: nat, guard: bool, sticky: bool, t: nat)
    requires Pending(v, m, e, guard, sticky) && (t <= Scaled(m, e) || t >= Scaled(m + 1, e))
    ensures var up := guard && (sticky || m % 2 == 1);
            var r := Scaled(if up then m + 1 else m, e);
            && Dist(v, r) <= Dist(v, t)
            && (Dist(v, r) == Dist(v, t) && r != t ==> (if up then m + 1 else m) % 2 == 0)
  {
    assert Scaled(m + 1, e) == Scaled(m, e) + Pow2(e);
  }

  /** Rounding half to even: the result is nearest among all numbers s * 2^j of 53
      significant bits, and even where another one is as near. */
  lemma {:induction false} RoundNearest(v: nat, m: nat, e: nat, guard: bool, sticky: bool, s: nat, j: nat)
    requires Pending(v, m, e, guard, sticky) && s < SIG_END
    ensures var (r, e') := Round(m, e, guard, sticky);
            && Dist(v, Scaled(r, e')) <= Dist(v, Scaled(s, j))
            && (Dist(v, Scaled(r, e')) == Dist(v, Scaled(s, j)) && Scaled(r, e') != Scaled(s, j) ==> r % 2 == 0)
    decreases m
  {
    if m >= SIG_END {
      PendingHalf(v, m, e, guard, sticky);
      RoundNearest(v, m / 2, e + 1, m % 2 == 1, sticky || guard, s, j);
    } else {
      Neighbours(s, j, m, e);
      ChosenNearest(v, m, e, guard, sticky, Scaled(s, j));
      assert Scaled(SIG_END, e) == Scaled(SIG_MIN, e + 1);
    }
  }

  // ---- (double)i as an integer ----------------------------------------------------------

  function Mag(i: int): nat { if i < 0 then 0 - i else i }

  function Signed(neg: bool, n: nat): int { if neg then 0 - n else n }

  /** The integer that (double)i is. */
  function Rounded(i: int64): int {
    var (r, e) := Round(Mag(i), 0, false, false);
    Signed(i < 0, Scaled(r, e))
  }

  lemma FromIntRounded(i: int64)
    ensures ExactInt(FromInt(i), Rounded(i))
  {
    var m := Mag(i);
    RoundShort(m, 0, false, false, 11);
    var (sig, e) := Round(m, 0, false, false);
    NormaliseExact(sig, e, Scaled(sig, e));
    DenotesTop(FromInt(i), Scaled(sig, e));
  }

  /** Conversion is monotone against every number of 53 significant bits. */
  lemma RoundedSide(i: int64, neg: bool, s: nat, j: nat)
    requires s < SIG_END
    ensures var t := Signed(neg, Scaled(s, j));
            (i <= t ==> Rounded(i) <= t) && (i >= t ==> Rounded(i) >= t)
  {
    assert Pending(Mag(i), Mag(i), 0, false, false);
    RoundNearest(Mag(i), Mag(i), 0, false, false, s, j);
    RoundNearest(Mag(i), Mag(i), 0, false, false, 0, 0);
  }

  /** An integer converts exactly if and only if 53 significant bits hold it. */
  lemma RoundedSelfIff(i: int64)
    ensures Rounded(i) == i <==> exists s: nat, j: nat :: s < SIG_END && Mag(i) == Scaled(s, j)
  {
    if s: nat, j: nat :| s < SIG_END && Mag(i) == Scaled(s, j) {
      RoundedSide(i, i < 0, s, j);
    }
    var (r, e) := Round(Mag(i), 0, false, false);
    assert Rounded(i) == i ==> Mag(i) == Scaled(r, e);
  }

  // ---- comparing after conversion -------------------------------------------------------

  /** Comparing the converted integer compares the rounded one. */
  lemma ConvertedCompare(i: int64, f: double)
    ensures Less(FromInt(i), f) <==> Order(Rounded(i), f) == Some(-1)
    ensures Less(f, FromInt(i)) <==> Order(Rounded(i), f) == Some(1)
    ensures Equal(FromInt(i), f) <==> Order(Rounded(i), f) == Some(0)
    ensures Equal(f, FromInt(i)) <==> Order(Rounded(i), f) == Some(0)
  {
    FromIntRounded(i);
    if f.Finite? {
      IntCompare(FromInt(i), Rounded(i), f);
    }
  }

  /** Below 2^53 nothing is rounded. */
  lemma ShortRounded(i: int64)
    requires Mag(i) < SIG_END
    ensures Rounded(i) == i
  {
    assert Scaled(Mag(i), 0) == Mag(i);
    RoundedSide(i, i < 0, Mag(i), 0);
  }

  /** A datum with a fraction part lies within (-2^53, 2^53). */
  lemma FractionShort(i: int, f: double)
    requires f.Finite? && f.exp < 0 && Mag(i) >= SIG_END
    ensures Order(i, f) == Some(if i < 0 then -1 else 1)
  {
    assert Magnitude(f) == f.sig;
    MulBounds(SIG_END, 1, Mag(i), Bottom(f));
    assert (0 - i) * Bottom(f) == 0 - i * Bottom(f);
  }

  /** Conversion keeps the order against every datum, up to equality. */
  lemma OrderKept(i: int64, f: double)
    ensures Order(i, f) == Some(-1) ==> Order(Rounded(i), f) in {Some(-1), Some(0)}
    ensures Order(i, f) == Some(1) ==> Order(Rounded(i), f) in {Some(1), Some(0)}
    ensures Order(i, f) == Some(0) ==> Order(Rounded(i), f) == Some(0)
  {
    if f.Finite? {
      if Mag(i) < SIG_END {
        ShortRounded(i);
      } else if f.exp >= 0 {
        assert Bottom(f) == 1 && Top(f) == Signed(f.neg, Scaled(f.sig, f.exp));
        RoundedSide(i, f.neg, f.sig, f.exp);
      } else {
        assert Scaled(SIG_MIN, 1) == SIG_END;
        RoundedSide(i, i < 0, SIG_MIN, 1);
        FractionShort(i, f);
        FractionShort(Rounded(i), f);
      }
    }
  }

  // ---- the ordering opcodes -----------------------------------------------------------------

  /** The foreign operations are those of binary64, on the data the words stand for. */
  ghost predicate Binary64(env: Foreign, datum: int64 -> double) {
    && (forall i: int64 :: datum(env.ofInt(i)) == FromInt(i))
    && (forall a: int64, b: int64 :: env.less(a, b) <==> Less(datum(a), datum(b)))
    && (forall a: int64, b: int64 :: env.lessEq(a, b) <==> LessEq(datum(a), datum(b)))
  }

  predicate Mixed(l: Value, r: Value) {
    (l.tag == Integer && r.tag == Float) || (l.tag == Float && r.tag == Integer)
  }

  /** -1, 0 or 1 as the left number is below, equal to or above the right one. */
  ghost function MixedOrder(datum: int64 -> double, l: Value, r: Value): Option<int>
    requires Mixed(l, r)
  {
    if l.tag == Integer then Order(l.word, datum(r.word))
    else match Order(r.word, datum(l.word)) case Some(o) => Some(0 - o) case None => None
  }

  /** What the language asks of an ordering operator. */
  ghost predicate Holds(op: Op, order: Option<int>)
    requires op.IsOrder()
  {
    match op
    case Lt(_) => order == Some(-1)
    case Le(_) => order == Some(-1) || order == Some(0)
    case Gt(_) => order == Some(1)
    case Ge(_) => order == Some(1) || order == Some(0)
  }

  /** The float is what the integer rounds to, and rounding moved the integer away from
      it on the side the operator distinguishes: `<` and `>=` take a left operand that is
      below for equal, `<=` and `>` one that is above. */
  ghost predicate Misjudged(datum: int64 -> double, op: Op, l: Value, r: Value)
    requires Mixed(l, r) && op.IsOrder()
  {
    var i := if l.tag == Integer then l.word else r.word;
    var f := datum(if l.tag == Integer then r.word else l.word);
    var below := if l.tag == Integer then i < Rounded(i) else Rounded(i) < i;
    && Equal(FromInt(i), f) && Rounded(i) != i && below == (op.Lt? || op.Ge?)
  }

  /** An ordering learner on an integer and a float, in either order, branches as the
      mathematical values ask if and only if the pair is not one of those. */
  lemma MixedOrderIff(env: Foreign, datum: int64 -> double, op: Op, l: Value, r: Value)
    requires Binary64(env, datum) && op.IsOrder() && Mixed(l, r)
    ensures LearnerOrder(env, op, l, r) == Branch(op, Holds(op, MixedOrder(datum, l, r)))
            <==> !Misjudged(datum, op, l, r)
  {
    var i := if l.tag == Integer then l.word else r.word;
    var f := datum(if l.tag == Integer then r.word else l.word);
    ConvertedCompare(i, f);
    OrderKept(i, f);
    if Order(Rounded(i), f) == Some(0) {
      EqualSide(i, f);
    }
  }

  /** Where the converted integer equals the float, rounding decides the true order. */
  lemma EqualSide(i: int64, f: double)
    requires Order(Rounded(i), f) == Some(0)
    ensures Order(i, f) == Some(if i < Rounded(i) then -1 else if i == Rounded(i) then 0 else 1)
  {
    Cancel(i, Rounded(i), Bottom(f));
    Cancel(Rounded(i), i, Bottom(f));
  }

  // ---- every ordering instruction ---------------------------------------------------------------

  /** Two doubles; none for a NaN. */
  ghost function DoubleOrder(x: Double, y: Double): Option<int> {
    if Less(x, y) then Some(-1) else if Equal(x, y) then Some(0) else if Less(y, x) then Some(1) else None
  }

  ghost function Sign(x: int): int { if x < 0 then -1 else if x == 0 then 0 else 1 }

  predicate Comparable(l: Value, r: Value) {
    (l.tag.IsNumber() && r.tag.IsNumber()) || (l.tag.IsString() && r.tag.IsString())
  }

  /** How the left operand compares with the right one: integers and floats by value,
      strings as the string comparison says. */
  ghost function TrueOrder(env: Foreign, datum: int64 -> double, l: Value, r: Value): Option<int>
    requires Comparable(l, r)
  {
    if Mixed(l, r) then MixedOrder(datum, l, r)
    else if l.tag == Integer then Some(Sign(l.word - r.word))
    else if l.tag == Float then DoubleOrder(datum(l.word), datum(r.word))
    else Some(Sign(env.compare(l.word, r.word)))
  }

  lemma LessExclusive(x: Double, y: Double)
    ensures !(Less(x, y) && Less(y, x)) && !(Less(x, y) && Equal(x, y)) && !(Less(y, x) && Equal(x, y))
    ensures Equal(x, y) == Equal(y, x)
  {
  }

  lemma SameKindOrder(env: Foreign, datum: int64 -> double, op: Op, l: Value, r: Value)
    requires Binary64(env, datum) && op.IsOrder() && Comparable(l, r) && !Mixed(l, r)
    ensures LearnerOrder(env, op, l, r) == Jump(Holds(op, TrueOrder(env, datum, l, r)) == op.k)
  {
    LessExclusive(datum(l.word), datum(r.word));
  }

  /** An ordering instruction on the running machine, with any two operands: it refuses what
      cannot be compared; otherwise it writes nothing, and takes its branch exactly when the
      comparison is the one its sense asks for, if and only if it is no misjudged pair. */
  lemma StepBranches(env: Foreign, datum: int64 -> double, prog: seq<Ins>, x: Learning, r: Value)
    requires Runnable(prog, |x.st.regs|) && x.st.status == Running && x.st.pc < |prog| && Binary64(env, datum)
    requires prog[x.st.pc].op.IsOrder() && IsOperand(x.st.regs, prog[x.st.pc].right, r)
    ensures var ins, st, st' := prog[x.st.pc], x.st, LearnStep(env, prog, x).st;
            var l := st.regs[ins.left];
            if !Comparable(l, r) then st' == st.(status := Refused)
            else
              var taken := Holds(ins.op, TrueOrder(env, datum, l, r)) == ins.op.k;
              var right := st.(pc := if taken then ins.taken else st.pc + 1);
              && (st' == st.(pc := ins.taken) || st' == st.(pc := st.pc + 1))
              && (!(Mixed(l, r) && Misjudged(datum, ins.op, l, r)) ==> st' == right)
              && (Mixed(l, r) && Misjudged(datum, ins.op, l, r) && ins.taken != st.pc + 1 ==> st' != right)
  {
    var ins := prog[x.st.pc];
    var l := x.st.regs[ins.left];
    if Mixed(l, r) {
      MixedOrderIff(env, datum, ins.op, l, r);
    } else if Comparable(l, r) {
      SameKindOrder(env, datum, ins.op, l, r);
    }
  }

  /** 2^53 + 1 rounds to 2^53, so `2^53 + 1 <= 2^53` holds for the opcode. */
  lemma RoundedDownWitness()
    ensures var i, f := SIG_END + 1, Finite(false, SIG_MIN, 1);
            && Canonical(f) && Rounded(i) == SIG_END
            && LessEq(FromInt(i), f) && Order(i, f) == Some(1)
  {
    var i, f := SIG_END + 1, Finite(false, SIG_MIN, 1);
    assert Round(i, 0, false, false) == Round(SIG_MIN, 1, true, false);
    assert Pow2(1) == 2 && Pow2(0) == 1;
    ConvertedCompare(i, f);
  }

  /** 2^53 + 3 rounds to 2^53 + 4, so `2^53 + 3 < 2^53 + 4` fails for the opcode. */
  lemma RoundedUpWitness()
    ensures var i, f := SIG_END + 3, Finite(false, SIG_MIN + 2, 1);
            && Canonical(f) && Rounded(i) == SIG_END + 4
            && !Less(FromInt(i), f) && Order(i, f) == Some(-1)
  {
    var i, f := SIG_END + 3, Finite(false, SIG_MIN + 2, 1);
    assert Round(i, 0, false, false) == Round(SIG_MIN + 1, 1, true, false);
    assert Pow2(1) == 2 && Pow2(0) == 1;
    ConvertedCompare(i, f);
  }
}
