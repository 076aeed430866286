/** Numeric for loops in the integer protocol: FORPREP, FORLOOP, and the fused
    accumulate cycles that replace them. Double arithmetic is a parameter. */
module ForLoops {
  import opened Values
  import opened Arithmetic

  type Regs = seq<Value>

  /** The double operations the leaves use, on payload words. */
  datatype Fpu = Fpu(ofInt: int64 -> int64, add: (int64, int64) -> int64)

  function Int(x: int64): Value { Value(Integer, x) }

  // ---- FORPREP and FORLOOP --------------------------------------------------------

  datatype Exit = Body | Skip | Again | Fall | SpecMismatch | StepZero

  datatype Outcome = Outcome(regs: Regs, exit: Exit)

  predicate IntControl(r: Regs, A: nat) {
    A + 2 < |r| && r[A].tag == Integer && r[A + 1].tag == Integer && r[A + 2].tag == Integer
  }

  /** `(uint64_t)a - (uint64_t)b`. */
  function Distance(a: int64, b: int64): uint64 { (a - b) % TWO_64 }

  /** The trip quotient computed by FORPREP, as an unsigned number. */
  function Quotient(iv: int64, lv: int64, sv: int64): (q: uint64)
    requires sv != 0
  {
    var stride: uint64 := if sv > 0 then sv else Distance(0, sv);
    assert stride > 0;
    var distance := if sv > 0 then Distance(lv, iv) else Distance(iv, lv);
    DivAtMost(distance, stride);
    distance / stride
  }

  lemma DivAtMost(a: nat, b: nat)
    requires b > 0
    ensures 0 <= a / b <= a
  {
    var q: nat := a / b;
    assert a == q * b + a % b;
    MulMonotone(1, b, q);
  }

  predicate Empty(iv: int64, lv: int64, sv: int64) {
    (sv > 0 && iv > lv) || (sv < 0 && iv < lv)
  }

  function SetControl(r: Regs, A: nat, count: int64, step: int64, idx: int64): (r': Regs)
    requires A + 2 < |r|
    ensures |r'| == |r|
  {
    r[A := Int(count)][A + 1 := Int(step)][A + 2 := Int(idx)]
  }

  /** lua55_v2l_forprep, integer branch (A, A+1, A+2 hold init, limit, step). */
  function ForPrep(r: Regs, A: nat): Outcome
    requires IntControl(r, A)
  {
    var iv, lv, sv := r[A].word, r[A + 1].word, r[A + 2].word;
    if sv == 0 then Outcome(r, StepZero)
    else if Empty(iv, lv, sv) then Outcome(r, Skip)
    else Outcome(SetControl(r, A, Wrap64(Quotient(iv, lv, sv)), sv, iv), Body)
  }

  /** lua55_v2r_forprep_int_pos / _neg. */
  function ForPrepLeaf(r: Regs, A: nat, pos: bool): Outcome
    requires A + 2 < |r|
  {
    if !IntControl(r, A) then Outcome(r, SpecMismatch)
    else
      var iv, lv, sv := r[A].word, r[A + 1].word, r[A + 2].word;
      if (pos && sv <= 0) || (!pos && sv >= 0) then Outcome(r, SpecMismatch)
      else if (pos && iv > lv) || (!pos && iv < lv) then Outcome(r, Skip)
      else
        var distance := if pos then Distance(lv, iv) else Distance(iv, lv);
        var stride: uint64 := if pos then sv else Distance(0, sv);
        assert stride > 0;
        DivAtMost(distance, stride);
        Outcome(SetControl(r, A, Wrap64(distance / stride), sv, iv), Body)
  }

  /** The residual leaf is the learner's integer branch restricted to one sign. */
  lemma ForPrepLeafExact(r: Regs, A: nat, pos: bool)
    requires A + 2 < |r|
    ensures ForPrepLeaf(r, A, pos) ==
            if IntControl(r, A) && (if pos then r[A + 2].word > 0 else r[A + 2].word < 0)
            then ForPrep(r, A) else Outcome(r, SpecMismatch)
  {
  }

  /** lua55_v2r_forloop_int. */
  function ForLoop(r: Regs, A: nat): Outcome
    requires A + 2 < |r|
  {
    if r[A + 1].tag != Integer then Outcome(r, SpecMismatch)
    else if r[A].word > 0 then
      Outcome(r[A := r[A].(word := r[A].word - 1)]
               [A + 2 := r[A + 2].(word := IntAdd(r[A + 2].word, r[A + 1].word))], Again)
    else Outcome(r, Fall)
  }

  /** Which way FORPREP and FORLOOP go: a zero step and a loop without trips change nothing;
      FORLOOP goes round again exactly while the count is positive, and exits without a
      change when its step is no integer. */
  lemma ForExits(r: Regs, A: nat)
    requires A + 2 < |r|
    ensures IntControl(r, A) ==>
              var p, iv, lv, sv := ForPrep(r, A), r[A].word, r[A + 1].word, r[A + 2].word;
              && (p.exit == StepZero <==> sv == 0)
              && (p.exit == Skip <==> (sv > 0 && iv > lv) || (sv < 0 && iv < lv))
              && (p.exit == StepZero || p.exit == Skip || p.exit == Body) && (p.exit != Body ==> p.regs == r)
    ensures var l := ForLoop(r, A);
            && (l.exit == SpecMismatch <==> r[A + 1].tag != Integer)
            && (l.exit == Again <==> r[A + 1].tag == Integer && r[A].word > 0)
            && (l.exit == SpecMismatch || l.exit == Again || l.exit == Fall) && (l.exit != Again ==> l.regs == r)
  {
  }

  // ---- running the loop -------------------------------------------------------------

  /** A loop body: any register transformation that leaves the control cells alone. */
  ghost predicate Respects(body: Regs -> Regs, A: nat) {
    forall r: Regs {:trigger body(r)} :: A + 2 < |r| ==>
      && |body(r)| == |r|
      && body(r)[A] == r[A] && body(r)[A + 1] == r[A + 1] && body(r)[A + 2] == r[A + 2]
  }

  /** Body, FORLOOP, body, ... until FORLOOP falls through: the loop indices seen by
      the body, and the registers at the end. */
  ghost function Cycle(r: Regs, A: nat, body: Regs -> Regs): (seq<int>, Regs)
    requires IntControl(r, A) && Respects(body, A)
    decreases if r[A].word > 0 then r[A].word else 0
  {
    var r1 := body(r);
    var next := ForLoop(r1, A);
    if next.exit == Again then
      var (seen, r') := Cycle(next.regs, A, body);
      ([r[A + 2].word as int] + seen, r')
    else ([r[A + 2].word as int], next.regs)
  }

  /** The whole statement: FORPREP, then the cycle if it enters the body. */
  ghost function ForStatement(r: Regs, A: nat, body: Regs -> Regs): (seq<int>, Regs)
    requires IntControl(r, A) && Respects(body, A)
  {
    var p := ForPrep(r, A);
    if p.exit == Body then Cycle(p.regs, A, body) else ([], p.regs)
  }

  // ---- trip arithmetic ----------------------------------------------------------------

  lemma DivBound(k: nat, d: nat, s: nat)
    requires s > 0
    ensures k * s <= d <==> k <= d / s
  {
    if k <= d / s {
      MulMonotone(k, d / s, s);
    } else {
      MulMonotone(d / s + 1, k, s);
    }
  }

  lemma MulMonotone(a: nat, b: nat, s: nat)
    requires a <= b
    ensures a * s <= b * s
  {
  }

  lemma DistanceExact(a: int64, b: int64)
    requires a >= b
    ensures Distance(a, b) == a - b
  {
  }

  /** Exact value of the quotient for a non-empty loop. */
  lemma QuotientExact(iv: int64, lv: int64, sv: int64)
    requires sv != 0 && !Empty(iv, lv, sv)
    ensures Quotient(iv, lv, sv) == (if sv > 0 then (lv - iv) / sv else (iv - lv) / (0 - sv))
  {
    if sv > 0 {
      DistanceExact(lv, iv);
    } else {
      DistanceExact(iv, lv);
      DistanceExact(0, sv);
    }
  }

  /** Index k has not passed the limit. */
  ghost predicate Within(iv: int, lv: int, sv: int, k: nat) {
    if sv > 0 then iv + k * sv <= lv else iv + k * sv >= lv
  }

  /** The indices not past the limit are exactly those up to the quotient. */
  lemma WithinIff(iv: int64, lv: int64, sv: int64, k: nat)
    requires sv != 0 && !Empty(iv, lv, sv)
    ensures Within(iv, lv, sv, k) <==> k <= Quotient(iv, lv, sv)
  {
    QuotientExact(iv, lv, sv);
    if sv > 0 {
      DivBound(k, lv - iv, sv);
    } else {
      DivBound(k, iv - lv, 0 - sv);
      assert k * sv == 0 - k * (0 - sv);
    }
  }

  /** No index within the limit leaves the 64-bit range. */
  lemma WithinRange(iv: int64, lv: int64, sv: int64, k: nat)
    requires Within(iv, lv, sv, k)
    ensures -TWO_63 <= iv + k * sv < TWO_63
  {
    if sv > 0 {
      MulMonotone(0, k, sv);
    } else {
      MulMonotone(0, k, 0 - sv);
      assert k * sv == 0 - k * (0 - sv);
    }
  }

  /** The quotient overflows the signed count cell only for unit steps over half
      the integers or more. */
  lemma QuotientLarge(iv: int64, lv: int64, sv: int64)
    requires sv != 0 && !Empty(iv, lv, sv)
    ensures Quotient(iv, lv, sv) >= TWO_63 <==>
            (sv == 1 && lv - iv >= TWO_63) || (sv == -1 && iv - lv >= TWO_63)
  {
    QuotientExact(iv, lv, sv);
    var d: nat, s: nat := if sv > 0 then lv - iv else iv - lv, if sv > 0 then sv else 0 - sv;
    if s >= 2 {
      DivBound(TWO_63, d, s);
      MulMonotone(2, s, TWO_63);
      assert TWO_63 * s == s * TWO_63;
    }
  }

  // ---- the main theorems -------------------------------------------------------------

  /** Index k of a progression, and that it stays a 64-bit integer. */
  function Index(idx: int, step: int, k: nat): int { idx + k * step }

  ghost predicate InRange(idx: int, step: int, k: nat) { -TWO_63 <= Index(idx, step, k) < TWO_63 }

  lemma IndexShift(idx: int, step: int, k: nat)
    ensures Index(idx + step, step, k) == Index(idx, step, k + 1)
    ensures Index(idx, step, 0) == idx && Index(idx, step, 1) == idx + step
  {
  }

  /** `seen` is idx, idx + step, ..., idx + n * step. */
  ghost predicate Progression(seen: seq<int>, idx: int, step: int, n: nat) {
    |seen| == n + 1 && forall k: nat {:trigger seen[k]} :: k <= n ==> seen[k] == Index(idx, step, k)
  }

  lemma ProgressionCons(seen: seq<int>, idx: int, step: int, n: nat)
    requires Progression(seen, idx + step, step, n)
    ensures Progression([idx] + seen, idx, step, n + 1)
  {
    IndexShift(idx, step, 0);
    forall k: nat | k <= n + 1
      ensures ([idx] + seen)[k] == Index(idx, step, k)
    {
      if k > 0 {
        IndexShift(idx, step, k - 1);
      }
    }
  }

  /** One pass of FORLOOP with trips left. */
  lemma AgainStep(r: Regs, A: nat, body: Regs -> Regs)
    requires IntControl(r, A) && Respects(body, A) && r[A].word > 0
    requires InRange(r[A + 2].word, r[A + 1].word, 1)
    ensures var next := ForLoop(body(r), A);
            && next.exit == Again && IntControl(next.regs, A) && |next.regs| == |r|
            && next.regs[A].word == r[A].word - 1
            && next.regs[A + 1].word == r[A + 1].word
            && next.regs[A + 2].word == r[A + 2].word + r[A + 1].word
  {
    IndexShift(r[A + 2].word, r[A + 1].word, 0);
    WrapExact(r[A + 2].word + r[A + 1].word);
  }

  /** From a state with `n` trips left after this one, the cycle visits
      idx, idx + step, ..., idx + n * step, and ends with count 0. */
  lemma {:induction false} CycleIndices(r: Regs, A: nat, body: Regs -> Regs)
    requires IntControl(r, A) && Respects(body, A) && r[A].word >= 0
    requires forall k: nat {:trigger InRange(r[A + 2].word, r[A + 1].word, k)} :: k <= r[A].word ==>
               InRange(r[A + 2].word, r[A + 1].word, k)
    ensures var n, idx, step := r[A].word, r[A + 2].word, r[A + 1].word;
            var (seen, r') := Cycle(r, A, body);
            && Progression(seen, idx, step, n)
            && IntControl(r', A) && |r'| == |r|
            && r'[A].word == 0 && r'[A + 1].word == step && r'[A + 2].word == Index(idx, step, n)
    decreases r[A].word
  {
    var n, idx, step := r[A].word, r[A + 2].word, r[A + 1].word;
    IndexShift(idx, step, 0);
    if n > 0 {
      assert InRange(idx, step, 1);
      AgainStep(r, A, body);
      var next := ForLoop(body(r), A).regs;
      var idx1, step1 := next[A + 2].word, next[A + 1].word;
      forall k: nat | k <= n - 1
        ensures InRange(idx1, step1, k)
      {
        IndexShift(idx, step, k);
        assert InRange(idx, step, k + 1);
      }
      CycleIndices(next, A, body);
      ProgressionCons(Cycle(next, A, body).0, idx, step, n - 1);
      IndexShift(idx, step, n - 1);
    }
  }

  /** A loop whose quotient fits the signed count runs the body with exactly the
      indices init + k * step not past the limit, in order and without wrap-around;
      an empty loop leaves every register alone. */
  lemma ForExact(r: Regs, A: nat, body: Regs -> Regs)
    requires IntControl(r, A) && Respects(body, A) && r[A + 2].word != 0
    ensures var iv, lv, sv := r[A].word, r[A + 1].word, r[A + 2].word;
            var (seen, r') := ForStatement(r, A, body);
            if Empty(iv, lv, sv) then seen == [] && r' == r
            else if Quotient(iv, lv, sv) < TWO_63 then
              && Progression(seen, iv, sv, Quotient(iv, lv, sv))
              && (forall k: nat {:trigger Within(iv, lv, sv, k)} :: k < |seen| <==> Within(iv, lv, sv, k))
              && |r'| == |r|
              && r'[A] == Int(0) && r'[A + 1] == Int(sv) && r'[A + 2].word == Index(iv, sv, Quotient(iv, lv, sv))
            else seen == [iv as int]
  {
    var iv, lv, sv := r[A].word, r[A + 1].word, r[A + 2].word;
    if !Empty(iv, lv, sv) {
      var q := Quotient(iv, lv, sv);
      var p := ForPrep(r, A).regs;
      if q < TWO_63 {
        WrapExact(q);
        forall k: nat | k <= q
          ensures InRange(iv, sv, k)
        {
          WithinIff(iv, lv, sv, k);
          WithinRange(iv, lv, sv, k);
        }
        CycleIndices(p, A, body);
        forall k: nat
          ensures k < q + 1 <==> Within(iv, lv, sv, k)
        {
          WithinIff(iv, lv, sv, k);
        }
      } else {
        assert p[A].word == q - TWO_64;
      }
    }
  }

  /** The loop runs the indices the manual asks for if and only if it is not a unit
      step over 2^63 or more: there the signed count starts negative and the body
      runs once. */
  lemma ForFaithfulIff(r: Regs, A: nat, body: Regs -> Regs)
    requires IntControl(r, A) && Respects(body, A) && r[A + 2].word != 0
    ensures var iv, lv, sv := r[A].word, r[A + 1].word, r[A + 2].word;
            var seen := ForStatement(r, A, body).0;
            (forall k: nat {:trigger Within(iv, lv, sv, k)} :: k < |seen| <==> Within(iv, lv, sv, k))
            <==> !((sv == 1 && lv - iv >= TWO_63) || (sv == -1 && iv - lv >= TWO_63))
  {
    var iv, lv, sv := r[A].word, r[A + 1].word, r[A + 2].word;
    ForExact(r, A, body);
    if Empty(iv, lv, sv) {
      EmptyNeverWithin(iv, lv, sv);
    } else {
      QuotientLarge(iv, lv, sv);
      if Quotient(iv, lv, sv) >= TWO_63 {
        WithinIff(iv, lv, sv, 1);
      }
    }
  }

  /** for i = INT64_MIN, 0: the body runs once. */
  lemma LongLoopRunsOnce(body: Regs -> Regs)
    requires Respects(body, 0)
    ensures var r := [Int(-TWO_63), Int(0), Int(1)];
            ForStatement(r, 0, body).0 == [-TWO_63] && Within(-TWO_63, 0, 1, 1)
  {
    var r := [Int(-TWO_63), Int(0), Int(1)];
    ForExact(r, 0, body);
    QuotientLarge(-TWO_63, 0, 1);
  }

  lemma EmptyNeverWithin(iv: int64, lv: int64, sv: int64)
    requires Empty(iv, lv, sv)
    ensures forall k: nat {:trigger Within(iv, lv, sv, k)} :: !Within(iv, lv, sv, k)
  {
    forall k: nat
      ensures !Within(iv, lv, sv, k)
    {
      if sv > 0 {
        MulMonotone(0, k, sv);
      } else {
        MulMonotone(0, k, 0 - sv);
        assert k * sv == 0 - k * (0 - sv);
      }
    }
  }

  // ---- accumulating bodies ----------------------------------------------------------

  /** The ADDI leaf as a loop body: acc := acc + imm. */
  function AddiBody(fpu: Fpu, acc: nat, imm: int64): Regs -> Regs {
    (r: Regs) =>
      if acc >= |r| then r
      else if r[acc].tag == Integer then r[acc := Int(IntAdd(r[acc].word, imm))]
      else if r[acc].tag == Float then r[acc := Value(Float, fpu.add(r[acc].word, fpu.ofInt(imm)))]
      else r
  }

  /** The ADD leaf as a loop body: acc := acc + R[A + 2]. */
  function AddBody(fpu: Fpu, acc: nat, A: nat): Regs -> Regs {
    (r: Regs) =>
      if acc >= |r| || A + 2 >= |r| then r
      else if r[acc].tag == Integer then r[acc := Int(IntAdd(r[acc].word, r[A + 2].word))]
      else if r[acc].tag == Float then r[acc := Value(Float, fpu.add(r[acc].word, fpu.ofInt(r[A + 2].word)))]
      else r
  }

  predicate Outside(acc: nat, A: nat) { acc != A && acc != A + 1 && acc != A + 2 }

  lemma BodiesRespect(fpu: Fpu, acc: nat, imm: int64, A: nat)
    requires Outside(acc, A)
    ensures Respects(AddiBody(fpu, acc, imm), A) && Respects(AddBody(fpu, acc, A), A)
  {
  }

  /** Registers in the middle of a fused cycle, as the unfused one would have them. */
  function Mid(r: Regs, A: nat, acc: nat, count: int64, step: int64, idx: int64, av: Value): (r': Regs)
    requires A + 2 < |r| && acc < |r|
    ensures |r'| == |r|
  {
    SetControl(r, A, count, step, idx)[acc := av]
  }

  /** One accumulate step on the accumulator cell. */
  function Accumulate(fpu: Fpu, av: Value, x: int64): Value {
    if av.tag == Integer then Int(IntAdd(av.word, x))
    else Value(av.tag, fpu.add(av.word, fpu.ofInt(x)))
  }

  lemma MidAddi(r: Regs, A: nat, fpu: Fpu, acc: nat, imm: int64, count: int64, step: int64, idx: int64, av: Value)
    requires A + 2 < |r| && acc < |r| && Outside(acc, A) && (av.tag == Integer || av.tag == Float)
    ensures AddiBody(fpu, acc, imm)(Mid(r, A, acc, count, step, idx, av)) ==
            Mid(r, A, acc, count, step, idx, Accumulate(fpu, av, imm))
    ensures AddBody(fpu, acc, A)(Mid(r, A, acc, count, step, idx, av)) ==
            Mid(r, A, acc, count, step, idx, Accumulate(fpu, av, idx))
  {
  }

  lemma MidLoop(r: Regs, A: nat, acc: nat, count: int64, step: int64, idx: int64, av: Value)
    requires A + 2 < |r| && acc < |r| && Outside(acc, A)
    ensures ForLoop(Mid(r, A, acc, count, step, idx, av), A) ==
            if count > 0 then Outcome(Mid(r, A, acc, count - 1, step, IntAdd(idx, step), av), Again)
            else Outcome(Mid(r, A, acc, count, step, idx, av), Fall)
  {
  }

  /** One unfolding of the unfused cycle around either body. */
  lemma CycleMid(r: Regs, A: nat, acc: nat, body: Regs -> Regs, count: int64, step: int64, idx: int64,
                 av: Value, av': Value)
    requires A + 2 < |r| && acc < |r| && Outside(acc, A) && Respects(body, A)
    requires body(Mid(r, A, acc, count, step, idx, av)) == Mid(r, A, acc, count, step, idx, av')
    ensures Cycle(Mid(r, A, acc, count, step, idx, av), A, body).1 ==
            if count > 0 then Cycle(Mid(r, A, acc, count - 1, step, IntAdd(idx, step), av'), A, body).1
            else Mid(r, A, acc, count, step, idx, av')
  {
    MidLoop(r, A, acc, count, step, idx, av');
  }

  /** What is added per trip: an immediate, or the loop index. */
  datatype Addend = Imm(value: int64) | LoopIndex

  function Added(m: Addend, idx: int64): int64 { if m.Imm? then m.value else idx }

  function BodyOf(m: Addend, fpu: Fpu, acc: nat, A: nat): Regs -> Regs {
    if m.Imm? then AddiBody(fpu, acc, m.value) else AddBody(fpu, acc, A)
  }

  datatype Locals = Locals(count: int64, idx: int64, av: Value)

  /** The cycle on locals: accumulate, test the count, step the index. */
  function Spin(m: Addend, fpu: Fpu, step: int64, l: Locals): Locals
    decreases if l.count > 0 then l.count else 0
  {
    var av := Accumulate(fpu, l.av, Added(m, l.idx));
    if l.count <= 0 then l.(av := av)
    else Spin(m, fpu, step, Locals(l.count - 1, IntAdd(l.idx, step), av))
  }

  /** The unfused cycle ends with the registers the locals describe. */
  lemma {:induction false} CycleSpin(r: Regs, A: nat, acc: nat, m: Addend, fpu: Fpu, step: int64, l: Locals)
    requires A + 2 < |r| && acc < |r| && Outside(acc, A) && (l.av.tag == Integer || l.av.tag == Float)
    ensures Respects(BodyOf(m, fpu, acc, A), A)
    ensures var e := Spin(m, fpu, step, l);
            Cycle(Mid(r, A, acc, l.count, step, l.idx, l.av), A, BodyOf(m, fpu, acc, A)).1 ==
            Mid(r, A, acc, e.count, step, e.idx, e.av)
    decreases if l.count > 0 then l.count else 0
  {
    var body := BodyOf(m, fpu, acc, A);
    BodiesRespect(fpu, acc, Added(m, 0), A);
    var av := Accumulate(fpu, l.av, Added(m, l.idx));
    MidAddi(r, A, fpu, acc, Added(m, 0), l.count, step, l.idx, l.av);
    CycleMid(r, A, acc, body, l.count, step, l.idx, l.av, av);
    if l.count > 0 {
      CycleSpin(r, A, acc, m, fpu, step, Locals(l.count - 1, IntAdd(l.idx, step), av));
    }
  }

  // ---- the fused leaves ---------------------------------------------------------------

  datatype Fused = Done | Reject

  /** The guards of the fused leaves: three integer controls, the accumulator's
      selected tag, and the selected step sign. */
  ghost predicate FusedGuard(r: Regs, A: nat, acc: nat, accTag: Tag, pos: bool)
    requires A + 2 < |r| && acc < |r|
  {
    IntControl(r, A) && r[acc].tag == accTag && (if pos then r[A + 2].word > 0 else r[A + 2].word < 0)
  }

  /** FORPREP; (body; FORLOOP)*, unfused. */
  ghost function Unfused(r: Regs, A: nat, acc: nat, m: Addend, fpu: Fpu): Regs
    requires IntControl(r, A) && Outside(acc, A)
  {
    BodiesRespect(fpu, acc, Added(m, 0), A);
    ForStatement(r, A, BodyOf(m, fpu, acc, A)).1
  }

  /** The registers a completed fused leaf must leave. */
  lemma UnfusedSpin(r: Regs, A: nat, acc: nat, m: Addend, fpu: Fpu)
    requires IntControl(r, A) && acc < |r| && Outside(acc, A) && r[A + 2].word != 0
    requires r[acc].tag == Integer || r[acc].tag == Float
    ensures var iv, lv, sv := r[A].word, r[A + 1].word, r[A + 2].word;
            Unfused(r, A, acc, m, fpu) ==
            if Empty(iv, lv, sv) then r
            else
              var e := Spin(m, fpu, sv, Locals(Wrap64(Quotient(iv, lv, sv)), iv, r[acc]));
              Mid(r, A, acc, e.count, sv, e.idx, e.av)
  {
    var iv, lv, sv := r[A].word, r[A + 1].word, r[A + 2].word;
    if !Empty(iv, lv, sv) {
      var count := Wrap64(Quotient(iv, lv, sv));
      assert SetControl(r, A, count, sv, iv) == Mid(r, A, acc, count, sv, iv, r[acc]);
      CycleSpin(r, A, acc, m, fpu, sv, Locals(count, iv, r[acc]));
    }
  }

  /** Writing the locals back. */
  method Publish(regs: array<Value>, A: nat, acc: nat, count: int64, step: int64, idx: int64, av: Value)
    requires A + 2 < regs.Length && acc < regs.Length && Outside(acc, A)
    modifies regs
    ensures regs[..] == Mid(old(regs[..]), A, acc, count, step, idx, av)
  {
    regs[A] := Int(count);
    regs[A + 1] := Int(step);
    regs[A + 2] := Int(idx);
    regs[acc] := av;
  }

  /** lua55_v2r_super_for_addi_iii_*: the ADDI cycle on locals, cells written once. */
  method FusedForAddi(regs: array<Value>, A: nat, acc: nat, imm: int64, accTag: Tag, pos: bool, fpu: Fpu)
    returns (exit: Fused)
    requires A + 2 < regs.Length && acc < regs.Length && Outside(acc, A)
    requires accTag == Integer || accTag == Float
    modifies regs
    ensures exit == Done <==> FusedGuard(old(regs[..]), A, acc, accTag, pos)
    ensures regs[..] == if exit == Done then Unfused(old(regs[..]), A, acc, Imm(imm), fpu) else old(regs[..])
  {
    if regs[A].tag != Integer || regs[A + 1].tag != Integer || regs[A + 2].tag != Integer
       || regs[acc].tag != accTag { return Reject; }
    var iv, lv, sv := regs[A].word, regs[A + 1].word, regs[A + 2].word;
    if (pos && sv <= 0) || (!pos && sv >= 0) { return Reject; }
    UnfusedSpin(regs[..], A, acc, Imm(imm), fpu);
    if !((pos && iv > lv) || (!pos && iv < lv)) {
      var count: int64 := Wrap64(Quotient(iv, lv, sv));
      var av := regs[acc];
      ghost var end := Spin(Imm(imm), fpu, sv, Locals(count, iv, av));
      while true
        invariant av.tag == accTag && Spin(Imm(imm), fpu, sv, Locals(count, iv, av)) == end
        decreases if count > 0 then count else 0
      {
        if accTag == Integer { av := Int(IntAdd(av.word, imm)); }
        else { av := Value(Float, fpu.add(av.word, fpu.ofInt(imm))); }
        if count <= 0 { break; }
        count := count - 1;
        iv := IntAdd(iv, sv);
      }
      Publish(regs, A, acc, count, sv, iv, av);
    }
    exit := Done;
  }

  /** lua55_v2r_super_for_add_iii_*: the ADD cycle, adding the loop index. */
  method FusedForAdd(regs: array<Value>, A: nat, acc: nat, accTag: Tag, pos: bool, fpu: Fpu)
    returns (exit: Fused)
    requires A + 2 < regs.Length && acc < regs.Length && Outside(acc, A)
    requires accTag == Integer || accTag == Float
    modifies regs
    ensures exit == Done <==> FusedGuard(old(regs[..]), A, acc, accTag, pos)
    ensures regs[..] == if exit == Done then Unfused(old(regs[..]), A, acc, LoopIndex, fpu) else old(regs[..])
  {
    if regs[A].tag != Integer || regs[A + 1].tag != Integer || regs[A + 2].tag != Integer
       || regs[acc].tag != accTag { return Reject; }
    var iv, lv, sv := regs[A].word, regs[A + 1].word, regs[A + 2].word;
    if (pos && sv <= 0) || (!pos && sv >= 0) { return Reject; }
    UnfusedSpin(regs[..], A, acc, LoopIndex, fpu);
    if !((pos && iv > lv) || (!pos && iv < lv)) {
      var count: int64 := Wrap64(Quotient(iv, lv, sv));
      var av := regs[acc];
      ghost var end := Spin(LoopIndex, fpu, sv, Locals(count, iv, av));
      while true
        invariant av.tag == accTag && Spin(LoopIndex, fpu, sv, Locals(count, iv, av)) == end
        decreases if count > 0 then count else 0
      {
        if accTag == Integer { av := Int(IntAdd(av.word, iv)); }
        else { av := Value(Float, fpu.add(av.word, fpu.ofInt(iv))); }
        if count <= 0 { break; }
        count := count - 1;
        iv := IntAdd(iv, sv);
      }
      Publish(regs, A, acc, count, sv, iv, av);
    }
    exit := Done;
  }

  // ---- closed forms --------------------------------------------------------------------

  lemma MulSucc(n: int, x: int)
    ensures (n + 1) * x == n * x + x
  {
  }

  /** One more immediate, added before or after wrapping. */
  lemma WrapStep(av: int64, imm: int64, n: int)
    ensures Wrap64(IntAdd(av, imm) + n * imm) == Wrap64(av + (n + 1) * imm)
    ensures n == 0 ==> IntAdd(av, imm) == Wrap64(av + (n + 1) * imm)
  {
    MulSucc(n, imm);
    WrapAdd(av + imm, n * imm);
  }

  /** An integer accumulator in the ADDI cycle grows by imm once per trip, modulo 2^64. */
  lemma {:induction false} SpinAddi(imm: int64, fpu: Fpu, step: int64, count: int64, idx: int64, av: int64)
    requires count >= 0
    ensures Spin(Imm(imm), fpu, step, Locals(count, idx, Int(av))).av == Int(Wrap64(av + (count + 1) * imm))
    decreases count
  {
    WrapStep(av, imm, count);
    if count > 0 {
      SpinAddi(imm, fpu, step, count - 1, IntAdd(idx, step), IntAdd(av, imm));
    }
  }

  /** Sum of the first n + 1 indices idx, idx + step, ... */
  function IndexSum(idx: int, step: int, n: nat): int
    decreases n
  {
    if n == 0 then idx else idx + IndexSum(idx + step, step, n - 1)
  }

  /** Gauss: twice the sum of an arithmetic progression. */
  lemma {:induction false} IndexSumGauss(idx: int, step: int, n: nat)
    ensures 2 * IndexSum(idx, step, n) == (n + 1) * (2 * idx + n * step)
    decreases n
  {
    if n > 0 {
      IndexSumGauss(idx + step, step, n - 1);
      assert 2 * idx + n * (2 * (idx + step) + (n - 1) * step) == (n + 1) * (2 * idx + n * step);
    }
  }

  lemma WrapShift(x: int, y: int, z: int)
    requires Wrap64(x) == Wrap64(y)
    ensures Wrap64(x + z) == Wrap64(y + z) && Wrap64(z + x) == Wrap64(z + y)
  {
    WrapAdd(x, z);
    WrapAdd(y, z);
  }

  /** The wrapped sum depends only on the wrapped first index. */
  lemma {:induction false} IndexSumWrap(x: int, idx: int, idx': int, step: int, n: nat)
    requires Wrap64(idx) == Wrap64(idx')
    ensures Wrap64(x + IndexSum(idx, step, n)) == Wrap64(x + IndexSum(idx', step, n))
    decreases n
  {
    WrapShift(idx, idx', x);
    if n > 0 {
      WrapShift(idx, idx', step);
      IndexSumWrap(x + idx, idx + step, idx' + step, step, n - 1);
      WrapShift(idx, idx', x + IndexSum(idx' + step, step, n - 1));
    }
  }

  /** One more index, added before or after wrapping. */
  lemma WrapIndexStep(av: int64, idx: int64, step: int64, n: nat)
    ensures Wrap64(IntAdd(av, idx) + IndexSum(IntAdd(idx, step), step, n)) == Wrap64(av + IndexSum(idx, step, n + 1))
  {
    var next := IntAdd(idx, step);
    WrapAdd(av + idx, IndexSum(next, step, n));
    WrapExact(next);
    IndexSumWrap(av + idx, next, idx + step, step, n);
  }

  /** An integer accumulator in the ADD cycle grows by the sum of the indices. */
  lemma {:induction false} SpinAdd(fpu: Fpu, step: int64, count: int64, idx: int64, av: int64)
    requires count >= 0
    ensures Spin(LoopIndex, fpu, step, Locals(count, idx, Int(av))).av == Int(Wrap64(av + IndexSum(idx, step, count)))
    decreases count
  {
    if count > 0 {
      SpinAdd(fpu, step, count - 1, IntAdd(idx, step), IntAdd(av, idx));
      WrapIndexStep(av, idx, step, count - 1);
    }
  }

  /** The registers a fused integer loop ends with: count 0, the step, the last index,
      and the accumulator advanced by trips * imm, or by the sum of the indices, modulo
      2^64, whenever the quotient fits the count. */
  lemma FusedTotals(r: Regs, A: nat, acc: nat, m: Addend, fpu: Fpu)
    requires IntControl(r, A) && acc < |r| && Outside(acc, A) && r[acc].tag == Integer && r[A + 2].word != 0
    requires !Empty(r[A].word, r[A + 1].word, r[A + 2].word)
    requires Quotient(r[A].word, r[A + 1].word, r[A + 2].word) < TWO_63
    ensures var iv, lv, sv := r[A].word, r[A + 1].word, r[A + 2].word;
            var q := Quotient(iv, lv, sv);
            var r' := Unfused(r, A, acc, m, fpu);
            && |r'| == |r|
            && r'[A] == Int(0) && r'[A + 1] == Int(sv) && r'[A + 2].word == Index(iv, sv, q)
            && r'[acc] == Int(Wrap64(r[acc].word + if m.Imm? then (q + 1) * m.value else IndexSum(iv, sv, q)))
  {
    var iv, lv, sv := r[A].word, r[A + 1].word, r[A + 2].word;
    var q := Quotient(iv, lv, sv);
    WrapExact(q);
    UnfusedSpin(r, A, acc, m, fpu);
    CycleSpin(r, A, acc, m, fpu, sv, Locals(q, iv, r[acc]));
    ForExact(r, A, BodyOf(m, fpu, acc, A));
    if m.Imm? {
      SpinAddi(m.value, fpu, sv, q, iv, r[acc].word);
    } else {
      SpinAdd(fpu, sv, q, iv, r[acc].word);
    }
  }
}
