/** What the arithmetic, bitwise and shift instructions compute, in terms of integers
    and bits and not of the helpers. */
module Operators {
  import opened Values
  import opened Bits
  import opened Arithmetic
  import opened Learning
  import Loops = ForLoops

  // ---- the meaning of an operation ------------------------------------------------------------

  /** Equal modulo 2^64. */
  ghost predicate Congruent(x: int, y: int) { (x - y) % TWO_64 == 0 }

  /** Bit i of the two's complement of x. */
  ghost predicate BitOf(x: int64, i: nat) { Bit(Unsigned(x), i) }

  /** x is v moved n places to the left, or to the right for a negative n. */
  ghost predicate Moved(v: int64, n: int, x: int64) {
    forall i: nat {:trigger BitOf(x, i)} :: i < 64 ==> (BitOf(x, i) <==> 0 <= i - n < 64 && BitOf(v, i - n))
  }

  /** x is the floor of a / b; the one quotient out of range wraps. */
  ghost predicate FloorOf(a: int64, b: int64, x: int64) {
    if a == -TWO_63 && b == -1 then x == a
    else if b > 0 then x * b <= a < x * b + b
    else x * b + b < a <= x * b
  }

  /** x is a modulo b, with the sign of b. */
  ghost predicate ModuloOf(a: int64, b: int64, x: int64)
    requires b != 0
  {
    (if b > 0 then 0 <= x < b else b < x <= 0) && exists q: int :: Split(a, b, q, x)
  }

  ghost predicate Split(a: int, b: int, q: int, r: int) { a == q * b + r }

  /** x is `a op b`. */
  ghost predicate Means(op: Op, a: int64, b: int64, x: int64)
    requires !op.IsOrder() && !op.Div? && (op.IsDivMod() ==> b != 0)
  {
    match op
    case Add => Congruent(x, a + b)
    case Sub => Congruent(x, a - b)
    case Mul => Congruent(x, a * b)
    case IDiv => FloorOf(a, b, x)
    case Mod => ModuloOf(a, b, x)
    case BAnd => forall i: nat {:trigger BitOf(x, i)} :: i < 64 ==> (BitOf(x, i) <==> BitOf(a, i) && BitOf(b, i))
    case BOr => forall i: nat {:trigger BitOf(x, i)} :: i < 64 ==> (BitOf(x, i) <==> BitOf(a, i) || BitOf(b, i))
    case BXor => forall i: nat {:trigger BitOf(x, i)} :: i < 64 ==> (BitOf(x, i) <==> BitOf(a, i) != BitOf(b, i))
    case Shl => Moved(a, b, x)
    case Shr => Moved(a, 0 - b, x)
    case ShlI => Moved(b, a, x)
  }

  // ---- the operations have it -----------------------------------------------------------------

  lemma WrapMeans(x: int)
    ensures Congruent(Wrap64(x), x) && Unsigned(Wrap64(x)) == x % TWO_64
  {
  }

  lemma WrapWord(w: uint64)
    ensures Unsigned(Wrap64(w)) == w
  {
  }

  lemma BAndMeans(a: int64, b: int64)
    ensures Means(BAnd, a, b, BitAnd(a, b))
  {
    var u, v, x := Unsigned(a), Unsigned(b), BitAnd(a, b);
    Pow2Word();
    AndBelow(u, v, 64);
    WrapWord(AndBits(u, v));
    assert Unsigned(x) == AndBits(u, v);
    forall i: nat {:trigger BitOf(x, i)} | i < 64
      ensures BitOf(x, i) <==> BitOf(a, i) && BitOf(b, i)
    {
      AndBit(u, v, i);
    }
  }

  lemma BOrMeans(a: int64, b: int64)
    ensures Means(BOr, a, b, BitOr(a, b))
  {
    var u, v, x := Unsigned(a), Unsigned(b), BitOr(a, b);
    Pow2Word();
    OrBelow(u, v, 64);
    WrapWord(OrBits(u, v));
    assert Unsigned(x) == OrBits(u, v);
    forall i: nat {:trigger BitOf(x, i)} | i < 64
      ensures BitOf(x, i) <==> BitOf(a, i) || BitOf(b, i)
    {
      OrBit(u, v, i);
    }
  }

  lemma BXorMeans(a: int64, b: int64)
    ensures Means(BXor, a, b, BitXor(a, b))
  {
    var u, v, x := Unsigned(a), Unsigned(b), BitXor(a, b);
    Pow2Word();
    XorBelow(u, v, 64);
    WrapWord(XorBits(u, v));
    assert Unsigned(x) == XorBits(u, v);
    forall i: nat {:trigger BitOf(x, i)} | i < 64
      ensures BitOf(x, i) <==> BitOf(a, i) != BitOf(b, i)
    {
      XorBit(u, v, i);
    }
  }

  lemma ShiftMeans(v: int64, n: int64)
    ensures Moved(v, n, ShiftLeft(v, n))
  {
    var u, x := Unsigned(v), ShiftLeft(v, n);
    Pow2Word();
    forall i: nat {:trigger BitOf(x, i)} | i < 64
      ensures BitOf(x, i) <==> 0 <= i - n < 64 && BitOf(v, i - n)
    {
      if n <= -64 || n >= 64 {
        NoBits(i);
      } else if n >= 0 {
        WrapMeans(u * Pow2(n));
        LowBit(u * Pow2(n), 64, i);
        LeftBit(u, n, i);
      } else {
        RightWrap(u, 0 - n);
        RightBit(u, 0 - n, Unsigned(x), i);
        if i - n >= 64 {
          BitAbove(u, 64, i - n);
        }
      }
    }
  }

  lemma RightWrap(u: uint64, n: nat)
    ensures Unsigned(Wrap64(u / Pow2(n))) == u / Pow2(n)
  {
    DivSmaller(u, Pow2(n));
    WrapMeans(u / Pow2(n));
  }

  lemma ShrMeans(v: int64, n: int64)
    ensures Moved(v, 0 - n, ShiftLeft(v, Negate(n)))
  {
    ShiftMeans(v, Negate(n));
    WrapExact(0 - n);
  }

  /** Every integer operation computes what it means. */
  lemma IntOpMeans(op: Op, a: int64, b: int64)
    requires !op.IsOrder() && !op.Div? && (op.IsDivMod() ==> b != 0)
    ensures Means(op, a, b, IntOp(op, a, b))
  {
    match op
    case Add => WrapMeans(a + b);
    case Sub => WrapMeans(a - b);
    case Mul => WrapMeans(a * b);
    case IDiv => FloorMeans(a, b);
    case Mod => FloorMeans(a, b);
    case BAnd => BAndMeans(a, b);
    case BOr => BOrMeans(a, b);
    case BXor => BXorMeans(a, b);
    case Shl => ShiftMeans(a, b);
    case Shr => ShrMeans(a, b);
    case ShlI => ShiftMeans(b, a);
  }

  lemma FloorMeans(a: int64, b: int64)
    requires b != 0
    ensures FloorOf(a, b, FloorDiv(a, b)) && ModuloOf(a, b, FloorMod(a, b))
  {
    FloorDivMod(a, b);
    var q, r := FloorDiv(a, b), FloorMod(a, b);
    if a == -TWO_63 && b == -1 {
      assert Split(a, b, TWO_63, 0);
    } else {
      assert Split(a, b, q, r);
    }
  }

  // ---- and only one result has it -------------------------------------------------------------

  lemma SameWord(x: int64, y: int64)
    requires forall i: nat {:trigger BitOf(x, i)} :: i < 64 ==> BitOf(x, i) == BitOf(y, i)
    ensures x == y
  {
    Pow2Word();
    forall i: nat {:trigger Bit(Unsigned(x), i)} | i < 64
      ensures Bit(Unsigned(x), i) == Bit(Unsigned(y), i)
    {
      assert BitOf(x, i) == BitOf(y, i);
    }
    SameBits(Unsigned(x), Unsigned(y), 64);
  }

  lemma FloorOnce(a: int64, b: int64, x: int64, y: int64)
    requires b != 0 && FloorOf(a, b, x) && FloorOf(a, b, y)
    ensures x == y
  {
    if !(a == -TWO_63 && b == -1) {
      assert (x - y) * b == x * b - y * b && (x - y) * (0 - b) == y * b - x * b;
      Multiple(x - y, if b > 0 then b else 0 - b);
    }
  }

  lemma ModuloOnce(a: int64, b: int64, x: int64, y: int64)
    requires b != 0 && ModuloOf(a, b, x) && ModuloOf(a, b, y)
    ensures x == y
  {
    var p :| Split(a, b, p, x);
    var q :| Split(a, b, q, y);
    assert (p - q) * b == y - x && (p - q) * (0 - b) == x - y;
    Multiple(p - q, if b > 0 then b else 0 - b);
  }

  /** The meaning leaves no choice. */
  lemma MeansOnce(op: Op, a: int64, b: int64, x: int64, y: int64)
    requires !op.IsOrder() && !op.Div? && (op.IsDivMod() ==> b != 0)
    requires Means(op, a, b, x) && Means(op, a, b, y)
    ensures x == y
  {
    match op
    case Add => CongruentOnce(x, y, a + b);
    case Sub => CongruentOnce(x, y, a - b);
    case Mul => CongruentOnce(x, y, a * b);
    case IDiv => FloorOnce(a, b, x, y);
    case Mod => ModuloOnce(a, b, x, y);
    case _ => BitsOnce(op, a, b, x, y);
  }

  lemma CongruentOnce(x: int64, y: int64, z: int)
    requires Congruent(x, z) && Congruent(y, z)
    ensures x == y
  {
  }

  lemma BitsOnce(op: Op, a: int64, b: int64, x: int64, y: int64)
    requires op.IsBits() && Means(op, a, b, x) && Means(op, a, b, y)
    ensures x == y
  {
    forall i: nat {:trigger BitOf(x, i)} | i < 64
      ensures BitOf(x, i) == BitOf(y, i)
    {
      assert BitOf(y, i) || !BitOf(y, i);
    }
    SameWord(x, y);
  }

  // ---- one instruction ------------------------------------------------------------------------

  /** The right operand of an instruction: a register, an integer immediate or a constant. */
  ghost predicate IsOperand(regs: seq<Value>, right: Right, r: Value) {
    match right
    case Reg(n) => n < |regs| && r == regs[n]
    case Imm(i) => r.tag == Integer && r.word == i
    case Const(v) => r == v
  }

  /** v is the integer i, or a float that converts to it. */
  ghost predicate Converts(env: Foreign, v: Value, i: int64) {
    (v.tag == Integer && v.word == i) || (v.tag == Float && env.toInt(v.word) == Some(i))
  }

  /** A number as a double. */
  ghost function AsDouble(env: Foreign, v: Value): int64 { if v.tag == Integer then env.ofInt(v.word) else v.word }

  ghost predicate BitsResult(env: Foreign, op: Op, l: Value, r: Value, v: Value)
    requires op.IsBits()
  {
    v.tag == Integer
    && exists i: int64, j: int64 :: Converts(env, l, i) && Converts(env, r, j) && Means(op, i, j, v.word)
  }

  /** `l op r` is `out`, or is refused when there is none. */
  ghost predicate Computes(env: Foreign, op: Op, l: Value, r: Value, out: Option<Value>)
    requires !op.IsOrder()
  {
    var whole := l.tag == Integer && r.tag == Integer;
    if !(l.tag.IsNumber() && r.tag.IsNumber()) then out == None
    else if op.IsBits() then
      if out.Some? then BitsResult(env, op, l, r, out.value)
      else (forall i: int64 :: !Converts(env, l, i)) || (forall i: int64 :: !Converts(env, r, i))
    else if whole && !op.IsArith() && r.word == 0 then out == None
    else if whole && !op.Div? then out.Some? && out.value.tag == Integer && Means(op, l.word, r.word, out.value.word)
    else out == Some(Value(Float, env.flt(op, AsDouble(env, l), AsDouble(env, r))))
  }

  /** What an effect leaves in the target. */
  ghost predicate Gives(env: Foreign, op: Op, l: Value, r: Value, e: Effect)
    requires !op.IsOrder()
  {
    match e
    case Store(v) => Computes(env, op, l, r, Some(v))
    case Reject => Computes(env, op, l, r, None)
    case Jump(_) => false
  }

  lemma EffectMeans(env: Foreign, op: Op, l: Value, r: Value)
    requires !op.IsOrder()
    ensures Gives(env, op, l, r, LearnerEffect(env, op, l, r))
  {
    if op.IsBits() {
      BitsEffect(env, op, l, r);
    } else if l.tag == Integer && r.tag == Integer && !op.Div? && (op.IsArith() || r.word != 0) {
      IntOpMeans(op, l.word, r.word);
    }
  }

  lemma BitsEffect(env: Foreign, op: Op, l: Value, r: Value)
    requires op.IsBits()
    ensures Gives(env, op, l, r, LearnerBits(env, op, l, r))
  {
    var i, j := ToInteger(env, l), ToInteger(env, r);
    if i.Some? && j.Some? {
      IntOpMeans(op, i.value, j.value);
      assert Converts(env, l, i.value) && Converts(env, r, j.value);
    }
  }

  /** An arithmetic, bitwise or shift instruction on the running machine: it writes `l op r`
      to its target and nothing else and goes on, or refuses and changes nothing. */
  lemma StepComputes(env: Foreign, prog: seq<Ins>, x: Learning, r: Value)
    requires Runnable(prog, |x.st.regs|) && x.st.status == Running && x.st.pc < |prog|
    requires !prog[x.st.pc].op.IsOrder() && IsOperand(x.st.regs, prog[x.st.pc].right, r)
    ensures var ins, st, st' := prog[x.st.pc], x.st, LearnStep(env, prog, x).st;
            var l := st.regs[ins.left];
            if st'.status == Refused then st' == st.(status := Refused) && Computes(env, ins.op, l, r, None)
            else
              && st' == st.(regs := st.regs[ins.target := st'.regs[ins.target]], pc := st.pc + 1)
              && Computes(env, ins.op, l, r, Some(st'.regs[ins.target]))
  {
    var ins := prog[x.st.pc];
    EffectMeans(env, ins.op, x.st.regs[ins.left], r);
  }

  // ---- the bodies of the fused loops ----------------------------------------------------------

  /** The loops and the instructions have the same floating point. */
  ghost predicate SameFpu(env: Foreign, fpu: Loops.Fpu) {
    && (forall a: int64, b: int64 :: env.flt(Add, a, b) == fpu.add(a, b))
    && (forall i: int64 :: env.ofInt(i) == fpu.ofInt(i))
  }

  /** The registers after one instruction that ran. */
  ghost function After(env: Foreign, ins: Ins, regs: seq<Value>): seq<Value>
    requires ins.Fits(|regs|)
  {
    Apply(State(regs, 0, Running), ins, LearnerEffect(env, ins.op, regs[ins.left], RightValue(regs, ins.right))).regs
  }

  /** The loop bodies the fused leaves stand for are the ADDI and ADD instructions on the
      accumulator, for every accumulator. */
  lemma BodiesAreInstructions(env: Foreign, fpu: Loops.Fpu, regs: seq<Value>, acc: nat, imm: int64, A: nat, k: nat)
    requires SameFpu(env, fpu) && acc < |regs| && A + 2 < |regs| && regs[A + 2].tag == Integer
    ensures Loops.AddiBody(fpu, acc, imm)(regs) == After(env, Ins(Add, acc, acc, Imm(imm), k, 0), regs)
    ensures Loops.AddBody(fpu, acc, A)(regs) == After(env, Ins(Add, acc, acc, Reg(A + 2), k, 0), regs)
  {
    AddEffect(env, fpu, regs[acc], imm);
    AddEffect(env, fpu, regs[acc], regs[A + 2].word);
    assert RightValue(regs, Reg(A + 2)) == Value(Integer, regs[A + 2].word);
    assert RightValue(regs, Imm(imm)) == Value(Integer, imm);
    assert Loops.Int(IntAdd(regs[acc].word, imm)) == Value(Integer, IntAdd(regs[acc].word, imm));
  }

  lemma AddEffect(env: Foreign, fpu: Loops.Fpu, v: Value, x: int64)
    requires SameFpu(env, fpu)
    ensures LearnerEffect(env, Add, v, Value(Integer, x)) ==
            if v.tag == Integer then Store(Value(Integer, IntAdd(v.word, x)))
            else if v.tag == Float then Store(Value(Float, fpu.add(v.word, fpu.ofInt(x))))
            else Reject
  {
    assert env.flt(Add, v.word, env.ofInt(x)) == fpu.add(v.word, fpu.ofInt(x));
  }
}
