/** The learners and leaves in place, on the register array of the frame and the slot
    array of the invocation. */
module Stencils {
  import opened Values
  import opened Learner = Learning

  /** v2_learn_pair on the slot array of the invocation (empty when not learning). */
  method RecordPair(slots: array<Slot>, i: nat, a: nat, b: nat)
    modifies slots
    ensures slots[..] == Record(old(slots[..]), i, a, b)
  {
    if i >= slots.Length { return; }
    if !slots[i].seen { slots[i] := Slot(true, a, b); }
    else if slots[i].key != a || slots[i].value != b { slots[i] := slots[i].(key := CONFLICT); }
  }

  /** Writing an instruction's result into the frame. */
  method Perform(regs: array<Value>, pc: nat, ins: Ins, e: Effect) returns (next: nat, status: Status)
    requires ins.target < regs.Length
    modifies regs
    ensures State(regs[..], next, status) == Apply(State(old(regs[..]), pc, Running), ins, e)
  {
    next, status := pc + 1, Running;
    match e {
      case Store(v) => regs[ins.target] := v;
      case Jump(taken) => if taken { next := ins.taken; }
      case Reject => next, status := pc, Refused;
    }
  }

  /** The tag dispatch of V2_BIN, V2_DIVMOD and V2_DIV_BODY. */
  method ArithStencil(env: Foreign, regs: array<Value>, pc: nat, ins: Ins, l: Value, r: Value)
    returns (next: nat, status: Status)
    requires ins.target < regs.Length && (ins.op.IsArith() || ins.op.IsDivMod() || ins.op.Div?)
    modifies regs
    ensures State(regs[..], next, status) ==
            Apply(State(old(regs[..]), pc, Running), ins, LearnerArith(env, ins.op, l, r))
  {
    next, status := pc + 1, Running;
    if l.tag == Integer && r.tag == Integer {
      if !ins.op.IsArith() && r.word == 0 { return pc, Refused; }
      if ins.op.Div? {
        regs[ins.target] := Value(Float, env.flt(ins.op, env.ofInt(l.word), env.ofInt(r.word)));
      } else {
        regs[ins.target] := Value(Integer, IntOp(ins.op, l.word, r.word));
      }
    } else if l.tag == Integer && r.tag == Float {
      regs[ins.target] := Value(Float, env.flt(ins.op, env.ofInt(l.word), r.word));
    } else if l.tag == Float && r.tag == Integer {
      regs[ins.target] := Value(Float, env.flt(ins.op, l.word, env.ofInt(r.word)));
    } else if l.tag == Float && r.tag == Float {
      regs[ins.target] := Value(Float, env.flt(ins.op, l.word, r.word));
    } else {
      return pc, Refused;
    }
  }

  /** One operand conversion of the bitwise and shift learners. */
  method Convert(env: Foreign, v: Value) returns (ok: bool, i: int64)
    ensures ok == ToInteger(env, v).Some? && (ok ==> i == ToInteger(env, v).value)
  {
    ok, i := true, 0;
    if v.tag == Integer {
      i := v.word;
    } else if v.tag == Float {
      var c := env.toInt(v.word);
      if c.Some? { i := c.value; } else { ok := false; }
    } else {
      ok := false;
    }
  }

  /** V2_BITWISE and V2_SHIFT: both conversions, then the write. */
  method BitsStencil(env: Foreign, regs: array<Value>, pc: nat, ins: Ins, l: Value, r: Value)
    returns (next: nat, status: Status)
    requires ins.target < regs.Length && ins.op.IsBits()
    modifies regs
    ensures State(regs[..], next, status) ==
            Apply(State(old(regs[..]), pc, Running), ins, LearnerBits(env, ins.op, l, r))
  {
    next, status := pc, Refused;
    var ok, i1 := Convert(env, l);
    if !ok { return; }
    var i2;
    ok, i2 := Convert(env, r);
    if !ok { return; }
    var result := IntOp(ins.op, i1, i2);
    regs[ins.target] := Value(Integer, result);
    next, status := pc + 1, Running;
  }

  /** The tag dispatch and the branch of V2_ORD and V2_LE. */
  method OrderStencil(env: Foreign, pc: nat, ins: Ins, l: Value, r: Value) returns (next: nat, status: Status)
    requires ins.op.IsOrder()
    ensures var e := LearnerOrder(env, ins.op, l, r);
            if e.Jump? then status == Running && next == (if e.taken then ins.taken else pc + 1)
            else e == Reject && status == Refused && next == pc
  {
    var cond;
    if l.tag == Integer && r.tag == Integer { cond := IntOrder(ins.op, l.word, r.word); }
    else if l.tag == Integer && r.tag == Float { cond := FloatOrder(env, ins.op, env.ofInt(l.word), r.word); }
    else if l.tag == Float && r.tag == Integer { cond := FloatOrder(env, ins.op, l.word, env.ofInt(r.word)); }
    else if l.tag == Float && r.tag == Float { cond := FloatOrder(env, ins.op, l.word, r.word); }
    else if l.tag.IsString() && r.tag.IsString() { cond := StringOrder(env, ins.op, l.word, r.word); }
    else { return pc, Refused; }
    next, status := pc + 1, Running;
    if (if ins.op.k then cond else !cond) { next := ins.taken; }
  }

  /** A generic stencil: record, then dispatch on the tags. */
  method LearnerStencil(env: Foreign, prog: seq<Ins>, regs: array<Value>, slots: array<Slot>, pc: nat)
    returns (next: nat, status: Status)
    requires Runnable(prog, regs.Length) && pc < |prog|
    modifies regs, slots
    ensures Learner.Learning(State(regs[..], next, status), slots[..]) ==
            LearnStep(env, prog, Learner.Learning(State(old(regs[..]), pc, Running), old(slots[..])))
  {
    var ins := prog[pc];
    var l, r := regs[ins.left], RightValue(regs[..], ins.right);
    RecordPair(slots, ins.slot, l.tag.Code(), r.tag.Code());
    if ins.op.IsOrder() {
      next, status := OrderStencil(env, pc, ins, l, r);
    } else if ins.op.IsBits() {
      next, status := BitsStencil(env, regs, pc, ins, l, r);
    } else {
      next, status := ArithStencil(env, regs, pc, ins, l, r);
    }
  }

  /** A residual leaf: guards, then the straight-line code. */
  method ResidualStencil(env: Foreign, prog: seq<Ins>, c: Chain, regs: array<Value>, pc: nat)
    returns (next: nat, status: Status)
    requires Genuine(prog, c) && Runnable(prog, regs.Length) && pc < |prog|
    modifies regs
    ensures State(regs[..], next, status) == ResidualStep(env, prog, c, State(old(regs[..]), pc, Running))
    ensures status == Mismatched ==> regs[..] == old(regs[..]) && next == pc
  {
    var ins := prog[pc];
    var l, r := regs[ins.left], RightValue(regs[..], ins.right);
    if c[pc].None? || !Accepts(c[pc].value, l, r) { return pc, Mismatched; }
    next, status := Perform(regs, pc, ins, LeafEffect(env, c[pc].value, l, r));
  }
}
