/** Learn, then specialise: the generic arithmetic, bitwise, shift and ordering
    stencils record operand tags in learn slots; exact residual leaves chosen from
    the slots replace them. Double and string operations are parameters. */
module Learning {
  import opened Values
  import opened Arithmetic

  // ---- learn slots -----------------------------------------------------------------

  const CONFLICT := 0xFFFF_FFFF

  datatype Slot = Slot(seen: bool, key: nat, value: nat)

  const UNSEEN := Slot(false, 0, 0)

  /** v2_learn_pair. */
  function LearnPair(s: Slot, a: nat, b: nat): Slot {
    if !s.seen then Slot(true, a, b)
    else if s.key != a || s.value != b then s.(key := CONFLICT)
    else s
  }

  type Observation = (nat, nat)

  function ObserveAll(s: Slot, seen: seq<Observation>): Slot
    decreases |seen|
  {
    if seen == [] then s else ObserveAll(LearnPair(s, seen[0].0, seen[0].1), seen[1..])
  }

  /** Once in conflict, always in conflict. */
  lemma {:induction false} ConflictStays(s: Slot, seen: seq<Observation>)
    requires s.seen && s.key == CONFLICT && forall o :: o in seen ==> o.0 < CONFLICT
    ensures ObserveAll(s, seen).seen && ObserveAll(s, seen).key == CONFLICT
    decreases |seen|
  {
    if seen != [] {
      assert seen[0] in seen;
      ConflictStays(LearnPair(s, seen[0].0, seen[0].1), seen[1..]);
    }
  }

  lemma {:induction false} SettledFrom(s: Slot, seen: seq<Observation>)
    requires s.seen && s.key < CONFLICT && forall o :: o in seen ==> o.0 < CONFLICT
    ensures ObserveAll(s, seen).key != CONFLICT <==> forall o :: o in seen ==> o == (s.key, s.value)
    ensures ObserveAll(s, seen).key != CONFLICT ==> ObserveAll(s, seen) == s
    decreases |seen|
  {
    if seen != [] {
      assert seen[0] in seen;
      var s1 := LearnPair(s, seen[0].0, seen[0].1);
      if seen[0] == (s.key, s.value) {
        SettledFrom(s1, seen[1..]);
        assert forall o :: o in seen <==> o == seen[0] || o in seen[1..];
      } else {
        ConflictStays(s1, seen[1..]);
      }
    }
  }

  /** A slot is free of conflict if and only if all its observations were equal, and
      then it holds that observation. */
  lemma SettledIff(seen: seq<Observation>)
    requires seen != [] && forall o :: o in seen ==> o.0 < CONFLICT
    ensures ObserveAll(UNSEEN, seen).key != CONFLICT <==> forall o :: o in seen ==> o == seen[0]
    ensures ObserveAll(UNSEEN, seen).key != CONFLICT ==> ObserveAll(UNSEEN, seen) == Slot(true, seen[0].0, seen[0].1)
  {
    assert seen[0] in seen;
    SettledFrom(Slot(true, seen[0].0, seen[0].1), seen[1..]);
    assert forall o :: o in seen <==> o == seen[0] || o in seen[1..];
  }

  /** v2_learn_key_tag, on the key field alone: 0 is both "nil" and "nothing yet". */
  function LearnKeyTag(key: nat, tag: nat): nat {
    if key == 0 || key == tag then tag else CONFLICT
  }

  function ObserveTags(key: nat, tags: seq<nat>): nat
    decreases |tags|
  {
    if tags == [] then key else ObserveTags(LearnKeyTag(key, tags[0]), tags[1..])
  }

  /** The observations after the leading nils. */
  function AfterNils(tags: seq<nat>): (r: seq<nat>)
    ensures r != [] ==> r[0] != 0
    ensures forall t :: t in r ==> t in tags
    decreases |tags|
  {
    if tags != [] && tags[0] == 0 then AfterNils(tags[1..]) else tags
  }

  /** Observing nil first is forgotten: the single-tag slot settles on the other tag. */
  lemma KeyTagNilBlind(t: nat)
    requires 0 < t < CONFLICT
    ensures ObserveTags(0, [0, t]) == t && ObserveTags(0, [t, 0]) == CONFLICT
  {
    assert [0, t][1..] == [t] && [t, 0][1..] == [0];
    assert ObserveTags(t, []) == t;
    assert ObserveTags(0, [t]) == ObserveTags(t, [t][1..]);
    assert ObserveTags(t, [0]) == ObserveTags(CONFLICT, [0][1..]);
  }

  ghost predicate AllSame(tags: seq<nat>) { forall i :: 0 <= i < |tags| ==> tags[i] == tags[0] }

  /** The single-tag slot is free of conflict if and only if the observations after
      the leading nils were all equal. */
  lemma {:induction false} KeyTagSettledIff(tags: seq<nat>)
    requires forall t :: t in tags ==> t < CONFLICT
    ensures ObserveTags(0, tags) != CONFLICT <==> AllSame(AfterNils(tags))
    decreases |tags|
  {
    if tags != [] {
      assert tags[0] in tags;
      assert forall t :: t in tags[1..] ==> t in tags;
      if tags[0] == 0 {
        KeyTagSettledIff(tags[1..]);
      } else {
        KeyTagIff(tags[0], tags[1..]);
        assert forall t :: t in tags <==> t == tags[0] || t in tags[1..];
        SameIff(tags);
      }
    }
  }

  lemma SameIff(tags: seq<nat>)
    requires tags != []
    ensures AllSame(tags) <==> forall t :: t in tags ==> t == tags[0]
  {
    if AllSame(tags) {
      forall t | t in tags
        ensures t == tags[0]
      {
        var i :| 0 <= i < |tags| && tags[i] == t;
      }
    } else {
      var i :| 0 <= i < |tags| && tags[i] != tags[0];
      assert tags[i] in tags;
    }
  }

  lemma {:induction false} KeyTagIff(key: nat, tags: seq<nat>)
    requires 0 < key < CONFLICT && forall t :: t in tags ==> t < CONFLICT
    ensures ObserveTags(key, tags) != CONFLICT <==> forall t :: t in tags ==> t == key
    ensures ObserveTags(key, tags) == key || ObserveTags(key, tags) == CONFLICT
    decreases |tags|
  {
    if tags != [] {
      assert tags[0] in tags;
      assert forall t :: t in tags <==> t == tags[0] || t in tags[1..];
      if tags[0] == key {
        KeyTagIff(key, tags[1..]);
      } else {
        KeyConflictStays(tags[1..]);
      }
    }
  }

  lemma {:induction false} KeyConflictStays(tags: seq<nat>)
    requires forall t :: t in tags ==> t < CONFLICT
    ensures ObserveTags(CONFLICT, tags) == CONFLICT
    decreases |tags|
  {
    if tags != [] {
      assert tags[0] in tags;
      assert forall t :: t in tags[1..] ==> t in tags;
      KeyConflictStays(tags[1..]);
    }
  }

  // ---- opcodes ------------------------------------------------------------------------

  /** Register-register, immediate and constant forms share an operation. For the
      orderings, k is the branch sense. ShlI shifts the immediate by the register. */
  datatype Op =
    | Add | Sub | Mul | IDiv | Mod | Div
    | BAnd | BOr | BXor | Shl | Shr | ShlI
    | Lt(k: bool) | Le(k: bool) | Gt(k: bool) | Ge(k: bool)
  {
    predicate IsArith() { Add? || Sub? || Mul? }
    predicate IsDivMod() { IDiv? || Mod? }
    predicate IsOrder() { Lt? || Le? || Gt? || Ge? }
    predicate IsBits() { !IsArith() && !IsDivMod() && !Div? && !IsOrder() }
  }

  /** Double and string operations on payload words. */
  datatype Foreign = Foreign(
    ofInt: int64 -> int64,
    toInt: int64 -> Option<int64>,
    flt: (Op, int64, int64) -> int64,
    less: (int64, int64) -> bool,
    lessEq: (int64, int64) -> bool,
    compare: (int64, int64) -> int)

  function IntOp(op: Op, a: int64, b: int64): int64
    requires !op.IsOrder() && !op.Div? && (op.IsDivMod() ==> b != 0)
  {
    match op
    case Add => IntAdd(a, b)
    case Sub => IntSub(a, b)
    case Mul => IntMul(a, b)
    case IDiv => FloorDiv(a, b)
    case Mod => FloorMod(a, b)
    case BAnd => BitAnd(a, b)
    case BOr => BitOr(a, b)
    case BXor => BitXor(a, b)
    case Shl => ShiftLeft(a, b)
    case Shr => ShiftLeft(a, Negate(b))
    case ShlI => ShiftLeft(b, a)
  }

  predicate IntOrder(op: Op, a: int64, b: int64)
    requires op.IsOrder()
  {
    match op case Lt(_) => a < b case Le(_) => a <= b case Gt(_) => a > b case Ge(_) => a >= b
  }

  predicate FloatOrder(env: Foreign, op: Op, a: int64, b: int64)
    requires op.IsOrder()
  {
    match op
    case Lt(_) => env.less(a, b)
    case Le(_) => env.lessEq(a, b)
    case Gt(_) => env.less(b, a)
    case Ge(_) => env.lessEq(b, a)
  }

  predicate StringOrder(env: Foreign, op: Op, a: int64, b: int64)
    requires op.IsOrder()
  {
    var c := env.compare(a, b);
    match op case Lt(_) => c < 0 case Le(_) => c <= 0 case Gt(_) => c > 0 case Ge(_) => c >= 0
  }

  /** What an instruction does: write a value, or branch or not, or reject. */
  datatype Effect = Store(v: Value) | Jump(taken: bool) | Reject

  function IntCell(x: int64): Effect { Store(Value(Integer, x)) }

  function FloatCell(x: int64): Effect { Store(Value(Float, x)) }

  function Branch(op: Op, cond: bool): Effect
    requires op.IsOrder()
  {
    Jump(if op.k then cond else !cond)
  }

  // ---- the learners: dispatch on the operand tags --------------------------------------------

  /** V2_BIN, V2_DIVMOD and V2_DIV_BODY. */
  function LearnerArith(env: Foreign, op: Op, l: Value, r: Value): Effect
    requires op.IsArith() || op.IsDivMod() || op.Div?
  {
    if l.tag == Integer && r.tag == Integer then
      if (op.IsDivMod() || op.Div?) && r.word == 0 then Reject
      else if op.Div? then FloatCell(env.flt(op, env.ofInt(l.word), env.ofInt(r.word)))
      else IntCell(IntOp(op, l.word, r.word))
    else if l.tag == Integer && r.tag == Float then FloatCell(env.flt(op, env.ofInt(l.word), r.word))
    else if l.tag == Float && r.tag == Integer then FloatCell(env.flt(op, l.word, env.ofInt(r.word)))
    else if l.tag == Float && r.tag == Float then FloatCell(env.flt(op, l.word, r.word))
    else Reject
  }

  /** The operand conversion of the bitwise and shift learners. */
  function ToInteger(env: Foreign, v: Value): Option<int64> {
    if v.tag == Integer then Some(v.word) else if v.tag == Float then env.toInt(v.word) else None
  }

  /** V2_BITWISE and V2_SHIFT. */
  function LearnerBits(env: Foreign, op: Op, l: Value, r: Value): Effect
    requires op.IsBits()
  {
    match ToInteger(env, l)
    case None => Reject
    case Some(i1) =>
      match ToInteger(env, r)
      case None => Reject
      case Some(i2) => IntCell(IntOp(op, i1, i2))
  }

  /** V2_ORD and V2_LE: mixed operands are compared as doubles. */
  function LearnerOrder(env: Foreign, op: Op, l: Value, r: Value): Effect
    requires op.IsOrder()
  {
    if l.tag == Integer && r.tag == Integer then Branch(op, IntOrder(op, l.word, r.word))
    else if l.tag == Integer && r.tag == Float then Branch(op, FloatOrder(env, op, env.ofInt(l.word), r.word))
    else if l.tag == Float && r.tag == Integer then Branch(op, FloatOrder(env, op, l.word, env.ofInt(r.word)))
    else if l.tag == Float && r.tag == Float then Branch(op, FloatOrder(env, op, l.word, r.word))
    else if l.tag.IsString() && r.tag.IsString() then Branch(op, StringOrder(env, op, l.word, r.word))
    else Reject
  }

  function LearnerEffect(env: Foreign, op: Op, l: Value, r: Value): Effect {
    if op.IsOrder() then LearnerOrder(env, op, l, r)
    else if op.IsBits() then LearnerBits(env, op, l, r)
    else LearnerArith(env, op, l, r)
  }

  // ---- the exact leaves: guards, then straight-line code --------------------------------------

  /** Integer/Float products, and the string-string ordering leaf. */
  datatype Leaf = II(op: Op) | IF(op: Op) | FI(op: Op) | FF(op: Op) | SS(op: Op)

  predicate Accepts(leaf: Leaf, l: Value, r: Value) {
    match leaf
    case II(_) => l.tag == Integer && r.tag == Integer
    case IF(_) => l.tag == Integer && r.tag == Float
    case FI(_) => l.tag == Float && r.tag == Integer
    case FF(_) => l.tag == Float && r.tag == Float
    case SS(_) => l.tag.IsString() && r.tag.IsString()
  }

  /** The leaf bank, by operation and recorded tag codes. */
  function LeafFor(op: Op, a: nat, b: nat): Option<Leaf> {
    if a == Tag.Integer.Code() && b == Tag.Integer.Code() then Some(II(op))
    else if a == Tag.Integer.Code() && b == Tag.Float.Code() then Some(IF(op))
    else if a == Tag.Float.Code() && b == Tag.Integer.Code() then Some(FI(op))
    else if a == Tag.Float.Code() && b == Tag.Float.Code() then Some(FF(op))
    else if op.IsOrder() && StringCode(a) && StringCode(b) then Some(SS(op))
    else None
  }

  predicate StringCode(a: nat) { a == Tag.ShortString.Code() || a == Tag.LongString.Code() }

  predicate InBank(leaf: Leaf) { leaf.SS? ==> leaf.op.IsOrder() }

  /** The code behind the guards; no tag is looked at again. */
  function LeafEffect(env: Foreign, leaf: Leaf, l: Value, r: Value): Effect
    requires InBank(leaf)
  {
    var op := leaf.op;
    match leaf
    case SS(_) => Branch(op, StringOrder(env, op, l.word, r.word))
    case II(_) =>
      if op.IsOrder() then Branch(op, IntOrder(op, l.word, r.word))
      else if op.IsBits() || op.IsArith() then IntCell(IntOp(op, l.word, r.word))
      else if r.word == 0 then Reject
      else if op.Div? then FloatCell(env.flt(op, env.ofInt(l.word), env.ofInt(r.word)))
      else IntCell(IntOp(op, l.word, r.word))
    case IF(_) =>
      if op.IsOrder() then Branch(op, FloatOrder(env, op, env.ofInt(l.word), r.word))
      else if op.IsBits() then
        (match env.toInt(r.word) case None => Reject case Some(i2) => IntCell(IntOp(op, l.word, i2)))
      else FloatCell(env.flt(op, env.ofInt(l.word), r.word))
    case FI(_) =>
      if op.IsOrder() then Branch(op, FloatOrder(env, op, l.word, env.ofInt(r.word)))
      else if op.IsBits() then
        (match env.toInt(l.word) case None => Reject case Some(i1) => IntCell(IntOp(op, i1, r.word)))
      else FloatCell(env.flt(op, l.word, env.ofInt(r.word)))
    case FF(_) =>
      if op.IsOrder() then Branch(op, FloatOrder(env, op, l.word, r.word))
      else if op.IsBits() then
        var i1, i2 := env.toInt(l.word), env.toInt(r.word);
        if i1.None? || i2.None? then Reject else IntCell(IntOp(op, i1.value, i2.value))
      else FloatCell(env.flt(op, l.word, r.word))
  }

  /** Behind its guards a leaf has the learner's effect. */
  lemma LeafExact(env: Foreign, leaf: Leaf, l: Value, r: Value)
    requires InBank(leaf) && Accepts(leaf, l, r)
    ensures LeafEffect(env, leaf, l, r) == LearnerEffect(env, leaf.op, l, r)
  {
  }

  lemma LeafForInBank(op: Op, a: nat, b: nat)
    ensures LeafFor(op, a, b).Some? ==> InBank(LeafFor(op, a, b).value) && LeafFor(op, a, b).value.op == op
  {
  }

  lemma OrderHasLeaf(env: Foreign, op: Op, l: Value, r: Value)
    requires op.IsOrder() && LearnerOrder(env, op, l, r) != Reject
    ensures (l.tag.IsNumber() && r.tag.IsNumber()) || (l.tag.IsString() && r.tag.IsString())
  {
  }

  lemma NumbersNeeded(env: Foreign, op: Op, l: Value, r: Value)
    requires !op.IsOrder() && LearnerEffect(env, op, l, r) != Reject
    ensures l.tag.IsNumber() && r.tag.IsNumber()
  {
  }

  /** Whatever the learner does not reject has a leaf that accepts it. */
  lemma EffectHasLeaf(env: Foreign, op: Op, l: Value, r: Value)
    requires LearnerEffect(env, op, l, r) != Reject
    ensures LeafFor(op, l.tag.Code(), r.tag.Code()).Some?
    ensures Accepts(LeafFor(op, l.tag.Code(), r.tag.Code()).value, l, r)
  {
    if op.IsOrder() {
      OrderHasLeaf(env, op, l, r);
    } else {
      NumbersNeeded(env, op, l, r);
    }
  }

  // ---- programs ------------------------------------------------------------------------------------

  datatype Right = Reg(n: nat) | Imm(i: int64) | Const(v: Value)

  /** `slot` is the learn slot of the occurrence, `taken` the branch target. */
  datatype Ins = Ins(op: Op, target: nat, left: nat, right: Right, slot: nat, taken: nat) {
    predicate Fits(n: nat) { target < n && left < n && (right.Reg? ==> right.n < n) }
  }

  datatype Status = Running | Finished | Refused | Mismatched

  datatype State = State(regs: seq<Value>, pc: nat, status: Status)

  ghost predicate Runnable(prog: seq<Ins>, n: nat) { forall i :: 0 <= i < |prog| ==> prog[i].Fits(n) }

  function RightValue(regs: seq<Value>, r: Right): Value
    requires r.Reg? ==> r.n < |regs|
  {
    match r case Reg(n) => regs[n] case Imm(i) => Value(Integer, i) case Const(v) => v
  }

  function Apply(st: State, ins: Ins, e: Effect): (st': State)
    requires ins.target < |st.regs|
    ensures |st'.regs| == |st.regs|
  {
    match e
    case Store(v) => st.(regs := st.regs[ins.target := v], pc := st.pc + 1)
    case Jump(taken) => st.(pc := if taken then ins.taken else st.pc + 1)
    case Reject => st.(status := Refused)
  }

  /** Recording the operand tags, when there is a slot to record in. */
  function Record(slots: seq<Slot>, i: nat, a: nat, b: nat): (r: seq<Slot>)
    ensures |r| == |slots|
  {
    if i >= |slots| then slots else slots[i := LearnPair(slots[i], a, b)]
  }

  datatype Learning = Learning(st: State, slots: seq<Slot>)

  /** One step of the learner chain. */
  function LearnStep(env: Foreign, prog: seq<Ins>, x: Learning): (y: Learning)
    requires Runnable(prog, |x.st.regs|)
    ensures |y.st.regs| == |x.st.regs| && |y.slots| == |x.slots|
  {
    if x.st.status != Running then x
    else if x.st.pc >= |prog| then x.(st := x.st.(status := Finished))
    else
      var ins := prog[x.st.pc];
      var l, r := x.st.regs[ins.left], RightValue(x.st.regs, ins.right);
      Learning(Apply(x.st, ins, LearnerEffect(env, ins.op, l, r)),
               Record(x.slots, ins.slot, l.tag.Code(), r.tag.Code()))
  }

  function LearnRun(env: Foreign, prog: seq<Ins>, x: Learning, n: nat): (y: Learning)
    requires Runnable(prog, |x.st.regs|)
    ensures |y.st.regs| == |x.st.regs| && |y.slots| == |x.slots|
    decreases n
  {
    if n == 0 then x else LearnStep(env, prog, LearnRun(env, prog, x, n - 1))
  }

  type Chain = seq<Option<Leaf>>

  /** The residual chain for a program: where a slot is free of conflict, the leaf
      for its tags. */
  function Specialise(prog: seq<Ins>, slots: seq<Slot>): (c: Chain)
    ensures |c| == |prog|
  {
    seq(|prog|, i requires 0 <= i < |prog| => LeafOf(prog[i], slots))
  }

  function LeafOf(ins: Ins, slots: seq<Slot>): Option<Leaf> {
    if ins.slot < |slots| && slots[ins.slot].seen && slots[ins.slot].key != CONFLICT
    then LeafFor(ins.op, slots[ins.slot].key, slots[ins.slot].value) else None
  }

  /** The leaf at the current instruction lets the operands through. */
  predicate Admits(prog: seq<Ins>, c: Chain, st: State)
    requires |c| == |prog| && Runnable(prog, |st.regs|)
  {
    st.status == Running && st.pc < |prog| ==>
      && c[st.pc].Some?
      && Accepts(c[st.pc].value, st.regs[prog[st.pc].left], RightValue(st.regs, prog[st.pc].right))
  }

  ghost predicate Genuine(prog: seq<Ins>, c: Chain) {
    |c| == |prog| && forall i :: 0 <= i < |prog| && c[i].Some? ==> InBank(c[i].value) && c[i].value.op == prog[i].op
  }

  lemma SpecialiseGenuine(prog: seq<Ins>, slots: seq<Slot>)
    ensures Genuine(prog, Specialise(prog, slots))
  {
    var c := Specialise(prog, slots);
    forall i | 0 <= i < |prog| && c[i].Some?
      ensures InBank(c[i].value) && c[i].value.op == prog[i].op
    {
      LeafForInBank(prog[i].op, slots[prog[i].slot].key, slots[prog[i].slot].value);
    }
  }

  /** One step of the residual chain; a failing guard exits with a mismatch. */
  function ResidualStep(env: Foreign, prog: seq<Ins>, c: Chain, st: State): (st': State)
    requires Genuine(prog, c) && Runnable(prog, |st.regs|)
    ensures |st'.regs| == |st.regs|
  {
    if st.status != Running then st
    else if st.pc >= |prog| then st.(status := Finished)
    else if !Admits(prog, c, st) then st.(status := Mismatched)
    else
      var ins := prog[st.pc];
      Apply(st, ins, LeafEffect(env, c[st.pc].value, st.regs[ins.left], RightValue(st.regs, ins.right)))
  }

  function ResidualRun(env: Foreign, prog: seq<Ins>, c: Chain, st: State, n: nat): (st': State)
    requires Genuine(prog, c) && Runnable(prog, |st.regs|)
    ensures |st'.regs| == |st.regs|
    decreases n
  {
    if n == 0 then st else ResidualStep(env, prog, c, ResidualRun(env, prog, c, st, n - 1))
  }

  // ---- simulation --------------------------------------------------------------------------------------

  /** While the guards admit, one residual step is one learner step. */
  lemma StepAgrees(env: Foreign, prog: seq<Ins>, c: Chain, x: Learning)
    requires Genuine(prog, c) && Runnable(prog, |x.st.regs|) && Admits(prog, c, x.st)
    ensures ResidualStep(env, prog, c, x.st) == LearnStep(env, prog, x).st
  {
    if x.st.status == Running && x.st.pc < |prog| {
      var ins := prog[x.st.pc];
      LeafExact(env, c[x.st.pc].value, x.st.regs[ins.left], RightValue(x.st.regs, ins.right));
    }
  }

  /** A failing guard stops the chain, and a stopped chain stays stopped. */
  lemma ResidualStops(env: Foreign, prog: seq<Ins>, c: Chain, st: State)
    requires Genuine(prog, c) && Runnable(prog, |st.regs|) && (st.status == Mismatched || !Admits(prog, c, st))
    ensures ResidualStep(env, prog, c, st) == st.(status := Mismatched)
  {
  }

  lemma StepUnmatched(env: Foreign, prog: seq<Ins>, y: Learning)
    requires Runnable(prog, |y.st.regs|) && y.st.status != Mismatched
    ensures LearnStep(env, prog, y).st.status != Mismatched
  {
  }

  /** The guards admit each of the learner's first m steps. */
  ghost predicate AdmittedTo(env: Foreign, prog: seq<Ins>, c: Chain, x: Learning, m: nat)
    requires |c| == |prog| && Runnable(prog, |x.st.regs|)
  {
    forall j: nat {:trigger LearnRun(env, prog, x, j)} :: j < m ==> Admits(prog, c, LearnRun(env, prog, x, j).st)
  }

  lemma AdmitOneMore(env: Foreign, prog: seq<Ins>, c: Chain, x: Learning, m: nat)
    requires |c| == |prog| && Runnable(prog, |x.st.regs|)
    requires AdmittedTo(env, prog, c, x, m) && Admits(prog, c, LearnRun(env, prog, x, m).st)
    ensures AdmittedTo(env, prog, c, x, m + 1)
  {
  }

  /** The residual is where the learner is, or has stopped there at a failing guard. */
  ghost predicate Follows(prog: seq<Ins>, c: Chain, l: State, r: State, running: bool)
    requires |c| == |prog| && Runnable(prog, |l.regs|)
  {
    && l.status != Mismatched
    && (if running then r == l else !Admits(prog, c, l) && r == l.(status := Mismatched))
  }

  lemma FollowsStep(env: Foreign, prog: seq<Ins>, c: Chain, y: Learning, r: State, running: bool)
    requires Genuine(prog, c) && Runnable(prog, |y.st.regs|) && Follows(prog, c, y.st, r, running)
    ensures if running && Admits(prog, c, y.st)
            then Follows(prog, c, LearnStep(env, prog, y).st, ResidualStep(env, prog, c, r), true)
            else Follows(prog, c, y.st, ResidualStep(env, prog, c, r), false)
  {
    if running && Admits(prog, c, y.st) {
      StepAgrees(env, prog, c, y);
      StepUnmatched(env, prog, y);
    } else {
      ResidualStops(env, prog, c, r);
    }
  }

  /** The residual chain follows the learner chain: there is a first m steps on which
      all guards admit and both agree; either m is the whole run, or the residual
      stops there for good, at the first instruction whose tags differ, with the
      registers exactly as the learner has them before it. */
  lemma {:induction false} Simulation(env: Foreign, prog: seq<Ins>, c: Chain, x: Learning, n: nat) returns (m: nat)
    requires Genuine(prog, c) && Runnable(prog, |x.st.regs|) && x.st.status != Mismatched
    ensures m <= n
    ensures AdmittedTo(env, prog, c, x, m)
    ensures Follows(prog, c, LearnRun(env, prog, x, m).st, ResidualRun(env, prog, c, x.st, n), m == n)
    decreases n
  {
    if n == 0 {
      m := 0;
    } else {
      m := Simulation(env, prog, c, x, n - 1);
      var y := LearnRun(env, prog, x, m);
      FollowsStep(env, prog, c, y, ResidualRun(env, prog, c, x.st, n - 1), m == n - 1);
      if m == n - 1 && Admits(prog, c, y.st) {
        AdmitOneMore(env, prog, c, x, m);
        m := n;
      }
    }
  }

  /** If the tags recur at every step, the registers end the same. */
  lemma {:induction false} SameTagsSameRun(env: Foreign, prog: seq<Ins>, c: Chain, x: Learning, n: nat)
    requires Genuine(prog, c) && Runnable(prog, |x.st.regs|) && x.st.status != Mismatched
    requires AdmittedTo(env, prog, c, x, n)
    ensures ResidualRun(env, prog, c, x.st, n) == LearnRun(env, prog, x, n).st
  {
    var m := Simulation(env, prog, c, x, n);
  }

  // ---- running again what was learned ---------------------------------------------------------------------

  /** The tags an instruction is about to observe. */
  function Observed(prog: seq<Ins>, st: State): Observation
    requires st.pc < |prog| && prog[st.pc].Fits(|st.regs|)
  {
    var ins := prog[st.pc];
    (st.regs[ins.left].tag.Code(), RightValue(st.regs, ins.right).tag.Code())
  }

  /** A slot free of conflict later was free of conflict all along, and once seen
      never changed. */
  lemma {:induction false} SlotHistory(env: Foreign, prog: seq<Ins>, x: Learning, j: nat, n: nat, i: nat)
    requires Runnable(prog, |x.st.regs|) && i < |x.slots| && j <= n
    requires LearnRun(env, prog, x, n).slots[i].key != CONFLICT && LearnRun(env, prog, x, j).slots[i].seen
    ensures LearnRun(env, prog, x, n).slots[i] == LearnRun(env, prog, x, j).slots[i]
    decreases n
  {
    if j < n {
      var y := LearnRun(env, prog, x, n - 1);
      SlotSeenStays(env, prog, x, j, n - 1, i);
      StepSlot(env, prog, y, i);
      SlotHistory(env, prog, x, j, n - 1, i);
    }
  }

  lemma {:induction false} SlotSeenStays(env: Foreign, prog: seq<Ins>, x: Learning, j: nat, n: nat, i: nat)
    requires Runnable(prog, |x.st.regs|) && i < |x.slots| && j <= n && LearnRun(env, prog, x, j).slots[i].seen
    ensures LearnRun(env, prog, x, n).slots[i].seen
    decreases n
  {
    if j < n {
      SlotSeenStays(env, prog, x, j, n - 1, i);
      StepSlot(env, prog, LearnRun(env, prog, x, n - 1), i);
    }
  }

  /** One step on a seen slot keeps it, or puts it in conflict. */
  lemma StepSlot(env: Foreign, prog: seq<Ins>, y: Learning, i: nat)
    requires Runnable(prog, |y.st.regs|) && i < |y.slots| && y.slots[i].seen
    ensures var s := LearnStep(env, prog, y).slots[i];
            s.seen && (s == y.slots[i] || s.key == CONFLICT)
  {
  }

  /** Right after step j the executed slot holds what it just observed, or is in conflict. */
  lemma StepObserved(env: Foreign, prog: seq<Ins>, y: Learning)
    requires Runnable(prog, |y.st.regs|) && y.st.status == Running && y.st.pc < |prog|
    requires prog[y.st.pc].slot < |y.slots|
    ensures var s := LearnStep(env, prog, y).slots[prog[y.st.pc].slot];
            s.seen && (s.key == CONFLICT || (s.key, s.value) == Observed(prog, y.st))
  {
  }

  /** Every instruction has a slot to record in; no slot is in conflict. */
  ghost predicate Slotted(prog: seq<Ins>, n: nat) { forall i :: 0 <= i < |prog| ==> prog[i].slot < n }

  ghost predicate Settled(slots: seq<Slot>) { forall i :: 0 <= i < |slots| ==> slots[i].key != CONFLICT }

  /** The instruction the learner stands at has a leaf for the tags it sees. */
  predicate Supported(prog: seq<Ins>, st: State)
    requires Runnable(prog, |st.regs|)
  {
    st.pc < |prog| ==>
      var o := Observed(prog, st);
      LeafFor(prog[st.pc].op, o.0, o.1).Some?
  }

  lemma LeafAccepts(op: Op, l: Value, r: Value)
    requires LeafFor(op, l.tag.Code(), r.tag.Code()).Some?
    ensures Accepts(LeafFor(op, l.tag.Code(), r.tag.Code()).value, l, r)
  {
  }

  /** The specialised chain has, for an instruction executed at step j, the leaf for the
      tags seen there, if there is one. */
  lemma LearnedLeaf(env: Foreign, prog: seq<Ins>, x: Learning, n: nat, j: nat)
    requires Runnable(prog, |x.st.regs|) && j < n
    requires Slotted(prog, |x.slots|) && Settled(LearnRun(env, prog, x, n).slots)
    requires LearnRun(env, prog, x, j).st.status == Running && LearnRun(env, prog, x, j).st.pc < |prog|
    ensures var y := LearnRun(env, prog, x, j).st;
            Admits(prog, Specialise(prog, LearnRun(env, prog, x, n).slots), y) <==> Supported(prog, y)
  {
    var y := LearnRun(env, prog, x, j);
    var ins := prog[y.st.pc];
    SlotHolds(env, prog, x, n, j);
    LeafInChain(prog, LearnRun(env, prog, x, n).slots, y.st);
    if Supported(prog, y.st) {
      LeafAccepts(ins.op, y.st.regs[ins.left], RightValue(y.st.regs, ins.right));
    }
  }

  /** At the end of a run without conflict, the slot of an executed instruction holds the
      tags seen there. */
  lemma SlotHolds(env: Foreign, prog: seq<Ins>, x: Learning, n: nat, j: nat)
    requires Runnable(prog, |x.st.regs|) && j < n
    requires Slotted(prog, |x.slots|) && Settled(LearnRun(env, prog, x, n).slots)
    requires LearnRun(env, prog, x, j).st.status == Running && LearnRun(env, prog, x, j).st.pc < |prog|
    ensures var y := LearnRun(env, prog, x, j).st;
            var s := LearnRun(env, prog, x, n).slots[prog[y.pc].slot];
            s.seen && s.key != CONFLICT && (s.key, s.value) == Observed(prog, y)
  {
    var y := LearnRun(env, prog, x, j);
    var i := prog[y.st.pc].slot;
    ObservedAt(env, prog, x, j, i);
    var o := Observed(prog, y.st);
    SlotKeeps(env, prog, x, j + 1, n, i, o.0, o.1);
  }

  lemma SlotKeeps(env: Foreign, prog: seq<Ins>, x: Learning, j: nat, n: nat, i: nat, a: nat, b: nat)
    requires Runnable(prog, |x.st.regs|) && i < |x.slots| && j <= n && Settled(LearnRun(env, prog, x, n).slots)
    requires var s := LearnRun(env, prog, x, j).slots[i]; s.seen && (s.key == CONFLICT || (s.key == a && s.value == b))
    ensures var s := LearnRun(env, prog, x, n).slots[i]; s.seen && s.key == a != CONFLICT && s.value == b
  {
    SlotHistory(env, prog, x, j, n, i);
  }

  lemma ObservedAt(env: Foreign, prog: seq<Ins>, x: Learning, j: nat, i: nat)
    requires Runnable(prog, |x.st.regs|) && i < |x.slots|
    requires var y := LearnRun(env, prog, x, j).st; y.status == Running && y.pc < |prog| && prog[y.pc].slot == i
    ensures var s := LearnRun(env, prog, x, j + 1).slots[i];
            s.seen && (s.key == CONFLICT || (s.key, s.value) == Observed(prog, LearnRun(env, prog, x, j).st))
  {
    StepObserved(env, prog, LearnRun(env, prog, x, j));
  }

  lemma LeafInChain(prog: seq<Ins>, slots: seq<Slot>, st: State)
    requires Runnable(prog, |st.regs|) && st.pc < |prog| && prog[st.pc].slot < |slots|
    requires var s := slots[prog[st.pc].slot]; s.seen && s.key != CONFLICT && (s.key, s.value) == Observed(prog, st)
    ensures var o := Observed(prog, st); Specialise(prog, slots)[st.pc] == LeafFor(prog[st.pc].op, o.0, o.1)
  {
  }

  lemma NotRefusedSupported(env: Foreign, prog: seq<Ins>, y: Learning)
    requires Runnable(prog, |y.st.regs|) && y.st.status == Running && LearnStep(env, prog, y).st.status != Refused
    ensures Supported(prog, y.st)
  {
    if y.st.pc < |prog| {
      var ins := prog[y.st.pc];
      EffectHasLeaf(env, ins.op, y.st.regs[ins.left], RightValue(y.st.regs, ins.right));
    }
  }

  /** Every instruction executed before a refusal is admitted by the chain specialised
      from the slots of a run that ends free of conflict. */
  lemma LearnedAdmits(env: Foreign, prog: seq<Ins>, x: Learning, n: nat, j: nat)
    requires Runnable(prog, |x.st.regs|) && j < n
    requires Slotted(prog, |x.slots|) && Settled(LearnRun(env, prog, x, n).slots)
    requires LearnRun(env, prog, x, j + 1).st.status != Refused || Supported(prog, LearnRun(env, prog, x, j).st)
    ensures Admits(prog, Specialise(prog, LearnRun(env, prog, x, n).slots), LearnRun(env, prog, x, j).st)
  {
    var y := LearnRun(env, prog, x, j);
    if y.st.status == Running && y.st.pc < |prog| {
      if LearnRun(env, prog, x, j + 1).st.status != Refused {
        NotRefusedSupported(env, prog, y);
      }
      LearnedLeaf(env, prog, x, n, j);
    }
  }

  /** The step at which a run is refused; the state stays as it was there. */
  lemma {:induction false} RefusalStep(env: Foreign, prog: seq<Ins>, x: Learning, n: nat) returns (j: nat)
    requires Runnable(prog, |x.st.regs|) && x.st.status == Running && LearnRun(env, prog, x, n).st.status == Refused
    ensures j < n && LearnRun(env, prog, x, j + 1).st.status == Refused
    ensures var y := LearnRun(env, prog, x, j).st;
            && y.status == Running && y.pc < |prog|
            && LearnRun(env, prog, x, n).st == y.(status := Refused)
    decreases n
  {
    j := n - 1;
    if LearnRun(env, prog, x, n - 1).st.status != Running {
      j := RefusalStep(env, prog, x, n - 1);
    }
  }

  /** A machine that is not running stays as it is. */
  lemma {:induction false} Still(env: Foreign, prog: seq<Ins>, x: Learning, n: nat)
    requires Runnable(prog, |x.st.regs|) && x.st.status != Running
    ensures LearnRun(env, prog, x, n) == x
    decreases n
  {
    if n > 0 {
      Still(env, prog, x, n - 1);
    }
  }

  lemma RefusedAt(env: Foreign, prog: seq<Ins>, y: Learning)
    requires Runnable(prog, |y.st.regs|) && y.st.status == Running && LearnStep(env, prog, y).st.status == Refused
    ensures LearnStep(env, prog, y).st == y.st.(status := Refused)
  {
  }

  /** A refused state stays as it was at the refusal. */
  lemma {:induction false} Frozen(env: Foreign, prog: seq<Ins>, x: Learning, m: nat, n: nat)
    requires Runnable(prog, |x.st.regs|) && m < n && LearnRun(env, prog, x, m).st.status == Running
    requires LearnRun(env, prog, x, m + 1).st.status == Refused
    ensures LearnRun(env, prog, x, n).st == LearnRun(env, prog, x, m).st.(status := Refused)
    decreases n
  {
    if m + 1 < n {
      Frozen(env, prog, x, m, n - 1);
      var y := LearnRun(env, prog, x, n - 1);
      assert LearnRun(env, prog, x, n) == LearnStep(env, prog, y) == y;
    } else {
      RefusedAt(env, prog, LearnRun(env, prog, x, m));
    }
  }

  /** A step the specialised chain does not admit is one the learner refuses, on tags
      that have no leaf. */
  lemma Unadmitted(env: Foreign, prog: seq<Ins>, x: Learning, n: nat, c: Chain, m: nat)
    requires Runnable(prog, |x.st.regs|) && m < n && c == Specialise(prog, LearnRun(env, prog, x, n).slots)
    requires Slotted(prog, |x.slots|) && Settled(LearnRun(env, prog, x, n).slots)
    requires !Admits(prog, c, LearnRun(env, prog, x, m).st)
    ensures LearnRun(env, prog, x, m + 1).st.status == Refused && !Supported(prog, LearnRun(env, prog, x, m).st)
  {
    if LearnRun(env, prog, x, m + 1).st.status != Refused || Supported(prog, LearnRun(env, prog, x, m).st) {
      LearnedAdmits(env, prog, x, n, m);
    }
  }

  /** Running the specialised chain from the learner's starting registers gives the
      learner's run back, step for step, refusals by a leaf included; only where the
      learner refuses tags that have no leaf does the chain exit with a mismatch, there
      and with the same registers. */
  lemma RerunAgrees(env: Foreign, prog: seq<Ins>, x: Learning, n: nat)
    requires Runnable(prog, |x.st.regs|) && x.st.status != Mismatched
    requires Slotted(prog, |x.slots|) && Settled(LearnRun(env, prog, x, n).slots)
    ensures Genuine(prog, Specialise(prog, LearnRun(env, prog, x, n).slots))
    ensures var l := LearnRun(env, prog, x, n).st;
            ResidualRun(env, prog, Specialise(prog, LearnRun(env, prog, x, n).slots), x.st, n) ==
            if x.st.status == Running && l.status == Refused && !Supported(prog, l) then l.(status := Mismatched) else l
  {
    var l := LearnRun(env, prog, x, n);
    var c := Specialise(prog, l.slots);
    SpecialiseGenuine(prog, l.slots);
    var m := Simulation(env, prog, c, x, n);
    if m < n {
      Unadmitted(env, prog, x, n, c, m);
      Frozen(env, prog, x, m, n);
      if x.st.status != Running {
        Still(env, prog, x, m);
      }
    } else if x.st.status == Running && l.st.status == Refused {
      var j := RefusalStep(env, prog, x, n);
      LearnedLeaf(env, prog, x, n, j);
      assert Admits(prog, c, LearnRun(env, prog, x, j).st);
    }
  }
}
