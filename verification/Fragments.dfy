/** Mechanically composed call fragments: prepare; one slot per argument;
    finish. They communicate through the prepared-call scratch of the
    invocation and must add up to the one-piece opcodes. */
module Fragments {
  import opened Values
  import opened Slots
  import opened Frames

  // ---- the callee guard --------------------------------------------------------

  function ObjectKind(s: State, v: Value): nat {
    if v.Ref() in s.closures then (if s.closures[v.Ref()].Native? then 4 else 5) else 0
  }

  /** V2_CALL_GUARD_NATIVE_CELL: the (expected, observed) pair it reports, if any. */
  function GuardMismatch(s: State, v: Value, isVararg: bool): Option<(nat, nat)> {
    if !v.tag.Closure? then Some((8, v.tag.Code()))
    else if v.Ref() == 0 || ObjectKind(s, v) != 4 then Some((4, if v.Ref() != 0 then ObjectKind(s, v) else 0))
    else if NativeCallee(s, v).None? then Some((0, 0))
    else
      var d := NativeCallee(s, v).value.1;
      if d.isVararg != isVararg then Some((if isVararg then 1 else 0, if d.isVararg then 1 else 0)) else None
  }

  function Mismatch(s: State, m: (nat, nat), pc: nat): Result {
    Result(s.(outcome := Rejected(SpecializationMismatch(m.0, m.1), pc)), HostExit)
  }

  /** The guard passes exactly on native callees with the selected vararg flag. What it
      reports is the tag, the kind of object or the flag it expected and found. */
  lemma GuardExact(s: State, v: Value, isVararg: bool)
    ensures GuardMismatch(s, v, isVararg).None? <==>
            NativeCallee(s, v).Some? && NativeCallee(s, v).value.1.isVararg == isVararg
    ensures var m := GuardMismatch(s, v, isVararg);
            && (v.tag != Closure ==> m == Some((Tag.Closure.Code(), v.tag.Code())))
            && (v.tag == Closure && m.Some? && m.value.0 == 4 ==>
                  v.Ref() == 0 || v.Ref() !in s.closures || s.closures[v.Ref()].Builtin?)
            && (m.Some? && NativeCallee(s, v).Some? ==> m == Some(if isVararg then (1, 0) else (0, 1)))
  {
  }

  // ---- argument slots ------------------------------------------------------------

  /** Destination layout of the argument slots. */
  datatype Layout = Layout(values: Addr, capacity: nat, numParams: nat, varargs: nat)

  ghost predicate LayoutFits(mem: Mem, k: Layout, src: nat, nargs: nat) {
    && k.numParams <= k.capacity && (k.varargs > 0 ==> k.varargs == nargs - k.numParams)
    && SlotAt(k.values, k.capacity + k.varargs) <= |mem| && SlotAt(src, nargs) <= |mem|
  }

  /** One argument slot: a parameter, a vararg, or nothing. */
  function PlaceSlot(mem: Mem, k: Layout, src: nat, nargs: nat, slot: nat): (r: Mem)
    requires LayoutFits(mem, k, src, nargs) && slot < nargs
    ensures |r| == |mem|
  {
    if slot < k.numParams then mem[SlotAt(k.values, slot) := mem[SlotAt(src, slot)]]
    else if k.varargs > 0 then
      mem[SlotAt(SlotAt(k.values, k.capacity), slot - k.numParams) := mem[SlotAt(src, slot)]]
    else mem
  }

  function PlaceSlots(mem: Mem, k: Layout, src: nat, nargs: nat, n: nat): (r: Mem)
    requires LayoutFits(mem, k, src, nargs) && n <= nargs
    ensures |r| == |mem|
  {
    if n == 0 then mem else PlaceSlot(PlaceSlots(mem, k, src, nargs, n - 1), k, src, nargs, n - 1)
  }

  /** The slots in order perform the two copies of the one-piece opcodes. */
  lemma {:induction false} PlaceSlotsExact(mem: Mem, k: Layout, src: nat, nargs: nat, n: nat)
    requires LayoutFits(mem, k, src, nargs) && n <= nargs
    ensures var fixed := if n < k.numParams then n else k.numParams;
            var extra := if k.varargs > 0 && n > k.numParams then n - k.numParams else 0;
            PlaceSlots(mem, k, src, nargs, n) ==
            CopySlots(CopySlots(mem, k.values, src, fixed), SlotAt(k.values, k.capacity), SlotAt(src, fixed), extra)
  {
    if n == 0 {
    } else if n <= k.numParams {
      PlaceSlotsExact(mem, k, src, nargs, n - 1);
    } else {
      PlaceSlotsExact(mem, k, src, nargs, n - 1);
      assert SlotAt(SlotAt(src, k.numParams), n - 1 - k.numParams) == SlotAt(src, n - 1);
    }
  }

  /** Slots followed by nil padding equal the one-piece placement. */
  lemma SlotsThenNil(mem: Mem, values: nat, d: Descriptor, src: nat, nargs: nat)
    requires d.Valid()
    requires SlotAt(values, d.valueCapacity + Varargs(d, nargs)) <= |mem| && SlotAt(src, nargs) <= |mem|
    ensures var k := Layout(values, d.valueCapacity, d.numParams, Varargs(d, nargs));
            NilSlots(PlaceSlots(mem, k, src, nargs, nargs), values, nargs, d.numParams) ==
            PlaceArgs(mem, values, d, src, nargs)
  {
    PlaceSlotsExact(mem, Layout(values, d.valueCapacity, d.numParams, Varargs(d, nargs)), src, nargs, nargs);
  }

  // ---- CALL ------------------------------------------------------------------------

  /** lua55_v2r_call_native_*_prepare once the guard has passed. */
  function CallPrepare(s: State, f: Addr, clo: Addr, d: Descriptor, A: nat, nargs: nat, results: int,
                       pc: nat, cont: nat): Result
    requires Ready(s, f) && d.Valid()
  {
    var fr := s.frames[f];
    if A + 1 + nargs > fr.valueCapacity then
      Result(s.(outcome := ValueOverflow(A + 1 + nargs, fr.valueCapacity, pc)), HostExit)
    else if s.frameNext + CallBytes(d, nargs) > s.frameEnd then
      Result(s.(outcome := StackOverflow(CallBytes(d, nargs), s.frameEnd - s.frameNext, pc)), HostExit)
    else
      var callee := s.frameNext;
      Result(s.(frames := s.frames[callee := CalleeHeader(s, f, clo, d, A, nargs, results, cont)],
                preparedCall := PreparedCall(callee, d.entry, callee + CallBytes(d, nargs), d.numParams, nargs)),
             Next)
  }

  function CallLayout(s: State): Layout
    requires s.preparedCall.callee in s.frames
  {
    var c := s.frames[s.preparedCall.callee];
    Layout(c.values, c.valueCapacity, s.preparedCall.numParams, c.varargCount)
  }

  /** The scratch describes a callee frame inside memory. */
  ghost predicate CallPrepared(s: State, f: Addr, A: nat) {
    && f in s.frames && s.preparedCall.callee in s.frames
    && LayoutFits(s.mem, CallLayout(s), SlotAt(s.frames[f].values, A + 1), s.preparedCall.nargs)
  }

  /** lua55_v2r_call_fixed_arg_slot. */
  function CallSlot(s: State, f: Addr, A: nat, slot: nat): State
    requires CallPrepared(s, f, A) && slot < s.preparedCall.nargs
  {
    s.(mem := PlaceSlot(s.mem, CallLayout(s), SlotAt(s.frames[f].values, A + 1), s.preparedCall.nargs, slot))
  }

  /** Slots 0 .. n-1 in order. */
  function CallSlots(s: State, f: Addr, A: nat, n: nat): (r: State)
    requires CallPrepared(s, f, A) && n <= s.preparedCall.nargs
    ensures r == s.(mem := PlaceSlots(s.mem, CallLayout(s), SlotAt(s.frames[f].values, A + 1),
                                      s.preparedCall.nargs, n))
  {
    if n == 0 then s else CallSlot(CallSlots(s, f, A, n - 1), f, A, n - 1)
  }

  /** lua55_v2r_call_fixed_finish. */
  function CallFinish(s: State): Result
    requires var p := s.preparedCall;
             && p.callee in s.frames && p.numParams <= s.frames[p.callee].valueCapacity
             && SlotAt(s.frames[p.callee].values, s.frames[p.callee].valueCapacity) <= |s.mem|
  {
    var p := s.preparedCall;
    Result(s.(mem := NilSlots(s.mem, s.frames[p.callee].values, p.nargs, p.numParams),
              frameNext := p.nextFrame, current := p.callee),
           Enter(p.entry, p.callee))
  }

  lemma PreparedAfter(s: State, f: Addr, clo: Addr, d: Descriptor, A: nat, nargs: nat, results: int,
                      pc: nat, cont: nat)
    requires Ready(s, f) && d.Valid() && f < s.frameNext
    ensures var r := CallPrepare(s, f, clo, d, A, nargs, results, pc, cont);
            r.control.Next? ==> CallPrepared(r.s, f, A) && r.s.preparedCall.nargs == nargs
  {
  }

  /** prepare; arg_slot(0); ...; arg_slot(nargs - 1); finish. */
  function CallFragments(s: State, f: Addr, clo: Addr, d: Descriptor, A: nat, nargs: nat, results: int,
                         pc: nat, cont: nat): Result
    requires Ready(s, f) && d.Valid() && f < s.frameNext
  {
    var r := CallPrepare(s, f, clo, d, A, nargs, results, pc, cont);
    PreparedAfter(s, f, clo, d, A, nargs, results, pc, cont);
    if r.control.Next? then CallFinish(CallSlots(r.s, f, A, nargs)) else r
  }

  /** Forgets the fragment scratch. */
  function Bare(s: State, like: State): State {
    s.(preparedCall := like.preparedCall, preparedTail := like.preparedTail)
  }

  /** The composed CALL reaches the same callee frame, memory, invocation and jump
      as the one-piece CALL, or the same overflow exit. */
  lemma CallFragmentsExact(s: State, f: Addr, clo: Addr, d: Descriptor, A: nat, nargs: nat, results: int,
                           pc: nat, cont: nat)
    requires Ready(s, f) && d.Valid() && f < s.frameNext
    ensures var r := CallFragments(s, f, clo, d, A, nargs, results, pc, cont);
            Result(Bare(r.s, s), r.control) == CallNative(s, f, clo, d, A, nargs, results, pc, cont)
  {
    var r := CallPrepare(s, f, clo, d, A, nargs, results, pc, cont);
    if r.control.Next? {
      PreparedAfter(s, f, clo, d, A, nargs, results, pc, cont);
      assert SlotAt(SlotAt(s.frames[f].values, A + 1), nargs) == SlotAt(s.frames[f].values, A + 1 + nargs);
      SlotsThenNil(s.mem, s.frameNext + HEADER, d, SlotAt(s.frames[f].values, A + 1), nargs);
      var t := CallSlots(r.s, f, A, nargs);
      assert t.frames == r.s.frames && t.preparedCall == r.s.preparedCall;
      assert CallFinish(t).s.mem == CallNative(s, f, clo, d, A, nargs, results, pc, cont).s.mem;
    }
  }

  /** The residual CALL: guard, then the fragments. */
  function ComposedCall(s: State, f: Addr, A: nat, nargs: nat, results: int, pc: nat, cont: nat,
                        isVararg: bool): Result
    requires Ready(s, f) && f < s.frameNext && A < s.frames[f].valueCapacity
  {
    var v := Reg(s, f, A);
    GuardExact(s, v, isVararg);
    match GuardMismatch(s, v, isVararg)
    case Some(m) => Mismatch(s, m, pc)
    case None =>
      var (clo, d) := NativeCallee(s, v).value;
      CallFragments(s, f, clo, d, A, nargs, results, pc, cont)
  }

  /** A residual CALL either does what the one-piece CALL does, or reports a
      mismatch because the callee is not of the selected class, changing nothing
      but the outcome. */
  lemma ComposedCallExact(s: State, f: Addr, A: nat, nargs: nat, results: int, pc: nat, cont: nat, isVararg: bool)
    requires Ready(s, f) && f < s.frameNext && A < s.frames[f].valueCapacity
    requires nargs < 0xFF_FFFF && results >= -1
    ensures var v := Reg(s, f, A);
            var r := ComposedCall(s, f, A, nargs, results, pc, cont, isVararg);
            if NativeCallee(s, v).Some? && NativeCallee(s, v).value.1.isVararg == isVararg then
              Result(Bare(r.s, s), r.control) == Call(s, f, A, nargs + 1, results + 1, pc, cont)
            else
              && r.control == HostExit && r.s == s.(outcome := r.s.outcome)
              && r.s.outcome.Rejected? && r.s.outcome.kind.SpecializationMismatch? && r.s.outcome.pc == pc
              && GuardMismatch(s, v, isVararg) == Some((r.s.outcome.kind.expected, r.s.outcome.kind.observed))
  {
    var v := Reg(s, f, A);
    GuardExact(s, v, isVararg);
    if GuardMismatch(s, v, isVararg).None? {
      var (clo, d) := NativeCallee(s, v).value;
      CallFragmentsExact(s, f, clo, d, A, nargs, results, pc, cont);
    }
  }

  /** lua55_v2r_call_native_fixed_arg1: one argument, no staging, fixed arity. */
  function CallOne(s: State, f: Addr, clo: Addr, d: Descriptor, A: nat, results: int, pc: nat, cont: nat): Result
    requires Ready(s, f) && d.Valid() && !d.isVararg
  {
    var fr := s.frames[f];
    var bytes := FrameBytes(d.valueCapacity, 0, d.tbcCapacity);
    if A + 2 > fr.valueCapacity then
      Result(s.(outcome := ValueOverflow(A + 2, fr.valueCapacity, pc)), HostExit)
    else if s.frameNext + bytes > s.frameEnd then
      Result(s.(outcome := StackOverflow(bytes, s.frameEnd - s.frameNext, pc)), HostExit)
    else
      var values := s.frameNext + HEADER;
      var header := Frame(f, cont, f, Sink(SlotAt(fr.values, A), FrameTop(f), A, results, fr.valueCapacity),
                          clo, 0, SlotAt(values, d.valueCapacity), values,
                          d.maxStack, d.valueCapacity, 1, 0, 0, d.tbcCapacity);
      var m1 := if d.numParams > 0 then s.mem[values := s.mem[SlotAt(fr.values, A + 1)]] else s.mem;
      Result(s.(frames := s.frames[s.frameNext := header], mem := NilSlots(m1, values, 1, d.numParams),
                frameNext := s.frameNext + bytes, current := s.frameNext),
             Enter(d.entry, s.frameNext))
  }

  /** The leaf equals CALL with one argument exactly when the callee has room for
      a register: it sets top to 1 without looking at the capacity. */
  lemma CallOneExact(s: State, f: Addr, clo: Addr, d: Descriptor, A: nat, results: int, pc: nat, cont: nat)
    requires Ready(s, f) && d.Valid() && !d.isVararg
    ensures var r := CallNative(s, f, clo, d, A, 1, results, pc, cont);
            CallOne(s, f, clo, d, A, results, pc, cont) == r
            <==> || d.valueCapacity > 0 || A + 2 > s.frames[f].valueCapacity
                 || s.frameNext + CallBytes(d, 1) > s.frameEnd
  {
    var fr := s.frames[f];
    var r := CallNative(s, f, clo, d, A, 1, results, pc, cont);
    if r.control.Enter? {
      var values, src := s.frameNext + HEADER, SlotAt(fr.values, A + 1);
      assert CopySlots(s.mem, values, src, 0) == s.mem;
      assert CopySlots(s.mem, values, src, Fixed(d, 1)) ==
             if d.numParams > 0 then s.mem[values := s.mem[src]] else s.mem;
      if d.numParams == 0 {
        assert NilSlots(s.mem, values, 0, 0) == NilSlots(s.mem, values, 1, 0);
      }
      if d.valueCapacity == 0 {
        assert r.s.frames[s.frameNext].top == 0;
        assert CallOne(s, f, clo, d, A, results, pc, cont).s.frames[s.frameNext].top == 1;
      }
    }
  }

  // ---- TAILCALL --------------------------------------------------------------------

  /** lua55_v2r_tailcall_native_*_prepare once the guard has passed. */
  function TailPrepare(s: State, f: Addr, clo: Addr, d: Descriptor, A: nat, nargs: nat, pc: nat): Result
    requires Ready(s, f) && d.Valid()
  {
    var fr := s.frames[f];
    if A + 1 + nargs > fr.valueCapacity then
      Result(s.(outcome := ValueOverflow(A + 1 + nargs, fr.valueCapacity, pc)), HostExit)
    else if f + CallBytes(d, nargs) > s.frameEnd then
      Result(s.(outcome := StackOverflow(CallBytes(d, nargs), s.frameEnd - f, pc)), HostExit)
    else
      Result(CloseAll(s, f).(preparedTail :=
               PreparedTail(d.entry, clo, f + CallBytes(d, nargs), d.numParams, nargs, Varargs(d, nargs),
                            d.maxStack, d.valueCapacity, d.tbcCapacity)),
             Next)
  }

  function TailLayout(s: State, f: Addr): Layout
    requires f in s.frames
  {
    Layout(s.frames[f].values, s.preparedTail.valueCapacity, s.preparedTail.numParams, s.preparedTail.varargs)
  }

  ghost predicate TailPrepared(s: State, f: Addr, A: nat) {
    && f in s.frames
    && LayoutFits(s.mem, TailLayout(s, f), SlotAt(s.frames[f].values, A + 1), s.preparedTail.nargs)
  }

  /** lua55_v2r_tailcall_fixed_arg_slot. */
  function TailSlot(s: State, f: Addr, A: nat, slot: nat): State
    requires TailPrepared(s, f, A) && slot < s.preparedTail.nargs
  {
    s.(mem := PlaceSlot(s.mem, TailLayout(s, f), SlotAt(s.frames[f].values, A + 1), s.preparedTail.nargs, slot))
  }

  function TailSlots(s: State, f: Addr, A: nat, n: nat): (r: State)
    requires TailPrepared(s, f, A) && n <= s.preparedTail.nargs
    ensures r == s.(mem := PlaceSlots(s.mem, TailLayout(s, f), SlotAt(s.frames[f].values, A + 1),
                                      s.preparedTail.nargs, n))
  {
    if n == 0 then s else TailSlot(TailSlots(s, f, A, n - 1), f, A, n - 1)
  }

  /** lua55_v2r_tailcall_fixed_finish. */
  function TailFinish(s: State, f: Addr): Result
    requires f in s.frames
    requires s.preparedTail.numParams <= s.preparedTail.valueCapacity
    requires SlotAt(s.frames[f].values, s.preparedTail.valueCapacity) <= |s.mem|
  {
    var p, fr := s.preparedTail, s.frames[f];
    Result(s.(mem := NilSlots(s.mem, fr.values, p.nargs, p.numParams),
              frames := s.frames[f := fr.(
                upvalues := p.upvalues, valueCount := p.maxStack, valueCapacity := p.valueCapacity,
                varargCount := p.varargs, top := if p.nargs < p.valueCapacity then p.nargs else p.valueCapacity,
                tbcCount := 0, tbcCapacity := p.tbcCapacity,
                tbcNodes := SlotAt(fr.values, p.valueCapacity + p.varargs), open := 0)],
              frameNext := p.frameEnd, current := f),
           Enter(p.entry, f))
  }

  /** prepare; arg_slot(0); ...; arg_slot(nargs - 1); finish. */
  function TailFragments(s: State, f: Addr, clo: Addr, d: Descriptor, A: nat, nargs: nat, pc: nat): Result
    requires Ready(s, f) && d.Valid()
  {
    var r := TailPrepare(s, f, clo, d, A, nargs, pc);
    assert SlotAt(SlotAt(s.frames[f].values, A + 1), nargs) == SlotAt(s.frames[f].values, A + 1 + nargs);
    if r.control.Next? then TailFinish(TailSlots(r.s, f, A, nargs), f) else r
  }

  /** The composed TAILCALL equals the one-piece TAILCALL, overlapping vararg
      copies included. */
  lemma TailFragmentsExact(s: State, f: Addr, clo: Addr, d: Descriptor, A: nat, nargs: nat, pc: nat)
    requires Ready(s, f) && d.Valid()
    ensures var r := TailFragments(s, f, clo, d, A, nargs, pc);
            Result(Bare(r.s, s), r.control) == TailNative(s, f, clo, d, A, nargs, pc)
  {
    var r := TailPrepare(s, f, clo, d, A, nargs, pc);
    if r.control.Next? {
      assert SlotAt(SlotAt(s.frames[f].values, A + 1), nargs) == SlotAt(s.frames[f].values, A + 1 + nargs);
      SlotsThenNil(s.mem, s.frames[f].values, d, SlotAt(s.frames[f].values, A + 1), nargs);
      var t := TailFinish(TailSlots(r.s, f, A, nargs), f);
      assert t.s.frames == TailNative(s, f, clo, d, A, nargs, pc).s.frames;
    }
  }

  /** The residual TAILCALL: guard, then the fragments. */
  function ComposedTail(s: State, f: Addr, A: nat, nargs: nat, pc: nat, isVararg: bool): Result
    requires Ready(s, f) && A < s.frames[f].valueCapacity
  {
    var v := Reg(s, f, A);
    GuardExact(s, v, isVararg);
    match GuardMismatch(s, v, isVararg)
    case Some(m) => Mismatch(s, m, pc)
    case None =>
      var (clo, d) := NativeCallee(s, v).value;
      TailFragments(s, f, clo, d, A, nargs, pc)
  }

  /** A residual TAILCALL either does what the one-piece TAILCALL does, or reports a
      mismatch because the callee is not of the selected class, changing nothing but
      the outcome. */
  lemma ComposedTailExact(s: State, f: Addr, A: nat, nargs: nat, pc: nat, tailReturn: nat, isVararg: bool)
    requires Ready(s, f) && A < s.frames[f].valueCapacity && nargs < 0xFF_FFFF
    ensures var v := Reg(s, f, A);
            var r := ComposedTail(s, f, A, nargs, pc, isVararg);
            if NativeCallee(s, v).Some? && NativeCallee(s, v).value.1.isVararg == isVararg then
              Result(Bare(r.s, s), r.control) == TailCall(s, f, A, nargs + 1, pc, tailReturn)
            else
              && r.control == HostExit && r.s == s.(outcome := r.s.outcome)
              && r.s.outcome.Rejected? && r.s.outcome.kind.SpecializationMismatch? && r.s.outcome.pc == pc
              && GuardMismatch(s, v, isVararg) == Some((r.s.outcome.kind.expected, r.s.outcome.kind.observed))
  {
    var v := Reg(s, f, A);
    GuardExact(s, v, isVararg);
    if GuardMismatch(s, v, isVararg).None? {
      var (clo, d) := NativeCallee(s, v).value;
      TailFragmentsExact(s, f, clo, d, A, nargs, pc);
    }
  }

  // ---- RETURN ------------------------------------------------------------------------

  /** lua55_v2r_ret_fixed_begin. */
  function RetBegin(s: State, f: Addr, nres: nat, pc: nat): Result
    requires f in s.frames
  {
    var k := s.frames[f].sink;
    if k.values != 0 && k.base + Wanted(k, nres) > k.capacity then
      Result(s.(outcome := ValueOverflow(k.base + Wanted(k, nres), k.capacity, pc)), HostExit)
    else Result(s, Next)
  }

  ghost predicate SinkOpen(s: State, f: Addr, A: nat, nres: nat) {
    && f in s.frames
    && var k := s.frames[f].sink;
       k.values != 0 ==>
         SlotAt(k.values, Wanted(k, nres)) <= |s.mem| && SlotAt(s.frames[f].values, A + nres) <= |s.mem|
  }

  /** lua55_v2r_ret_fixed_slot. */
  function RetSlot(s: State, f: Addr, A: nat, nres: nat, slot: nat): (r: State)
    requires SinkOpen(s, f, A, nres) && slot < nres
    ensures r == s.(mem := r.mem) && |r.mem| == |s.mem|
  {
    var k := s.frames[f].sink;
    if k.values != 0 && (k.count < 0 || slot < k.count) then
      s.(mem := s.mem[SlotAt(k.values, slot) := s.mem[SlotAt(s.frames[f].values, A + slot)]])
    else s
  }

  function RetSlots(s: State, f: Addr, A: nat, nres: nat, n: nat): (r: State)
    requires SinkOpen(s, f, A, nres) && n <= nres
    ensures r == s.(mem := r.mem) && |r.mem| == |s.mem|
  {
    if n == 0 then s else RetSlot(RetSlots(s, f, A, nres, n - 1), f, A, nres, n - 1)
  }

  /** lua55_v2r_ret_fixed_finish. */
  function RetFinish(s: State, f: Addr, nres: nat): Result
    requires f in s.frames
    requires var k := s.frames[f].sink;
             k.values != 0 ==>
               SlotAt(k.values, Wanted(k, nres)) <= |s.mem| && (k.top.FrameTop? ==> k.top.frame in s.frames)
  {
    var k := s.frames[f].sink;
    var s1 := if k.values == 0 then s
              else SetTop(s.(mem := if k.count >= 0 then NilSlots(s.mem, k.values, nres, k.count) else s.mem),
                          k.top, k.base + Wanted(k, nres));
    Leave(s1, f, Wanted(k, nres))
  }

  /** begin; slot(0); ...; slot(nres - 1); finish. */
  function RetFragments(s: State, f: Addr, A: nat, nres: nat, pc: nat): Result
    requires Ready(s, f) && A + nres <= Extent(s.frames[f])
  {
    var r := RetBegin(s, f, nres, pc);
    if r.control.Next? then RetFinish(RetSlots(s, f, A, nres, nres), f, nres) else r
  }

  lemma {:induction false} RetSlotsMem(s: State, f: Addr, A: nat, nres: nat, n: nat)
    requires SinkOpen(s, f, A, nres) && n <= nres && s.frames[f].sink.values != 0
    ensures var k := s.frames[f].sink;
            RetSlots(s, f, A, nres, n).mem ==
            CopySlots(s.mem, k.values, SlotAt(s.frames[f].values, A), Delivered(k, n))
  {
    if n > 0 {
      RetSlotsMem(s, f, A, nres, n - 1);
      assert SlotAt(s.frames[f].values, A + (n - 1)) == SlotAt(SlotAt(s.frames[f].values, A), n - 1);
    }
  }

  /** The composed RETURN equals the one-piece RETURN for every result count and
      sink width. */
  lemma RetFragmentsExact(s: State, f: Addr, A: nat, nres: nat, pc: nat)
    requires Ready(s, f) && A + nres <= Extent(s.frames[f])
    ensures RetFragments(s, f, A, nres, pc) == ReturnN(s, f, A, nres, pc)
  {
    var k := s.frames[f].sink;
    if RetBegin(s, f, nres, pc).control.Next? {
      var t := RetSlots(s, f, A, nres, nres);
      if k.values != 0 {
        RetSlotsMem(s, f, A, nres, nres);
        NilDegenerate(t.mem, k.values, nres, k);
      } else {
        RetSlotsNone(s, f, A, nres, nres);
      }
    }
  }

  lemma NilDegenerate(mem: Mem, base: nat, nres: nat, k: Sink)
    requires SlotAt(base, Wanted(k, nres)) <= |mem|
    ensures NilSlots(mem, base, Delivered(k, nres), Wanted(k, nres)) ==
            if k.count >= 0 then NilSlots(mem, base, nres, k.count) else mem
  {
  }

  lemma {:induction false} RetSlotsNone(s: State, f: Addr, A: nat, nres: nat, n: nat)
    requires SinkOpen(s, f, A, nres) && n <= nres && s.frames[f].sink.values == 0
    ensures RetSlots(s, f, A, nres, n) == s
  {
    if n > 0 {
      RetSlotsNone(s, f, A, nres, n - 1);
    }
  }

  /** lua55_v2r_ret_fixed_one, with its one-wide sink fast path. */
  function RetOne(s: State, f: Addr, A: nat, pc: nat): Result
    requires Ready(s, f) && A < Extent(s.frames[f])
  {
    var fr := s.frames[f];
    var k := fr.sink;
    var v := Reg(s, f, A);
    if k.values != 0 && k.count == 1 && fr.open == 0 then
      if k.base + 1 > k.capacity then
        Result(s.(outcome := ValueOverflow(k.base + 1, k.capacity, pc)), HostExit)
      else
        var s1 := SetTop(s.(mem := s.mem[k.values := v], outcome := Returned(1)), k.top, k.base + 1);
        Result(if s1.current == f then s1.(frameNext := f, current := fr.caller) else s1,
               Enter(fr.linkEntry, fr.linkSubject))
    else
      var needed := k.base + (if k.count >= 0 then k.count else 1);
      if k.values != 0 && needed > k.capacity then
        Result(s.(outcome := ValueOverflow(needed, k.capacity, pc)), HostExit)
      else
        var s1 := if k.values == 0 then s
                  else
                    var m1 := if k.count != 0 then s.mem[k.values := v] else s.mem;
                    var m2 := if k.count > 1 then NilSlots(m1, k.values, 1, k.count) else m1;
                    SetTop(s.(mem := m2), k.top, needed);
        Leave(s1, f, if k.count >= 0 then k.count else 1)
  }

  /** The one-result leaf equals RETURN of one value, on both of its paths. */
  lemma RetOneExact(s: State, f: Addr, A: nat, pc: nat)
    requires Ready(s, f) && A < Extent(s.frames[f])
    ensures RetOne(s, f, A, pc) == ReturnN(s, f, A, 1, pc)
  {
    var fr := s.frames[f];
    var k := fr.sink;
    var src := SlotAt(fr.values, A);
    if k.values != 0 && k.base + Wanted(k, 1) <= k.capacity {
      assert CopySlots(s.mem, k.values, src, 0) == s.mem;
      assert CopySlots(s.mem, k.values, src, Delivered(k, 1)) ==
             if k.count != 0 then s.mem[k.values := s.mem[src]] else s.mem;
      if fr.open == 0 {
        ClosedAlready(Deliver(s, k, src, 1), f);
      }
    }
  }

  /** Closing a frame without open cells is no change. */
  lemma ClosedAlready(s: State, f: Addr)
    requires f in s.frames && s.frames[f].open == 0
    ensures CloseAll(s, f) == s
  {
    assert OpenCells(s, f) == [];
    assert CloseCells(s.cells, s.mem, []) == s.cells;
  }
}
