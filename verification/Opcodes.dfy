/** The call family as opcodes: how many values A, B and C name, where they arrive, and
    what a CALL finds in its registers when its callee has returned. */
module Opcodes {
  import opened Values
  import opened Slots
  import opened Frames
  import opened Arena
  import opened Upvalues
  import opened Machine
  import opened Transfer
  import opened TailCalls

  // ---- RETURN ---------------------------------------------------------------------------------

  /** RETURN A B returns n values: B - 1, or for B = 0 those from register A up to top. */
  ghost predicate Results(fr: Frame, A: nat, B: nat, n: nat) {
    if B >= 1 then n + 1 == B else if fr.top >= A then A + n == fr.top else n == 0
  }

  /** How many of n results the receiver gets: the count it asked for, or all. */
  ghost predicate Receives(k: Sink, n: nat, w: nat) { if k.count >= 0 then w == k.count else w == n }

  /** The top a sink points at. */
  function TopAt(s: State, top: TopRef): nat
    requires top.FrameTop? ==> top.frame in s.frames
  {
    match top case HostTop => s.hostTop case FrameTop(f) => s.frames[f].top
  }

  /** The n results from register A on, as the receiver's first w slots; missing ones are
      nil, and no other slot changes. */
  ghost predicate Arrived(s: State, s': State, A: nat, n: nat, w: nat)
    requires Fits(s, s.current) && A + n <= Extent(s.frames[s.current])
  {
    var k := s.frames[s.current].sink;
    && |s'.mem| == |s.mem| && SlotAt(k.values, w) <= |s.mem|
    && (forall i: nat {:trigger SlotAt(k.values, i)} :: i < w ==>
          if i < n then s'.mem[SlotAt(k.values, i)] == Reg(s, s.current, A + i)
          else s'.mem[SlotAt(k.values, i)].tag == Nil)
    && SameOutside(s.mem, s'.mem, k.values, SlotAt(k.values, w))
  }

  lemma CountIs(fr: Frame, A: nat, B: nat, n: nat)
    requires Results(fr, A, B, n)
    ensures ResultCount(fr, A, B) == n
  {
  }

  lemma WantedIs(k: Sink, n: nat, w: nat)
    requires Receives(k, n, w)
    ensures Wanted(k, n) == w
  {
  }

  /** RETURN with room in its sink: the results arrive, the receiver's top is behind them,
      and control goes back through the link with the frame gone. */
  ghost predicate Returns(s: State, r: Result, A: nat, n: nat, w: nat)
    requires Fits(s, s.current) && A + n <= Extent(s.frames[s.current])
  {
    var fr := s.frames[s.current];
    var k := fr.sink;
    && r.control == Enter(fr.linkEntry, fr.linkSubject) && r.s.outcome == Returned(w)
    && r.s.current == fr.caller && r.s.frameNext == s.current
    && (if k.values == 0 then r.s.mem == s.mem
        else
          && Arrived(s, r.s, A, n, w)
          && (k.top.FrameTop? ==> k.top.frame in r.s.frames) && TopAt(r.s, k.top) == k.base + w)
  }

  /** RETURN A B returns its results, or without room in the sink changes nothing but the
      outcome. */
  lemma ReturnStep(s: State, chain: seq<Addr>, A: nat, B: nat, pc: nat, n: nat, w: nat)
    requires ArenaOk(s, chain) && chain != [] && Enabled(s, ReturnOp(A, B, pc))
    requires Results(s.frames[s.current], A, B, n) && Receives(s.frames[s.current].sink, n, w)
    ensures A + n <= Extent(s.frames[s.current])
    ensures var r := Exec(s, ReturnOp(A, B, pc));
            var k := s.frames[s.current].sink;
            if k.values != 0 && k.base + w > k.capacity
            then r == Result(s.(outcome := ValueOverflow(k.base + w, k.capacity, pc)), HostExit)
            else Returns(s, r, A, n, w)
  {
    var k := s.frames[s.current].sink;
    CountIs(s.frames[s.current], A, B, n);
    WantedIs(k, n, w);
    if k.values == 0 || k.base + w <= k.capacity {
      ReturnTop(s, A, n, w, pc);
      if k.values != 0 {
        ReturnArrived(s, chain, A, n, w, pc);
      }
    }
  }

  lemma ReturnTop(s: State, A: nat, n: nat, w: nat, pc: nat)
    requires Ready(s, s.current) && A + n <= Extent(s.frames[s.current])
    requires var k := s.frames[s.current].sink; Wanted(k, n) == w && (k.values == 0 || k.base + w <= k.capacity)
    ensures var r, fr := ReturnN(s, s.current, A, n, pc), s.frames[s.current];
            var k := fr.sink;
            && r.control == Enter(fr.linkEntry, fr.linkSubject) && r.s.outcome == Returned(w)
            && r.s.current == fr.caller && r.s.frameNext == s.current
            && (k.values == 0 ==> r.s.mem == s.mem)
            && (k.values != 0 ==> (k.top.FrameTop? ==> k.top.frame in r.s.frames) && TopAt(r.s, k.top) == k.base + w)
  {
  }

  lemma ReturnArrived(s: State, chain: seq<Addr>, A: nat, n: nat, w: nat, pc: nat)
    requires ArenaOk(s, chain) && chain != [] && Ready(s, s.current) && A + n <= Extent(s.frames[s.current])
    requires s.frames[s.current].sink.values != 0 && Wanted(s.frames[s.current].sink, n) == w
    requires ReturnN(s, s.current, A, n, pc).control.Enter?
    ensures Arrived(s, ReturnN(s, s.current, A, n, pc).s, A, n, w)
  {
    var k, s' := s.frames[s.current].sink, ReturnN(s, s.current, A, n, pc).s;
    ReturnDelivers(s, chain, A, n, pc);
    forall i: nat {:trigger SlotAt(k.values, i)} | i < w
      ensures if i < n then s'.mem[SlotAt(k.values, i)] == Reg(s, s.current, A + i)
              else s'.mem[SlotAt(k.values, i)].tag == Nil
    {
      ReturnValues(s, chain, A, n, pc, i);
    }
  }

  // ---- CALL -----------------------------------------------------------------------------------

  /** CALL and TAILCALL A B pass n arguments: B - 1, or for B = 0 (and for counts of 2^24 - 1
      and more) those from register A + 1 up to top. */
  ghost predicate Arguments(fr: Frame, A: nat, B: nat, n: nat) {
    if 1 <= B <= 0xFF_FFFF then n + 1 == B else if fr.top >= A + 1 then A + 1 + n == fr.top else n == 0
  }

  /** v refers to the native closure at clo of the function with descriptor d. */
  ghost predicate IsNative(s: State, v: Value, clo: Addr, d: Descriptor) {
    && v.tag == Closure && v.Ref() == clo && clo != 0 && clo in s.closures && s.closures[clo].Native?
    && s.closures[clo].proto < |s.functions| && s.functions[s.closures[clo].proto] == d && d.entry != 0
  }

  /** How many of n arguments are surplus. */
  ghost predicate SurplusCount(d: Descriptor, n: nat, extra: nat) {
    if d.isVararg && n > d.numParams then d.numParams + extra == n else extra == 0
  }

  /** Frame c of s' has the arguments from slot src of s on: parameters, nil where
      arguments are missing, and the surplus in its slice. */
  ghost predicate Passed(s: State, src: nat, n: nat, s': State, c: Addr, d: Descriptor, extra: nat) {
    && Fits(s', c) && s'.frames[c].valueCapacity == d.valueCapacity >= d.numParams && s'.frames[c].varargCount == extra
    && SlotAt(src, n) <= |s.mem| && (extra > 0 ==> d.numParams + extra <= n)
    && (forall i: nat {:trigger Reg(s', c, i)} :: i < d.numParams ==>
          if i < n then Reg(s', c, i).Same(s.mem[SlotAt(src, i)]) else Reg(s', c, i).tag == Nil)
    && (forall i: nat {:trigger GetVarg(s', c, i + 1)} :: i < extra ==>
          GetVarg(s', c, i + 1) == s.mem[SlotAt(src, d.numParams + i)])
  }

  lemma ArgumentsAre(fr: Frame, A: nat, B: nat, n: nat)
    requires Arguments(fr, A, B, n)
    ensures ArgCount(fr, A, B) == n
  {
  }

  lemma NativeIs(s: State, v: Value, clo: Addr, d: Descriptor)
    requires IsNative(s, v, clo, d)
    ensures NativeCallee(s, v) == Some((clo, d))
  {
  }

  /** A frame entered as expected has the arguments. */
  lemma EntryPassed(s: State, src: nat, n: nat, s': State, c: Addr, clo: Addr, d: Descriptor, extra: nat)
    requires Fits(s', c) && d.numParams <= s'.frames[c].valueCapacity && SlotAt(src, n) <= |s.mem|
    requires SurplusCount(d, n, extra) && EntryOf(s', c, d) == ExpectedEntry(s.mem, src, clo, d, n)
    ensures Passed(s, src, n, s', c, d, extra)
  {
    var got, want := EntryOf(s', c, d), ExpectedEntry(s.mem, src, clo, d, n);
    assert Varargs(d, n) == extra;
    assert |got.varargs| == s'.frames[c].varargCount && |want.varargs| == extra;
    forall i: nat {:trigger Reg(s', c, i)} | i < d.numParams
      ensures if i < n then Reg(s', c, i).Same(s.mem[SlotAt(src, i)]) else Reg(s', c, i).tag == Nil
    {
      assert got.params[i] == want.params[i];
    }
    forall i: nat {:trigger GetVarg(s', c, i + 1)} | i < extra
      ensures GetVarg(s', c, i + 1) == s.mem[SlotAt(src, d.numParams + i)]
    {
      assert got.varargs[i] == want.varargs[i];
    }
  }

  /** What CALL leaves of a frame it enters: the header says who called, where to go on and
      where the C - 1 results (all of them for C = 0) go, from register A of the caller on. */
  ghost predicate ReturnsTo(s: State, fr: Frame, A: nat, C: nat, cont: nat)
    requires s.current in s.frames
  {
    var caller := s.frames[s.current];
    && fr.caller == s.current && fr.linkEntry == cont && fr.linkSubject == s.current
    && fr.sink.values == SlotAt(caller.values, A) && fr.sink.top == FrameTop(s.current) && fr.sink.base == A
    && fr.sink.count == C - 1 && fr.sink.capacity == caller.valueCapacity
  }

  /** The part of a new header that is the callee's own. */
  ghost predicate Started(fr: Frame, clo: Addr, d: Descriptor, n: nat) {
    && fr.upvalues == clo && fr.open == 0 && fr.valueCount == d.maxStack && fr.tbcCapacity == d.tbcCapacity
    && fr.tbcCount == 0 && fr.tbcNodes == SlotAt(fr.values, Extent(fr))
    && (n <= d.valueCapacity ==> fr.top == n) && (n > d.valueCapacity ==> fr.top == d.valueCapacity)
  }

  /** CALL A B C of a native closure: it exits when the arguments are no registers or the
      arena has no room for the callee, and otherwise enters a new frame at frame_next. */
  lemma CallStep(s: State, chain: seq<Addr>, A: nat, B: nat, C: nat, pc: nat, cont: nat, clo: Addr, d: Descriptor,
                 n: nat, extra: nat)
    requires ArenaOk(s, chain) && chain != [] && Enabled(s, CallOp(A, B, C, pc, cont))
    requires IsNative(s, Reg(s, s.current, A), clo, d)
    requires Arguments(s.frames[s.current], A, B, n) && SurplusCount(d, n, extra)
    ensures var r := Exec(s, CallOp(A, B, C, pc, cont));
            var fr, bytes := s.frames[s.current], FrameBytes(d.valueCapacity, extra, d.tbcCapacity);
            if A + 1 + n > fr.valueCapacity then
              r == Result(s.(outcome := ValueOverflow(A + 1 + n, fr.valueCapacity, pc)), HostExit)
            else if s.frameNext + bytes > s.frameEnd then
              r == Result(s.(outcome := StackOverflow(bytes, s.frameEnd - s.frameNext, pc)), HostExit)
            else
              && r.control == Enter(d.entry, s.frameNext)
              && r.s.current == s.frameNext && r.s.frameNext == s.frameNext + bytes
              && s.frameNext in r.s.frames
              && ReturnsTo(s, r.s.frames[s.frameNext], A, C, cont) && Started(r.s.frames[s.frameNext], clo, d, n)
              && Passed(s, SlotAt(fr.values, A + 1), n, r.s, s.frameNext, d, extra)
              && SameOutside(s.mem, r.s.mem, s.frameNext, s.frameNext + bytes)
  {
    ArgumentsAre(s.frames[s.current], A, B, n);
    NativeIs(s, Reg(s, s.current, A), clo, d);
    assert Varargs(d, n) == extra;
    var r := CallNative(s, s.current, clo, d, A, n, C - 1, pc, cont);
    if r.control.Enter? {
      CallFrame(s, chain, clo, d, A, n, C - 1, pc, cont);
      CallEntry(s, chain, clo, d, A, n, C - 1, pc, cont);
      EntryPassed(s, SlotAt(s.frames[s.current].values, A + 1), n, r.s, s.frameNext, clo, d, extra);
    }
  }

  /** v refers to a builtin. */
  ghost predicate IsHost(s: State, v: Value) {
    v.tag == Closure && v.Ref() != 0 && v.Ref() in s.closures && s.closures[v.Ref()].Builtin?
  }

  /** v can be entered. */
  ghost predicate IsEntered(s: State, v: Value) {
    && v.tag == Closure && v.Ref() != 0 && v.Ref() in s.closures && s.closures[v.Ref()].Native?
    && s.closures[v.Ref()].proto < |s.functions| && s.functions[s.closures[v.Ref()].proto].entry != 0
  }

  /** Any other callee: a builtin is handed to the host with the operands, anything else is
      rejected; nothing but the outcome changes. */
  lemma OtherCallee(s: State, op: Op)
    requires Enabled(s, op) && (op.CallOp? || op.TailOp?) && !IsEntered(s, Reg(s, s.current, op.A))
    ensures var r := Exec(s, op);
            && r.control == HostExit && r.s == s.(outcome := r.s.outcome)
            && r.s.outcome == (if !IsHost(s, Reg(s, s.current, op.A)) then Rejected(UnsupportedCallee, op.pc)
                               else if op.CallOp? then HostCall(op.cont, op.A, op.B, op.C, op.pc)
                               else HostTailCall(op.tailReturn, op.A, op.B, op.pc))
  {
  }

  // ---- TAILCALL -------------------------------------------------------------------------------

  /** TAILCALL A B of a native closure: the same exits, with the room counted from the start
      of the frame; otherwise the frame becomes the callee's, with the caller, link and sink
      it had, and its arguments arrive unless its slice overruns them. */
  lemma TailStep(s: State, chain: seq<Addr>, A: nat, B: nat, pc: nat, tailReturn: nat, clo: Addr, d: Descriptor,
                 n: nat, extra: nat)
    requires ArenaOk(s, chain) && chain != [] && Enabled(s, TailOp(A, B, pc, tailReturn))
    requires IsNative(s, Reg(s, s.current, A), clo, d)
    requires Arguments(s.frames[s.current], A, B, n) && SurplusCount(d, n, extra)
    ensures var r := Exec(s, TailOp(A, B, pc, tailReturn));
            var f, fr, bytes := s.current, s.frames[s.current], FrameBytes(d.valueCapacity, extra, d.tbcCapacity);
            if A + 1 + n > fr.valueCapacity then
              r == Result(s.(outcome := ValueOverflow(A + 1 + n, fr.valueCapacity, pc)), HostExit)
            else if f + bytes > s.frameEnd then
              r == Result(s.(outcome := StackOverflow(bytes, s.frameEnd - f, pc)), HostExit)
            else
              && r.control == Enter(d.entry, f)
              && r.s.current == f && r.s.frameNext == f + bytes && f in r.s.frames
              && SameLink(fr, r.s.frames[f]) && Started(r.s.frames[f], clo, d, n)
              && (!(A + 1 + d.numParams < d.valueCapacity < A + 1 + d.numParams + extra) ==>
                    Passed(s, SlotAt(fr.values, A + 1), n, r.s, f, d, extra))
              && SameOutside(s.mem, r.s.mem, f, f + bytes)
  {
    ArgumentsAre(s.frames[s.current], A, B, n);
    NativeIs(s, Reg(s, s.current, A), clo, d);
    assert Varargs(d, n) == extra;
    if TailNative(s, s.current, clo, d, A, n, pc).control.Enter? {
      TailEnters(s, A, pc, clo, d, n, extra);
    }
  }

  lemma TailEnters(s: State, A: nat, pc: nat, clo: Addr, d: Descriptor, n: nat, extra: nat)
    requires Ready(s, s.current) && d.Valid() && SurplusCount(d, n, extra)
    requires TailNative(s, s.current, clo, d, A, n, pc).control.Enter?
    ensures var s', fr := TailNative(s, s.current, clo, d, A, n, pc).s, s.frames[s.current];
            && (!(A + 1 + d.numParams < d.valueCapacity < A + 1 + d.numParams + extra) ==>
                  Passed(s, SlotAt(fr.values, A + 1), n, s', s.current, d, extra))
            && SameOutside(s.mem, s'.mem, s.current, s.current + FrameBytes(d.valueCapacity, extra, d.tbcCapacity))
  {
    assert Varargs(d, n) == extra;
    var s', values := TailNative(s, s.current, clo, d, A, n, pc).s, s.frames[s.current].values;
    assert SlotAt(SlotAt(values, A + 1), n) == SlotAt(values, A + 1 + n);
    PlaceFrame(s.mem, values, d, SlotAt(values, A + 1), n);
    if !SliceOverruns(d, A, n) {
      TailEntry(s, clo, d, A, n, pc);
      EntryPassed(s, SlotAt(values, A + 1), n, s', s.current, clo, d, extra);
    }
  }

  // ---- VARARG ---------------------------------------------------------------------------------

  /** VARARG: the surplus arguments from register r on, nil up to a fixed count, top right
      behind them, and nothing else. */
  lemma VarargStep(s: State, r: nat, wanted: int, w: nat)
    requires Enabled(s, VarargOp(r, wanted))
    requires if wanted >= 0 then w == wanted else w == s.frames[s.current].varargCount
    ensures var res := Exec(s, VarargOp(r, wanted));
            var f, fr := s.current, s.frames[s.current];
            && res.control == Next && Fits(res.s, f) && r + w <= Extent(fr)
            && res.s == s.(mem := res.s.mem, frames := s.frames[f := fr.(top := r + w)])
            && (forall i: nat {:trigger Reg(res.s, f, i)} :: r <= i < r + w ==>
                  Reg(res.s, f, i).Same(GetVarg(s, f, i - r + 1)))
            && SameOutside(s.mem, res.s.mem, SlotAt(fr.values, r), SlotAt(fr.values, r + w))
  {
    var f, s' := s.current, Vararg(s, s.current, r, wanted);
    VarargWrites(s, f, r, wanted);
    forall i: nat {:trigger Reg(s', f, i)} | r <= i < r + w
      ensures Fits(s', f) && Reg(s', f, i).Same(GetVarg(s, f, i - r + 1))
    {
      VarargReads(s, f, r, wanted, i - r);
    }
  }

  // ---- CALL ... RETURN ------------------------------------------------------------------------

  lemma TransferKeepsLink(s: State, chain: seq<Addr>, op: Op, i: nat)
    requires ArenaOk(s, chain) && i < |chain| && i < |ChainAfter(s, chain, op)| && Enabled(s, op) && Transfers(op)
    ensures chain[i] in Exec(s, op).s.frames && SameLink(s.frames[chain[i]], Exec(s, op).s.frames[chain[i]])
  {
    ChainBelow(s, chain, i);
    if op.ReturnOp? && Exec(s, op).control.Enter? {
      ReturnHeaders(s, chain, op.A, ResultCount(s.frames[s.current], op.A, op.B), op.pc);
      assert SameHeader(s.frames[chain[i]], Exec(s, op).s.frames[chain[i]]);
    }
  }

  /** No step touches the link of a frame that stays live. */
  lemma StepKeepsLink(s: State, chain: seq<Addr>, opens: seq<seq<Addr>>, op: Op, i: nat)
    requires Inv(s, chain, opens) && i < |chain| && i < |ChainAfter(s, chain, op)|
    ensures chain[i] in Step(s, op).frames && SameLink(s.frames[chain[i]], Step(s, op).frames[chain[i]])
  {
    if Enabled(s, op) && Transfers(op) {
      TransferKeepsLink(s, chain, op, i);
    } else if Enabled(s, op) && op.NewClosure? {
      ClosureShape(s, chain, opens, op.reg, op.proto, op.captures, op.pc);
    }
  }

  lemma {:induction false} RunKeepsLink(s: State, chain: seq<Addr>, opens: seq<seq<Addr>>, ops: seq<Op>, i: nat)
    requires Inv(s, chain, opens) && i < |chain| && StaysAbove(s, ops, i)
    ensures chain[i] in Run(s, ops).frames && SameLink(s.frames[chain[i]], Run(s, ops).frames[chain[i]])
    decreases |ops|
  {
    if ops != [] {
      var opens' := StepInv(s, chain, opens, ops[0]);
      var next := ChainAfter(s, chain, ops[0]);
      LiveExact(Step(s, ops[0]), next);
      StepKeepsLink(s, chain, opens, ops[0], i);
      assert next[i] == chain[i];
      RunKeepsLink(Step(s, ops[0]), next, opens', ops[1..], i);
    }
  }

  /** CALL links the frame it enters to its caller. */
  lemma CallLinks(s: State, call: Op)
    requires call.CallOp? && Enabled(s, call) && Exec(s, call).control.Enter?
    ensures s.frameNext in Step(s, call).frames
    ensures ReturnsTo(s, Step(s, call).frames[s.frameNext], call.A, call.C, call.cont)
  {
  }

  /** Registers A .. A + w - 1 of frame f hold the n values from register `from` of the frame
      that returned, and nil beyond them. */
  ghost predicate Got(u: State, f: Addr, A: nat, w: nat, t: State, from: nat, n: nat) {
    && Fits(u, f) && A + w <= u.frames[f].valueCapacity
    && Fits(t, t.current) && from + n <= Extent(t.frames[t.current])
    && forall r: nat {:trigger Reg(u, f, r)} :: A <= r < A + w ==>
         if r - A < n then Reg(u, f, r) == Reg(t, t.current, from + (r - A)) else Reg(u, f, r).tag == Nil
  }

  /** What arrived at a register is in the registers from there on. */
  lemma WindowGot(t: State, u: State, f: Addr, from: nat, n: nat, w: nat)
    requires Fits(t, t.current) && from + n <= Extent(t.frames[t.current]) && Arrived(t, u, from, n, w)
    requires var k := t.frames[t.current].sink;
             && Fits(u, f) && k.base + w <= u.frames[f].valueCapacity
             && k.values == SlotAt(u.frames[f].values, k.base)
    ensures Got(u, f, t.frames[t.current].sink.base, w, t, from, n)
  {
    var k := t.frames[t.current].sink;
    forall r: nat {:trigger Reg(u, f, r)} | k.base <= r < k.base + w
      ensures if r - k.base < n then Reg(u, f, r) == Reg(t, t.current, from + (r - k.base)) else Reg(u, f, r).tag == Nil
    {
      assert SlotAt(k.values, r - k.base) == SlotAt(u.frames[f].values, r);
    }
  }

  /** The caller's frame after a RETURN into it. */
  lemma CallerFrame(t: State, chain: seq<Addr>, opens: seq<seq<Addr>>, ret: Op)
    requires Inv(t, chain, opens) && |chain| >= 2
    requires ret.ReturnOp? && Enabled(t, ret) && Exec(t, ret).control.Enter?
    ensures var u, fr := Step(t, ret), t.frames[t.current];
            var f, k := chain[|chain| - 2], fr.sink;
            && Fits(u, f) && k.values == SlotAt(u.frames[f].values, k.base) && k.values != 0
            && k.capacity == u.frames[f].valueCapacity && k.top == FrameTop(f) && fr.linkSubject == f
  {
    var f, n := chain[|chain| - 2], ResultCount(t.frames[t.current], ret.A, ret.B);
    assert FrameOk(t, chain, |chain| - 1);
    ReturnHeaders(t, chain, ret.A, n, ret.pc);
    assert SameHeader(t.frames[f], Step(t, ret).frames[f]);
    ReturnDelivers(t, chain, ret.A, n, ret.pc);
  }

  /** A RETURN into the frame below. */
  lemma ReturnedTo(t: State, chain: seq<Addr>, opens: seq<seq<Addr>>, ret: Op, n: nat, w: nat)
    requires Inv(t, chain, opens) && |chain| >= 2
    requires ret.ReturnOp? && Enabled(t, ret) && Exec(t, ret).control.Enter?
    requires Results(t.frames[t.current], ret.A, ret.B, n) && Receives(t.frames[t.current].sink, n, w)
    ensures var u, k := Step(t, ret), t.frames[t.current].sink;
            var f := chain[|chain| - 2];
            && Exec(t, ret).control == Enter(t.frames[t.current].linkEntry, f)
            && Got(u, f, k.base, w, t, ret.A, n) && u.frames[f].top == k.base + w
  {
    ReturnStep(t, chain, ret.A, ret.B, ret.pc, n, w);
    CallerFrame(t, chain, opens, ret);
    WindowGot(t, Step(t, ret), chain[|chain| - 2], ret.A, n, w);
  }

  /** After a CALL and any run that stays above it, the frame at the callee's depth still
      returns where the CALL said. */
  lemma CalleeReturnsTo(s: State, chain: seq<Addr>, opens: seq<seq<Addr>>, call: Op, ops: seq<Op>)
    requires Inv(s, chain, opens) && chain != []
    requires call.CallOp? && Enabled(s, call) && Exec(s, call).control.Enter?
    requires StaysAbove(Step(s, call), ops, |chain|)
    ensures var t := Run(Step(s, call), ops);
            s.frameNext in t.frames && ReturnsTo(s, t.frames[s.frameNext], call.A, call.C, call.cont)
  {
    var opens' := StepInv(s, chain, opens, call);
    CallLinks(s, call);
    RunKeepsLink(Step(s, call), chain + [s.frameNext], opens', ops, |chain|);
  }

  /** A CALL that returns, whatever happened in between: the results of the RETURN are in
      the caller's registers from A on, C - 1 of them with nil for missing ones, or for
      C = 0 all of them; top is right behind, and the caller goes on where CALL said. */
  lemma MatchedResults(s: State, chain: seq<Addr>, opens: seq<seq<Addr>>, call: Op, ops: seq<Op>, ret: Op,
                       n: nat, w: nat)
    requires Inv(s, chain, opens) && chain != []
    requires call.CallOp? && Enabled(s, call) && Exec(s, call).control.Enter?
    requires StaysAbove(Step(s, call), ops, |chain|)
    requires var t := Run(Step(s, call), ops);
             && ret.ReturnOp? && Enabled(t, ret) && Exec(t, ret).control.Enter? && |Live(t)| == |chain| + 1
             && Results(t.frames[t.current], ret.A, ret.B, n)
    requires if call.C >= 1 then w + 1 == call.C else w == n
    ensures var t := Run(Step(s, call), ops);
            && Exec(t, ret).control == Enter(call.cont, s.current)
            && Got(Step(t, ret), s.current, call.A, w, t, ret.A, n)
            && Step(t, ret).frames[s.current].top == call.A + w
  {
    var opens' := CalleeStays(s, chain, opens, call, ops);
    CalleeReturnsTo(s, chain, opens, call, ops);
    ReturnedTo(Run(Step(s, call), ops), chain + [s.frameNext], opens', ret, n, w);
  }
}
