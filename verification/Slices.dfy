/** The surplus arguments of a live frame: its vararg slice survives every run. */
module Slices {
  import opened Values
  import opened Slots
  import opened Frames
  import opened Arena
  import opened Upvalues
  import opened Captures
  import opened Machine
  import opened Transfer

  /** The operation is not frame f's own TAILCALL, nor a VARARG of f that overruns its
      slice. */
  ghost predicate SparesSlice(s: State, op: Op, f: Addr) {
    Enabled(s, op) && s.current == f ==>
      && !(op.TailOp? && Exec(s, op).control.Enter?)
      && !(op.VarargOp? && VarargOverruns(s.frames[f], op.reg, op.wanted))
  }

  /** Layout and contents of frame f's slice are the same. */
  ghost predicate SameSlice(s: State, s': State, f: Addr) {
    && Fits(s, f) && Fits(s', f)
    && s'.frames[f].valueCapacity == s.frames[f].valueCapacity && s'.frames[f].varargCount == s.frames[f].varargCount
    && forall key: int {:trigger GetVarg(s', f, key)} :: GetVarg(s', f, key) == GetVarg(s, f, key)
  }

  /** Address a lies in the slice of fr. */
  ghost predicate InSlice(fr: Frame, a: Addr) { VarargSlice(fr) <= a < SlotAt(fr.values, Extent(fr)) }

  lemma SliceFromMem(s: State, s': State, f: Addr)
    requires Fits(s, f) && Fits(s', f) && |s'.mem| == |s.mem|
    requires SameHeader(s.frames[f], s'.frames[f])
    requires forall a {:trigger s'.mem[a]} :: 0 <= a < |s.mem| && InSlice(s.frames[f], a) ==> s'.mem[a] == s.mem[a]
    ensures SameSlice(s, s', f)
  {
    forall key: int
      ensures GetVarg(s', f, key) == GetVarg(s, f, key)
    {
      var fr := s.frames[f];
      if 1 <= key <= fr.varargCount {
        var a := SlotAt(VarargSlice(fr), key - 1);
        assert InSlice(fr, a) && s'.mem[a] == s.mem[a];
      }
    }
  }

  /** A register of a live frame is in no live frame's slice. */
  lemma RegisterNotSlice(s: State, chain: seq<Addr>, i: nat, j: nat, a: Addr)
    requires ArenaOk(s, chain) && i < |chain| && j < |chain| && IsRegister(s.frames[chain[j]], a)
    ensures !InSlice(s.frames[chain[i]], a)
  {
    if i < j {
      ChainOrder(s, chain, i, j);
    } else if j < i {
      ChainOrder(s, chain, j, i);
    }
  }

  /** Writing a register of a live frame. */
  lemma WriteSlice(s: State, chain: seq<Addr>, i: nat, j: nat, a: Addr, v: Value)
    requires ArenaOk(s, chain) && i < |chain| && j < |chain| && a < |s.mem| && IsRegister(s.frames[chain[j]], a)
    ensures SameSlice(s, s.(mem := s.mem[a := v]), chain[i])
  {
    RegisterNotSlice(s, chain, i, j, a);
    SliceFromMem(s, s.(mem := s.mem[a := v]), chain[i]);
  }

  lemma SetUpvalSlice(s: State, chain: seq<Addr>, opens: seq<seq<Addr>>, c: Addr, v: Value, i: nat)
    requires Inv(s, chain, opens) && i < |chain| && c in s.cells
    ensures SameSlice(s, SetThrough(s, c, v), chain[i])
  {
    if IsOpen(s.cells, c) && s.cells[c].openSlot < |s.mem| {
      var j := OpenCellIsLive(s, chain, opens, c);
      WriteSlice(s, chain, i, j, s.cells[c].openSlot, v);
    } else {
      SliceFromMem(s, SetThrough(s, c, v), chain[i]);
    }
  }

  lemma ClosureSlice(s: State, chain: seq<Addr>, opens: seq<seq<Addr>>, r: nat, proto: nat, captures: seq<Capture>,
                     pc: nat, i: nat)
    requires Inv(s, chain, opens) && i < |chain| && Enabled(s, NewClosure(r, proto, captures, pc))
    requires Fits(MakeClosure(s, s.current, r, proto, captures, pc).s, chain[i])
    ensures SameSlice(s, MakeClosure(s, s.current, r, proto, captures, pc).s, chain[i])
  {
    ClosureShape(s, chain, opens, r, proto, captures, pc);
    RegisterOf(s, chain, r);
    RegisterNotSlice(s, chain, i, |chain| - 1, SlotAt(s.frames[s.current].values, r));
    SliceFromMem(s, MakeClosure(s, s.current, r, proto, captures, pc).s, chain[i]);
  }

  /** Operations that stay in the current frame. */
  lemma LocalSlice(s: State, chain: seq<Addr>, opens: seq<seq<Addr>>, op: Op, i: nat)
    requires Inv(s, chain, opens) && i < |chain| && Enabled(s, op) && !Transfers(op) && SparesSlice(s, op, chain[i])
    requires Fits(Exec(s, op).s, chain[i])
    ensures SameSlice(s, Exec(s, op).s, chain[i])
  {
    var n, values := |chain| - 1, s.frames[s.current].values;
    match op
    case Write(r, v) =>
      RegisterOf(s, chain, r);
      WriteSlice(s, chain, i, n, SlotAt(values, r), v);
    case GetUpval(r, u) =>
      RegisterOf(s, chain, r);
      WriteSlice(s, chain, i, n, SlotAt(values, r), View(s, UpvalueCells(s, s.current)[u]));
    case SetUpval(u, r) => SetUpvalSlice(s, chain, opens, UpvalueCells(s, s.current)[u], Reg(s, s.current, r), i);
    case NewClosure(r, proto, captures, pc) => ClosureSlice(s, chain, opens, r, proto, captures, pc, i);
    case CloseScope(_) => SliceFromMem(s, Exec(s, op).s, chain[i]);
    case VarargOp(r, wanted) => VarargLocal(s, chain, r, wanted, i);
  }

  lemma VarargLocal(s: State, chain: seq<Addr>, r: nat, wanted: int, i: nat)
    requires ArenaOk(s, chain) && i < |chain| && Enabled(s, VarargOp(r, wanted))
    requires SparesSlice(s, VarargOp(r, wanted), chain[i]) && Fits(Vararg(s, s.current, r, wanted), chain[i])
    ensures SameSlice(s, Vararg(s, s.current, r, wanted), chain[i])
  {
    var n, f, s' := |chain| - 1, chain[i], Vararg(s, s.current, r, wanted);
    if i == n {
      forall key: int
        ensures GetVarg(s', f, key) == GetVarg(s, f, key)
      {
        VarargSliceAfter(s, f, r, wanted, key);
      }
    } else {
      ChainOrder(s, chain, i, n);
      VarargInside(s, s.current, r, wanted);
      SliceFromMem(s, s', f);
    }
  }

  lemma VarargInside(s: State, f: Addr, r: nat, wanted: int)
    requires Fits(s, f) && VarargFits(s.frames[f], r, wanted)
    ensures SameOutside(s.mem, Vararg(s, f, r, wanted).mem, f, EndOf(f, s.frames[f]))
  {
    VarargWrites(s, f, r, wanted);
  }

  /** CALL writes above frame_next only. */
  lemma CallSlice(s: State, chain: seq<Addr>, A: nat, B: nat, C: nat, pc: nat, cont: nat, i: nat)
    requires ArenaOk(s, chain) && i < |chain| && Ready(s, s.current) && A < s.frames[s.current].valueCapacity
    requires Fits(Call(s, s.current, A, B, C, pc, cont).s, chain[i])
    ensures SameSlice(s, Call(s, s.current, A, B, C, pc, cont).s, chain[i])
  {
    var v := Reg(s, s.current, A);
    ChainBelow(s, chain, i);
    match NativeCallee(s, v)
    case Some((clo, d)) =>
      CalleeValid(s, v);
      var nargs := ArgCount(s.frames[s.current], A, B);
      var r := CallNative(s, s.current, clo, d, A, nargs, C - 1, pc, cont);
      CallFrame(s, chain, clo, d, A, nargs, C - 1, pc, cont);
      SliceFromMem(s, r.s, chain[i]);
    case None =>
      SliceFromMem(s, Call(s, s.current, A, B, C, pc, cont).s, chain[i]);
  }

  /** TAILCALL of a frame above writes in that frame only. */
  lemma TailNativeSlice(s: State, chain: seq<Addr>, clo: Addr, d: Descriptor, A: nat, nargs: nat, pc: nat, i: nat)
    requires ArenaOk(s, chain) && i < |chain| && Ready(s, s.current) && d.Valid()
    requires i < |chain| - 1 || !TailNative(s, s.current, clo, d, A, nargs, pc).control.Enter?
    requires Fits(TailNative(s, s.current, clo, d, A, nargs, pc).s, chain[i])
    ensures SameSlice(s, TailNative(s, s.current, clo, d, A, nargs, pc).s, chain[i])
  {
    var r := TailNative(s, s.current, clo, d, A, nargs, pc);
    if r.control.Enter? {
      var values := s.frames[s.current].values;
      ChainOrder(s, chain, i, |chain| - 1);
      assert SlotAt(SlotAt(values, A + 1), nargs) == SlotAt(values, A + 1 + nargs);
      PlaceFrame(s.mem, values, d, SlotAt(values, A + 1), nargs);
    }
    SliceFromMem(s, r.s, chain[i]);
  }

  lemma TailSlice(s: State, chain: seq<Addr>, A: nat, B: nat, pc: nat, tailReturn: nat, i: nat)
    requires ArenaOk(s, chain) && i < |chain| && Ready(s, s.current) && A < s.frames[s.current].valueCapacity
    requires i < |chain| - 1 || !TailCall(s, s.current, A, B, pc, tailReturn).control.Enter?
    requires Fits(TailCall(s, s.current, A, B, pc, tailReturn).s, chain[i])
    ensures SameSlice(s, TailCall(s, s.current, A, B, pc, tailReturn).s, chain[i])
  {
    var v := Reg(s, s.current, A);
    match NativeCallee(s, v)
    case Some((clo, d)) =>
      CalleeValid(s, v);
      TailNativeSlice(s, chain, clo, d, A, ArgCount(s.frames[s.current], A, B), pc, i);
    case None =>
      SliceFromMem(s, TailCall(s, s.current, A, B, pc, tailReturn).s, chain[i]);
  }

  /** The sink window of the current frame lies in the registers of its caller. */
  lemma SinkNotSlice(s: State, chain: seq<Addr>, nres: nat, i: nat, a: Addr)
    requires ArenaOk(s, chain) && i < |chain| - 1
    requires var k := s.frames[s.current].sink; k.base + Wanted(k, nres) <= k.capacity && InSink(k, nres, a)
    ensures !InSlice(s.frames[chain[i]], a)
  {
    var n := |chain| - 1;
    assert FrameOk(s, chain, n);
    if i < n - 1 {
      ChainOrder(s, chain, i, n - 1);
    }
  }

  /** RETURN to or above frame i writes registers of the caller only. */
  lemma ReturnSlice(s: State, chain: seq<Addr>, A: nat, nres: nat, pc: nat, i: nat)
    requires ArenaOk(s, chain) && i < |chain| - 1 && Ready(s, s.current) && A + nres <= Extent(s.frames[s.current])
    requires var r := ReturnN(s, s.current, A, nres, pc); r.control.Enter? && Fits(r.s, chain[i])
    ensures SameSlice(s, ReturnN(s, s.current, A, nres, pc).s, chain[i])
  {
    var s' := ReturnN(s, s.current, A, nres, pc).s;
    ReturnDelivers(s, chain, A, nres, pc);
    ReturnHeaders(s, chain, A, nres, pc);
    forall a | 0 <= a < |s.mem| && InSlice(s.frames[chain[i]], a)
      ensures s'.mem[a] == s.mem[a]
    {
      if InSink(s.frames[s.current].sink, nres, a) {
        SinkNotSlice(s, chain, nres, i, a);
      }
    }
    SliceFromMem(s, s', chain[i]);
  }

  lemma TransferSlice(s: State, chain: seq<Addr>, op: Op, i: nat)
    requires ArenaOk(s, chain) && i < |chain| && Enabled(s, op) && Transfers(op) && SparesSlice(s, op, chain[i])
    requires Fits(Exec(s, op).s, chain[i]) && i < |ChainAfter(s, chain, op)|
    ensures SameSlice(s, Exec(s, op).s, chain[i])
  {
    match op
    case CallOp(A, B, C, pc, cont) => CallSlice(s, chain, A, B, C, pc, cont, i);
    case TailOp(A, B, pc, tailReturn) => TailSlice(s, chain, A, B, pc, tailReturn, i);
    case ReturnOp(A, B, pc) =>
      var nres := ResultCount(s.frames[s.current], A, B);
      if Exec(s, op).control.Enter? {
        ReturnSlice(s, chain, A, nres, pc, i);
      } else {
        SliceFromMem(s, Exec(s, op).s, chain[i]);
      }
  }

  /** One step keeps the slice of a frame that stays live, unless it is that frame's own
      TAILCALL or an overrunning VARARG. */
  lemma StepSlice(s: State, chain: seq<Addr>, opens: seq<seq<Addr>>, op: Op, i: nat)
    requires Inv(s, chain, opens) && i < |chain| && i < |ChainAfter(s, chain, op)| && SparesSlice(s, op, chain[i])
    ensures SameSlice(s, Step(s, op), chain[i])
  {
    var opens' := StepInv(s, chain, opens, op);
    var next := ChainAfter(s, chain, op);
    assert next[i] == chain[i];
    if !Enabled(s, op) {
      SliceFromMem(s, s, chain[i]);
    } else if Transfers(op) {
      TransferSlice(s, chain, op, i);
    } else {
      LocalSlice(s, chain, opens, op, i);
    }
  }

  /** No step of the run is f's own TAILCALL or a VARARG of f that overruns. */
  ghost predicate Spares(s: State, ops: seq<Op>, f: Addr)
    decreases |ops|
  {
    ops != [] ==> SparesSlice(s, ops[0], f) && Spares(Step(s, ops[0]), ops[1..], f)
  }

  /** The surplus arguments of a frame can be read back as long as it is live: through
      every run - nested calls, tail calls above it, returns into it, closures and its
      own register writes - until its own TAILCALL or a VARARG that overruns. */
  lemma {:induction false} RunKeepsSlice(s: State, chain: seq<Addr>, opens: seq<seq<Addr>>, ops: seq<Op>, i: nat)
    requires Inv(s, chain, opens) && i < |chain| && StaysAbove(s, ops, i) && Spares(s, ops, chain[i])
    ensures SameSlice(s, Run(s, ops), chain[i])
    decreases |ops|
  {
    var f := chain[i];
    if ops == [] {
      SliceFromMem(s, s, f);
    } else {
      var opens' := StepInv(s, chain, opens, ops[0]);
      var next := ChainAfter(s, chain, ops[0]);
      LiveExact(Step(s, ops[0]), next);
      StepSlice(s, chain, opens, ops[0], i);
      assert next[i] == f;
      RunKeepsSlice(Step(s, ops[0]), next, opens', ops[1..], i);
    }
  }

  /** What GETVARG must read in a frame entered with these arguments. */
  function Surplus(s: State, A: nat, nargs: nat, d: Descriptor, key: int): Value
    requires Fits(s, s.current) && A + 1 + nargs <= s.frames[s.current].valueCapacity
  {
    if 1 <= key <= Varargs(d, nargs) then Reg(s, s.current, A + 1 + d.numParams + (key - 1)) else NIL
  }

  /** A frame with the expected entry reads the surplus. */
  lemma EntryGives(s: State, s': State, f: Addr, clo: Addr, d: Descriptor, A: nat, nargs: nat, key: int)
    requires Fits(s, s.current) && A + 1 + nargs <= s.frames[s.current].valueCapacity
    requires Fits(s', f) && d.numParams <= s'.frames[f].valueCapacity
    requires var src := SlotAt(s.frames[s.current].values, A + 1);
             SlotAt(src, nargs) <= |s.mem| && EntryOf(s', f, d) == ExpectedEntry(s.mem, src, clo, d, nargs)
    ensures GetVarg(s', f, key) == Surplus(s, A, nargs, d, key)
  {
    var src := SlotAt(s.frames[s.current].values, A + 1);
    var got, want := EntryOf(s', f, d).varargs, ExpectedEntry(s.mem, src, clo, d, nargs).varargs;
    assert |got| == s'.frames[f].varargCount && |want| == Varargs(d, nargs);
    if 1 <= key <= Varargs(d, nargs) {
      assert got[key - 1] == want[key - 1];
      var i := d.numParams + (key - 1);
      assert SlotAt(src, i) == SlotAt(s.frames[s.current].values, A + 1 + i);
    }
  }

  /** Right after CALL. */
  lemma EntrySurplus(s: State, chain: seq<Addr>, clo: Addr, d: Descriptor, A: nat, nargs: nat, results: int,
                     pc: nat, cont: nat, key: int)
    requires ArenaOk(s, chain) && chain != [] && d.Valid() && Ready(s, s.current)
    requires CallNative(s, s.current, clo, d, A, nargs, results, pc, cont).control.Enter?
    ensures var s' := CallNative(s, s.current, clo, d, A, nargs, results, pc, cont).s;
            Fits(s', s.frameNext) && GetVarg(s', s.frameNext, key) == Surplus(s, A, nargs, d, key)
  {
    CallEntry(s, chain, clo, d, A, nargs, results, pc, cont);
    var s' := CallNative(s, s.current, clo, d, A, nargs, results, pc, cont).s;
    EntryGives(s, s', s.frameNext, clo, d, A, nargs, key);
  }

  /** A CALL that enters has a native callee and fits. */
  lemma CallIsNative(s: State, call: Op)
    requires call.CallOp? && Enabled(s, call) && Exec(s, call).control.Enter?
    ensures NativeCallee(s, Reg(s, s.current, call.A)).Some?
    ensures var (clo, d) := NativeCallee(s, Reg(s, s.current, call.A)).value;
            var nargs := ArgCount(s.frames[s.current], call.A, call.B);
            && d.Valid() && call.A + 1 + nargs <= s.frames[s.current].valueCapacity
            && Exec(s, call) == CallNative(s, s.current, clo, d, call.A, nargs, call.C - 1, call.pc, call.cont)
  {
    CalleeValid(s, Reg(s, s.current, call.A));
  }

  /** The callee's slice at the end of such a run is the one right after the CALL. */
  lemma CalleeSlice(s: State, chain: seq<Addr>, opens: seq<seq<Addr>>, call: Op, ops: seq<Op>)
    requires Inv(s, chain, opens) && chain != []
    requires call.CallOp? && Enabled(s, call) && Exec(s, call).control.Enter?
    requires StaysAbove(Step(s, call), ops, |chain|) && Spares(Step(s, call), ops, s.frameNext)
    ensures SameSlice(Step(s, call), Run(Step(s, call), ops), s.frameNext)
  {
    var opens' := StepInv(s, chain, opens, call);
    RunKeepsSlice(Step(s, call), chain + [s.frameNext], opens', ops, |chain|);
  }

  /** The surplus arguments of a CALL are what GETVARG reads in the callee after every run
      that stays in or above it and is spared by its own TAILCALL and overruns. */
  lemma SurplusReadBack(s: State, chain: seq<Addr>, opens: seq<seq<Addr>>, call: Op, ops: seq<Op>, key: int)
    requires Inv(s, chain, opens) && chain != []
    requires call.CallOp? && Enabled(s, call) && Exec(s, call).control.Enter?
    requires StaysAbove(Step(s, call), ops, |chain|) && Spares(Step(s, call), ops, s.frameNext)
    ensures var v := Reg(s, s.current, call.A);
            && NativeCallee(s, v).Some?
            && var d, nargs := NativeCallee(s, v).value.1, ArgCount(s.frames[s.current], call.A, call.B);
               var t := Run(Step(s, call), ops);
               && call.A + 1 + nargs <= s.frames[s.current].valueCapacity && Fits(t, s.frameNext)
               && GetVarg(t, s.frameNext, key) == Surplus(s, call.A, nargs, d, key)
  {
    CallIsNative(s, call);
    var (clo, d) := NativeCallee(s, Reg(s, s.current, call.A)).value;
    var nargs := ArgCount(s.frames[s.current], call.A, call.B);
    EntrySurplus(s, chain, clo, d, call.A, nargs, call.C - 1, call.pc, call.cont, key);
    CalleeSlice(s, chain, opens, call, ops);
  }
}
