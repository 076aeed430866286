/** Upvalue cells behave as shared boxes: the value seen through a cell changes
    only when that variable is assigned, however its frame comes and goes. */
module Boxes {
  import opened Values
  import opened Slots
  import opened Frames
  import opened Arena
  import opened Upvalues
  import opened Captures
  import opened Closing
  import opened Machine
  import opened Transfer

  /** The guest registers an operation assigns, as addresses. */
  ghost predicate Assigns(s: State, op: Op, a: Addr)
    requires Enabled(s, op)
  {
    var fr := s.frames[s.current];
    match op
    case Write(r, _) => a == SlotAt(fr.values, r)
    case GetUpval(r, _) => a == SlotAt(fr.values, r)
    case NewClosure(r, _, _, _) => Exec(s, op).control.Next? && a == SlotAt(fr.values, r)
    case VarargOp(r, wanted) =>
      SlotAt(fr.values, r) <= a < SlotAt(fr.values, r + if wanted < 0 then fr.varargCount else wanted)
    case ReturnOp(A, B, _) => Exec(s, op).control.Enter? && InSink(fr.sink, ResultCount(fr, A, B), a)
    case SetUpval(_, _) => false
    case CloseScope(_) => false
    case CallOp(_, _, _, _, _) => false
    case TailOp(_, _, _, _) => false
  }

  /** Distance of address a from a slot, in slots. */
  ghost function SlotsFrom(base: Addr, a: Addr): nat
    requires base <= a
  {
    (a - base) / SLOT
  }

  ghost predicate IsNewClosure(s: State, s': State, proto: nat, captures: seq<Capture>, v: Value) {
    && s.current in s'.frames && v.tag == Closure && v.Ref() !in s.closures && v.Ref() in s'.closures
    && s'.closures[v.Ref()].Native? && s'.closures[v.Ref()].proto == proto
    && AllCaptured(s', s.current, captures, s'.closures[v.Ref()].cells)
  }

  /** The value an operation assigns to the register at a is v. */
  ghost predicate Lands(s: State, op: Op, a: Addr, v: Value)
    requires Enabled(s, op) && Assigns(s, op, a)
  {
    var fr := s.frames[s.current];
    match op
    case Write(_, x) => v == x
    case GetUpval(_, u) => v == View(s, UpvalueCells(s, s.current)[u])
    case NewClosure(_, proto, captures, _) => IsNewClosure(s, Exec(s, op).s, proto, captures, v)
    case VarargOp(r, _) =>
      var base := SlotAt(fr.values, r);
      (a - base) % SLOT == 0 && v.Same(GetVarg(s, s.current, SlotsFrom(base, a) + 1))
    case ReturnOp(A, B, _) =>
      var i := SlotsFrom(fr.sink.values, a);
      && (a - fr.sink.values) % SLOT == 0
      && (if i < ResultCount(fr, A, B) then v == Reg(s, s.current, A + i) else v.tag == Nil)
    case _ => false
  }

  /** What every step does to the box behind cell `c`. */
  ghost predicate BoxLaw(s: State, op: Op, c: Addr)
    requires Enabled(s, op) && c in s.cells
  {
    var s' := Exec(s, op).s;
    && c in s'.cells && |s'.mem| == |s.mem|
    && (if op.SetUpval? && c == UpvalueCells(s, s.current)[op.up] then View(s', c) == Reg(s, s.current, op.reg)
        else if IsOpen(s.cells, c) && s.cells[c].openSlot < |s.mem| && Assigns(s, op, s.cells[c].openSlot) then
          View(s', c) == s'.mem[s.cells[c].openSlot] && Lands(s, op, s.cells[c].openSlot, View(s', c))
        else View(s', c) == View(s, c))
  }

  /** Memory outside the live registers may change freely. */
  lemma ViewOutside(s: State, s': State, chain: seq<Addr>, opens: seq<seq<Addr>>, lo: nat, hi: nat, c: Addr)
    requires Inv(s, chain, opens) && c in s.cells && s'.cells == s.cells
    requires SameOutside(s.mem, s'.mem, lo, hi) && s.frameNext <= lo
    ensures View(s', c) == View(s, c)
  {
    if IsOpen(s.cells, c) {
      var i := OpenCellIsLive(s, chain, opens, c);
    }
  }

  /** SETUPVAL changes exactly the named box: sharing makes the cell unique. */
  lemma SetBox(s: State, chain: seq<Addr>, opens: seq<seq<Addr>>, c: Addr, v: Value, e: Addr)
    requires Inv(s, chain, opens) && c in s.cells && e in s.cells
    ensures e in SetThrough(s, c, v).cells
    ensures View(SetThrough(s, c, v), e) == if e == c then v else View(s, e)
  {
    if IsOpen(s.cells, c) {
      var i := OpenCellIsLive(s, chain, opens, c);
      if IsOpen(s.cells, e) && s.cells[e].openSlot == s.cells[c].openSlot {
        OneCellPerRegister(s, chain, opens, c, e);
      }
    }
  }

  /** CALL touches no box. */
  lemma CallBoxes(s: State, chain: seq<Addr>, opens: seq<seq<Addr>>, A: nat, B: nat, C: nat, pc: nat, cont: nat,
                  c: Addr)
    requires Inv(s, chain, opens) && chain != [] && Ready(s, s.current) && A < s.frames[s.current].valueCapacity
    requires c in s.cells
    ensures var s' := Call(s, s.current, A, B, C, pc, cont).s;
            s'.cells == s.cells && |s'.mem| == |s.mem| && View(s', c) == View(s, c)
  {
    var v := Reg(s, s.current, A);
    match NativeCallee(s, v)
    case Some((clo, d)) =>
      CalleeValid(s, v);
      var nargs := ArgCount(s.frames[s.current], A, B);
      CallFrame(s, chain, clo, d, A, nargs, C - 1, pc, cont);
      var r := CallNative(s, s.current, clo, d, A, nargs, C - 1, pc, cont);
      ViewOutside(s, r.s, chain, opens, s.frameNext, r.s.frameNext, c);
    case None =>
  }

  /** TAILCALL closes the frame's boxes before moving registers over them. */
  lemma TailNativeBoxes(s: State, chain: seq<Addr>, opens: seq<seq<Addr>>, clo: Addr, d: Descriptor, A: nat,
                        nargs: nat, pc: nat, c: Addr)
    requires Inv(s, chain, opens) && chain != [] && d.Valid() && Ready(s, s.current) && c in s.cells
    requires TailNative(s, s.current, clo, d, A, nargs, pc).control.Enter?
    ensures var s' := TailNative(s, s.current, clo, d, A, nargs, pc).s;
            c in s'.cells && |s'.mem| == |s.mem| && View(s', c) == View(s, c)
  {
    var n := |chain| - 1;
    var fr := s.frames[s.current];
    OpenCellsExact(s.cells, fr, opens[n]);
    assert SlotAt(SlotAt(fr.values, A + 1), nargs) == SlotAt(fr.values, A + 1 + nargs);
    PlaceFrame(s.mem, fr.values, d, SlotAt(fr.values, A + 1), nargs);
    if c in opens[n] {
      InList(s.cells, fr, opens[n], c);
    }
    if IsOpen(s.cells, c) {
      var i := OpenCellIsLive(s, chain, opens, c);
      if i < n {
        ChainOrder(s, chain, i, n);
      }
    }
  }

  lemma TailBoxes(s: State, chain: seq<Addr>, opens: seq<seq<Addr>>, A: nat, B: nat, pc: nat, tailReturn: nat, c: Addr)
    requires Inv(s, chain, opens) && chain != [] && Ready(s, s.current) && A < s.frames[s.current].valueCapacity
    requires c in s.cells
    ensures var s' := TailCall(s, s.current, A, B, pc, tailReturn).s;
            c in s'.cells && |s'.mem| == |s.mem| && View(s', c) == View(s, c)
  {
    var v := Reg(s, s.current, A);
    match NativeCallee(s, v)
    case Some((clo, d)) =>
      CalleeValid(s, v);
      var nargs := ArgCount(s.frames[s.current], A, B);
      if TailNative(s, s.current, clo, d, A, nargs, pc).control.Enter? {
        TailNativeBoxes(s, chain, opens, clo, d, A, nargs, pc, c);
      }
    case None =>
  }

  /** RETURN delivers through the sink, then closes: a box whose register lies in the
      sink window sees the delivered result, every other box keeps its value. */
  lemma ReturnBoxes(s: State, chain: seq<Addr>, opens: seq<seq<Addr>>, A: nat, nres: nat, pc: nat, c: Addr)
    requires Inv(s, chain, opens) && chain != [] && Ready(s, s.current) && c in s.cells
    requires A + nres <= Extent(s.frames[s.current])
    requires ReturnN(s, s.current, A, nres, pc).control.Enter?
    ensures var s' := ReturnN(s, s.current, A, nres, pc).s;
            && c in s'.cells && |s'.mem| == |s.mem|
            && (if IsOpen(s.cells, c) && s.cells[c].openSlot < |s.mem|
                   && InSink(s.frames[s.current].sink, nres, s.cells[c].openSlot)
                then View(s', c) == s'.mem[s.cells[c].openSlot]
                else View(s', c) == View(s, c))
  {
    var n := |chain| - 1;
    ReturnShape(s, s.current, A, nres, pc);
    OpenCellsExact(s.cells, s.frames[s.current], opens[n]);
    ReturnDelivers(s, chain, A, nres, pc);
    if c in opens[n] {
      InList(s.cells, s.frames[s.current], opens[n], c);
    }
    if IsOpen(s.cells, c) {
      var i := OpenCellIsLive(s, chain, opens, c);
    }
  }

  /** A variable of the frame that returns: its box keeps the value the variable had,
      unless the frame is a root that delivers into its own window. There result i
      lands in register i before the cells are closed, and is what the box of
      register i then holds: nil where the window is wider than the results. */
  lemma LeavingBox(s: State, chain: seq<Addr>, opens: seq<seq<Addr>>, A: nat, nres: nat, pc: nat, c: Addr, i: nat)
    requires Inv(s, chain, opens) && chain != [] && Ready(s, s.current) && IsOpen(s.cells, c)
    requires A + nres <= Extent(s.frames[s.current]) && i < s.frames[s.current].valueCapacity
    requires s.cells[c].openSlot == SlotAt(s.frames[s.current].values, i)
    requires ReturnN(s, s.current, A, nres, pc).control.Enter?
    ensures var fr := s.frames[s.current];
            var s' := ReturnN(s, s.current, A, nres, pc).s;
            && c in s'.cells
            && (if fr.sink.values == fr.values && i < Wanted(fr.sink, nres)
                then if i < nres then View(s', c) == Reg(s, s.current, A + i) else View(s', c).tag == Nil
                else View(s', c) == Reg(s, s.current, i))
  {
    var fr := s.frames[s.current];
    ReturnBoxes(s, chain, opens, A, nres, pc, c);
    SinkApart(s, chain, A, nres);
    if fr.sink.values == fr.values && i < Wanted(fr.sink, nres) {
      ReturnValues(s, chain, A, nres, pc, i);
    }
  }

  /** All registers of 16-aligned frames have the same remainder. */
  lemma RegisterRemainder(f: Addr, a: Addr)
    requires f % 16 == 0 && f + HEADER <= a && (a - (f + HEADER)) % SLOT == 0
    ensures a % 16 == 8
  {
  }

  lemma WholeSlots(base: Addr, a: Addr)
    requires base <= a && a % 16 == base % 16
    ensures (a - base) % SLOT == 0 && a == SlotAt(base, SlotsFrom(base, a))
  {
  }

  /** The register of an open cell is a whole number of slots from any register. */
  lemma OpenSlotAligned(s: State, chain: seq<Addr>, opens: seq<seq<Addr>>, c: Addr, base: Addr, j: nat, r: nat)
    requires Inv(s, chain, opens) && IsOpen(s.cells, c) && base <= s.cells[c].openSlot
    requires j < |chain| && base == SlotAt(s.frames[chain[j]].values, r)
    ensures (s.cells[c].openSlot - base) % SLOT == 0
    ensures s.cells[c].openSlot == SlotAt(base, SlotsFrom(base, s.cells[c].openSlot))
  {
    var i := OpenCellIsLive(s, chain, opens, c);
    RegisterRemainder(chain[i], s.cells[c].openSlot);
    RegisterRemainder(chain[j], base);
    WholeSlots(base, s.cells[c].openSlot);
  }

  lemma VarargLands(s: State, chain: seq<Addr>, opens: seq<seq<Addr>>, r: nat, wanted: int, c: Addr)
    requires Inv(s, chain, opens) && chain != [] && Enabled(s, VarargOp(r, wanted)) && IsOpen(s.cells, c)
    requires Assigns(s, VarargOp(r, wanted), s.cells[c].openSlot)
    ensures var a, s' := s.cells[c].openSlot, Vararg(s, s.current, r, wanted);
            a < |s'.mem| && Lands(s, VarargOp(r, wanted), a, s'.mem[a])
  {
    var fr, a := s.frames[s.current], s.cells[c].openSlot;
    var base := SlotAt(fr.values, r);
    OpenSlotAligned(s, chain, opens, c, base, |chain| - 1, r);
    var i := SlotsFrom(base, a);
    assert SlotAt(base, i) == SlotAt(fr.values, r + i);
    VarargReads(s, s.current, r, wanted, i);
  }

  /** The cell in a sink window is a register of the caller, or of the root itself. */
  lemma SinkAligned(s: State, chain: seq<Addr>, opens: seq<seq<Addr>>, nres: nat, c: Addr)
    requires Inv(s, chain, opens) && chain != [] && Ready(s, s.current) && IsOpen(s.cells, c)
    requires var k := s.frames[s.current].sink;
             k.base + Wanted(k, nres) <= k.capacity && InSink(k, nres, s.cells[c].openSlot)
    ensures var k, a := s.frames[s.current].sink, s.cells[c].openSlot;
            (a - k.values) % SLOT == 0 && a == SlotAt(k.values, SlotsFrom(k.values, a))
  {
    var n, k := |chain| - 1, s.frames[s.current].sink;
    assert FrameOk(s, chain, n);
    if n > 0 {
      OpenSlotAligned(s, chain, opens, c, k.values, n - 1, k.base);
    } else {
      var i := OpenCellIsLive(s, chain, opens, c);
      ChainBelow(s, chain, i);
      OpenSlotAligned(s, chain, opens, c, k.values, 0, 0);
    }
  }

  lemma ReturnLands(s: State, chain: seq<Addr>, opens: seq<seq<Addr>>, op: Op, c: Addr)
    requires Inv(s, chain, opens) && chain != [] && op.ReturnOp? && Enabled(s, op) && IsOpen(s.cells, c)
    requires Assigns(s, op, s.cells[c].openSlot)
    ensures var a, s' := s.cells[c].openSlot, Exec(s, op).s;
            a < |s'.mem| && Lands(s, op, a, s'.mem[a])
  {
    var fr, a := s.frames[s.current], s.cells[c].openSlot;
    var nres := ResultCount(fr, op.A, op.B);
    ReturnDelivers(s, chain, op.A, nres, op.pc);
    SinkAligned(s, chain, opens, nres, c);
    ReturnValues(s, chain, op.A, nres, op.pc, SlotsFrom(fr.sink.values, a));
  }

  lemma LocalBoxLaw(s: State, chain: seq<Addr>, opens: seq<seq<Addr>>, op: Op, c: Addr)
    requires Inv(s, chain, opens) && chain != [] && Enabled(s, op) && c in s.cells && !Transfers(op)
    ensures BoxLaw(s, op, c)
  {
    match op
    case Write(r, v) =>
    case GetUpval(r, u) =>
    case SetUpval(u, r) =>
      SetBox(s, chain, opens, UpvalueCells(s, s.current)[u], Reg(s, s.current, r), c);
    case NewClosure(_, _, _, _) => ClosureBoxLaw(s, chain, opens, op, c);
    case CloseScope(r) => CloseFromViews(s, chain, opens, r, c);
    case VarargOp(r, wanted) => VarargBoxLaw(s, chain, opens, r, wanted, c);
  }

  lemma ClosureBoxLaw(s: State, chain: seq<Addr>, opens: seq<seq<Addr>>, op: Op, c: Addr)
    requires Inv(s, chain, opens) && chain != [] && op.NewClosure? && Enabled(s, op) && c in s.cells
    ensures BoxLaw(s, op, c)
  {
    ClosureShape(s, chain, opens, op.reg, op.proto, op.captures, op.pc);
    ClosureMade(s, chain, opens, op.reg, op.proto, op.captures, op.pc);
  }

  lemma VarargBoxLaw(s: State, chain: seq<Addr>, opens: seq<seq<Addr>>, r: nat, wanted: int, c: Addr)
    requires Inv(s, chain, opens) && chain != [] && Enabled(s, VarargOp(r, wanted)) && c in s.cells
    ensures BoxLaw(s, VarargOp(r, wanted), c)
  {
    VarargWrites(s, s.current, r, wanted);
    if IsOpen(s.cells, c) && Assigns(s, VarargOp(r, wanted), s.cells[c].openSlot) {
      VarargLands(s, chain, opens, r, wanted, c);
    }
  }

  lemma TransferBoxLaw(s: State, chain: seq<Addr>, opens: seq<seq<Addr>>, op: Op, c: Addr)
    requires Inv(s, chain, opens) && chain != [] && Enabled(s, op) && c in s.cells && Transfers(op)
    ensures BoxLaw(s, op, c)
  {
    match op
    case CallOp(A, B, C, pc, cont) => CallBoxes(s, chain, opens, A, B, C, pc, cont, c);
    case TailOp(A, B, pc, tailReturn) => TailBoxes(s, chain, opens, A, B, pc, tailReturn, c);
    case ReturnOp(A, B, pc) =>
      var nres := ResultCount(s.frames[s.current], A, B);
      if ReturnN(s, s.current, A, nres, pc).control.Enter? {
        ReturnBoxes(s, chain, opens, A, nres, pc, c);
        if IsOpen(s.cells, c) && Assigns(s, op, s.cells[c].openSlot) {
          ReturnLands(s, chain, opens, op, c);
        }
      }
  }

  /** Every operation obeys the box law, in every state the invariant describes. */
  lemma StepBoxLaw(s: State, chain: seq<Addr>, opens: seq<seq<Addr>>, op: Op, c: Addr)
    requires Inv(s, chain, opens) && chain != [] && Enabled(s, op) && c in s.cells
    ensures BoxLaw(s, op, c)
  {
    if Transfers(op) {
      TransferBoxLaw(s, chain, opens, op, c);
    } else {
      LocalBoxLaw(s, chain, opens, op, c);
    }
  }

  /** No step of the run assigns the variable behind cell `c`. */
  ghost predicate Untouched(s: State, ops: seq<Op>, c: Addr)
    decreases |ops|
  {
    ops != [] ==>
      && c in s.cells
      && (Enabled(s, ops[0]) ==>
            && !(ops[0].SetUpval? && c == UpvalueCells(s, s.current)[ops[0].up])
            && !(IsOpen(s.cells, c) && Assigns(s, ops[0], s.cells[c].openSlot)))
      && Untouched(Step(s, ops[0]), ops[1..], c)
  }

  /** A captured variable that no step assigns keeps its value through any run:
      across scope ends, tail calls over its frame, and the return of the
      function that declared it. */
  lemma {:induction false} RunKeepsBox(s: State, chain: seq<Addr>, opens: seq<seq<Addr>>, ops: seq<Op>, c: Addr)
    requires Inv(s, chain, opens) && c in s.cells && Untouched(s, ops, c)
    ensures c in Run(s, ops).cells && View(Run(s, ops), c) == View(s, c)
    decreases |ops|
  {
    if ops != [] {
      var chain', opens' := chain, opens;
      if chain == [] {
        FinishedStops(s, ops[0]);
      } else {
        opens' := StepInv(s, chain, opens, ops[0]);
        chain' := ChainAfter(s, chain, ops[0]);
        if Enabled(s, ops[0]) {
          StepBoxLaw(s, chain, opens, ops[0], c);
        }
      }
      RunKeepsBox(Step(s, ops[0]), chain', opens', ops[1..], c);
    }
  }

  // ---- reading a box --------------------------------------------------------------------------

  /** The closure running in the current frame has cell c at u. */
  ghost predicate HasCell(s: State, u: nat, c: Addr) {
    && s.current in s.frames && s.frames[s.current].upvalues in s.closures
    && var f := s.closures[s.frames[s.current].upvalues];
       f.Native? && u < |f.cells| && f.cells[u] == c
  }

  /** GETUPVAL puts into its register what the running closure's cell shows, and changes
      nothing else. */
  lemma ReadBox(s: State, r: nat, u: nat, c: Addr)
    requires Enabled(s, GetUpval(r, u)) && HasCell(s, u, c)
    ensures var s' := Step(s, GetUpval(r, u));
            && c in s.cells && Fits(s', s.current) && s' == s.(mem := s'.mem)
            && Reg(s', s.current, r) == View(s, c)
            && var a := SlotAt(s.frames[s.current].values, r); SameOutside(s.mem, s'.mem, a, a + 1)
  {
  }

  /** What is assigned through one closure is read through any other that shares the cell,
      after any run that does not assign the variable: also when the function that declared
      it has long returned. */
  lemma SetThenGet(s: State, chain: seq<Addr>, opens: seq<seq<Addr>>, u: nat, r: nat, ops: seq<Op>, u': nat, r': nat,
                   c: Addr)
    requires Inv(s, chain, opens) && chain != [] && Enabled(s, SetUpval(u, r)) && HasCell(s, u, c)
    requires Untouched(Step(s, SetUpval(u, r)), ops, c)
    requires var t := Run(Step(s, SetUpval(u, r)), ops); Enabled(t, GetUpval(r', u')) && HasCell(t, u', c)
    ensures var t := Run(Step(s, SetUpval(u, r)), ops);
            var t' := Step(t, GetUpval(r', u'));
            Fits(t', t.current) && Reg(t', t.current, r') == Reg(s, s.current, r)
  {
    var s1 := Step(s, SetUpval(u, r));
    StepBoxLaw(s, chain, opens, SetUpval(u, r), c);
    var opens' := StepInv(s, chain, opens, SetUpval(u, r));
    RunKeepsBox(s1, chain, opens', ops, c);
    ReadBox(Run(s1, ops), r', u', c);
  }

  /** The same for an assignment to the captured register itself. */
  lemma WriteThenGet(s: State, chain: seq<Addr>, opens: seq<seq<Addr>>, r: nat, v: Value, ops: seq<Op>, u: nat, r': nat,
                     c: Addr)
    requires Inv(s, chain, opens) && chain != [] && Enabled(s, Write(r, v))
    requires IsOpen(s.cells, c) && s.cells[c].openSlot == SlotAt(s.frames[s.current].values, r)
    requires Untouched(Step(s, Write(r, v)), ops, c)
    requires var t := Run(Step(s, Write(r, v)), ops); Enabled(t, GetUpval(r', u)) && HasCell(t, u, c)
    ensures var t := Run(Step(s, Write(r, v)), ops);
            var t' := Step(t, GetUpval(r', u));
            Fits(t', t.current) && Reg(t', t.current, r') == v
  {
    var s1 := Step(s, Write(r, v));
    StepBoxLaw(s, chain, opens, Write(r, v), c);
    var opens' := StepInv(s, chain, opens, Write(r, v));
    RunKeepsBox(s1, chain, opens', ops, c);
    ReadBox(Run(s1, ops), r', u, c);
  }
}
