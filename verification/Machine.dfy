/** Runs of the machine: any sequence of register writes, upvalue accesses,
    closures, scope closings, varargs, calls, tail calls and returns. */
module Machine {
  import opened Values
  import opened Slots
  import opened GuestHeap
  import opened Frames
  import opened Arena
  import opened Upvalues
  import opened Captures
  import opened Closing

  datatype Op =
    | Write(reg: nat, value: Value)
    | GetUpval(reg: nat, up: nat)
    | SetUpval(up: nat, reg: nat)
    | NewClosure(reg: nat, proto: nat, captures: seq<Capture>, pc: nat)
    | CloseScope(reg: nat)
    | VarargOp(reg: nat, wanted: int)
    | CallOp(A: nat, B: nat, C: nat, pc: nat, cont: nat)
    | TailOp(A: nat, B: nat, pc: nat, tailReturn: nat)
    | ReturnOp(A: nat, B: nat, pc: nat)

  /** Operands name registers and upvalues that exist. */
  predicate Enabled(s: State, op: Op) {
    && s.current != 0 && Ready(s, s.current)
    && var fr := s.frames[s.current];
       match op
       case Write(r, _) => r < fr.valueCapacity
       case GetUpval(r, u) =>
         r < fr.valueCapacity && u < |UpvalueCells(s, s.current)| && UpvalueCells(s, s.current)[u] in s.cells
       case SetUpval(u, r) =>
         r < fr.valueCapacity && u < |UpvalueCells(s, s.current)| && UpvalueCells(s, s.current)[u] in s.cells
       case NewClosure(r, _, captures, _) =>
         && r < fr.valueCapacity && |captures| <= 4
         && forall i {:trigger captures[i]} :: 0 <= i < |captures| ==> CaptureValid(s, s.current, captures[i])
       case CloseScope(_) => true
       case VarargOp(r, wanted) => VarargFits(fr, r, wanted)
       case CallOp(A, _, _, _, _) => A < fr.valueCapacity
       case TailOp(A, _, _, _) => A < fr.valueCapacity
       case ReturnOp(A, B, _) => A + ResultCount(fr, A, B) <= Extent(fr)
  }

  function Exec(s: State, op: Op): Result
    requires Enabled(s, op)
  {
    var f := s.current;
    match op
    case Write(r, v) => Result(SetReg(s, f, r, v), Next)
    case GetUpval(r, u) => Result(SetReg(s, f, r, View(s, UpvalueCells(s, f)[u])), Next)
    case SetUpval(u, r) => Result(SetThrough(s, UpvalueCells(s, f)[u], Reg(s, f, r)), Next)
    case NewClosure(r, proto, captures, pc) => MakeClosure(s, f, r, proto, captures, pc)
    case CloseScope(r) => Result(CloseFrom(s, f, r), Next)
    case VarargOp(r, wanted) => Result(Vararg(s, f, r, wanted), Next)
    case CallOp(A, B, C, pc, cont) => Call(s, f, A, B, C, pc, cont)
    case TailOp(A, B, pc, tailReturn) => TailCall(s, f, A, B, pc, tailReturn)
    case ReturnOp(A, B, pc) => Return(s, f, A, B, pc)
  }

  /** Ill-formed operands do not occur in projected code; such an op is skipped. */
  function Step(s: State, op: Op): State {
    if Enabled(s, op) then Exec(s, op).s else s
  }

  function Run(s: State, ops: seq<Op>): State
    decreases |ops|
  {
    if ops == [] then s else Run(Step(s, ops[0]), ops[1..])
  }

  /** How the caller chain moves. */
  function ChainAfter(s: State, chain: seq<Addr>, op: Op): seq<Addr>
    requires chain != []
  {
    if !Enabled(s, op) || !Exec(s, op).control.Enter? then chain
    else if op.CallOp? then chain + [s.frameNext]
    else if op.ReturnOp? then chain[..|chain| - 1]
    else chain
  }

  // ---- one step keeps the invariant ----------------------------------------------

  lemma WriteInv(s: State, chain: seq<Addr>, opens: seq<seq<Addr>>, a: nat, v: Value)
    requires Inv(s, chain, opens) && a < |s.mem|
    ensures Inv(s.(mem := s.mem[a := v]), chain, opens)
  {
    QuietInv(s, s.(mem := s.mem[a := v]), chain, opens);
  }

  lemma SetUpvalInv(s: State, chain: seq<Addr>, opens: seq<seq<Addr>>, c: Addr, v: Value)
    requires Inv(s, chain, opens) && c in s.cells
    ensures Inv(SetThrough(s, c, v), chain, opens)
  {
    QuietInv(s, SetThrough(s, c, v), chain, opens);
  }

  lemma OutcomeInv(s: State, chain: seq<Addr>, opens: seq<seq<Addr>>, o: Outcome)
    requires Inv(s, chain, opens)
    ensures Inv(s.(outcome := o), chain, opens)
  {
    QuietInv(s, s.(outcome := o), chain, opens);
  }

  lemma VarargInv(s: State, chain: seq<Addr>, opens: seq<seq<Addr>>, r: nat, wanted: int)
    requires Inv(s, chain, opens) && chain != [] && Enabled(s, VarargOp(r, wanted))
    ensures Inv(Vararg(s, s.current, r, wanted), chain, opens)
  {
    QuietInv(s, Vararg(s, s.current, r, wanted), chain, opens);
  }

  lemma HeapInv(s: State, chain: seq<Addr>, opens: seq<seq<Addr>>, h: Heap)
    requires Inv(s, chain, opens) && h.Valid() && h.end == s.heap.end && s.heap.next <= h.next
    ensures Inv(s.(heap := h), chain, opens)
  {
    ArenaStable(s, s.(heap := h), chain);
  }

  /** Publishing a closure over known cells. */
  lemma PublishInv(s: State, chain: seq<Addr>, opens: seq<seq<Addr>>, at: Addr, proto: nat, cells: seq<Addr>)
    requires Inv(s, chain, opens) && at < s.heap.next
    requires forall c :: c in cells ==> c in s.cells
    ensures Inv(s.(closures := s.closures[at := Native(proto, cells)]), chain, opens)
  {
    ArenaStable(s, s.(closures := s.closures[at := Native(proto, cells)]), chain);
  }

  /** The closure's own block, when there is room for it. */
  lemma ClosureBlock(s: State, captures: seq<Capture>)
    requires HeapOk(s) && |captures| <= 4
    ensures var (h, at) := Bump(s.heap, ClosureBytes(captures));
            at != 0 ==> h.Valid() && h.end == s.heap.end && s.heap.next <= at < h.next
  {
    BumpExact(s.heap, ClosureBytes(captures));
  }

  /** Creating a closure writes its target register, new cells and open lists. */
  lemma ClosureShape(s: State, chain: seq<Addr>, opens: seq<seq<Addr>>, r: nat, proto: nat,
                     captures: seq<Capture>, pc: nat)
    requires Inv(s, chain, opens) && chain != [] && Enabled(s, NewClosure(r, proto, captures, pc))
    ensures var res := MakeClosure(s, s.current, r, proto, captures, pc);
            var a := SlotAt(s.frames[s.current].values, r);
            && (forall c {:trigger c in s.cells} :: c in s.cells ==> c in res.s.cells && res.s.cells[c] == s.cells[c])
            && (forall f {:trigger f in s.frames} :: f in s.frames ==>
                  f in res.s.frames && res.s.frames[f] == s.frames[f].(open := res.s.frames[f].open))
            && |res.s.mem| == |s.mem|
            && res.s.mem == if res.control.Next? && a < |s.mem| then s.mem[a := res.s.mem[a]] else s.mem
  {
    ClosureBlock(s, captures);
    var h, at: Addr := Bump(s.heap, ClosureBytes(captures)).0, Bump(s.heap, ClosureBytes(captures)).1;
    if at != 0 {
      HeapInv(s, chain, opens, h);
      var opens' := CapturesInv(s.(heap := h), chain, opens, captures);
    }
  }

  /** CLOSURE publishes HEAP_OVERFLOW, or leaves in its target register a reference to
      a new closure of the prototype whose cells stand for its captures, in order. */
  lemma ClosureMade(s: State, chain: seq<Addr>, opens: seq<seq<Addr>>, r: nat, proto: nat,
                    captures: seq<Capture>, pc: nat)
    requires Inv(s, chain, opens) && chain != [] && Enabled(s, NewClosure(r, proto, captures, pc))
    ensures var res := MakeClosure(s, s.current, r, proto, captures, pc);
            var a := SlotAt(s.frames[s.current].values, r);
            && (res.control.Next? || res.control.HostExit?)
            && (res.control.HostExit? ==> res.s.outcome == HeapOverflow(pc) && res.s.closures == s.closures)
            && (res.control.Next? ==>
                  && a < |res.s.mem| && s.current in res.s.frames
                  && res.s.mem[a].tag == Closure
                  && var at: Addr := res.s.mem[a].Ref();
                     && s.heap.next <= at && at !in s.closures && at in res.s.closures
                     && res.s.closures[at].Native? && res.s.closures[at].proto == proto
                     && res.s.closures == s.closures[at := res.s.closures[at]]
                     && AllCaptured(res.s, s.current, captures, res.s.closures[at].cells))
  {
    ClosureBlock(s, captures);
    var h, at: Addr := Bump(s.heap, ClosureBytes(captures)).0, Bump(s.heap, ClosureBytes(captures)).1;
    if at != 0 {
      HeapInv(s, chain, opens, h);
      var opens' := CapturesInv(s.(heap := h), chain, opens, captures);
      var (s1, cells) := CaptureCells(s.(heap := h), s.current, captures);
      if cells.Some? {
        var res := MakeClosure(s, s.current, r, proto, captures, pc);
        assert s1.frames.Keys == s.frames.Keys && s1.closures == s.closures && at !in s.closures;
        assert res.s.closures == s.closures[at := Native(proto, cells.value)];
        PublishCaptured(s1, res.s, s.current, at, captures, cells.value);
      }
    }
  }

  /** Publishing a closure at a fresh address disturbs no capture. */
  lemma PublishCaptured(s: State, s': State, f: Addr, at: Addr, captures: seq<Capture>, cells: seq<Addr>)
    requires f in s.frames && at !in s.closures && s'.frames == s.frames && s'.cells == s.cells
    requires at in s'.closures && s'.closures == s.closures[at := s'.closures[at]]
    requires AllCaptured(s, f, captures, cells)
    ensures AllCaptured(s', f, captures, cells)
  {
    forall i | 0 <= i < |captures|
      ensures CapturedAs(s', f, captures[i], cells[i])
    {
      assert CapturedAs(s, f, captures[i], cells[i]);
    }
  }

  lemma ClosureInv(s: State, chain: seq<Addr>, opens: seq<seq<Addr>>, r: nat, proto: nat,
                   captures: seq<Capture>, pc: nat)
    returns (opens': seq<seq<Addr>>)
    requires Inv(s, chain, opens) && chain != [] && Enabled(s, NewClosure(r, proto, captures, pc))
    ensures Inv(MakeClosure(s, s.current, r, proto, captures, pc).s, chain, opens')
  {
    ClosureBlock(s, captures);
    var h, at: Addr := Bump(s.heap, ClosureBytes(captures)).0, Bump(s.heap, ClosureBytes(captures)).1;
    opens' := opens;
    if at == 0 {
      OutcomeInv(s, chain, opens, HeapOverflow(pc));
    } else {
      HeapInv(s, chain, opens, h);
      opens' := ClosureCells(s, s.(heap := h), chain, opens, r, proto, captures, pc, at);
    }
  }

  lemma ClosureCells(s: State, s0: State, chain: seq<Addr>, opens: seq<seq<Addr>>, r: nat, proto: nat,
                     captures: seq<Capture>, pc: nat, at: Addr)
    returns (opens': seq<seq<Addr>>)
    requires Inv(s0, chain, opens) && chain != [] && s0 == s.(heap := s0.heap)
    requires at < TWO_64 && at < s0.heap.next && r < s.frames[s.current].valueCapacity
    requires forall i {:trigger captures[i]} :: 0 <= i < |captures| ==> CaptureValid(s0, s0.current, captures[i])
    ensures var (s1, cells) := CaptureCells(s0, s0.current, captures);
            && (cells.None? ==> Inv(s1.(outcome := HeapOverflow(pc)), chain, opens'))
            && (cells.Some? ==>
                  var a := SlotAt(s.frames[s.current].values, r);
                  Inv(s1.(closures := s1.closures[at := Native(proto, cells.value)],
                          mem := if a < |s1.mem| then s1.mem[a := Reference(Closure, at)] else s1.mem),
                      chain, opens'))
  {
    opens' := CapturesInv(s0, chain, opens, captures);
    var (s1, cells) := CaptureCells(s0, s0.current, captures);
    if cells.None? {
      OutcomeInv(s1, chain, opens', HeapOverflow(pc));
    } else {
      var a := SlotAt(s.frames[s.current].values, r);
      forall c | c in cells.value
        ensures c in s1.cells
      {
        var i :| 0 <= i < |cells.value| && cells.value[i] == c;
      }
      PublishInv(s1, chain, opens', at, proto, cells.value);
      if a < |s1.mem| {
        WriteInv(s1.(closures := s1.closures[at := Native(proto, cells.value)]), chain, opens', a,
                 Reference(Closure, at));
      }
    }
  }

  lemma CallNativeInv(s: State, chain: seq<Addr>, opens: seq<seq<Addr>>, clo: Addr, d: Descriptor, A: nat,
                      nargs: nat, results: int, pc: nat, cont: nat)
    returns (opens': seq<seq<Addr>>)
    requires Inv(s, chain, opens) && chain != [] && d.Valid() && Ready(s, s.current)
    ensures var r := CallNative(s, s.current, clo, d, A, nargs, results, pc, cont);
            Inv(r.s, if r.control.Enter? then chain + [s.frameNext] else chain, opens')
  {
    var r := CallNative(s, s.current, clo, d, A, nargs, results, pc, cont);
    if r.control.Enter? {
      PushInv(s, r.s, chain, opens, CalleeHeader(s, s.current, clo, d, A, nargs, results, cont));
      opens' := opens + [[]];
    } else {
      OutcomeInv(s, chain, opens, r.s.outcome);
      opens' := opens;
    }
  }

  lemma TailNativeInv(s: State, chain: seq<Addr>, opens: seq<seq<Addr>>, clo: Addr, d: Descriptor, A: nat,
                      nargs: nat, pc: nat)
    returns (opens': seq<seq<Addr>>)
    requires Inv(s, chain, opens) && chain != [] && d.Valid() && Ready(s, s.current)
    ensures Inv(TailNative(s, s.current, clo, d, A, nargs, pc).s, chain, opens')
  {
    var r := TailNative(s, s.current, clo, d, A, nargs, pc);
    if r.control.Enter? {
      OpenCellsExact(s.cells, s.frames[s.current], opens[|opens| - 1]);
      var h := TailHeader(s.frames[s.current], clo, d, nargs);
      assert r.s.frames == s.frames[s.current := h];
      ReplaceInv(s, r.s, chain, opens, h);
      opens' := opens[|opens| - 1 := []];
    } else {
      OutcomeInv(s, chain, opens, r.s.outcome);
      opens' := opens;
    }
  }

  /** RETURN apart from the frame pop: results delivered, own cells closed. */
  lemma ReturnShape(s: State, f: Addr, A: nat, nres: nat, pc: nat)
    requires Ready(s, f) && A + nres <= Extent(s.frames[f]) && s.current == f
    ensures var r := ReturnN(s, f, A, nres, pc);
            r.control.Enter? ==>
              && r.s.cells == CloseCells(s.cells, r.s.mem, OpenCells(s, f))
              && r.s.closures == s.closures && r.s.heap == s.heap
              && Popped(s, r.s)
              && (forall a {:trigger r.s.frames[a]} :: a in s.frames && a != f ==>
                    a in r.s.frames && r.s.frames[a].open == s.frames[a].open)
  {
  }

  /** What a completed RETURN leaves of the frames below and of the closed list. */
  lemma ReturnLower(s: State, chain: seq<Addr>, opens: seq<seq<Addr>>, A: nat, nres: nat, pc: nat)
    requires Inv(s, chain, opens) && chain != [] && Ready(s, s.current)
    requires A + nres <= Extent(s.frames[s.current]) && ReturnN(s, s.current, A, nres, pc).control.Enter?
    ensures var s' := ReturnN(s, s.current, A, nres, pc).s;
            && s'.cells == CloseCells(s.cells, s'.mem, opens[|opens| - 1])
            && forall i {:trigger chain[i]} :: 0 <= i < |chain| - 1 ==>
                 && chain[i] in s'.frames && SameHeader(s.frames[chain[i]], s'.frames[chain[i]])
                 && s'.frames[chain[i]].open == s.frames[chain[i]].open
  {
    ReturnShape(s, s.current, A, nres, pc);
    OpenCellsExact(s.cells, s.frames[s.current], opens[|opens| - 1]);
    ReturnHeaders(s, chain, A, nres, pc);
    CurrentDistinct(s, chain);
  }

  lemma ReturnInv(s: State, chain: seq<Addr>, opens: seq<seq<Addr>>, A: nat, nres: nat, pc: nat)
    returns (opens': seq<seq<Addr>>)
    requires Inv(s, chain, opens) && chain != [] && Ready(s, s.current)
    requires A + nres <= Extent(s.frames[s.current])
    ensures var r := ReturnN(s, s.current, A, nres, pc);
            Inv(r.s, if r.control.Enter? then chain[..|chain| - 1] else chain, opens')
  {
    var f, n := s.current, |chain| - 1;
    var r := ReturnN(s, f, A, nres, pc);
    opens' := opens;
    if r.control.Enter? {
      ReturnShape(s, f, A, nres, pc);
      ReturnLower(s, chain, opens, A, nres, pc);
      PopInv(s, r.s, chain, opens, r.s.mem);
      opens' := opens[..n];
    } else {
      OutcomeInv(s, chain, opens, r.s.outcome);
    }
  }

  /** A resolved callee has a valid descriptor. */
  lemma CalleeValid(s: State, v: Value)
    requires FunctionsValid(s) && NativeCallee(s, v).Some?
    ensures NativeCallee(s, v).value.1.Valid()
  {
  }

  lemma CallInv(s: State, chain: seq<Addr>, opens: seq<seq<Addr>>, A: nat, B: nat, C: nat, pc: nat, cont: nat)
    returns (opens': seq<seq<Addr>>)
    requires Inv(s, chain, opens) && chain != [] && Ready(s, s.current) && A < s.frames[s.current].valueCapacity
    ensures var r := Call(s, s.current, A, B, C, pc, cont);
            Inv(r.s, if r.control.Enter? then chain + [s.frameNext] else chain, opens')
  {
    var v := Reg(s, s.current, A);
    match NativeCallee(s, v)
    case Some((clo, d)) =>
      CalleeValid(s, v);
      opens' := CallNativeInv(s, chain, opens, clo, d, A, ArgCount(s.frames[s.current], A, B), C - 1, pc, cont);
    case None =>
      var o := Call(s, s.current, A, B, C, pc, cont).s.outcome;
      OutcomeInv(s, chain, opens, o);
      opens' := opens;
  }

  lemma TailInv(s: State, chain: seq<Addr>, opens: seq<seq<Addr>>, A: nat, B: nat, pc: nat, tailReturn: nat)
    returns (opens': seq<seq<Addr>>)
    requires Inv(s, chain, opens) && chain != [] && Ready(s, s.current) && A < s.frames[s.current].valueCapacity
    ensures Inv(TailCall(s, s.current, A, B, pc, tailReturn).s, chain, opens')
  {
    var v := Reg(s, s.current, A);
    match NativeCallee(s, v)
    case Some((clo, d)) =>
      CalleeValid(s, v);
      opens' := TailNativeInv(s, chain, opens, clo, d, A, ArgCount(s.frames[s.current], A, B), pc);
    case None =>
      var o := TailCall(s, s.current, A, B, pc, tailReturn).s.outcome;
      OutcomeInv(s, chain, opens, o);
      opens' := opens;
  }

  predicate Transfers(op: Op) { op.CallOp? || op.TailOp? || op.ReturnOp? }

  /** Steps that stay in the current frame. */
  lemma LocalInv(s: State, chain: seq<Addr>, opens: seq<seq<Addr>>, op: Op)
    returns (opens': seq<seq<Addr>>)
    requires Inv(s, chain, opens) && chain != [] && Enabled(s, op) && !Transfers(op)
    ensures Inv(Exec(s, op).s, chain, opens')
  {
    opens' := opens;
    match op
    case Write(r, v) => WriteInv(s, chain, opens, SlotAt(s.frames[s.current].values, r), v);
    case GetUpval(r, u) =>
      WriteInv(s, chain, opens, SlotAt(s.frames[s.current].values, r), View(s, UpvalueCells(s, s.current)[u]));
    case SetUpval(u, r) =>
      SetUpvalInv(s, chain, opens, UpvalueCells(s, s.current)[u], Reg(s, s.current, r));
    case NewClosure(r, proto, captures, pc) => opens' := ClosureInv(s, chain, opens, r, proto, captures, pc);
    case CloseScope(r) => opens' := CloseFromInv(s, chain, opens, r);
    case VarargOp(r, wanted) => VarargInv(s, chain, opens, r, wanted);
  }

  /** Calls, tail calls and returns. */
  lemma TransferInv(s: State, chain: seq<Addr>, opens: seq<seq<Addr>>, op: Op)
    returns (opens': seq<seq<Addr>>)
    requires Inv(s, chain, opens) && chain != [] && Enabled(s, op) && Transfers(op)
    ensures Inv(Exec(s, op).s, ChainAfter(s, chain, op), opens')
  {
    match op
    case CallOp(A, B, C, pc, cont) => opens' := CallInv(s, chain, opens, A, B, C, pc, cont);
    case TailOp(A, B, pc, tailReturn) => opens' := TailInv(s, chain, opens, A, B, pc, tailReturn);
    case ReturnOp(A, B, pc) =>
      opens' := ReturnInv(s, chain, opens, A, ResultCount(s.frames[s.current], A, B), pc);
  }

  /** Only transfers move the chain. */
  lemma LocalControl(s: State, op: Op)
    requires Enabled(s, op) && !Transfers(op)
    ensures !Exec(s, op).control.Enter?
  {
  }

  /** Every step keeps the machine invariant and moves the chain as stated. */
  lemma StepInv(s: State, chain: seq<Addr>, opens: seq<seq<Addr>>, op: Op)
    returns (opens': seq<seq<Addr>>)
    requires Inv(s, chain, opens) && chain != []
    ensures Inv(Step(s, op), ChainAfter(s, chain, op), opens')
  {
    if !Enabled(s, op) {
      opens' := opens;
    } else if Transfers(op) {
      opens' := TransferInv(s, chain, opens, op);
    } else {
      LocalControl(s, op);
      opens' := LocalInv(s, chain, opens, op);
    }
  }

  // ---- what is executed -------------------------------------------------------------

  /** A stencil always finds what it relies on. */
  lemma AlwaysReady(s: State, chain: seq<Addr>)
    requires ArenaOk(s, chain) && chain != []
    ensures Ready(s, s.current)
  {
    var n := |chain| - 1;
    assert FrameOk(s, chain, n);
    if n > 0 {
      assert Fits(s, chain[n - 1]);
      ChainOrder(s, chain, n - 1, n);
    }
  }

  /** Number of upvalues of the running closure. */
  ghost function UpvalueCount(s: State): nat
    requires s.current in s.frames
  {
    var u := s.frames[s.current].upvalues;
    if u in s.closures && s.closures[u].Native? then |s.closures[u].cells| else 0
  }

  /** The operands name registers and upvalues of the running function. */
  ghost predicate Named(s: State, op: Op)
    requires s.current in s.frames
  {
    var fr := s.frames[s.current];
    var registers, upvalues := fr.valueCapacity, UpvalueCount(s);
    match op
    case Write(r, _) => r < registers
    case GetUpval(r, u) => r < registers && u < upvalues
    case SetUpval(u, r) => r < registers && u < upvalues
    case NewClosure(r, _, captures, _) =>
      && r < registers && |captures| <= 4
      && forall i {:trigger captures[i]} :: 0 <= i < |captures| ==>
           captures[i].idx < if captures[i].inStack then registers else upvalues
    case CloseScope(_) => true
    case VarargOp(r, wanted) => wanted >= -1 && r + (if wanted < 0 then 0 else wanted) <= registers
    case CallOp(A, _, _, _, _) => A < registers
    case TailOp(A, _, _, _) => A < registers
    case ReturnOp(A, B, _) => (if B == 0 then A else A + B - 1) <= registers + fr.varargCount
  }

  /** In every state the invariant describes, an operation is executed exactly when its
      operands name registers and upvalues that exist; nothing else is ever in the way. */
  lemma EnabledIff(s: State, chain: seq<Addr>, opens: seq<seq<Addr>>, op: Op)
    requires Inv(s, chain, opens) && chain != []
    ensures Enabled(s, op) <==> Named(s, op)
  {
    AlwaysReady(s, chain);
    var cells := UpvalueCells(s, s.current);
    assert |cells| == UpvalueCount(s) && forall u :: 0 <= u < |cells| ==> cells[u] in cells && cells[u] in s.cells;
  }

  // ---- whole runs -------------------------------------------------------------------

  /** The state the host hands over: an empty arena but for one root frame, whose
      results go to its own registers, and only closed cells. */
  ghost predicate Launched(s: State) {
    && 0 < s.frameBegin && s.frameBegin % 16 == 0 && s.frameEnd <= |s.mem| && FunctionsValid(s)
    && HeapOk(s) && ClosuresOk(s) && (forall c :: c in s.cells ==> !s.cells[c].state.Opened?)
    && s.current == s.frameBegin && s.current in s.frames
    && var fr := s.frames[s.current];
       && fr.caller == 0 && fr.linkSubject == s.current && fr.open == 0 && fr.values == s.current + HEADER
       && fr.top == 0 && fr.varargCount == 0 && fr.tbcCount == 0 && fr.tbcCapacity == 0
       && fr.valueCapacity < TWO_31
       && fr.sink == Sink(fr.values, FrameTop(s.current), 0, -1, fr.valueCapacity)
       && s.frameNext == s.current + FrameBytes(fr.valueCapacity, 0, 0) <= s.frameEnd
  }

  /** The machine invariant holds at launch, so it holds in every reachable state. */
  lemma LaunchInv(s: State)
    requires Launched(s)
    ensures Inv(s, [s.current], [[]])
  {
    assert FrameOk(s, [s.current], 0);
  }

  /** A finished machine (no frame left) does nothing. */
  lemma FinishedStops(s: State, op: Op)
    requires s.current == 0
    ensures Step(s, op) == s
  {
  }

  /** Every state of every run satisfies the invariant for some chain and lists. */
  lemma {:induction false} RunInv(s: State, chain: seq<Addr>, opens: seq<seq<Addr>>, ops: seq<Op>)
    returns (chain': seq<Addr>, opens': seq<seq<Addr>>)
    requires Inv(s, chain, opens)
    ensures Inv(Run(s, ops), chain', opens')
    decreases |ops|
  {
    chain', opens' := chain, opens;
    if ops != [] {
      if chain != [] {
        opens' := StepInv(s, chain, opens, ops[0]);
        chain' := ChainAfter(s, chain, ops[0]);
      } else {
        FinishedStops(s, ops[0]);
      }
      chain', opens' := RunInv(Step(s, ops[0]), chain', opens', ops[1..]);
    }
  }

  /** The caller chain read off the headers, root first. */
  function Chain(frames: map<Addr, Frame>, f: Addr): seq<Addr>
    decreases f
  {
    if f == 0 || f !in frames then []
    else if frames[f].caller < f then Chain(frames, frames[f].caller) + [f]
    else [f]
  }

  function Live(s: State): seq<Addr> { Chain(s.frames, s.current) }

  lemma {:induction false} ChainExact(s: State, chain: seq<Addr>, n: nat)
    requires ArenaOk(s, chain) && n <= |chain|
    ensures Chain(s.frames, if n == 0 then 0 else chain[n - 1]) == chain[..n]
    decreases n
  {
    if n > 0 {
      assert FrameOk(s, chain, n - 1);
      ChainExact(s, chain, n - 1);
      if n > 1 {
        ChainOrder(s, chain, n - 2, n - 1);
      }
      assert chain[..n] == chain[..n - 1] + [chain[n - 1]];
    }
  }

  /** The witness chain of the invariant is the real caller chain. */
  lemma LiveExact(s: State, chain: seq<Addr>)
    requires ArenaOk(s, chain)
    ensures Live(s) == chain
  {
    ChainExact(s, chain, |chain|);
    assert chain[..|chain|] == chain;
  }

  /** Every state reached by the run has more than `depth` live frames. */
  ghost predicate StaysAbove(s: State, ops: seq<Op>, depth: nat)
    decreases |ops|
  {
    |Live(s)| > depth && (ops != [] ==> StaysAbove(Step(s, ops[0]), ops[1..], depth))
  }

  /** Frames at or below the entry depth keep their place during such a run. */
  lemma {:induction false} RunPrefix(s: State, chain: seq<Addr>, opens: seq<seq<Addr>>, ops: seq<Op>, depth: nat)
    returns (chain': seq<Addr>, opens': seq<seq<Addr>>)
    requires Inv(s, chain, opens) && StaysAbove(s, ops, depth)
    ensures Inv(Run(s, ops), chain', opens')
    ensures |chain| > depth && |chain'| > depth && chain'[..depth + 1] == chain[..depth + 1]
    decreases |ops|
  {
    LiveExact(s, chain);
    chain', opens' := chain, opens;
    if ops != [] {
      opens' := StepInv(s, chain, opens, ops[0]);
      var next := ChainAfter(s, chain, ops[0]);
      LiveExact(Step(s, ops[0]), next);
      assert next[..depth + 1] == chain[..depth + 1];
      chain', opens' := RunPrefix(Step(s, ops[0]), next, opens', ops[1..], depth);
    }
  }

  /** RETURN drops exactly the current frame. */
  lemma ReturnPops(s: State, chain: seq<Addr>, opens: seq<seq<Addr>>, ret: Op)
    requires Inv(s, chain, opens) && chain != []
    requires ret.ReturnOp? && Enabled(s, ret) && Exec(s, ret).control.Enter?
    ensures Step(s, ret).frameNext == chain[|chain| - 1]
    ensures Step(s, ret).current == (if |chain| == 1 then 0 else chain[|chain| - 2])
    ensures Live(Step(s, ret)) == chain[..|chain| - 1]
  {
    var opens' := StepInv(s, chain, opens, ret);
    LiveExact(Step(s, ret), ChainAfter(s, chain, ret));
    ReturnShape(s, s.current, ret.A, ResultCount(s.frames[s.current], ret.A, ret.B), ret.pc);
    assert FrameOk(s, chain, |chain| - 1);
  }

  /** A run that never goes below its starting depth and ends at it ends with the
      same chain. */
  lemma SameDepth(s: State, chain: seq<Addr>, opens: seq<seq<Addr>>, ops: seq<Op>)
    returns (opens': seq<seq<Addr>>)
    requires Inv(s, chain, opens) && chain != [] && StaysAbove(s, ops, |chain| - 1)
    requires |Live(Run(s, ops))| == |chain|
    ensures Inv(Run(s, ops), chain, opens')
  {
    var chain': seq<Addr>;
    chain', opens' := RunPrefix(s, chain, opens, ops, |chain| - 1);
    LiveExact(Run(s, ops), chain');
    WholePrefix(chain', chain);
  }

  lemma WholePrefix(a: seq<Addr>, b: seq<Addr>)
    requires |a| == |b| && a[..|b|] == b[..|b|]
    ensures a == b
  {
  }

  /** After a CALL and any run that stays above it, back at the callee's depth
      the callee's frame is where the CALL put it. */
  lemma CalleeStays(s: State, chain: seq<Addr>, opens: seq<seq<Addr>>, call: Op, ops: seq<Op>)
    returns (opens': seq<seq<Addr>>)
    requires Inv(s, chain, opens) && chain != []
    requires call.CallOp? && Enabled(s, call) && Exec(s, call).control.Enter?
    requires StaysAbove(Step(s, call), ops, |chain|)
    requires |Live(Run(Step(s, call), ops))| == |chain| + 1
    ensures Inv(Run(Step(s, call), ops), chain + [s.frameNext], opens')
  {
    opens' := StepInv(s, chain, opens, call);
    opens' := SameDepth(Step(s, call), chain + [s.frameNext], opens', ops);
  }

  /** Matching: whatever happens between a CALL and its RETURN - nested calls and
      any number of tail calls - the RETURN restores frame_next and the current
      frame to their values before the CALL. */
  lemma MatchedReturn(s: State, chain: seq<Addr>, opens: seq<seq<Addr>>, call: Op, ops: seq<Op>, ret: Op)
    requires Inv(s, chain, opens) && chain != []
    requires call.CallOp? && Enabled(s, call) && Exec(s, call).control.Enter?
    requires StaysAbove(Step(s, call), ops, |chain|)
    requires var t := Run(Step(s, call), ops);
             ret.ReturnOp? && Enabled(t, ret) && Exec(t, ret).control.Enter? && |Live(t)| == |chain| + 1
    ensures var u := Step(Run(Step(s, call), ops), ret);
            u.frameNext == s.frameNext && u.current == s.current && Live(u) == Live(s)
  {
    var opens' := CalleeStays(s, chain, opens, call, ops);
    LiveExact(s, chain);
    ReturnPops(Run(Step(s, call), ops), chain + [s.frameNext], opens', ret);
  }
}
