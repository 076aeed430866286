/** The invocation state of the native CPS machine and the one-piece call
    family as functions on it. Pointers are byte addresses; 0 is null. Frame
    headers, upvalue cells and closures are kept in maps by address, register
    and vararg values in one byte-addressed memory. */
module Frames {
  import opened Values
  import opened Slots
  import opened GuestHeap

  /** sizeof the frame header, a to-be-closed node, an upvalue cell, a closure header. */
  const HEADER := 120
  const TBC_NODE := 24
  const CELL_BYTES := 40
  const CLOSURE_HEADER := 16

  type Addr = nat

  datatype Descriptor = Descriptor(
    entry: nat, maxStack: nat, numParams: nat, isVararg: bool,
    valueCapacity: nat, tbcCapacity: nat)
  {
    /** What the projector guarantees of every descriptor. */
    predicate Valid() { numParams <= valueCapacity < TWO_31 && maxStack <= valueCapacity }
  }

  datatype CellState = Fresh | Opened | Detached

  datatype Cell = Cell(openSlot: Addr, closed: Value, nextOpen: Addr, state: CellState, generation: nat)

  /** Objects a CLOSURE-tagged value can refer to. */
  datatype Callee = Native(proto: nat, cells: seq<Addr>) | Builtin

  /** Where a sink's `top` pointer points: the host's, or a frame's own field. */
  datatype TopRef = HostTop | FrameTop(frame: Addr)

  datatype Sink = Sink(values: Addr, top: TopRef, base: nat, count: int, capacity: nat)

  datatype Frame = Frame(
    caller: Addr, linkEntry: nat, linkSubject: Addr, sink: Sink,
    upvalues: Addr, open: Addr, tbcNodes: Addr, values: Addr,
    valueCount: nat, valueCapacity: nat, top: nat, varargCount: nat,
    tbcCount: nat, tbcCapacity: nat)

  datatype Reject =
    | UnsupportedCallee
    | SpecializationMismatch(expected: nat, observed: nat)

  datatype Outcome =
    | Executing
    | Returned(count: nat)
    | HostCall(resume: nat, a: nat, b: nat, c: nat, callPc: nat)
    | HostTailCall(tailReturn: nat, a: nat, b: nat, callPc: nat)
    | StackOverflow(required: int, available: int, pc: nat)
    | ValueOverflow(required: int, available: int, pc: nat)
    | HeapOverflow(pc: nat)
    | Rejected(kind: Reject, pc: nat)

  /** Scratch of the composed CALL and TAILCALL fragments. */
  datatype PreparedCall = PreparedCall(callee: Addr, entry: nat, nextFrame: Addr, numParams: nat, nargs: nat)

  datatype PreparedTail = PreparedTail(
    entry: nat, upvalues: Addr, frameEnd: Addr, numParams: nat, nargs: nat,
    varargs: nat, maxStack: nat, valueCapacity: nat, tbcCapacity: nat)

  datatype State = State(
    mem: Mem,
    frames: map<Addr, Frame>,
    frameBegin: Addr, frameNext: Addr, frameEnd: Addr,
    current: Addr,
    functions: seq<Descriptor>,
    cells: map<Addr, Cell>,
    closures: map<Addr, Callee>,
    heap: Heap,
    outcome: Outcome,
    hostTop: nat,
    preparedCall: PreparedCall,
    preparedTail: PreparedTail)

  datatype Control = Next | Enter(entry: nat, subject: Addr) | HostExit

  datatype Result = Result(s: State, control: Control)

  // ---- layout ---------------------------------------------------------------

  /** `(n + 15) & ~15`. */
  function Round16(n: nat): (r: nat)
    ensures r % 16 == 0 && n <= r < n + 16
  {
    (n + 15) / 16 * 16
  }

  /** Bytes of a frame: header, registers, vararg slice, TBC nodes, rounded up. */
  function FrameBytes(capacity: nat, varargs: nat, tbc: nat): (r: nat)
    ensures r % 16 == 0
    ensures HEADER + SLOT * (capacity + varargs) + TBC_NODE * tbc <= r
    ensures r < HEADER + SLOT * (capacity + varargs) + TBC_NODE * tbc + 16
  {
    Round16(HEADER + SLOT * capacity + SLOT * varargs + TBC_NODE * tbc)
  }

  /** First address after frame `f`. */
  function EndOf(f: Addr, fr: Frame): Addr {
    f + FrameBytes(fr.valueCapacity, fr.varargCount, fr.tbcCapacity)
  }

  /** Value slots of a frame: its registers, then its vararg slice. */
  function Extent(fr: Frame): nat { fr.valueCapacity + fr.varargCount }

  /** The frame lies in the arena with its registers right after the header. `top`
      may run into the vararg slice: VARARG of all arguments does not test it. */
  predicate Fits(s: State, f: Addr) {
    && f in s.frames
    && f != 0
    && s.frames[f].values == f + HEADER
    && s.frames[f].top <= Extent(s.frames[f]) && s.frames[f].valueCapacity < TWO_31
    && s.frames[f].caller <= f
    && EndOf(f, s.frames[f]) <= s.frameEnd <= |s.mem|
  }

  /** The sink's destination is readable memory. */
  predicate SinkFits(s: State, k: Sink) {
    k.values != 0 ==>
      && k.base <= k.capacity < TWO_31
      && SlotAt(k.values, k.capacity - k.base) <= |s.mem|
      && (k.top.FrameTop? ==> k.top.frame in s.frames)
  }

  predicate FunctionsValid(s: State) {
    forall i :: 0 <= i < |s.functions| ==> s.functions[i].Valid()
  }

  /** Everything a stencil relies on about the frame it runs in. */
  predicate Ready(s: State, f: Addr) {
    && Fits(s, f) && SinkFits(s, s.frames[f].sink) && FunctionsValid(s)
    && s.frameNext <= s.frameEnd
  }

  /** Value slot r of a frame: a register, or behind the registers a vararg. */
  function Reg(s: State, f: Addr, r: nat): Value
    requires Fits(s, f) && r < Extent(s.frames[f])
  {
    s.mem[SlotAt(s.frames[f].values, r)]
  }

  function SetReg(s: State, f: Addr, r: nat, v: Value): State
    requires Fits(s, f) && r < s.frames[f].valueCapacity
  {
    s.(mem := s.mem[SlotAt(s.frames[f].values, r) := v])
  }

  // ---- open upvalue lists ----------------------------------------------------

  /** The cells reached from `head` along next_open; `fuel` bounds the walk. */
  function OpenList(cells: map<Addr, Cell>, head: Addr, fuel: nat): seq<Addr>
    decreases fuel
  {
    if head == 0 || head !in cells || fuel == 0 then []
    else [head] + OpenList(cells, cells[head].nextOpen, fuel - 1)
  }

  function OpenCells(s: State, f: Addr): seq<Addr>
    requires f in s.frames
  {
    OpenList(s.cells, s.frames[f].open, |s.cells|)
  }

  /** A cell after closing: it takes the final value of its slot. */
  function CloseCell(mem: Mem, c: Cell): Cell {
    Cell(0, if c.openSlot < |mem| then mem[c.openSlot] else c.closed, 0, Detached, c.generation + 1)
  }

  function CloseCells(cells: map<Addr, Cell>, mem: Mem, l: seq<Addr>): map<Addr, Cell> {
    map a | a in cells :: if a in l then CloseCell(mem, cells[a]) else cells[a]
  }

  /** lua55_cps_close_open_upvalues. */
  function CloseAll(s: State, f: Addr): State
    requires f in s.frames
  {
    s.(cells := CloseCells(s.cells, s.mem, OpenCells(s, f)),
       frames := s.frames[f := s.frames[f].(open := 0)])
  }

  // ---- callee resolution ------------------------------------------------------

  /** The native closure and descriptor a register value denotes, if any. */
  function NativeCallee(s: State, v: Value): Option<(Addr, Descriptor)> {
    var clo := v.Ref();
    if v.tag.Closure? && clo != 0 && clo in s.closures && s.closures[clo].Native?
       && s.closures[clo].proto < |s.functions| && s.functions[s.closures[clo].proto].entry != 0
    then Some((clo, s.functions[s.closures[clo].proto]))
    else None
  }

  predicate IsBuiltin(s: State, v: Value) {
    v.tag.Closure? && v.Ref() != 0 && v.Ref() in s.closures && s.closures[v.Ref()].Builtin?
  }

  /** Argument count of CALL/TAILCALL: B - 1, or everything up to top. */
  function ArgCount(fr: Frame, A: nat, B: nat): nat {
    var n := if B == 0 then TWO_32 - 1 else B - 1;
    if n >= 0xFF_FFFF then (if fr.top > A + 1 then fr.top - (A + 1) else 0) else n
  }

  function Fixed(d: Descriptor, nargs: nat): nat { if nargs < d.numParams then nargs else d.numParams }

  function Varargs(d: Descriptor, nargs: nat): nat {
    if d.isVararg && nargs > d.numParams then nargs - d.numParams else 0
  }

  function InitialTop(d: Descriptor, nargs: nat): nat {
    if nargs < d.valueCapacity then nargs else d.valueCapacity
  }

  function CallBytes(d: Descriptor, nargs: nat): nat {
    FrameBytes(d.valueCapacity, Varargs(d, nargs), d.tbcCapacity)
  }

  // ---- CALL --------------------------------------------------------------------

  /** The header CALL writes at frame_next. */
  function CalleeHeader(s: State, f: Addr, clo: Addr, d: Descriptor, A: nat, nargs: nat, results: int,
                        cont: nat): Frame
    requires f in s.frames
  {
    var fr := s.frames[f];
    var values := s.frameNext + HEADER;
    Frame(f, cont, f,
          Sink(SlotAt(fr.values, A), FrameTop(f), A, results, fr.valueCapacity),
          clo, 0, SlotAt(values, d.valueCapacity + Varargs(d, nargs)), values,
          d.maxStack, d.valueCapacity, InitialTop(d, nargs), Varargs(d, nargs), 0, d.tbcCapacity)
  }

  /** Argument placement: fixed parameters, nil padding, vararg slice. */
  function PlaceArgs(mem: Mem, values: nat, d: Descriptor, src: nat, nargs: nat): (r: Mem)
    requires d.Valid()
    requires SlotAt(values, d.valueCapacity + Varargs(d, nargs)) <= |mem|
    requires SlotAt(src, nargs) <= |mem|
    ensures |r| == |mem|
  {
    var m1 := CopySlots(mem, values, src, Fixed(d, nargs));
    var m2 := NilSlots(m1, values, Fixed(d, nargs), d.numParams);
    CopySlots(m2, SlotAt(values, d.valueCapacity), SlotAt(src, Fixed(d, nargs)), Varargs(d, nargs))
  }

  /** CALL once the callee is known to be native. */
  function CallNative(s: State, f: Addr, clo: Addr, d: Descriptor, A: nat, nargs: nat, results: int,
                      pc: nat, cont: nat): Result
    requires Ready(s, f) && d.Valid()
  {
    var fr := s.frames[f];
    if A + 1 + nargs > fr.valueCapacity then
      Result(s.(outcome := ValueOverflow(A + 1 + nargs, fr.valueCapacity, pc)), HostExit)
    else if s.frameNext + CallBytes(d, nargs) > s.frameEnd then
      Result(s.(outcome := StackOverflow(CallBytes(d, nargs), s.frameEnd - s.frameNext, pc)), HostExit)
    else
      var callee := s.frameNext;
      var header := CalleeHeader(s, f, clo, d, A, nargs, results, cont);
      Result(s.(frames := s.frames[callee := header],
                mem := PlaceArgs(s.mem, header.values, d, SlotAt(fr.values, A + 1), nargs),
                frameNext := callee + CallBytes(d, nargs),
                current := callee),
             Enter(d.entry, callee))
  }

  /** lua55_v2l_call without the learning write. */
  function Call(s: State, f: Addr, A: nat, B: nat, C: nat, pc: nat, cont: nat): Result
    requires Ready(s, f) && A < s.frames[f].valueCapacity
  {
    var v := Reg(s, f, A);
    match NativeCallee(s, v)
    case Some((clo, d)) => CallNative(s, f, clo, d, A, ArgCount(s.frames[f], A, B), C - 1, pc, cont)
    case None =>
      if IsBuiltin(s, v) then Result(s.(outcome := HostCall(cont, A, B, C, pc)), HostExit)
      else Result(s.(outcome := Rejected(UnsupportedCallee, pc)), HostExit)
  }

  // ---- TAILCALL ------------------------------------------------------------------

  /** The header after TAILCALL: caller, link and sink stay. */
  function TailHeader(fr: Frame, clo: Addr, d: Descriptor, nargs: nat): Frame {
    fr.(upvalues := clo, valueCount := d.maxStack, valueCapacity := d.valueCapacity,
        varargCount := Varargs(d, nargs), top := InitialTop(d, nargs), tbcCount := 0,
        tbcCapacity := d.tbcCapacity,
        tbcNodes := SlotAt(fr.values, d.valueCapacity + Varargs(d, nargs)), open := 0)
  }

  /** TAILCALL once the callee is known to be native. */
  function TailNative(s: State, f: Addr, clo: Addr, d: Descriptor, A: nat, nargs: nat, pc: nat): Result
    requires Ready(s, f) && d.Valid()
  {
    var fr := s.frames[f];
    if A + 1 + nargs > fr.valueCapacity then
      Result(s.(outcome := ValueOverflow(A + 1 + nargs, fr.valueCapacity, pc)), HostExit)
    else if f + CallBytes(d, nargs) > s.frameEnd then
      Result(s.(outcome := StackOverflow(CallBytes(d, nargs), s.frameEnd - f, pc)), HostExit)
    else
      var s1 := CloseAll(s, f);
      Result(s1.(mem := PlaceArgs(s.mem, fr.values, d, SlotAt(fr.values, A + 1), nargs),
                 frames := s1.frames[f := TailHeader(fr, clo, d, nargs)],
                 frameNext := f + CallBytes(d, nargs),
                 current := f),
             Enter(d.entry, f))
  }

  /** lua55_v2l_tailcall without the learning write. */
  function TailCall(s: State, f: Addr, A: nat, B: nat, pc: nat, tailReturn: nat): Result
    requires Ready(s, f) && A < s.frames[f].valueCapacity
  {
    var v := Reg(s, f, A);
    match NativeCallee(s, v)
    case Some((clo, d)) => TailNative(s, f, clo, d, A, ArgCount(s.frames[f], A, B), pc)
    case None =>
      if IsBuiltin(s, v) then Result(s.(outcome := HostTailCall(tailReturn, A, B, pc)), HostExit)
      else Result(s.(outcome := Rejected(UnsupportedCallee, pc)), HostExit)
  }

  // ---- RETURN ---------------------------------------------------------------------

  function ResultCount(fr: Frame, A: nat, B: nat): nat {
    if B == 0 then (if fr.top >= A then fr.top - A else 0) else B - 1
  }

  /** How many results are really copied. */
  function Delivered(k: Sink, nres: nat): nat {
    if k.count >= 0 && k.count < nres then k.count else nres
  }

  /** How many result positions the receiver sees. */
  function Wanted(k: Sink, nres: nat): nat {
    if k.count >= 0 then k.count else nres
  }

  function SetTop(s: State, top: TopRef, n: nat): State
    requires top.FrameTop? ==> top.frame in s.frames
  {
    match top
    case HostTop => s.(hostTop := n)
    case FrameTop(c) => s.(frames := s.frames[c := s.frames[c].(top := n)])
  }

  /** Writes the results through the sink, nil-padded to the wanted count. */
  function Deliver(s: State, k: Sink, src: nat, nres: nat): State
    requires SinkFits(s, k) && k.values != 0
    requires k.base + Wanted(k, nres) <= k.capacity
    requires SlotAt(src, Delivered(k, nres)) <= |s.mem|
  {
    var m1 := CopySlots(s.mem, k.values, src, Delivered(k, nres));
    SetTop(s.(mem := NilSlots(m1, k.values, Delivered(k, nres), Wanted(k, nres))), k.top,
           k.base + Wanted(k, nres))
  }

  /** Closing, popping and the jump through the return link. */
  function Leave(s: State, f: Addr, count: nat): Result
    requires f in s.frames
  {
    var s1 := CloseAll(s, f).(outcome := Returned(count));
    var fr := s.frames[f];
    Result(if s1.current == f then s1.(frameNext := f, current := fr.caller) else s1,
           Enter(fr.linkEntry, fr.linkSubject))
  }

  /** RETURN of `nres` values starting at register A. */
  function ReturnN(s: State, f: Addr, A: nat, nres: nat, pc: nat): Result
    requires Ready(s, f) && A + nres <= Extent(s.frames[f])
  {
    var fr := s.frames[f];
    var k := fr.sink;
    if k.values == 0 then Leave(s, f, Wanted(k, nres))
    else if k.base + Wanted(k, nres) > k.capacity then
      Result(s.(outcome := ValueOverflow(k.base + Wanted(k, nres), k.capacity, pc)), HostExit)
    else Leave(Deliver(s, k, SlotAt(fr.values, A), nres), f, Wanted(k, nres))
  }

  /** lua55_cps_return. */
  function Return(s: State, f: Addr, A: nat, B: nat, pc: nat): Result
    requires Ready(s, f) && A + ResultCount(s.frames[f], A, B) <= Extent(s.frames[f])
  {
    ReturnN(s, f, A, ResultCount(s.frames[f], A, B), pc)
  }

  // ---- VARARG -----------------------------------------------------------------------

  function VarargSlice(fr: Frame): Addr { SlotAt(fr.values, fr.valueCapacity) }

  /** How many varargs are used when `wanted` are asked for; -1 asks for all. */
  function VarargsUsed(fr: Frame, wanted: int): nat {
    if wanted < 0 || fr.varargCount <= wanted then fr.varargCount else wanted
  }

  /** What the bytecode guarantees of a VARARG: a fixed count stays within the
      registers; asking for all names a register, however many there are. */
  predicate VarargFits(fr: Frame, target: nat, wanted: int) {
    wanted >= -1 && target + (if wanted < 0 then 0 else wanted) <= fr.valueCapacity
  }

  /** lua55_v2_vararg: copy the slice to register `target`, pad, set top. There is no
      capacity test, so copying all may run into the slice itself. */
  function Vararg(s: State, f: Addr, target: nat, wanted: int): State
    requires Fits(s, f) && VarargFits(s.frames[f], target, wanted)
  {
    var fr := s.frames[f];
    var used := VarargsUsed(fr, wanted);
    var base := SlotAt(fr.values, target);
    var m1 := CopySlots(s.mem, base, VarargSlice(fr), used);
    var m2 := if wanted < 0 then m1 else NilSlots(m1, base, used, wanted);
    s.(mem := m2, frames := s.frames[f := fr.(top := target + if wanted < 0 then used else wanted)])
  }

  /** GETVARG with an integer key. */
  function GetVarg(s: State, f: Addr, key: int): Value
    requires Fits(s, f)
  {
    var fr := s.frames[f];
    if 1 <= key <= fr.varargCount then s.mem[SlotAt(VarargSlice(fr), key - 1)] else NIL
  }

  // ---- upvalue cells -------------------------------------------------------------------

  /** The value seen through a cell. */
  function View(s: State, c: Addr): Value
    requires c in s.cells
  {
    var cell := s.cells[c];
    if cell.state.Opened? then (if cell.openSlot < |s.mem| then s.mem[cell.openSlot] else NIL)
    else cell.closed
  }

  /** Cells of the closure running in frame `f`. */
  function UpvalueCells(s: State, f: Addr): seq<Addr>
    requires f in s.frames
  {
    var u := s.frames[f].upvalues;
    if u in s.closures && s.closures[u].Native? then s.closures[u].cells else []
  }

  function SetThrough(s: State, c: Addr, v: Value): State
    requires c in s.cells
  {
    var cell := s.cells[c];
    if cell.state.Opened? then
      (if cell.openSlot < |s.mem| then s.(mem := s.mem[cell.openSlot := v]) else s)
    else s.(cells := s.cells[c := cell.(closed := v)])
  }

  /** The open cell of a list that stands for the slot at address `a`. */
  function FindOpen(cells: map<Addr, Cell>, l: seq<Addr>, a: Addr): Option<Addr> {
    if l == [] then None
    else if l[0] in cells && cells[l[0]].openSlot == a then Some(l[0])
    else FindOpen(cells, l[1..], a)
  }

  /** v2_set_cell for one capture: the cell to store in the closure. */
  function CaptureCell(s: State, f: Addr, inStack: bool, idx: nat): (State, Option<Addr>)
    requires f in s.frames
  {
    if inStack then
      var slot := SlotAt(s.frames[f].values, idx);
      match FindOpen(s.cells, OpenCells(s, f), slot)
      case Some(c) => (s, Some(c))
      case None =>
        var (h, at) := Bump(s.heap, CELL_BYTES);
        if at == 0 then (s, None)
        else
          var cell := Cell(slot, NIL, s.frames[f].open, Opened, 1);
          (s.(heap := h, cells := s.cells[at := cell],
              frames := s.frames[f := s.frames[f].(open := at)]), Some(at))
    else if idx < |UpvalueCells(s, f)| then (s, Some(UpvalueCells(s, f)[idx]))
    else (s, None)
  }

  datatype Capture = Capture(inStack: bool, idx: nat)

  /** All captures in order; stops at the first failed allocation. */
  function CaptureCells(s: State, f: Addr, captures: seq<Capture>): (r: (State, Option<seq<Addr>>))
    requires f in s.frames
    decreases |captures|
  {
    if captures == [] then (s, Some([]))
    else
      var (s1, c) := CaptureCell(s, f, captures[0].inStack, captures[0].idx);
      if c.None? then (s1, None)
      else
        var (s2, rest) := CaptureCells(s1, f, captures[1..]);
        (s2, if rest.None? then None else Some([c.value] + rest.value))
  }

  function ClosureBytes(captures: seq<Capture>): uint64 { (CLOSURE_HEADER + 8 * |captures|) % TWO_64 }

  /** CLOSURE: allocate the closure, capture the cells, then write the target. */
  function MakeClosure(s: State, f: Addr, target: nat, proto: nat, captures: seq<Capture>, pc: nat): Result
    requires Fits(s, f) && target < s.frames[f].valueCapacity
  {
    var (h, at) := Bump(s.heap, ClosureBytes(captures));
    if at == 0 then Result(s.(outcome := HeapOverflow(pc)), HostExit)
    else
      var (s1, cells) := CaptureCells(s.(heap := h), f, captures);
      if cells.None? then Result(s1.(outcome := HeapOverflow(pc)), HostExit)
      else
        var a := SlotAt(s.frames[f].values, target);
        var m := if a < |s1.mem| then s1.mem[a := Reference(Closure, at)] else s1.mem;
        Result(s1.(closures := s1.closures[at := Native(proto, cells.value)], mem := m), Next)
  }

  /** lua55_v2_close on an open list: detach the cells at or above `base` and
      relink the others in order. */
  function CloseFromList(cells: map<Addr, Cell>, mem: Mem, l: seq<Addr>, base: Addr): (map<Addr, Cell>, Addr)
  {
    if l == [] || l[0] !in cells then (cells, 0)
    else
      var (rest, head) := CloseFromList(cells, mem, l[1..], base);
      var c := cells[l[0]];
      if c.openSlot >= base then (rest[l[0] := CloseCell(mem, c)], head)
      else (rest[l[0] := c.(nextOpen := head)], l[0])
  }

  function CloseFrom(s: State, f: Addr, r: nat): State
    requires f in s.frames
  {
    var (cells, head) :=
      CloseFromList(s.cells, s.mem, OpenCells(s, f), SlotAt(s.frames[f].values, r));
    s.(cells := cells, frames := s.frames[f := s.frames[f].(open := head)])
  }
}
