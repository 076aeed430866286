/** The invocation record in its own imperative form: the loops of the call
    family, working in place, each proved to compute the corresponding function
    of module Frames. */
module InvocationRecord {
  import opened Values
  import opened Slots
  import opened GuestHeap
  import opened Frames
  import opened Upvalues
  import opened Closing

  class Invocation {
    const mem: array<Value>
    var frames: map<Addr, Frame>
    const frameBegin: Addr
    var frameNext: Addr
    const frameEnd: Addr
    var current: Addr
    const functions: seq<Descriptor>
    var cells: map<Addr, Cell>
    var closures: map<Addr, Callee>
    var heap: Heap
    var outcome: Outcome
    var hostTop: nat
    var preparedCall: PreparedCall
    var preparedTail: PreparedTail

    ghost function Abstract(): State
      reads this, mem
    {
      State(mem[..], frames, frameBegin, frameNext, frameEnd, current, functions, cells, closures, heap,
            outcome, hostTop, preparedCall, preparedTail)
    }

    /** Takes over a published arena, heap and image. */
    constructor (s: State)
      ensures Abstract() == s
    {
      mem := new Value[|s.mem|](i requires 0 <= i < |s.mem| => s.mem[i]);
      frames, frameBegin, frameNext, frameEnd := s.frames, s.frameBegin, s.frameNext, s.frameEnd;
      current, functions, cells, closures, heap := s.current, s.functions, s.cells, s.closures, s.heap;
      outcome, hostTop := s.outcome, s.hostTop;
      preparedCall, preparedTail := s.preparedCall, s.preparedTail;
      new;
      assert mem[..] == s.mem;
    }

    // ---- slot loops ------------------------------------------------------------

    method CopyValues(dst: Addr, src: Addr, n: nat)
      requires SlotAt(dst, n) <= mem.Length && SlotAt(src, n) <= mem.Length
      modifies mem
      ensures mem[..] == CopySlots(old(mem[..]), dst, src, n)
    {
      var i := 0;
      while i < n
        invariant i <= n
        invariant mem[..] == CopySlots(old(mem[..]), dst, src, i)
      {
        mem[SlotAt(dst, i)] := mem[SlotAt(src, i)];
        i := i + 1;
      }
    }

    method ClearTags(base: Addr, from: nat, to: nat)
      requires SlotAt(base, to) <= mem.Length
      modifies mem
      ensures mem[..] == NilSlots(old(mem[..]), base, from, to)
    {
      var i := from;
      while i < to
        invariant from <= i && (from <= to ==> i <= to) && (to < from ==> i == from)
        invariant mem[..] == NilSlots(old(mem[..]), base, from, if from <= to then i else to)
      {
        mem[SlotAt(base, i)] := mem[SlotAt(base, i)].SetTag(Nil);
        i := i + 1;
      }
    }

    /** Parameters, nil padding, vararg slice. */
    method PlaceArguments(values: Addr, d: Descriptor, src: Addr, nargs: nat)
      requires d.Valid()
      requires SlotAt(values, d.valueCapacity + Varargs(d, nargs)) <= mem.Length && SlotAt(src, nargs) <= mem.Length
      modifies mem
      ensures mem[..] == PlaceArgs(old(mem[..]), values, d, src, nargs)
    {
      var fixed := Fixed(d, nargs);
      CopyValues(values, src, fixed);
      ClearTags(values, fixed, d.numParams);
      CopyValues(SlotAt(values, d.valueCapacity), SlotAt(src, fixed), Varargs(d, nargs));
    }

    // ---- upvalue lists -----------------------------------------------------------

    /** lua55_cps_close_open_upvalues: walks and unlinks the whole list. */
    method CloseOpenUpvalues(f: Addr, ghost l: seq<Addr>)
      requires f in frames && ListOk(cells, frames[f], l)
      modifies this`cells, this`frames
      ensures Abstract() == CloseAll(old(Abstract()), f)
    {
      ghost var cells0, m := cells, mem[..];
      ghost var done: seq<Addr>, rest := [], l;
      OpenCellsExact(cells, frames[f], l);
      assert CloseCells(cells, m, []) == cells;
      var cell := frames[f].open;
      while cell != 0
        invariant frames == old(frames)
        invariant l == done + rest && Linked(cells0, cell, rest)
        invariant cells == CloseCells(cells0, m, done)
        decreases |rest|
      {
        CloseNext(cells0, m, frames[f], done, rest, cell);
        var c := cells[cell];
        var v := if c.openSlot < mem.Length then mem[c.openSlot] else c.closed;
        cells := cells[cell := Cell(0, v, 0, Detached, c.generation + 1)];
        cell := c.nextOpen;
        done, rest := done + [rest[0]], rest[1..];
      }
      assert done == l;
      frames := frames[f := frames[f].(open := 0)];
    }

    /** The search loop of v2_set_cell: the open cell of a slot, or null. */
    method FindOpenCell(f: Addr, slot: Addr, ghost l: seq<Addr>) returns (cell: Addr)
      requires f in frames && ListOk(cells, frames[f], l)
      ensures FindOpen(cells, OpenCells(Abstract(), f), slot) == if cell == 0 then None else Some(cell)
    {
      OpenCellsExact(cells, frames[f], l);
      cell := frames[f].open;
      ghost var k: nat := 0;
      assert l[0..] == l;
      while cell != 0
        invariant k <= |l| && Linked(cells, cell, l[k..])
        invariant FindOpen(cells, l, slot) == FindOpen(cells, l[k..], slot)
        decreases |l| - k
      {
        assert l[k..] == [cell] + l[k + 1..];
        if cells[cell].openSlot == slot { return; }
        cell := cells[cell].nextOpen;
        k := k + 1;
      }
    }

    /** v2_set_cell: the cell a capture stores, creating it if needed. */
    method SetCell(f: Addr, inStack: bool, idx: nat, ghost l: seq<Addr>) returns (cell: Option<Addr>)
      requires f in frames && ListOk(cells, frames[f], l)
      modifies this`heap, this`cells, this`frames
      ensures (Abstract(), cell) == CaptureCell(old(Abstract()), f, inStack, idx)
    {
      if inStack {
        var slot := SlotAt(frames[f].values, idx);
        var found := FindOpenCell(f, slot, l);
        if found != 0 { return Some(found); }
        var (h, at) := Bump(heap, CELL_BYTES);
        if at == 0 { return None; }
        heap := h;
        cells := cells[at := Cell(slot, NIL, frames[f].open, Opened, 1)];
        frames := frames[f := frames[f].(open := at)];
        cell := Some(at);
      } else {
        var u := frames[f].upvalues;
        if u in closures && closures[u].Native? && idx < |closures[u].cells| {
          cell := Some(closures[u].cells[idx]);
        } else {
          cell := None;
        }
      }
    }

    /** lua55_v2_close: unlinks the cells at or above register `r` through a
        pointer to the link being followed; `prev` 0 stands for the frame's head. */
    method CloseScope(f: Addr, r: nat, ghost l: seq<Addr>)
      requires f in frames && ListOk(cells, frames[f], l) && 0 !in cells
      modifies this`cells, this`frames
      ensures Abstract() == CloseFrom(old(Abstract()), f, r)
    {
      ghost var m, cells0, frames0 := mem[..], cells, frames;
      var base := SlotAt(frames[f].values, r);
      ListFacts(cells, frames[f], l);
      var prev: Addr, cell := 0, frames[f].open;
      ghost var rest := l;
      while cell != 0
        invariant f in frames && frames == frames0[f := frames0[f].(open := frames[f].open)]
        invariant Pending(cells, cell, rest, prev, frames[f].open)
        invariant Patched(cells, m, rest, base, prev, frames[f].open) == CloseFromList(cells0, m, l, base)
        decreases |rest|
      {
        PendingNext(cells, cell, rest, prev, frames[f].open);
        var c := cells[cell];
        if c.openSlot >= base {
          PatchClose(cells, m, cell, rest, base, prev, frames[f].open);
          var v := if c.openSlot < mem.Length then mem[c.openSlot] else c.closed;
          cells := cells[cell := Cell(0, v, 0, Detached, c.generation + 1)];
          if prev == 0 {
            frames := frames[f := frames[f].(open := c.nextOpen)];
          } else {
            cells := cells[prev := cells[prev].(nextOpen := c.nextOpen)];
          }
        } else {
          PatchKeep(cells, m, cell, rest, base, prev, frames[f].open);
          prev := cell;
        }
        cell := c.nextOpen;
        rest := rest[1..];
      }
      assert prev != 0 ==> cells[prev].(nextOpen := 0) == cells[prev];
    }

    // ---- RETURN ---------------------------------------------------------------------

    /** Results through the sink, and the receiver's top. */
    method DeliverResults(sink: Sink, src: Addr, count: nat, wanted: nat, ghost nres: nat)
      requires sink.values != 0 && count == Delivered(sink, nres) && wanted == Wanted(sink, nres)
      requires SinkFits(Abstract(), sink) && sink.base + wanted <= sink.capacity
      requires SlotAt(src, count) <= mem.Length
      modifies this`frames, this`hostTop, mem
      ensures Abstract() == Deliver(old(Abstract()), sink, src, nres)
    {
      CopyValues(sink.values, src, count);
      if sink.count >= 0 {
        ClearTags(sink.values, count, sink.count);
      }
      match sink.top {
        case HostTop => hostTop := sink.base + wanted;
        case FrameTop(c) => frames := frames[c := frames[c].(top := sink.base + wanted)];
      }
    }

    /** lua55_cps_return for `nres` results from register A. */
    method ReturnValues(f: Addr, A: nat, nres: nat, pc: nat, ghost l: seq<Addr>) returns (control: Control)
      requires Ready(Abstract(), f) && A + nres <= Extent(frames[f])
      requires ListOk(cells, frames[f], l)
      modifies this, mem
      ensures Result(Abstract(), control) == ReturnN(old(Abstract()), f, A, nres, pc)
    {
      var fr := frames[f];
      var sink := fr.sink;
      var count := if sink.count >= 0 then (if sink.count < nres then sink.count else nres) else nres;
      var wanted := if sink.count >= 0 then sink.count else count;
      if sink.values != 0 {
        if sink.base + wanted > sink.capacity {
          outcome := ValueOverflow(sink.base + wanted, sink.capacity, pc);
          return HostExit;
        }
        DeliverResults(sink, SlotAt(fr.values, A), count, wanted, nres);
        ListStable(cells, cells, fr, frames[f], l);
      }
      LeaveFrame(f, wanted, l);
      control := Enter(fr.linkEntry, fr.linkSubject);
    }

    /** Closing and popping. */
    method LeaveFrame(f: Addr, count: nat, ghost l: seq<Addr>)
      requires f in frames && ListOk(cells, frames[f], l)
      modifies this
      ensures Abstract() == Leave(old(Abstract()), f, count).s
    {
      var caller := frames[f].caller;
      CloseOpenUpvalues(f, l);
      outcome := Returned(count);
      if current == f {
        frameNext := f;
        current := caller;
      }
    }

    // ---- VARARG ---------------------------------------------------------------------

    /** lua55_v2_vararg: copy the slice to register `target`, pad a fixed count, set top. */
    method ReadVarargs(f: Addr, target: nat, wanted: int)
      requires Fits(Abstract(), f) && VarargFits(frames[f], target, wanted)
      modifies this`frames, mem
      ensures Abstract() == Vararg(old(Abstract()), f, target, wanted)
    {
      var fr := frames[f];
      var used := if wanted == -1 || fr.varargCount <= wanted then fr.varargCount else wanted;
      CopyValues(SlotAt(fr.values, target), SlotAt(fr.values, fr.valueCapacity), used);
      var top := target + used;
      if wanted != -1 {
        ClearTags(SlotAt(fr.values, target), used, wanted);
        top := target + wanted;
      }
      frames := frames[f := fr.(top := top)];
    }

    // ---- CALL -----------------------------------------------------------------------

    /** lua55_v2l_call on a native callee. */
    method CallClosure(f: Addr, clo: Addr, d: Descriptor, A: nat, nargs: nat, results: int, pc: nat, cont: nat)
      returns (control: Control)
      requires Ready(Abstract(), f) && d.Valid()
      modifies this, mem
      ensures Result(Abstract(), control) == CallNative(old(Abstract()), f, clo, d, A, nargs, results, pc, cont)
    {
      var fr := frames[f];
      if A + 1 + nargs > fr.valueCapacity {
        outcome := ValueOverflow(A + 1 + nargs, fr.valueCapacity, pc);
        return HostExit;
      }
      var bytes := FrameBytes(d.valueCapacity, Varargs(d, nargs), d.tbcCapacity);
      if frameNext + bytes > frameEnd {
        outcome := StackOverflow(bytes, frameEnd - frameNext, pc);
        return HostExit;
      }
      var callee := frameNext;
      var values := callee + HEADER;
      assert SlotAt(SlotAt(fr.values, A + 1), nargs) == SlotAt(fr.values, A + 1 + nargs);
      frameNext := callee + bytes;
      frames := frames[callee :=
        Frame(f, cont, f, Sink(SlotAt(fr.values, A), FrameTop(f), A, results, fr.valueCapacity), clo, 0,
              SlotAt(values, d.valueCapacity + Varargs(d, nargs)), values, d.maxStack, d.valueCapacity,
              if nargs < d.valueCapacity then nargs else d.valueCapacity, Varargs(d, nargs), 0, d.tbcCapacity)];
      PlaceArguments(values, d, SlotAt(fr.values, A + 1), nargs);
      current := callee;
      control := Enter(d.entry, callee);
    }

    // ---- TAILCALL ------------------------------------------------------------------

    /** lua55_v2l_tailcall on a native callee: close, move in place, re-lay out. */
    method TailCallClosure(f: Addr, clo: Addr, d: Descriptor, A: nat, nargs: nat, pc: nat, ghost l: seq<Addr>)
      returns (control: Control)
      requires Ready(Abstract(), f) && d.Valid() && ListOk(cells, frames[f], l)
      modifies this, mem
      ensures Result(Abstract(), control) == TailNative(old(Abstract()), f, clo, d, A, nargs, pc)
    {
      var fr := frames[f];
      if A + 1 + nargs > fr.valueCapacity {
        outcome := ValueOverflow(A + 1 + nargs, fr.valueCapacity, pc);
        return HostExit;
      }
      var bytes := FrameBytes(d.valueCapacity, Varargs(d, nargs), d.tbcCapacity);
      if f + bytes > frameEnd {
        outcome := StackOverflow(bytes, frameEnd - f, pc);
        return HostExit;
      }
      CloseOpenUpvalues(f, l);
      assert SlotAt(SlotAt(fr.values, A + 1), nargs) == SlotAt(fr.values, A + 1 + nargs);
      PlaceArguments(fr.values, d, SlotAt(fr.values, A + 1), nargs);
      frames := frames[f := fr.(
        upvalues := clo, valueCount := d.maxStack, valueCapacity := d.valueCapacity,
        varargCount := Varargs(d, nargs), top := if nargs < d.valueCapacity then nargs else d.valueCapacity,
        tbcCount := 0, tbcCapacity := d.tbcCapacity,
        tbcNodes := SlotAt(fr.values, d.valueCapacity + Varargs(d, nargs)), open := 0)];
      frameNext := f + bytes;
      current := f;
      control := Enter(d.entry, f);
    }
  }

  /** Closing the list one cell at a time. */
  lemma CloseNext(cells: map<Addr, Cell>, mem: Mem, fr: Frame, done: seq<Addr>, rest: seq<Addr>, cell: Addr)
    requires ListOk(cells, fr, done + rest) && cell != 0 && Linked(cells, cell, rest)
    ensures rest != [] && cell == rest[0] && cell in cells
    ensures Linked(cells, cells[cell].nextOpen, rest[1..]) && done + rest == done + [rest[0]] + rest[1..]
    ensures CloseCells(cells, mem, done)[cell] == cells[cell]
    ensures CloseCells(cells, mem, done + [cell]) == CloseCells(cells, mem, done)[cell := CloseCell(mem, cells[cell])]
  {
    var l := done + rest;
    assert l[|done|] == cell;
    forall j | 0 <= j < |done|
      ensures done[j] != cell
    {
      assert l[j] == done[j];
    }
  }

  // ---- the link-patching loop of CLOSE --------------------------------------------

  /** Loop state: `cell` heads the rest of the list, and the link that leads to it
      is the frame's head or the next_open of the last kept cell. */
  ghost predicate Pending(cells: map<Addr, Cell>, cell: Addr, rest: seq<Addr>, prev: Addr, head: Addr) {
    && Linked(cells, cell, rest) && AllIn(cells, rest) && DistinctSlots(cells, rest) && 0 !in rest
    && (prev != 0 ==> prev in cells && prev !in rest && cells[prev].nextOpen == cell)
    && (prev == 0 ==> head == cell)
  }

  lemma PendingNext(cells: map<Addr, Cell>, cell: Addr, rest: seq<Addr>, prev: Addr, head: Addr)
    requires Pending(cells, cell, rest, prev, head) && cell != 0
    ensures rest != [] && rest[0] == cell && cell in cells && cell !in rest[1..]
    ensures Pending(cells, cells[cell].nextOpen, rest[1..], cell, head)
  {
    assert cell !in rest[1..] by {
      forall k | 0 <= k < |rest[1..]|
        ensures rest[1..][k] != cell
      {
        assert cells[rest[0]].openSlot != cells[rest[k + 1]].openSlot;
      }
    }
  }

  /** The rest of the list does not mind changes to cells outside it. */
  lemma PendingStable(cells: map<Addr, Cell>, cells': map<Addr, Cell>, cell: Addr, rest: seq<Addr>)
    requires Linked(cells, cell, rest) && AllIn(cells, rest) && DistinctSlots(cells, rest)
    requires forall c :: c in rest ==> c in cells && c in cells' && cells'[c] == cells[c]
    ensures Linked(cells', cell, rest) && AllIn(cells', rest) && DistinctSlots(cells', rest)
  {
    LinkedStable(cells, cells', cell, rest);
    assert forall j :: 0 <= j < |rest| ==> rest[j] in rest;
  }

  lemma {:induction false} CloseFromCommutes(cells: map<Addr, Cell>, mem: Mem, l: seq<Addr>, base: Addr, x: Addr,
                                             y: Cell)
    requires x in cells && x !in l
    ensures var (cs, h) := CloseFromList(cells, mem, l, base);
            && CloseFromList(cells[x := y], mem, l, base) == (cs[x := y], h)
            && x in cs && cs[x] == cells[x]
    decreases |l|
  {
    if l != [] && l[0] in cells {
      CloseFromCommutes(cells, mem, l[1..], base, x, y);
      var rest := CloseFromList(cells, mem, l[1..], base);
      var cs: map<Addr, Cell>, h: Addr := rest.0, rest.1;
      var c := cells[l[0]];
      var z := if c.openSlot >= base then CloseCell(mem, c) else c.(nextOpen := h);
      assert cs[x := y][l[0] := z] == cs[l[0] := z][x := y];
    }
  }

  /** The final cells and head, seen from the middle of the loop: the rest of the
      list is still to be filtered, and the link behind `prev` to be patched. */
  ghost function Patched(cells: map<Addr, Cell>, mem: Mem, rest: seq<Addr>, base: Addr, prev: Addr, head: Addr)
    : (map<Addr, Cell>, Addr)
    requires prev != 0 ==> prev in cells
  {
    var (cs, h) := CloseFromList(cells, mem, rest, base);
    if prev == 0 then (cs, h)
    else (cs[prev := cells[prev].(nextOpen := h)], head)
  }

  lemma PatchKeep(cells: map<Addr, Cell>, mem: Mem, cell: Addr, rest: seq<Addr>, base: Addr, prev: Addr, head: Addr)
    requires Pending(cells, cell, rest, prev, head) && cell != 0
    requires cell in cells && cells[cell].openSlot < base
    ensures Patched(cells, mem, rest[1..], base, cell, head) == Patched(cells, mem, rest, base, prev, head)
  {
    if prev != 0 {
      CloseFromCommutes(cells, mem, rest[1..], base, prev, cells[prev]);
      var (cs, h) := CloseFromList(cells, mem, rest[1..], base);
      var cs' := cs[cell := cells[cell].(nextOpen := h)];
      assert cells[prev].(nextOpen := cell) == cells[prev];
      assert cs'[prev := cells[prev]] == cs';
    }
  }

  /** One closed cell: its own record, and the link that led to it. */
  ghost function Unlink(cells: map<Addr, Cell>, mem: Mem, cell: Addr, prev: Addr): map<Addr, Cell>
    requires cell in cells && (prev != 0 ==> prev in cells)
  {
    var cs := cells[cell := CloseCell(mem, cells[cell])];
    if prev == 0 then cs else cs[prev := cs[prev].(nextOpen := cells[cell].nextOpen)]
  }

  lemma PatchClose(cells: map<Addr, Cell>, mem: Mem, cell: Addr, rest: seq<Addr>, base: Addr, prev: Addr, head: Addr)
    requires Pending(cells, cell, rest, prev, head) && cell != 0
    requires cell in cells && cells[cell].openSlot >= base
    ensures var cells' := Unlink(cells, mem, cell, prev);
            var head' := if prev == 0 then cells[cell].nextOpen else head;
            && Pending(cells', cells[cell].nextOpen, rest[1..], prev, head')
            && Patched(cells', mem, rest[1..], base, prev, head') == Patched(cells, mem, rest, base, prev, head)
  {
    PendingNext(cells, cell, rest, prev, head);
    var tail := rest[1..];
    var cells' := Unlink(cells, mem, cell, prev);
    PendingStable(cells, cells', cells[cell].nextOpen, tail);
    PatchUnlink(cells, mem, cell, tail, base, prev);
    var cs: map<Addr, Cell> := CloseFromList(cells, mem, tail, base).0;
    var h := CloseFromList(cells, mem, tail, base).1;
    if prev != 0 {
      var p := cells[prev].(nextOpen := h);
      assert cs[cell := CloseCell(mem, cells[cell])][prev := cells'[prev]][prev := p] ==
             cs[cell := CloseCell(mem, cells[cell])][prev := p];
    }
  }

  lemma PatchUnlink(cells: map<Addr, Cell>, mem: Mem, cell: Addr, tail: seq<Addr>, base: Addr, prev: Addr)
    requires cell in cells && cell !in tail && (prev != 0 ==> prev in cells && prev !in tail && prev != cell)
    ensures var (cs, h) := CloseFromList(cells, mem, tail, base);
            var x := cs[cell := CloseCell(mem, cells[cell])];
            CloseFromList(Unlink(cells, mem, cell, prev), mem, tail, base) ==
            (if prev == 0 then x else x[prev := cells[prev].(nextOpen := cells[cell].nextOpen)], h)
  {
    var y := CloseCell(mem, cells[cell]);
    CloseFromCommutes(cells, mem, tail, base, cell, y);
    if prev != 0 {
      CloseFromCommutes(cells[cell := y], mem, tail, base, prev, cells[prev].(nextOpen := cells[cell].nextOpen));
    }
  }
}
