/** CLOSURE and the heap: which cells it creates, and exactly when it finds room. */
module ClosureRoom {
  import opened Values
  import opened Slots
  import opened GuestHeap
  import opened Frames
  import opened Arena
  import opened Upvalues
  import opened Captures
  import opened Machine

  /** Register idx of the current frame has an open cell. */
  ghost predicate Open(s: State, idx: nat)
    requires s.current in s.frames
  {
    exists c :: IsOpen(s.cells, c) && s.cells[c].openSlot == SlotAt(s.frames[s.current].values, idx)
  }

  /** The registers of the current frame with an open cell. */
  ghost function OpenRegs(s: State): set<nat>
    requires s.current in s.frames
  {
    set idx: nat | idx < s.frames[s.current].valueCapacity && Open(s, idx)
  }

  /** The heap when each captured register without a cell has taken one of 40 bytes, in
      order; none when one of them is denied. */
  ghost function TakeCells(h: Heap, has: set<nat>, captures: seq<Capture>): Option<Heap>
    decreases |captures|
  {
    if captures == [] then Some(h)
    else if !captures[0].inStack || captures[0].idx in has then TakeCells(h, has, captures[1..])
    else if Bump(h, 40).1 == 0 then None
    else TakeCells(Bump(h, 40).0, has + {captures[0].idx}, captures[1..])
  }

  /** A register has an open cell exactly when the search in its frame's list finds one. */
  lemma FoundIff(s: State, chain: seq<Addr>, opens: seq<seq<Addr>>, idx: nat)
    requires Inv(s, chain, opens) && chain != [] && idx < s.frames[s.current].valueCapacity
    ensures FindOpen(s.cells, OpenCells(s, s.current), SlotAt(s.frames[s.current].values, idx)).Some? <==> Open(s, idx)
  {
    var fr, n := s.frames[s.current], |chain| - 1;
    var slot := SlotAt(fr.values, idx);
    LookupRegister(s.cells, fr, opens[n], slot);
    if c :| IsOpen(s.cells, c) && s.cells[c].openSlot == slot {
      var i := OpenCellIsLive(s, chain, opens, c);
      RegisterOf(s, chain, idx);
      if i < n {
        ChainOrder(s, chain, i, n);
      }
      assert c in opens[n];
    }
  }

  /** The registers with cells after one more. */
  lemma OneMore(s: State, idx: nat, h: Heap, at: Addr)
    requires s.current in s.frames && at !in s.cells && idx < s.frames[s.current].valueCapacity
    ensures OpenRegs(WithNewCell(s, SlotAt(s.frames[s.current].values, idx), h, at)) == OpenRegs(s) + {idx}
  {
    var slot := SlotAt(s.frames[s.current].values, idx);
    var s' := WithNewCell(s, slot, h, at);
    forall i: nat
      ensures Open(s', i) <==> Open(s, i) || i == idx
    {
      if c :| IsOpen(s.cells, c) && s.cells[c].openSlot == SlotAt(s.frames[s.current].values, i) {
        assert IsOpen(s'.cells, c) && s'.cells[c].openSlot == SlotAt(s'.frames[s.current].values, i);
      }
      if c :| IsOpen(s'.cells, c) && s'.cells[c].openSlot == SlotAt(s'.frames[s.current].values, i) {
        assert c == at || IsOpen(s.cells, c);
      }
      if i == idx {
        assert IsOpen(s'.cells, at) && s'.cells[at].openSlot == SlotAt(s'.frames[s.current].values, i);
      }
    }
  }

  /** A cell of generation 1 with nothing closed in it. */
  ghost predicate FreshCell(c: Cell) { c.state == Opened && c.generation == 1 && c.closed.tag == Nil }

  /** One capture: a cell is created exactly when the register has none, and fails exactly
      when 40 bytes are denied. */
  lemma CaptureRoom(s: State, chain: seq<Addr>, opens: seq<seq<Addr>>, cap: Capture)
    requires Inv(s, chain, opens) && chain != [] && CaptureValid(s, s.current, cap)
    ensures var (s', c) := CaptureCell(s, s.current, cap.inStack, cap.idx);
            if cap.inStack && cap.idx !in OpenRegs(s) then
              && (c.Some? <==> Bump(s.heap, 40).1 != 0)
              && (c.Some? ==>
                    && s.current in s'.frames && OpenRegs(s') == OpenRegs(s) + {cap.idx}
                    && s'.heap == Bump(s.heap, 40).0 && c.value == Bump(s.heap, 40).1
                    && c.value in s'.cells && FreshCell(s'.cells[c.value])
                    && s'.frames[s.current].open == c.value && s'.cells[c.value].nextOpen == s.frames[s.current].open)
            else c.Some? && s' == s
  {
    if cap.inStack {
      FoundIff(s, chain, opens, cap.idx);
      if !Open(s, cap.idx) {
        CaptureFreshIs(s, cap.idx);
        var h, at: Addr := Bump(s.heap, CELL_BYTES).0, Bump(s.heap, CELL_BYTES).1;
        if at != 0 {
          OneMore(s, cap.idx, h, at);
        }
      }
    }
  }

  type Captured = (State, Option<seq<Addr>>)

  /** A capture vector ended with this heap, or without one failed. */
  ghost predicate Took(r: Captured, h: Option<Heap>) {
    (r.1.Some? <==> h.Some?) && (h.Some? ==> r.0.heap == h.value)
  }

  lemma CaptureStops(s: State, f: Addr, captures: seq<Capture>)
    requires f in s.frames && captures != []
    requires CaptureCell(s, f, captures[0].inStack, captures[0].idx).1.None?
    ensures CaptureCells(s, f, captures).1.None?
  {
  }

  /** A whole capture vector. */
  lemma {:induction false} CapturesRoom(s: State, chain: seq<Addr>, opens: seq<seq<Addr>>, captures: seq<Capture>)
    requires Inv(s, chain, opens) && chain != []
    requires forall i {:trigger captures[i]} :: 0 <= i < |captures| ==> CaptureValid(s, s.current, captures[i])
    ensures Took(CaptureCells(s, s.current, captures), TakeCells(s.heap, OpenRegs(s), captures))
    decreases |captures|
  {
    if captures != [] {
      CaptureRoom(s, chain, opens, captures[0]);
      var opens' := FirstCapture(s, chain, opens, captures);
      var (s1, c) := CaptureCell(s, s.current, captures[0].inStack, captures[0].idx);
      if c.Some? {
        CapturesRoom(s1, chain, opens', captures[1..]);
        CaptureCellsCons(s, s.current, captures);
      } else {
        CaptureStops(s, s.current, captures);
      }
    }
  }

  /** The cells of a closure whose block has been taken. */
  lemma CellsRoom(s: State, chain: seq<Addr>, opens: seq<seq<Addr>>, h: Heap, captures: seq<Capture>)
    requires Inv(s, chain, opens) && chain != []
    requires h.Valid() && h.end == s.heap.end && s.heap.next <= h.next
    requires forall i {:trigger captures[i]} :: 0 <= i < |captures| ==> CaptureValid(s, s.current, captures[i])
    ensures Took(CaptureCells(s.(heap := h), s.current, captures), TakeCells(h, OpenRegs(s), captures))
  {
    var s1 := s.(heap := h);
    HeapInv(s, chain, opens, h);
    HeapRegs(s, h);
    forall i {:trigger captures[i]} | 0 <= i < |captures|
      ensures CaptureValid(s1, s.current, captures[i])
    {
      assert CaptureValid(s, s.current, captures[i]);
    }
    CapturesRoom(s1, chain, opens, captures);
  }

  lemma HeapRegs(s: State, h: Heap)
    requires s.current in s.frames
    ensures OpenRegs(s.(heap := h)) == OpenRegs(s)
  {
    var s1 := s.(heap := h);
    assert forall i: nat :: Open(s1, i) <==> Open(s, i);
  }

  /** What CLOSURE makes of the answers of the heap. */
  lemma MakeClosureIs(s: State, f: Addr, r: nat, proto: nat, captures: seq<Capture>, pc: nat, h': Option<Heap>)
    requires Fits(s, f) && r < s.frames[f].valueCapacity
    requires var (h, at) := Bump(s.heap, ClosureBytes(captures));
             if at == 0 then h' == None else Took(CaptureCells(s.(heap := h), f, captures), h')
    ensures var res := MakeClosure(s, f, r, proto, captures, pc);
            if h'.Some? then res.control == Next && res.s.heap == h'.value
            else res.control == HostExit && res.s.outcome == HeapOverflow(pc)
  {
  }

  /** The heap after CLOSURE: its own block of 16 bytes and 8 for each capture, and then 40
      bytes for each captured register without a cell; none when one of them is denied. */
  ghost function TakeClosure(h: Heap, has: set<nat>, captures: seq<Capture>): Option<Heap>
    requires |captures| <= 4
  {
    var (h1, at) := Bump(h, 16 + 8 * |captures|);
    if at == 0 then None else TakeCells(h1, has, captures)
  }

  /** CLOSURE goes on exactly when nothing it takes is denied, with the heap moved by just
      that; otherwise it publishes HEAP_OVERFLOW. */
  lemma ClosureRoomIff(s: State, chain: seq<Addr>, opens: seq<seq<Addr>>, r: nat, proto: nat, captures: seq<Capture>,
                       pc: nat)
    requires Inv(s, chain, opens) && chain != [] && Enabled(s, NewClosure(r, proto, captures, pc))
    ensures var res := Exec(s, NewClosure(r, proto, captures, pc));
            var h := TakeClosure(s.heap, OpenRegs(s), captures);
            if h.Some? then res.control == Next && res.s.heap == h.value
            else res.control == HostExit && res.s.outcome == HeapOverflow(pc)
  {
    assert ClosureBytes(captures) == 16 + 8 * |captures|;
    ClosureBlock(s, captures);
    var h, at: Addr := Bump(s.heap, ClosureBytes(captures)).0, Bump(s.heap, ClosureBytes(captures)).1;
    if at != 0 {
      CellsRoom(s, chain, opens, h, captures);
    }
    MakeClosureIs(s, s.current, r, proto, captures, pc, TakeClosure(s.heap, OpenRegs(s), captures));
  }
}
