/** Creating closures and closing scopes: the two operations that open and
    selectively detach upvalue cells. */
module Captures {
  import opened Values
  import opened Slots
  import opened GuestHeap
  import opened Frames
  import opened Arena
  import opened Upvalues

  lemma {:induction false} FindOpenExact(cells: map<Addr, Cell>, l: seq<Addr>, a: Addr)
    ensures match FindOpen(cells, l, a)
            case Some(c) => c in l && c in cells && cells[c].openSlot == a
            case None => forall c :: c in l && c in cells ==> cells[c].openSlot != a
    decreases |l|
  {
    if l != [] {
      FindOpenExact(cells, l[1..], a);
      assert forall c :: c in l ==> c == l[0] || c in l[1..];
    }
  }

  /** A new cell at the head of a list, for a register no cell stands for yet. */
  lemma ConsList(cells: map<Addr, Cell>, fr: Frame, l: seq<Addr>, at: Addr, slot: Addr)
    requires ListOk(cells, fr, l) && at != 0 && at !in cells && IsRegister(fr, slot)
    requires forall c :: c in l && c in cells ==> cells[c].openSlot != slot
    ensures ListOk(cells[at := Cell(slot, NIL, fr.open, Opened, 1)], fr.(open := at), [at] + l)
  {
    var cells' := cells[at := Cell(slot, NIL, fr.open, Opened, 1)];
    ListStable(cells, cells', fr, fr, l);
    assert ([at] + l)[1..] == l;
    forall j | 0 <= j < |l|
      ensures cells'[l[j]].openSlot != slot
    {
      assert l[j] in l;
    }
  }

  /** What a capture adds to the state: at most one new cell, taken from the heap. */
  ghost predicate Extends(s: State, s': State) {
    && s'.mem == s.mem && s'.closures == s.closures && s'.functions == s.functions
    && s'.frameBegin == s.frameBegin && s'.frameNext == s.frameNext && s'.frameEnd == s.frameEnd
    && s'.current == s.current
    && s'.heap.next >= s.heap.next
    && (forall c {:trigger c in s.cells} :: c in s.cells ==> c in s'.cells && s'.cells[c] == s.cells[c])
    && (forall c {:trigger c in s'.cells} :: c in s'.cells && c !in s.cells ==> c >= s.heap.next)
    && s'.frames.Keys == s.frames.Keys
    && (forall a {:trigger a in s.frames} :: a in s.frames ==> s'.frames[a] == s.frames[a].(open := s'.frames[a].open))
  }

  /** The captured cell is the one open cell of its register, or the shared cell
      of the enclosing closure. */
  ghost predicate CapturedAs(s: State, f: Addr, cap: Capture, c: Addr)
    requires f in s.frames
  {
    && c in s.cells
    && (cap.inStack ==> s.cells[c].state.Opened? && s.cells[c].openSlot == SlotAt(s.frames[f].values, cap.idx))
    && (!cap.inStack ==> cap.idx < |UpvalueCells(s, f)| && c == UpvalueCells(s, f)[cap.idx])
  }

  /** Registers and upvalue indices named by a capture exist. */
  predicate CaptureValid(s: State, f: Addr, cap: Capture)
    requires f in s.frames
  {
    if cap.inStack then cap.idx < s.frames[f].valueCapacity else cap.idx < |UpvalueCells(s, f)|
  }

  lemma ReplaceLast(cells: map<Addr, Cell>, frames: map<Addr, Frame>, chain: seq<Addr>,
                    opens: seq<seq<Addr>>, l: seq<Addr>)
    requires |opens| == |chain| > 0
    requires ListsOk(cells, frames, chain[..|chain| - 1], opens[..|opens| - 1])
    requires chain[|chain| - 1] in frames && ListOk(cells, frames[chain[|chain| - 1]], l)
    ensures ListsOk(cells, frames, chain, opens[|opens| - 1 := l])
  {
    var n := |chain| - 1;
    GrowLists(cells, frames, chain[..n], opens[..n], chain[n], l);
    assert chain[..n] + [chain[n]] == chain && opens[..n] + [l] == opens[n := l];
  }

  /** The lower lists do not notice a new cell of the current frame. */
  lemma LowerLists(cells: map<Addr, Cell>, frames: map<Addr, Frame>, chain: seq<Addr>, opens: seq<seq<Addr>>,
                   at: Addr, cell: Cell, fr: Frame)
    requires ListsOk(cells, frames, chain, opens) && chain != [] && at !in cells
    requires forall i :: 0 <= i < |chain| - 1 ==> chain[i] != chain[|chain| - 1]
    ensures ListsOk(cells[at := cell], frames[chain[|chain| - 1] := fr], chain[..|chain| - 1], opens[..|opens| - 1])
  {
    var n := |chain| - 1;
    forall i | 0 <= i < n
      ensures chain[i] in frames && ListOk(cells[at := cell], frames[chain[i]], opens[i])
    {
      var l := opens[i];
      ListStable(cells, cells[at := cell], frames[chain[i]], frames[chain[i]], l);
    }
  }

  lemma CurrentDistinct(s: State, chain: seq<Addr>)
    requires ArenaOk(s, chain) && chain != []
    ensures forall i :: 0 <= i < |chain| - 1 ==> chain[i] != chain[|chain| - 1]
  {
    forall i | 0 <= i < |chain| - 1
      ensures chain[i] != chain[|chain| - 1]
    {
      ChainOrder(s, chain, i, |chain| - 1);
    }
  }

  lemma ConsOwned(cells: map<Addr, Cell>, opens: seq<seq<Addr>>, at: Addr, cell: Cell)
    requires OpenOwned(cells, opens) && opens != []
    ensures OpenOwned(cells[at := cell], opens[|opens| - 1 := [at] + opens[|opens| - 1]])
  {
    var n := |opens| - 1;
    var cells', opens' := cells[at := cell], opens[n := [at] + opens[n]];
    forall c | IsOpen(cells', c)
      ensures exists i :: 0 <= i < |opens'| && c in opens'[i]
    {
      if c == at {
        assert at in opens'[n];
      } else {
        assert IsOpen(cells, c);
        var i :| 0 <= i < |opens| && c in opens[i];
        assert c in opens'[i];
      }
    }
  }

  function NewCell(s: State, slot: Addr): Cell
    requires s.current in s.frames
  {
    Cell(slot, NIL, s.frames[s.current].open, Opened, 1)
  }

  function WithNewCell(s: State, slot: Addr, h: Heap, at: Addr): State
    requires s.current in s.frames
  {
    s.(heap := h, cells := s.cells[at := NewCell(s, slot)],
       frames := s.frames[s.current := s.frames[s.current].(open := at)])
  }

  lemma NewCellLists(s: State, chain: seq<Addr>, opens: seq<seq<Addr>>, slot: Addr, h: Heap, at: Addr)
    requires ArenaOk(s, chain) && chain != [] && ListsOk(s.cells, s.frames, chain, opens)
    requires at != 0 && at !in s.cells && IsRegister(s.frames[s.current], slot)
    requires forall c :: c in opens[|opens| - 1] && c in s.cells ==> s.cells[c].openSlot != slot
    ensures var s' := WithNewCell(s, slot, h, at);
            ListsOk(s'.cells, s'.frames, chain, opens[|opens| - 1 := [at] + opens[|opens| - 1]])
  {
    var s' := WithNewCell(s, slot, h, at);
    var n := |chain| - 1;
    CurrentDistinct(s, chain);
    LowerLists(s.cells, s.frames, chain, opens, at, NewCell(s, slot), s'.frames[s.current]);
    ConsList(s.cells, s.frames[s.current], opens[n], at, slot);
    ReplaceLast(s'.cells, s'.frames, chain, opens, [at] + opens[n]);
  }

  lemma NewCellExtends(s: State, slot: Addr, h: Heap, at: Addr)
    requires s.current in s.frames && HeapOk(s) && ClosuresOk(s)
    requires h.Valid() && h.end == s.heap.end && s.heap.next <= at < h.next
    ensures at !in s.cells
    ensures Extends(s, WithNewCell(s, slot, h, at))
    ensures HeapOk(WithNewCell(s, slot, h, at)) && ClosuresOk(WithNewCell(s, slot, h, at))
  {
  }

  lemma NewCellInv(s: State, chain: seq<Addr>, opens: seq<seq<Addr>>, slot: Addr, h: Heap, at: Addr)
    requires Inv(s, chain, opens) && chain != [] && IsRegister(s.frames[s.current], slot)
    requires forall c :: c in opens[|opens| - 1] && c in s.cells ==> s.cells[c].openSlot != slot
    requires h.Valid() && h.end == s.heap.end && s.heap.next <= at < h.next
    ensures Inv(WithNewCell(s, slot, h, at), chain, opens[|opens| - 1 := [at] + opens[|opens| - 1]])
  {
    NewCellExtends(s, slot, h, at);
    ArenaStable(s, WithNewCell(s, slot, h, at), chain);
    NewCellLists(s, chain, opens, slot, h, at);
    ConsOwned(s.cells, opens, at, NewCell(s, slot));
  }

  lemma RegisterOf(s: State, chain: seq<Addr>, r: nat)
    requires ArenaOk(s, chain) && chain != [] && r < s.frames[s.current].valueCapacity
    ensures IsRegister(s.frames[s.current], SlotAt(s.frames[s.current].values, r))
  {
  }

  /** The open cell of a register, if its frame's list has one. */
  lemma LookupRegister(cells: map<Addr, Cell>, fr: Frame, l: seq<Addr>, slot: Addr)
    requires ListOk(cells, fr, l)
    ensures match FindOpen(cells, OpenList(cells, fr.open, |cells|), slot)
            case Some(c) => c in l && c in cells && cells[c].state.Opened? && cells[c].openSlot == slot
            case None => forall c :: c in l && c in cells ==> cells[c].openSlot != slot
  {
    OpenCellsExact(cells, fr, l);
    FindOpenExact(cells, l, slot);
    if FindOpen(cells, l, slot).Some? {
      InList(cells, fr, l, FindOpen(cells, l, slot).value);
    }
  }

  lemma CaptureFreshIs(s: State, idx: nat)
    requires s.current in s.frames && HeapOk(s)
    requires FindOpen(s.cells, OpenCells(s, s.current), SlotAt(s.frames[s.current].values, idx)).None?
    ensures var (h, at) := Bump(s.heap, CELL_BYTES);
            && CaptureCell(s, s.current, true, idx) ==
                 (if at == 0 then (s, None)
                  else (WithNewCell(s, SlotAt(s.frames[s.current].values, idx), h, at), Some(at)))
            && (at != 0 ==> h.Valid() && h.end == s.heap.end && s.heap.next <= at < h.next)
  {
    BumpExact(s.heap, CELL_BYTES);
  }

  /** Capturing a register that has no cell yet. */
  lemma CaptureFresh(s: State, chain: seq<Addr>, opens: seq<seq<Addr>>, idx: nat)
    returns (opens': seq<seq<Addr>>)
    requires Inv(s, chain, opens) && chain != [] && idx < s.frames[s.current].valueCapacity
    requires FindOpen(s.cells, OpenCells(s, s.current), SlotAt(s.frames[s.current].values, idx)).None?
    ensures var (s', c) := CaptureCell(s, s.current, true, idx);
            && Extends(s, s') && Inv(s', chain, opens')
            && (c.Some? ==> CapturedAs(s', s.current, Capture(true, idx), c.value))
  {
    var fr, l := s.frames[s.current], opens[|chain| - 1];
    var slot := SlotAt(fr.values, idx);
    LookupRegister(s.cells, fr, l, slot);
    CaptureFreshIs(s, idx);
    opens' := opens;
    var h, at: Addr := Bump(s.heap, CELL_BYTES).0, Bump(s.heap, CELL_BYTES).1;
    if at != 0 {
      RegisterOf(s, chain, idx);
      NewCellExtends(s, slot, h, at);
      NewCellInv(s, chain, opens, slot, h, at);
      opens' := opens[|opens| - 1 := [at] + l];
    }
  }

  /** Capturing a register: its open cell, created if it has none. */
  lemma CaptureRegister(s: State, chain: seq<Addr>, opens: seq<seq<Addr>>, idx: nat)
    returns (opens': seq<seq<Addr>>)
    requires Inv(s, chain, opens) && chain != [] && idx < s.frames[s.current].valueCapacity
    ensures var (s', c) := CaptureCell(s, s.current, true, idx);
            && Extends(s, s') && Inv(s', chain, opens')
            && (c.Some? ==> CapturedAs(s', s.current, Capture(true, idx), c.value))
  {
    var slot := SlotAt(s.frames[s.current].values, idx);
    if FindOpen(s.cells, OpenCells(s, s.current), slot).Some? {
      LookupRegister(s.cells, s.frames[s.current], opens[|chain| - 1], slot);
      opens' := opens;
    } else {
      opens' := CaptureFresh(s, chain, opens, idx);
    }
  }

  /** One capture keeps the invariant and yields the right cell. */
  lemma CaptureInv(s: State, chain: seq<Addr>, opens: seq<seq<Addr>>, cap: Capture)
    returns (opens': seq<seq<Addr>>)
    requires Inv(s, chain, opens) && chain != [] && CaptureValid(s, s.current, cap)
    ensures var (s', c) := CaptureCell(s, s.current, cap.inStack, cap.idx);
            && Extends(s, s') && Inv(s', chain, opens')
            && (c.Some? ==> CapturedAs(s', s.current, cap, c.value))
  {
    if cap.inStack {
      opens' := CaptureRegister(s, chain, opens, cap.idx);
    } else {
      opens' := opens;
      assert UpvalueCells(s, s.current)[cap.idx] in UpvalueCells(s, s.current);
    }
  }

  lemma ExtendsTransitive(s: State, s1: State, s2: State)
    requires Extends(s, s1) && Extends(s1, s2)
    ensures Extends(s, s2)
  {
  }

  /** Later captures keep what earlier ones delivered. */
  lemma CapturedStays(s: State, s': State, f: Addr, cap: Capture, c: Addr)
    requires Extends(s, s') && f in s.frames
    ensures UpvalueCells(s', f) == UpvalueCells(s, f)
    ensures CapturedAs(s, f, cap, c) ==> CapturedAs(s', f, cap, c)
    ensures CaptureValid(s, f, cap) ==> CaptureValid(s', f, cap)
  {
  }

  ghost predicate AllCaptured(s: State, f: Addr, captures: seq<Capture>, cells: seq<Addr>)
    requires f in s.frames
  {
    && |cells| == |captures|
    && forall i {:trigger cells[i]} :: 0 <= i < |captures| ==> CapturedAs(s, f, captures[i], cells[i])
  }

  /** The result of a capture vector: nothing but new cells, all captured right. */
  ghost predicate CaptureDone(s: State, f: Addr, captures: seq<Capture>, r: (State, Option<seq<Addr>>)) {
    && f in s.frames && Extends(s, r.0)
    && (r.1.Some? ==> AllCaptured(r.0, f, captures, r.1.value))
  }

  lemma CaptureDoneCons(s: State, s1: State, f: Addr, cap: Capture, rest: seq<Capture>, c: Addr,
                        r: (State, Option<seq<Addr>>))
    requires f in s.frames && Extends(s, s1) && CapturedAs(s1, f, cap, c)
    requires CaptureDone(s1, f, rest, r)
    ensures CaptureDone(s, f, [cap] + rest, (r.0, if r.1.None? then None else Some([c] + r.1.value)))
  {
    ExtendsTransitive(s, s1, r.0);
    CapturedStays(s1, r.0, f, cap, c);
  }

  /** The first capture of a vector, with the rest still valid afterwards. */
  lemma FirstCapture(s: State, chain: seq<Addr>, opens: seq<seq<Addr>>, captures: seq<Capture>)
    returns (opens': seq<seq<Addr>>)
    requires Inv(s, chain, opens) && chain != [] && captures != []
    requires forall i {:trigger captures[i]} :: 0 <= i < |captures| ==> CaptureValid(s, s.current, captures[i])
    ensures var (s1, c) := CaptureCell(s, s.current, captures[0].inStack, captures[0].idx);
            && Extends(s, s1) && Inv(s1, chain, opens')
            && (c.Some? ==> CapturedAs(s1, s.current, captures[0], c.value))
            && forall i {:trigger captures[1..][i]} :: 0 <= i < |captures| - 1 ==>
                 CaptureValid(s1, s.current, captures[1..][i])
  {
    opens' := CaptureInv(s, chain, opens, captures[0]);
    var s1 := CaptureCell(s, s.current, captures[0].inStack, captures[0].idx).0;
    forall i | 0 <= i < |captures| - 1
      ensures CaptureValid(s1, s.current, captures[1..][i])
    {
      CapturedStays(s, s1, s.current, captures[i + 1], 0);
    }
  }

  lemma CaptureCellsCons(s: State, f: Addr, captures: seq<Capture>)
    requires f in s.frames && captures != []
    ensures var (s1, c) := CaptureCell(s, f, captures[0].inStack, captures[0].idx);
            c.Some? && f in s1.frames ==>
              var r := CaptureCells(s1, f, captures[1..]);
              CaptureCells(s, f, captures) == (r.0, if r.1.None? then None else Some([c.value] + r.1.value))
  {
  }

  /** All captures of a closure. */
  lemma {:induction false} CapturesInv(s: State, chain: seq<Addr>, opens: seq<seq<Addr>>, captures: seq<Capture>)
    returns (opens': seq<seq<Addr>>)
    requires Inv(s, chain, opens) && chain != []
    requires forall i {:trigger captures[i]} :: 0 <= i < |captures| ==> CaptureValid(s, s.current, captures[i])
    ensures CaptureDone(s, s.current, captures, CaptureCells(s, s.current, captures))
    ensures Inv(CaptureCells(s, s.current, captures).0, chain, opens')
    decreases |captures|
  {
    var f := s.current;
    opens' := opens;
    if captures != [] {
      var cap, rest := captures[0], captures[1..];
      opens' := FirstCapture(s, chain, opens, captures);
      var (s1, c) := CaptureCell(s, f, cap.inStack, cap.idx);
      if c.Some? {
        opens' := CapturesInv(s1, chain, opens', rest);
        var r := CaptureCells(s1, f, rest);
        CaptureCellsCons(s, f, captures);
        CaptureDoneCons(s, s1, f, cap, rest, c.value, r);
        assert [cap] + rest == captures;
      }
    }
  }
}
