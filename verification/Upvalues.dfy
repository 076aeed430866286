/** Shared upvalue cells: the open lists of the live frames, and what each
    cell-changing operation does to them. */
module Upvalues {
  import opened Values
  import opened Slots
  import opened Frames
  import opened Arena

  /** `l` is exactly the list reached from `head` along next_open. */
  ghost predicate Linked(cells: map<Addr, Cell>, head: Addr, l: seq<Addr>)
    decreases |l|
  {
    if l == [] then head == 0
    else head == l[0] && head != 0 && head in cells && Linked(cells, cells[head].nextOpen, l[1..])
  }

  /** Address `a` is a register of frame `fr`. */
  ghost predicate IsRegister(fr: Frame, a: Addr) {
    fr.values <= a < SlotAt(fr.values, fr.valueCapacity) && (a - fr.values) % SLOT == 0
  }

  /** The open list of one frame: all cells open, each standing for a register
      of that frame, no register twice. */
  ghost predicate ListOk(cells: map<Addr, Cell>, fr: Frame, l: seq<Addr>) {
    && Linked(cells, fr.open, l)
    && (forall j {:trigger l[j]} :: 0 <= j < |l| ==>
          l[j] in cells && cells[l[j]].state.Opened? && IsRegister(fr, cells[l[j]].openSlot))
    && (forall j, k {:trigger l[j], l[k]} :: 0 <= j < k < |l| ==>
          cells[l[j]].openSlot != cells[l[k]].openSlot)
  }

  /** Every object lies below the heap cursor, so fresh addresses are unused. */
  ghost predicate HeapOk(s: State) {
    && s.heap.Valid() && s.heap.end <= TWO_64 - 64
    && (forall c :: c in s.cells ==> 0 < c < s.heap.next)
    && (forall k :: k in s.closures ==> k < s.heap.next)
  }

  ghost predicate ClosuresOk(s: State) {
    forall k, c :: k in s.closures && s.closures[k].Native? && c in s.closures[k].cells ==> c in s.cells
  }

  /** `opens[i]` is the open list of frame `chain[i]`. */
  ghost predicate ListsOk(cells: map<Addr, Cell>, frames: map<Addr, Frame>, chain: seq<Addr>,
                          opens: seq<seq<Addr>>) {
    && |opens| == |chain|
    && forall i {:trigger opens[i]} :: 0 <= i < |opens| ==>
         chain[i] in frames && ListOk(cells, frames[chain[i]], opens[i])
  }

  ghost predicate IsOpen(cells: map<Addr, Cell>, c: Addr) {
    c in cells && cells[c].state.Opened?
  }

  /** No cell is open outside the lists: an open cell points into a live frame. */
  ghost predicate OpenOwned(cells: map<Addr, Cell>, opens: seq<seq<Addr>>) {
    forall c {:trigger IsOpen(cells, c)} :: IsOpen(cells, c) ==>
      exists i :: 0 <= i < |opens| && c in opens[i]
  }

  ghost predicate UpvaluesOk(s: State, chain: seq<Addr>, opens: seq<seq<Addr>>) {
    ListsOk(s.cells, s.frames, chain, opens) && OpenOwned(s.cells, opens) && HeapOk(s) && ClosuresOk(s)
  }

  /** The machine invariant. */
  ghost predicate Inv(s: State, chain: seq<Addr>, opens: seq<seq<Addr>>) {
    ArenaOk(s, chain) && UpvaluesOk(s, chain, opens)
  }

  // ---- linked lists ---------------------------------------------------------------

  lemma {:induction false} LinkedStable(cells: map<Addr, Cell>, cells': map<Addr, Cell>, head: Addr, l: seq<Addr>)
    requires Linked(cells, head, l)
    requires forall c :: c in l ==> c in cells && c in cells' && cells'[c].nextOpen == cells[c].nextOpen
    ensures Linked(cells', head, l)
    decreases |l|
  {
    if l != [] {
      assert l[0] in l;
      LinkedStable(cells, cells', cells[head].nextOpen, l[1..]);
    }
  }

  lemma {:induction false} OpenListExact(cells: map<Addr, Cell>, head: Addr, l: seq<Addr>, fuel: nat)
    requires Linked(cells, head, l) && |l| <= fuel
    ensures OpenList(cells, head, fuel) == l
    decreases |l|
  {
    if l != [] {
      OpenListExact(cells, cells[head].nextOpen, l[1..], fuel - 1);
    }
  }

  lemma {:induction false} DistinctBounded(l: seq<Addr>, keys: set<Addr>)
    requires forall j {:trigger l[j]} :: 0 <= j < |l| ==> l[j] in keys
    requires forall j, k {:trigger l[j], l[k]} :: 0 <= j < k < |l| ==> l[j] != l[k]
    ensures |l| <= |keys|
    decreases |l|
  {
    if l != [] {
      var c := l[0];
      forall j | 0 <= j < |l[1..]|
        ensures l[1..][j] in keys - {c}
      {
        assert l[1..][j] == l[j + 1];
      }
      DistinctBounded(l[1..], keys - {c});
    }
  }

  /** The pointer walk finds the whole list: the list is acyclic. */
  lemma OpenCellsExact(cells: map<Addr, Cell>, fr: Frame, l: seq<Addr>)
    requires ListOk(cells, fr, l)
    ensures OpenList(cells, fr.open, |cells|) == l
  {
    DistinctBounded(l, cells.Keys);
    OpenListExact(cells, fr.open, l, |cells|);
  }

  /** A list depends only on its own cells and on its frame's layout. */
  lemma ListStable(cells: map<Addr, Cell>, cells': map<Addr, Cell>, fr: Frame, fr': Frame, l: seq<Addr>)
    requires ListOk(cells, fr, l)
    requires fr'.open == fr.open && fr'.values == fr.values && fr'.valueCapacity == fr.valueCapacity
    requires forall c :: c in l && c in cells ==> c in cells' && cells'[c] == cells[c]
    ensures ListOk(cells', fr', l)
  {
    forall c | c in l
      ensures c in cells && c in cells' && cells'[c] == cells[c]
    {
      InList(cells, fr, l, c);
    }
    LinkedStable(cells, cells', fr.open, l);
  }

  lemma InList(cells: map<Addr, Cell>, fr: Frame, l: seq<Addr>, c: Addr)
    requires ListOk(cells, fr, l) && c in l
    ensures c in cells && cells[c].state.Opened? && IsRegister(fr, cells[c].openSlot)
  {
    var j :| 0 <= j < |l| && l[j] == c;
  }

  lemma ListInjective(cells: map<Addr, Cell>, fr: Frame, l: seq<Addr>, c: Addr, e: Addr)
    requires ListOk(cells, fr, l) && c in l && e in l
    requires c in cells && e in cells && cells[c].openSlot == cells[e].openSlot
    ensures c == e
  {
    var p :| 0 <= p < |l| && l[p] == c;
    var q :| 0 <= q < |l| && l[q] == e;
  }

  /** A register belongs to one live frame only. */
  lemma RegisterOwner(s: State, chain: seq<Addr>, i: nat, j: nat, a: Addr)
    requires ArenaOk(s, chain) && i < |chain| && j < |chain|
    requires IsRegister(s.frames[chain[i]], a) && IsRegister(s.frames[chain[j]], a)
    ensures i == j
  {
    if i < j {
      ChainOrder(s, chain, i, j);
    } else if j < i {
      ChainOrder(s, chain, j, i);
    }
  }

  /** A cell is in the open list of at most one live frame. */
  lemma ListsDisjoint(s: State, chain: seq<Addr>, opens: seq<seq<Addr>>, i: nat, j: nat, c: Addr)
    requires Inv(s, chain, opens) && i < |opens| && j < |opens|
    requires c in opens[i] && c in opens[j]
    ensures i == j
  {
    InList(s.cells, s.frames[chain[i]], opens[i], c);
    InList(s.cells, s.frames[chain[j]], opens[j], c);
    RegisterOwner(s, chain, i, j, s.cells[c].openSlot);
  }

  /** Sharing: two open cells never stand for the same address. */
  lemma OneCellPerRegister(s: State, chain: seq<Addr>, opens: seq<seq<Addr>>, c: Addr, e: Addr)
    requires Inv(s, chain, opens)
    requires IsOpen(s.cells, c) && IsOpen(s.cells, e)
    requires s.cells[c].openSlot == s.cells[e].openSlot
    ensures c == e
  {
    var i :| 0 <= i < |opens| && c in opens[i];
    var j :| 0 <= j < |opens| && e in opens[j];
    InList(s.cells, s.frames[chain[i]], opens[i], c);
    InList(s.cells, s.frames[chain[j]], opens[j], e);
    RegisterOwner(s, chain, i, j, s.cells[c].openSlot);
    ListInjective(s.cells, s.frames[chain[i]], opens[i], c, e);
  }

  /** The 16 bytes of a register lie inside its frame. */
  lemma RegisterInside(f: Addr, fr: Frame, a: Addr)
    requires fr.values == f + HEADER && IsRegister(fr, a)
    ensures f + HEADER <= a && a + SLOT <= EndOf(f, fr)
  {
    var r := (a - fr.values) / SLOT;
    assert a == SlotAt(fr.values, r) && r < fr.valueCapacity;
  }

  /** An open cell points into a live frame, below frame_next. */
  lemma OpenCellIsLive(s: State, chain: seq<Addr>, opens: seq<seq<Addr>>, c: Addr)
    returns (i: nat)
    requires Inv(s, chain, opens)
    requires IsOpen(s.cells, c)
    ensures i < |chain| && c in opens[i] && IsRegister(s.frames[chain[i]], s.cells[c].openSlot)
    ensures s.cells[c].openSlot + SLOT <= EndOf(chain[i], s.frames[chain[i]]) <= s.frameNext <= |s.mem|
  {
    i :| 0 <= i < |opens| && c in opens[i];
    InList(s.cells, s.frames[chain[i]], opens[i], c);
    RegisterInside(chain[i], s.frames[chain[i]], s.cells[c].openSlot);
    ChainBelow(s, chain, i);
  }

  // ---- closing everything a frame owns ------------------------------------------------

  /** A cell let go: no slot, no link, the value it showed, and one generation later. */
  ghost predicate LetGo(cell: Cell, v: Value, cell': Cell) {
    && cell'.state == Detached && cell'.openSlot == 0 && cell'.nextOpen == 0
    && cell'.closed == v && cell'.generation == cell.generation + 1
  }

  /** Closing one whole list lets its cells go and leaves the others; it never changes a
      value seen through any cell. */
  lemma CloseKeepsViews(s: State, l: seq<Addr>, c: Addr)
    requires c in s.cells
    requires forall x :: x in l && x in s.cells ==> s.cells[x].state.Opened? && s.cells[x].openSlot < |s.mem|
    ensures View(s.(cells := CloseCells(s.cells, s.mem, l)), c) == View(s, c)
    ensures var cell' := CloseCells(s.cells, s.mem, l)[c];
            if c in l then LetGo(s.cells[c], View(s, c), cell') else cell' == s.cells[c]
  {
  }

  /** Closing list `n` leaves the other lists standing. */
  lemma CloseOthers(s: State, chain: seq<Addr>, opens: seq<seq<Addr>>, mem: Mem, n: nat, i: nat)
    requires Inv(s, chain, opens) && n < |opens| && i < |opens| && i != n
    ensures ListOk(CloseCells(s.cells, mem, opens[n]), s.frames[chain[i]], opens[i])
  {
    var cells' := CloseCells(s.cells, mem, opens[n]);
    forall c | c in opens[i] && c in s.cells
      ensures c in cells' && cells'[c] == s.cells[c]
    {
      if c in opens[n] {
        ListsDisjoint(s, chain, opens, i, n, c);
      }
    }
    ListStable(s.cells, cells', s.frames[chain[i]], s.frames[chain[i]], opens[i]);
  }

  // ---- preservation, by shape of step ---------------------------------------------------

  /** Frames keep their layout and open list; only closed cells may change. */
  ghost predicate Quiet(s: State, s': State, chain: seq<Addr>)
    requires ArenaOk(s, chain)
  {
    && (forall i {:trigger chain[i]} :: 0 <= i < |chain| ==>
          chain[i] in s'.frames && SameHeader(s.frames[chain[i]], s'.frames[chain[i]])
          && s'.frames[chain[i]].open == s.frames[chain[i]].open)
    && s'.frameBegin == s.frameBegin && s'.frameNext == s.frameNext && s'.frameEnd == s.frameEnd
    && s'.current == s.current && s'.functions == s.functions && |s'.mem| == |s.mem|
    && s'.heap == s.heap && s'.closures == s.closures && s'.cells.Keys == s.cells.Keys
    && (forall c {:trigger s'.cells[c]} :: c in s.cells ==>
          s'.cells[c] == s.cells[c] || (!s.cells[c].state.Opened? && !s'.cells[c].state.Opened?))
  }

  lemma QuietInv(s: State, s': State, chain: seq<Addr>, opens: seq<seq<Addr>>)
    requires Inv(s, chain, opens) && Quiet(s, s', chain)
    ensures Inv(s', chain, opens)
  {
    ArenaStable(s, s', chain);
    forall i | 0 <= i < |opens|
      ensures ListOk(s'.cells, s'.frames[chain[i]], opens[i])
    {
      var fr, fr' := s.frames[chain[i]], s'.frames[chain[i]];
      assert SameHeader(fr, fr');
      forall c | c in opens[i] && c in s.cells
        ensures c in s'.cells && s'.cells[c] == s.cells[c]
      {
        InList(s.cells, fr, opens[i], c);
      }
      ListStable(s.cells, s'.cells, fr, fr', opens[i]);
    }
    forall c | IsOpen(s'.cells, c)
      ensures exists i :: 0 <= i < |opens| && c in opens[i]
    {
      assert IsOpen(s.cells, c);
    }
  }

  /** A frame with an empty open list is pushed. */
  lemma PushInv(s: State, s': State, chain: seq<Addr>, opens: seq<seq<Addr>>, h: Frame)
    requires Inv(s, chain, opens) && chain != [] && Pushed(s, s', h) && h.open == 0
    requires s'.cells == s.cells && s'.closures == s.closures && s'.heap == s.heap
    ensures Inv(s', chain + [s.frameNext], opens + [[]])
  {
    PushArena(s, s', chain, h);
    forall i | 0 <= i < |opens|
      ensures s'.frames[chain[i]] == s.frames[chain[i]]
    {
      ChainBelow(s, chain, i);
    }
    assert ListsOk(s'.cells, s'.frames, chain, opens);
    GrowOwned(s'.cells, opens, []);
    GrowLists(s'.cells, s'.frames, chain, opens, s.frameNext, []);
  }

  /** After closing the last list, only the other lists own open cells. */
  lemma CloseOwned(cells: map<Addr, Cell>, opens: seq<seq<Addr>>, mem: Mem)
    requires OpenOwned(cells, opens) && opens != []
    ensures OpenOwned(CloseCells(cells, mem, opens[|opens| - 1]), opens[..|opens| - 1])
  {
    var n := |opens| - 1;
    var cells' := CloseCells(cells, mem, opens[n]);
    forall c | IsOpen(cells', c)
      ensures exists i :: 0 <= i < n && c in opens[..n][i]
    {
      assert c !in opens[n] && IsOpen(cells, c);
      var i :| 0 <= i < |opens| && c in opens[i];
      assert opens[..n][i] == opens[i];
    }
  }

  /** ... and their lists stand, as long as their headers do. */
  lemma CloseLists(s: State, chain: seq<Addr>, opens: seq<seq<Addr>>, mem: Mem, frames: map<Addr, Frame>)
    requires Inv(s, chain, opens) && chain != []
    requires forall i {:trigger chain[i]} :: 0 <= i < |chain| - 1 ==>
               chain[i] in frames && SameHeader(s.frames[chain[i]], frames[chain[i]])
               && frames[chain[i]].open == s.frames[chain[i]].open
    ensures ListsOk(CloseCells(s.cells, mem, opens[|opens| - 1]), frames,
                    chain[..|chain| - 1], opens[..|opens| - 1])
  {
    var n := |opens| - 1;
    var cells' := CloseCells(s.cells, mem, opens[n]);
    forall i | 0 <= i < n
      ensures ListOk(cells', frames[chain[i]], opens[i])
    {
      assert SameHeader(s.frames[chain[i]], frames[chain[i]]);
      CloseOthers(s, chain, opens, mem, n, i);
      ListStable(cells', cells', s.frames[chain[i]], frames[chain[i]], opens[i]);
    }
  }

  /** The current frame is re-laid out after closing its cells. */
  lemma ReplaceInv(s: State, s': State, chain: seq<Addr>, opens: seq<seq<Addr>>, h: Frame)
    requires Inv(s, chain, opens) && chain != [] && Replaced(s, s', h) && h.open == 0
    requires s'.cells == CloseCells(s.cells, s.mem, opens[|opens| - 1])
    requires s'.closures == s.closures && s'.heap == s.heap
    ensures Inv(s', chain, opens[|opens| - 1 := []])
  {
    ReplaceArena(s, s', chain, h);
    var n := |opens| - 1;
    forall i | 0 <= i < n
      ensures s'.frames[chain[i]] == s.frames[chain[i]]
    {
      ChainOrder(s, chain, i, n);
    }
    CloseOwned(s.cells, opens, s.mem);
    CloseLists(s, chain, opens, s.mem, s'.frames);
    GrowOwned(s'.cells, opens[..n], []);
    GrowLists(s'.cells, s'.frames, chain[..n], opens[..n], s.current, []);
    assert opens[n := []] == opens[..n] + [[]] && chain == chain[..n] + [s.current];
  }

  lemma GrowOwned(cells: map<Addr, Cell>, opens: seq<seq<Addr>>, l: seq<Addr>)
    requires OpenOwned(cells, opens)
    ensures OpenOwned(cells, opens + [l])
  {
    forall c | IsOpen(cells, c)
      ensures exists i :: 0 <= i < |opens + [l]| && c in (opens + [l])[i]
    {
      var i :| 0 <= i < |opens| && c in opens[i];
      assert (opens + [l])[i] == opens[i];
    }
  }

  lemma GrowLists(cells: map<Addr, Cell>, frames: map<Addr, Frame>, chain: seq<Addr>,
                  opens: seq<seq<Addr>>, f: Addr, l: seq<Addr>)
    requires ListsOk(cells, frames, chain, opens)
    requires f in frames && ListOk(cells, frames[f], l)
    ensures ListsOk(cells, frames, chain + [f], opens + [l])
  {
    forall i | 0 <= i < |opens + [l]|
      ensures (chain + [f])[i] in frames && ListOk(cells, frames[(chain + [f])[i]], (opens + [l])[i])
    {
      if i < |opens| {
        assert (opens + [l])[i] == opens[i] && (chain + [f])[i] == chain[i];
      }
    }
  }

  /** The current frame is dropped after closing its cells. */
  lemma PopInv(s: State, s': State, chain: seq<Addr>, opens: seq<seq<Addr>>, mem: Mem)
    requires Inv(s, chain, opens) && chain != [] && Popped(s, s')
    requires forall i {:trigger chain[i]} :: 0 <= i < |chain| - 1 ==>
               chain[i] in s'.frames && SameHeader(s.frames[chain[i]], s'.frames[chain[i]])
               && s'.frames[chain[i]].open == s.frames[chain[i]].open
    requires s'.cells == CloseCells(s.cells, mem, opens[|opens| - 1])
    requires s'.closures == s.closures && s'.heap == s.heap
    ensures Inv(s', chain[..|chain| - 1], opens[..|opens| - 1])
  {
    PopArena(s, s', chain);
    CloseOwned(s.cells, opens, mem);
    CloseLists(s, chain, opens, mem, s'.frames);
  }
}
