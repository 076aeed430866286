/** CLOSE: detaching the cells of the registers from a given one upwards. */
module Closing {
  import opened Slots
  import opened Frames
  import opened Arena
  import opened Upvalues
  import opened Captures

  /** The cells that stay open: those whose slot lies below `base`. */
  ghost function Kept(cells: map<Addr, Cell>, l: seq<Addr>, base: Addr): seq<Addr> {
    if l == [] || l[0] !in cells then []
    else if cells[l[0]].openSlot >= base then Kept(cells, l[1..], base)
    else [l[0]] + Kept(cells, l[1..], base)
  }

  ghost predicate AllIn(cells: map<Addr, Cell>, l: seq<Addr>) {
    forall j {:trigger l[j]} :: 0 <= j < |l| ==> l[j] in cells
  }

  ghost predicate DistinctSlots(cells: map<Addr, Cell>, l: seq<Addr>)
    requires AllIn(cells, l)
  {
    forall j, k {:trigger l[j], l[k]} :: 0 <= j < k < |l| ==> cells[l[j]].openSlot != cells[l[k]].openSlot
  }

  lemma {:induction false} KeptMembers(cells: map<Addr, Cell>, l: seq<Addr>, base: Addr, c: Addr)
    requires AllIn(cells, l)
    ensures c in Kept(cells, l, base) <==> c in l && c in cells && cells[c].openSlot < base
    decreases |l|
  {
    if l != [] {
      assert l[0] in cells;
      KeptMembers(cells, l[1..], base, c);
      assert c in l <==> c == l[0] || c in l[1..];
    }
  }

  lemma {:induction false} KeptDistinct(cells: map<Addr, Cell>, l: seq<Addr>, base: Addr)
    requires AllIn(cells, l) && DistinctSlots(cells, l)
    ensures AllIn(cells, Kept(cells, l, base)) && DistinctSlots(cells, Kept(cells, l, base))
    decreases |l|
  {
    if l != [] {
      var rest := Kept(cells, l[1..], base);
      assert l[0] in cells;
      KeptDistinct(cells, l[1..], base);
      forall j | 0 <= j < |rest|
        ensures cells[rest[j]].openSlot != cells[l[0]].openSlot
      {
        KeptMembers(cells, l[1..], base, rest[j]);
        var k :| 0 <= k < |l[1..]| && l[1..][k] == rest[j];
        assert l[k + 1] == rest[j];
      }
    }
  }

  /** A cell after CLOSE: detached, or open as before up to its list link. */
  ghost predicate ClosedFrom(mem: Mem, base: Addr, inList: bool, c: Cell, c': Cell) {
    if !inList then c' == c
    else if c.openSlot >= base then c' == CloseCell(mem, c)
    else c' == c.(nextOpen := c'.nextOpen)
  }

  lemma {:induction false} CloseFromExact(cells: map<Addr, Cell>, mem: Mem, l: seq<Addr>, base: Addr)
    requires AllIn(cells, l) && DistinctSlots(cells, l) && 0 !in l
    ensures var (cells', head) := CloseFromList(cells, mem, l, base);
            && cells'.Keys == cells.Keys
            && (forall c {:trigger cells'[c]} :: c in cells ==> ClosedFrom(mem, base, c in l, cells[c], cells'[c]))
            && Linked(cells', head, Kept(cells, l, base))
    decreases |l|
  {
    if l != [] {
      var x, rest := l[0], l[1..];
      assert x in cells;
      CloseFromExact(cells, mem, rest, base);
      var (cells1, head1) := CloseFromList(cells, mem, rest, base);
      var (cells', head') := CloseFromList(cells, mem, l, base);
      var kept := Kept(cells, rest, base);
      assert x !in rest;
      forall c | c in kept
        ensures c in cells1 && c in cells' && cells'[c] == cells1[c]
      {
        KeptMembers(cells, rest, base, c);
      }
      LinkedStable(cells1, cells', head1, kept);
      forall c | c in cells
        ensures ClosedFrom(mem, base, c in l, cells[c], cells'[c])
      {
        assert c in l <==> c == x || c in rest;
        assert ClosedFrom(mem, base, c in rest, cells[c], cells1[c]);
      }
    }
  }

  /** Facts about one list, in the form CLOSE needs. */
  lemma ListFacts(cells: map<Addr, Cell>, fr: Frame, l: seq<Addr>)
    requires ListOk(cells, fr, l) && 0 !in cells
    ensures AllIn(cells, l) && DistinctSlots(cells, l) && 0 !in l
    ensures OpenList(cells, fr.open, |cells|) == l
  {
    OpenCellsExact(cells, fr, l);
  }

  /** The current frame's list after CLOSE. */
  lemma KeptList(cells: map<Addr, Cell>, mem: Mem, fr: Frame, l: seq<Addr>, base: Addr)
    requires ListOk(cells, fr, l) && 0 !in cells
    ensures var (cells', head) := CloseFromList(cells, mem, l, base);
            ListOk(cells', fr.(open := head), Kept(cells, l, base))
  {
    ListFacts(cells, fr, l);
    CloseFromExact(cells, mem, l, base);
    KeptDistinct(cells, l, base);
    var cells' := CloseFromList(cells, mem, l, base).0;
    var kept := Kept(cells, l, base);
    forall j | 0 <= j < |kept|
      ensures kept[j] in cells' && cells'[kept[j]].state.Opened?
           && cells'[kept[j]].openSlot == cells[kept[j]].openSlot
           && IsRegister(fr, cells'[kept[j]].openSlot)
    {
      KeptMembers(cells, l, base, kept[j]);
      InList(cells, fr, l, kept[j]);
      assert ClosedFrom(mem, base, true, cells[kept[j]], cells'[kept[j]]);
    }
  }

  ghost predicate FromRel(mem: Mem, base: Addr, l: seq<Addr>, cells: map<Addr, Cell>, cells': map<Addr, Cell>) {
    && cells'.Keys == cells.Keys
    && forall c {:trigger cells'[c]} :: c in cells ==> ClosedFrom(mem, base, c in l, cells[c], cells'[c])
  }

  lemma KeptOwned(cells: map<Addr, Cell>, cells': map<Addr, Cell>, mem: Mem, opens: seq<seq<Addr>>, base: Addr)
    requires opens != [] && OpenOwned(cells, opens) && AllIn(cells, opens[|opens| - 1])
    requires FromRel(mem, base, opens[|opens| - 1], cells, cells')
    ensures OpenOwned(cells', opens[|opens| - 1 := Kept(cells, opens[|opens| - 1], base)])
  {
    var n := |opens| - 1;
    var opens' := opens[n := Kept(cells, opens[n], base)];
    forall c | IsOpen(cells', c)
      ensures exists i :: 0 <= i < |opens'| && c in opens'[i]
    {
      assert ClosedFrom(mem, base, c in opens[n], cells[c], cells'[c]);
      assert IsOpen(cells, c);
      if c in opens[n] {
        KeptMembers(cells, opens[n], base, c);
        assert c in opens'[n];
      } else {
        var i :| 0 <= i < |opens| && c in opens[i];
        assert c in opens'[i];
      }
    }
  }

  lemma KeptLower(s: State, chain: seq<Addr>, opens: seq<seq<Addr>>, base: Addr, cells': map<Addr, Cell>, head: Addr)
    requires Inv(s, chain, opens) && chain != []
    requires FromRel(s.mem, base, opens[|opens| - 1], s.cells, cells')
    ensures ListsOk(cells', s.frames[s.current := s.frames[s.current].(open := head)],
                    chain[..|chain| - 1], opens[..|opens| - 1])
  {
    var n := |opens| - 1;
    CurrentDistinct(s, chain);
    forall i | 0 <= i < n
      ensures chain[i] in s.frames && ListOk(cells', s.frames[chain[i]], opens[i])
    {
      var l := opens[i];
      forall c | c in l && c in s.cells
        ensures c in cells' && cells'[c] == s.cells[c]
      {
        if c in opens[n] {
          ListsDisjoint(s, chain, opens, i, n, c);
        }
        assert ClosedFrom(s.mem, base, c in opens[n], s.cells[c], cells'[c]);
      }
      ListStable(s.cells, cells', s.frames[chain[i]], s.frames[chain[i]], l);
    }
  }

  /** What CLOSE does to the cells, in terms of the current list. */
  lemma CloseFromRel(s: State, chain: seq<Addr>, opens: seq<seq<Addr>>, r: nat)
    requires Inv(s, chain, opens) && chain != []
    ensures var fr := s.frames[s.current];
            var l := opens[|opens| - 1];
            var base := SlotAt(fr.values, r);
            var (cells', head) := CloseFromList(s.cells, s.mem, l, base);
            && CloseFrom(s, s.current, r) ==
                 s.(cells := cells', frames := s.frames[s.current := fr.(open := head)])
            && FromRel(s.mem, base, l, s.cells, cells')
            && AllIn(s.cells, l)
            && ListOk(cells', fr.(open := head), Kept(s.cells, l, base))
  {
    var fr := s.frames[s.current];
    var l := opens[|opens| - 1];
    ListFacts(s.cells, fr, l);
    CloseFromExact(s.cells, s.mem, l, SlotAt(fr.values, r));
    KeptList(s.cells, s.mem, fr, l, SlotAt(fr.values, r));
  }

  /** CLOSE keeps the invariant. */
  lemma CloseFromInv(s: State, chain: seq<Addr>, opens: seq<seq<Addr>>, r: nat)
    returns (opens': seq<seq<Addr>>)
    requires Inv(s, chain, opens) && chain != []
    ensures Inv(CloseFrom(s, s.current, r), chain, opens')
  {
    var n := |opens| - 1;
    var fr := s.frames[s.current];
    var base := SlotAt(fr.values, r);
    var (cells', head) := CloseFromList(s.cells, s.mem, opens[n], base);
    var kept := Kept(s.cells, opens[n], base);
    opens' := opens[n := kept];
    CloseFromRel(s, chain, opens, r);
    var s' := CloseFrom(s, s.current, r);
    ArenaStable(s, s', chain);
    KeptOwned(s.cells, cells', s.mem, opens, base);
    KeptLower(s, chain, opens, base, cells', head);
    ReplaceLast(cells', s'.frames, chain, opens, kept);
  }

  /** CLOSE never changes the value seen through any cell. */
  lemma CloseFromViews(s: State, chain: seq<Addr>, opens: seq<seq<Addr>>, r: nat, c: Addr)
    requires Inv(s, chain, opens) && chain != [] && c in s.cells
    ensures c in CloseFrom(s, s.current, r).cells
    ensures View(CloseFrom(s, s.current, r), c) == View(s, c)
    ensures var cell, cell' := s.cells[c], CloseFrom(s, s.current, r).cells[c];
            if c in opens[|opens| - 1] && cell.openSlot >= SlotAt(s.frames[s.current].values, r)
            then LetGo(cell, View(s, c), cell') else cell' == cell.(nextOpen := cell'.nextOpen)
  {
    CloseFromRel(s, chain, opens, r);
    var l := opens[|opens| - 1];
    var cells' := CloseFrom(s, s.current, r).cells;
    assert ClosedFrom(s.mem, SlotAt(s.frames[s.current].values, r), c in l, s.cells[c], cells'[c]);
    if c in l {
      InList(s.cells, s.frames[s.current], l, c);
      var i := OpenCellIsLive(s, chain, opens, c);
    }
  }
}
