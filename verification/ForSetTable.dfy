/** The fused numeric-for SETTABLE cycle: a constant stored at every loop index,
    growing the array part in the middle of the loop when it must. */
module ForSetTable {
  import opened Values
  import opened Arithmetic
  import opened GuestHeap
  import opened Tables
  import opened TableStore
  import opened ForLoops

  /** `Filled` ends with the loop locals; `Stopped` met a refused store; `Endless`
      met a capacity outside 32 bits. */
  datatype Fill = Filled(t: Table, heap: Heap, count: int64, idx: int64)
                | Stopped(t: Table, heap: Heap) | Endless

  /** Store, test the count, step the index. */
  function FillFrom(t: Table, h: Heap, v: Value, step: int64, count: int64, idx: int64): Fill
    requires t.Valid()
    decreases if count > 0 then count else 0
  {
    match Set(t, h, IntKey(idx), v)
    case Refused => Stopped(t, h)
    case Unbounded => Endless
    case Stored(t1, h1) =>
      if count <= 0 then Filled(t1, h1, count, idx)
      else
        SetIsUpdate(t, h, IntKey(idx), v);
        FillFrom(t1, h1, v, step, count - 1, IntAdd(idx, step))
  }

  // ---- exactly the loop's keys ------------------------------------------------------------

  /** Key n is one of the first m indices. */
  ghost predicate Hit(n: int, idx: int, step: int, m: nat) {
    exists j: nat {:trigger Index(idx, step, j)} :: j < m && n == Index(idx, step, j)
  }

  lemma HitCons(n: int, idx: int, step: int, m: nat)
    ensures Hit(n, idx, step, m + 1) <==> n == idx || Hit(n, idx + step, step, m)
  {
    IndexShift(idx, step, 0);
    if Hit(n, idx, step, m + 1) && n != idx {
      var j: nat :| j < m + 1 && n == Index(idx, step, j);
      IndexShift(idx, step, j - 1);
      assert n == Index(idx + step, step, j - 1);
    }
    if Hit(n, idx + step, step, m) {
      var j: nat :| j < m && n == Index(idx + step, step, j);
      IndexShift(idx, step, j);
      assert n == Index(idx, step, j + 1);
    }
    if n == idx {
      assert n == Index(idx, step, 0);
    }
  }

  /** `t'` is `t` with v at the first m indices. */
  ghost predicate Overlaid(t: Table, t': Table, v: Value, idx: int, step: int, m: nat) {
    && t'.Valid()
    && forall k :: Lookup(t', k) == if k.IntKey? && Hit(k.n, idx, step, m) then v else Lookup(t, k)
  }

  lemma OverlaidCons(t: Table, t1: Table, t': Table, v: Value, idx: int, step: int, m: nat)
    requires forall k :: Lookup(t1, k) == if k == IntKey(idx) then v else Lookup(t, k)
    requires Overlaid(t1, t', v, idx + step, step, m)
    ensures Overlaid(t, t', v, idx, step, m + 1)
  {
    forall k
      ensures Lookup(t', k) == if k.IntKey? && Hit(k.n, idx, step, m + 1) then v else Lookup(t, k)
    {
      if k.IntKey? {
        HitCons(k.n, idx, step, m);
      }
    }
  }

  lemma OverlaidOne(t: Table, t': Table, v: Value, idx: int, step: int)
    requires t'.Valid() && forall k :: Lookup(t', k) == if k == IntKey(idx) then v else Lookup(t, k)
    ensures Overlaid(t, t', v, idx, step, 1)
  {
    forall k
      ensures Lookup(t', k) == if k.IntKey? && Hit(k.n, idx, step, 1) then v else Lookup(t, k)
    {
      if k.IntKey? {
        HitCons(k.n, idx, step, 0);
      }
    }
  }

  /** Index k of the loop has not wrapped, for every k up to the count. */
  ghost predicate NoWrap(idx: int, step: int, count: int) {
    forall k: nat {:trigger InRange(idx, step, k)} :: k <= count ==> InRange(idx, step, k)
  }

  lemma NoWrapNext(idx: int64, step: int64, count: int64)
    requires count > 0 && NoWrap(idx, step, count)
    ensures IntAdd(idx, step) == idx + step && NoWrap(idx + step, step, count - 1)
  {
    IndexShift(idx, step, 0);
    assert InRange(idx, step, 1);
    WrapExact(idx + step);
    var next := idx + step;
    forall k: nat | k <= count - 1
      ensures InRange(next, step, k)
    {
      IndexShift(idx, step, k);
      assert InRange(idx, step, k + 1);
    }
  }

  lemma FillNext(t: Table, h: Heap, v: Value, step: int64, count: int64, idx: int64)
    requires t.Valid() && Set(t, h, IntKey(idx), v).Stored? && count > 0
    ensures var s := Set(t, h, IntKey(idx), v);
            && s.t.Valid()
            && FillFrom(t, h, v, step, count, idx) == FillFrom(s.t, s.heap, v, step, count - 1, IntAdd(idx, step))
  {
    SetIsUpdate(t, h, IntKey(idx), v);
  }

  /** The cycle writes v at its first `m` indices and nowhere else, whatever growths
      happen on the way: all of them when it completes; when it stops, those before
      the index whose store is refused. */
  lemma {:induction false} FillExact(t: Table, h: Heap, v: Value, step: int64, count: int64, idx: int64)
    returns (m: nat)
    requires t.Valid() && count >= 0 && NoWrap(idx, step, count)
    requires !FillFrom(t, h, v, step, count, idx).Endless?
    ensures var f := FillFrom(t, h, v, step, count, idx);
            && Overlaid(t, f.t, v, idx, step, m)
            && (f.Filled? ==> m == count + 1 && f.count == 0 && f.idx == Index(idx, step, count))
            && (f.Stopped? ==> m <= count && Set(f.t, f.heap, IntKey(Index(idx, step, m)), v).Refused?)
    decreases count
  {
    IndexShift(idx, step, 0);
    var s := Set(t, h, IntKey(idx), v);
    if s.Refused? {
      m := 0;
    } else {
      SetIsUpdate(t, h, IntKey(idx), v);
      if count == 0 {
        OverlaidOne(t, s.t, v, idx, step);
        m := 1;
      } else {
        NoWrapNext(idx, step, count);
        FillNext(t, h, v, step, count, idx);
        var rest := FillExact(s.t, s.heap, v, step, count - 1, idx + step);
        OverlaidCons(t, s.t, FillFrom(t, h, v, step, count, idx).t, v, idx, step, rest);
        IndexShift(idx, step, count - 1);
        IndexShift(idx, step, rest);
        m := rest + 1;
      }
    }
  }

  /** Loops whose indices stay at or below 2^31 never leave the 32-bit capacities. */
  lemma {:induction false} FillEnds(t: Table, h: Heap, v: Value, step: int64, count: int64, idx: int64)
    requires t.Valid() && count >= 0 && NoWrap(idx, step, count)
    requires forall k: nat {:trigger Index(idx, step, k)} :: k <= count ==> Index(idx, step, k) <= TWO_31
    ensures !FillFrom(t, h, v, step, count, idx).Endless?
    decreases count
  {
    IndexShift(idx, step, 0);
    if idx > |t.items| && idx >= 1 {
      GrowArrayEnds(t, h, idx);
    }
    var s := Set(t, h, IntKey(idx), v);
    if s.Stored? && count > 0 {
      SetIsUpdate(t, h, IntKey(idx), v);
      NoWrapNext(idx, step, count);
      var next := idx + step;
      forall k: nat | k <= count - 1
        ensures Index(next, step, k) <= TWO_31
      {
        IndexShift(idx, step, k);
      }
      FillEnds(s.t, s.heap, v, step, count - 1, next);
    }
  }

  // ---- the unfused cycle ---------------------------------------------------------------------

  datatype Statement = Completed(regs: Regs, t: Table, heap: Heap)
                     | Rejected(regs: Regs, t: Table, heap: Heap) | Diverged

  /** SETTABLE R[A + 2] := v; FORLOOP; until FORLOOP falls through. */
  function SetCycle(r: Regs, A: nat, t: Table, h: Heap, v: Value): Statement
    requires IntControl(r, A) && t.Valid()
    decreases if r[A].word > 0 then r[A].word else 0
  {
    match Set(t, h, IntKey(r[A + 2].word), v)
    case Refused => Rejected(r, t, h)
    case Unbounded => Diverged
    case Stored(t1, h1) =>
      var next := ForLoop(r, A);
      if next.exit != Again then Completed(next.regs, t1, h1)
      else
        SetIsUpdate(t, h, IntKey(r[A + 2].word), v);
        SetCycle(next.regs, A, t1, h1, v)
  }

  function SetStatement(r: Regs, A: nat, t: Table, h: Heap, v: Value): Statement
    requires IntControl(r, A) && t.Valid()
  {
    var p := ForPrep(r, A);
    if p.exit == Body then SetCycle(p.regs, A, t, h, v) else Completed(p.regs, t, h)
  }

  lemma ControlLoop(r: Regs, A: nat, count: int64, step: int64, idx: int64)
    requires A + 2 < |r|
    ensures ForLoop(SetControl(r, A, count, step, idx), A) ==
            if count > 0 then Outcome(SetControl(r, A, count - 1, step, IntAdd(idx, step)), Again)
            else Outcome(SetControl(r, A, count, step, idx), Fall)
  {
  }

  /** The loop on locals and the loop on control cells store the same things, and
      the locals are the control cells at the end. */
  lemma {:induction false} SetCycleFill(r: Regs, A: nat, t: Table, h: Heap, v: Value, count: int64, step: int64,
                                        idx: int64)
    requires A + 2 < |r| && t.Valid()
    ensures var c := SetCycle(SetControl(r, A, count, step, idx), A, t, h, v);
            match FillFrom(t, h, v, step, count, idx)
            case Filled(t', h', n, i) => c == Completed(SetControl(r, A, n, step, i), t', h')
            case Stopped(t', h') => c.Rejected? && c.t == t' && c.heap == h'
            case Endless => c.Diverged?
    decreases if count > 0 then count else 0
  {
    ControlLoop(r, A, count, step, idx);
    var s := Set(t, h, IntKey(idx), v);
    if s.Stored? && count > 0 {
      SetIsUpdate(t, h, IntKey(idx), v);
      SetCycleFill(r, A, s.t, s.heap, v, count - 1, step, IntAdd(idx, step));
    }
  }

  // ---- the leaf ----------------------------------------------------------------------------------

  /** No slice is larger than 2^32 fields of 32 bytes. */
  const MAX_SLICE := 0x20_0000_0000

  /** A heap far enough from the top of the address space for any slice. */
  ghost predicate Roomy(h: Heap) { h.Valid() && h.end <= TWO_64 - 16 - MAX_SLICE }

  lemma BumpRoomy(h: Heap, size: uint64)
    requires Roomy(h) && size <= MAX_SLICE
    ensures Roomy(Bump(h, size).0)
  {
    BumpExact(h, size);
  }

  /** An array store keeps the heap roomy. */
  lemma SetRoomy(t: Table, h: Heap, n: int, v: Value)
    requires t.Valid() && Roomy(h) && Set(t, h, IntKey(n), v).Stored?
    ensures Roomy(Set(t, h, IntKey(n), v).heap)
  {
    if !(1 <= n <= |t.items|) {
      BumpRoomy(h, VALUE_BYTES * NewCapacity(ArrayStart(t), n, 32).value);
    }
  }

  datatype Exit = Skipped | Mismatched | Refusal

  /** The cycle on locals, storing into the table object. */
  method StoreAll(table: GuestTable, v: Value, step: int64, trips: int64, first: int64)
    returns (ok: bool, count: int64, idx: int64)
    requires Roomy(table.heap.state) && table.Abstract().Valid()
    requires !FillFrom(table.Abstract(), table.heap.state, v, step, trips, first).Endless?
    modifies table, table.items, table.fields, table.heap
    ensures table.items == old(table.items) || fresh(table.items)
    ensures match FillFrom(old(table.Abstract()), old(table.heap.state), v, step, trips, first)
            case Filled(t, h, n, i) => ok && table.Abstract() == t && table.heap.state == h && count == n && idx == i
            case Stopped(t, h) => !ok && table.Abstract() == t && table.heap.state == h
            case Endless => true
  {
    count, idx := trips, first;
    ghost var end := FillFrom(table.Abstract(), table.heap.state, v, step, count, idx);
    while true
      invariant table.items == old(table.items) || fresh(table.items)
      invariant table.fields == old(table.fields) || fresh(table.fields)
      invariant Roomy(table.heap.state) && table.Abstract().Valid()
      invariant end == FillFrom(table.Abstract(), table.heap.state, v, step, count, idx)
      decreases if count > 0 then count else 0
    {
      ghost var t0, h0 := table.Abstract(), table.heap.state;
      ok := table.SetValue(IntKey(idx), v);
      if !ok { return; }
      SetIsUpdate(t0, h0, IntKey(idx), v);
      SetRoomy(t0, h0, idx, v);
      if count <= 0 { return; }
      count := count - 1;
      idx := IntAdd(idx, step);
    }
  }

  /** The cycle, and the write-back of its locals when it completes. */
  method RunFused(regs: array<Value>, A: nat, table: GuestTable, v: Value, step: int64, trips: int64, first: int64)
    returns (ok: bool)
    requires A + 2 < regs.Length && regs != table.items
    requires Roomy(table.heap.state) && table.Abstract().Valid()
    requires !FillFrom(table.Abstract(), table.heap.state, v, step, trips, first).Endless?
    modifies regs, table, table.items, table.fields, table.heap
    ensures match FillFrom(old(table.Abstract()), old(table.heap.state), v, step, trips, first)
            case Filled(t, h, n, i) =>
              && ok && table.Abstract() == t && table.heap.state == h
              && regs[..] == SetControl(old(regs[..]), A, n, step, i)
            case Stopped(t, h) =>
              !ok && table.Abstract() == t && table.heap.state == h && regs[..] == old(regs[..])
            case Endless => true
  {
    var count, idx;
    ok, count, idx := StoreAll(table, v, step, trips, first);
    if !ok { return; }
    ghost var t := table.Abstract();
    assert regs[..] == old(regs[..]) && regs != table.items;
    regs[A] := Int(count);
    regs[A + 1] := Int(step);
    regs[A + 2] := Int(idx);
    assert table.Abstract() == t;
  }

  /** lua55_v2r_super_for_settable_*: guards, then the cycle on locals. `plain` is the
      receiver check (a table of this heap without a metatable). */
  method FusedForSetTable(regs: array<Value>, A: nat, receiver: nat, plain: bool, table: GuestTable,
                          pos: bool, v: Value) returns (exit: Exit)
    requires A + 2 < regs.Length && receiver < regs.Length && regs != table.items
    requires Roomy(table.heap.state) && table.Abstract().Valid()
    requires IntControl(regs[..], A) ==> !SetStatement(regs[..], A, table.Abstract(), table.heap.state, v).Diverged?
    modifies regs, table, table.items, table.fields, table.heap
    ensures exit == Mismatched <==>
            !(ForLoops.FusedGuard(old(regs[..]), A, receiver, Tag.Table, pos) && plain)
    ensures exit == Mismatched ==>
            && regs[..] == old(regs[..]) && table.Abstract() == old(table.Abstract())
            && table.heap.state == old(table.heap.state)
    ensures exit != Mismatched ==>
            match SetStatement(old(regs[..]), A, old(table.Abstract()), old(table.heap.state), v)
            case Completed(r, t, h) =>
              exit == Skipped && regs[..] == r && table.Abstract() == t && table.heap.state == h
            case Rejected(r, t, h) =>
              exit == Refusal && regs[..] == old(regs[..]) && table.Abstract() == t && table.heap.state == h
            case Diverged => false
  {
    if regs[A].tag != Integer || regs[A + 1].tag != Integer || regs[A + 2].tag != Integer { return Mismatched; }
    var iv, lv, sv := regs[A].word, regs[A + 1].word, regs[A + 2].word;
    if (pos && sv <= 0) || (!pos && sv >= 0) { return Mismatched; }
    if regs[receiver].tag != Tag.Table || !plain { return Mismatched; }
    exit := Skipped;
    if (pos && iv > lv) || (!pos && iv < lv) { return; }
    var count: int64 := Wrap64(Quotient(iv, lv, sv));
    StatementFill(regs[..], A, table.Abstract(), table.heap.state, v);
    var ok := RunFused(regs, A, table, v, sv, count, iv);
    if !ok { return Refusal; }
  }

  // ---- the law ------------------------------------------------------------------------------------

  /** n is init + k * step for some k not past the limit. */
  ghost predicate OnLoop(n: int, iv: int, lv: int, sv: int) {
    exists k: nat {:trigger Within(iv, lv, sv, k)} :: Within(iv, lv, sv, k) && n == Index(iv, sv, k)
  }

  lemma HitOnLoop(n: int, iv: int64, lv: int64, sv: int64)
    requires sv != 0 && !Empty(iv, lv, sv)
    ensures Hit(n, iv, sv, Quotient(iv, lv, sv) + 1) <==> OnLoop(n, iv, lv, sv)
  {
    var q: nat := Quotient(iv, lv, sv);
    if Hit(n, iv, sv, q + 1) {
      var j: nat :| j < q + 1 && n == Index(iv, sv, j);
      WithinIff(iv, lv, sv, j);
    }
    if OnLoop(n, iv, lv, sv) {
      var j: nat :| Within(iv, lv, sv, j) && n == Index(iv, sv, j);
      WithinIff(iv, lv, sv, j);
    }
  }

  lemma LoopNoWrap(iv: int64, lv: int64, sv: int64)
    requires sv != 0 && !Empty(iv, lv, sv)
    ensures NoWrap(iv, sv, Quotient(iv, lv, sv))
  {
    forall k: nat | k <= Quotient(iv, lv, sv)
      ensures InRange(iv, sv, k)
    {
      WithinIff(iv, lv, sv, k);
      WithinRange(iv, lv, sv, k);
    }
  }

  /** What a completed cycle from FORPREP's locals leaves. */
  lemma FillLoopExact(t: Table, h: Heap, v: Value, iv: int64, lv: int64, sv: int64)
    requires t.Valid() && sv != 0 && !Empty(iv, lv, sv) && Quotient(iv, lv, sv) < TWO_63
    requires FillFrom(t, h, v, sv, Quotient(iv, lv, sv), iv).Filled?
    ensures var f := FillFrom(t, h, v, sv, Quotient(iv, lv, sv), iv);
            && f.t.Valid() && f.count == 0 && f.idx == Index(iv, sv, Quotient(iv, lv, sv))
            && forall k :: Lookup(f.t, k) == if k.IntKey? && OnLoop(k.n, iv, lv, sv) then v else Lookup(t, k)
  {
    var q: int64 := Quotient(iv, lv, sv);
    LoopNoWrap(iv, lv, sv);
    var m := FillExact(t, h, v, sv, q, iv);
    var t' := FillFrom(t, h, v, sv, q, iv).t;
    forall k
      ensures Lookup(t', k) == if k.IntKey? && OnLoop(k.n, iv, lv, sv) then v else Lookup(t, k)
    {
      if k.IntKey? {
        HitOnLoop(k.n, iv, lv, sv);
      }
    }
  }

  lemma FillLoopEnds(t: Table, h: Heap, v: Value, iv: int64, lv: int64, sv: int64)
    requires t.Valid() && sv != 0 && !Empty(iv, lv, sv) && iv <= TWO_31 && lv <= TWO_31
    requires Quotient(iv, lv, sv) < TWO_63
    ensures !FillFrom(t, h, v, sv, Quotient(iv, lv, sv), iv).Endless?
  {
    LoopNoWrap(iv, lv, sv);
    forall k: nat | k <= Quotient(iv, lv, sv)
      ensures Index(iv, sv, k) <= TWO_31
    {
      WithinIff(iv, lv, sv, k);
      if sv < 0 {
        MulMonotone(0, k, 0 - sv);
        assert k * sv == 0 - k * (0 - sv);
      }
    }
    FillEnds(t, h, v, sv, Quotient(iv, lv, sv), iv);
  }

  /** The statement is FORPREP's count run through the cycle on locals. */
  lemma StatementFill(r: Regs, A: nat, t: Table, h: Heap, v: Value)
    requires IntControl(r, A) && t.Valid() && r[A + 2].word != 0 && !Empty(r[A].word, r[A + 1].word, r[A + 2].word)
    ensures var sv := r[A + 2].word;
            var c := SetStatement(r, A, t, h, v);
            match FillFrom(t, h, v, sv, Wrap64(Quotient(r[A].word, r[A + 1].word, sv)), r[A].word)
            case Filled(t', h', n, i) => c == Completed(SetControl(r, A, n, sv, i), t', h')
            case Stopped(t', h') => c.Rejected? && c.t == t' && c.heap == h'
            case Endless => c.Diverged?
  {
    var iv, sv := r[A].word, r[A + 2].word;
    SetCycleFill(r, A, t, h, v, Wrap64(Quotient(iv, r[A + 1].word, sv)), sv, iv);
  }

  /** When the leaf completes a loop whose quotient fits the count, exactly the keys
      init + k * step not past the limit hold the constant, every other key reads as
      before, and the control cells are those FORPREP and FORLOOP leave. */
  lemma SetStatementExact(r: Regs, A: nat, t: Table, h: Heap, v: Value)
    requires IntControl(r, A) && t.Valid() && r[A + 2].word != 0 && SetStatement(r, A, t, h, v).Completed?
    requires Empty(r[A].word, r[A + 1].word, r[A + 2].word)
          || Quotient(r[A].word, r[A + 1].word, r[A + 2].word) < TWO_63
    ensures var iv, lv, sv := r[A].word, r[A + 1].word, r[A + 2].word;
            var c := SetStatement(r, A, t, h, v);
            && c.t.Valid()
            && (forall k :: Lookup(c.t, k) == if k.IntKey? && OnLoop(k.n, iv, lv, sv) then v else Lookup(t, k))
            && (Empty(iv, lv, sv) || InRange(iv, sv, Quotient(iv, lv, sv)))
            && c.regs == if Empty(iv, lv, sv) then r
                         else SetControl(r, A, 0, sv, Wrap64(Index(iv, sv, Quotient(iv, lv, sv))))
  {
    var iv, lv, sv := r[A].word, r[A + 1].word, r[A + 2].word;
    if Empty(iv, lv, sv) {
      EmptyNeverWithin(iv, lv, sv);
    } else {
      WrapExact(Quotient(iv, lv, sv));
      StatementFill(r, A, t, h, v);
      FillLoopExact(t, h, v, iv, lv, sv);
      WrapExact(Index(iv, sv, Quotient(iv, lv, sv)));
    }
  }

  /** When the leaf is refused in the middle, exactly the indices before the refused
      one hold the constant; the refused one is below 1 or has no room in the region. */
  lemma SetStatementRefused(r: Regs, A: nat, t: Table, h: Heap, v: Value) returns (m: nat)
    requires IntControl(r, A) && t.Valid() && r[A + 2].word != 0 && SetStatement(r, A, t, h, v).Rejected?
    requires Quotient(r[A].word, r[A + 1].word, r[A + 2].word) < TWO_63
    ensures var iv, lv, sv := r[A].word, r[A + 1].word, r[A + 2].word;
            var c := SetStatement(r, A, t, h, v);
            && Within(iv, lv, sv, m) && Overlaid(t, c.t, v, iv, sv, m)
            && (Index(iv, sv, m) < 1 || NoRoom(c.t, c.heap, IntKey(Index(iv, sv, m))))
  {
    var iv, lv, sv := r[A].word, r[A + 1].word, r[A + 2].word;
    WrapExact(Quotient(iv, lv, sv));
    StatementFill(r, A, t, h, v);
    LoopNoWrap(iv, lv, sv);
    m := FillExact(t, h, v, sv, Quotient(iv, lv, sv), iv);
    WithinIff(iv, lv, sv, m);
    var c := SetStatement(r, A, t, h, v);
    SetRefusedIff(c.t, c.heap, IntKey(Index(iv, sv, m)), v);
  }

  /** A loop with both ends at or below 2^31 always ends, completed or refused. */
  lemma SetStatementEnds(r: Regs, A: nat, t: Table, h: Heap, v: Value)
    requires IntControl(r, A) && t.Valid() && r[A].word <= TWO_31 && r[A + 1].word <= TWO_31
    ensures !SetStatement(r, A, t, h, v).Diverged?
  {
    var iv, lv, sv := r[A].word, r[A + 1].word, r[A + 2].word;
    if sv != 0 && !Empty(iv, lv, sv) {
      StatementFill(r, A, t, h, v);
      if Quotient(iv, lv, sv) < TWO_63 {
        WrapExact(Quotient(iv, lv, sv));
        FillLoopEnds(t, h, v, iv, lv, sv);
      } else {
        OneTripEnds(t, h, v, sv, Wrap64(Quotient(iv, lv, sv)), iv);
      }
    }
  }

  lemma OneTripEnds(t: Table, h: Heap, v: Value, step: int64, count: int64, idx: int64)
    requires t.Valid() && count <= 0 && idx <= TWO_31
    ensures !FillFrom(t, h, v, step, count, idx).Endless?
  {
    if idx > |t.items| && idx >= 1 {
      GrowArrayEnds(t, h, idx);
    }
  }
}
