/** What CALL, TAILCALL, RETURN and VARARG move: arguments into parameters and
    the vararg slice, results into the sink, and nothing else. */
module Transfer {
  import opened Values
  import opened Slots
  import opened Frames
  import opened Arena

  /** Argument `i` as the callee should see it. */
  function Argument(mem: Mem, src: nat, nargs: nat, i: nat): Value
    requires SlotAt(src, nargs) <= |mem|
  {
    if i < nargs then mem[SlotAt(src, i)] else NIL
  }

  /** Placing arguments writes only the parameter registers and the slice. */
  lemma PlaceFrame(mem: Mem, values: nat, d: Descriptor, src: nat, nargs: nat)
    requires d.Valid()
    requires SlotAt(values, d.valueCapacity + Varargs(d, nargs)) <= |mem| && SlotAt(src, nargs) <= |mem|
    ensures SameOutside(mem, PlaceArgs(mem, values, d, src, nargs), values,
                        SlotAt(values, d.valueCapacity + Varargs(d, nargs)))
  {
    var n, v := Fixed(d, nargs), Varargs(d, nargs);
    var m1 := CopySlots(mem, values, src, n);
    CopyFrame(mem, values, src, n);
    var m2 := NilSlots(m1, values, n, d.numParams);
    NilFrame(m1, values, n, d.numParams);
    CopyFrame(m2, SlotAt(values, d.valueCapacity), SlotAt(src, n), v);
  }

  /** Parameter `i` holds argument `i`, or nil beyond the last argument. The
      copy may run downwards over itself but never upwards. */
  lemma PlaceParams(mem: Mem, values: nat, d: Descriptor, src: nat, nargs: nat, i: nat)
    requires d.Valid() && i < d.numParams
    requires SlotAt(values, d.valueCapacity + Varargs(d, nargs)) <= |mem| && SlotAt(src, nargs) <= |mem|
    requires values <= src || SlotAt(src, nargs) <= values
    ensures PlaceArgs(mem, values, d, src, nargs)[SlotAt(values, i)].Same(Argument(mem, src, nargs, i))
  {
    var n := Fixed(d, nargs);
    var m1 := CopySlots(mem, values, src, n);
    var m2 := NilSlots(m1, values, n, d.numParams);
    CopyFrame(m2, SlotAt(values, d.valueCapacity), SlotAt(src, n), Varargs(d, nargs));
    NilFrame(m1, values, n, d.numParams);
    if i < n {
      CopyExact(mem, values, src, n, i);
    } else {
      NilExact(m1, values, n, d.numParams, i);
    }
  }

  /** Slice entry `i` holds surplus argument `i` unless the slice starts inside
      the surplus arguments it is copied from. */
  lemma PlaceVarargs(mem: Mem, values: nat, d: Descriptor, src: nat, nargs: nat, i: nat)
    requires d.Valid() && i < Varargs(d, nargs)
    requires SlotAt(values, d.valueCapacity + Varargs(d, nargs)) <= |mem| && SlotAt(src, nargs) <= |mem|
    requires values <= src || SlotAt(src, nargs) <= values
    requires SlotAt(values, d.valueCapacity) <= SlotAt(src, d.numParams)
          || SlotAt(src, nargs) <= SlotAt(values, d.valueCapacity)
    ensures PlaceArgs(mem, values, d, src, nargs)[SlotAt(values, d.valueCapacity + i)]
         == mem[SlotAt(src, d.numParams + i)]
  {
    var n := d.numParams;
    assert Fixed(d, nargs) == n;
    var m1 := CopySlots(mem, values, src, n);
    CopyFrame(mem, values, src, n);
    CopyExact(m1, SlotAt(values, d.valueCapacity), SlotAt(src, n), Varargs(d, nargs), i);
    assert SlotAt(values, d.valueCapacity + i) == SlotAt(SlotAt(values, d.valueCapacity), i);
    assert SlotAt(src, n + i) == SlotAt(SlotAt(src, n), i);
  }

  // ---- CALL ---------------------------------------------------------------------

  /** CALL writes only inside the new frame. */
  lemma CallFrame(s: State, chain: seq<Addr>, clo: Addr, d: Descriptor, A: nat, nargs: nat,
                  results: int, pc: nat, cont: nat)
    requires ArenaOk(s, chain) && chain != [] && d.Valid() && Ready(s, s.current)
    ensures var r := CallNative(s, s.current, clo, d, A, nargs, results, pc, cont);
            SameOutside(s.mem, r.s.mem, s.frameNext, r.s.frameNext)
  {
    var r := CallNative(s, s.current, clo, d, A, nargs, results, pc, cont);
    if r.control.Enter? {
      var fr := s.frames[s.current];
      PlaceFrame(s.mem, s.frameNext + HEADER, d, SlotAt(fr.values, A + 1), nargs);
    }
  }

  // ---- TAILCALL --------------------------------------------------------------------

  /** What a callee finds when it starts, nil payloads aside. */
  datatype Entry = Entry(params: seq<Value>, varargs: seq<Value>, upvalues: Addr, top: nat, stack: nat,
                         capacity: nat, tbc: nat)

  function Clean(v: Value): Value { if v.tag.Nil? then NIL else v }

  function EntryOf(s: State, f: Addr, d: Descriptor): Entry
    requires Fits(s, f) && d.numParams <= s.frames[f].valueCapacity
  {
    var fr := s.frames[f];
    Entry(seq(d.numParams, i requires 0 <= i < d.numParams => Clean(s.mem[SlotAt(fr.values, i)])),
          seq(fr.varargCount, i requires 0 <= i < fr.varargCount => GetVarg(s, f, i + 1)),
          fr.upvalues, fr.top, fr.valueCount, fr.valueCapacity, fr.tbcCapacity)
  }

  /** The entry an argument list calls for. */
  function ExpectedEntry(mem: Mem, src: nat, clo: Addr, d: Descriptor, nargs: nat): Entry
    requires SlotAt(src, nargs) <= |mem|
  {
    Entry(seq(d.numParams, i requires 0 <= i < d.numParams => Clean(Argument(mem, src, nargs, i))),
          seq(Varargs(d, nargs), i requires 0 <= i < Varargs(d, nargs) => mem[SlotAt(src, d.numParams + i)]),
          clo, InitialTop(d, nargs), d.maxStack, d.valueCapacity, d.tbcCapacity)
  }

  /** Parameters and slice as laid out by PlaceArgs are the expected ones. */
  lemma PlacedEntry(mem: Mem, s': State, f: Addr, src: nat, clo: Addr, d: Descriptor, nargs: nat)
    requires d.Valid() && Fits(s', f)
    requires var fr := s'.frames[f];
             && fr.varargCount == Varargs(d, nargs) && fr.upvalues == clo && fr.top == InitialTop(d, nargs)
             && fr.valueCount == d.maxStack && fr.valueCapacity == d.valueCapacity && fr.tbcCapacity == d.tbcCapacity
    requires |s'.mem| == |mem| && SlotAt(src, nargs) <= |mem|
    requires SlotAt(f + HEADER, d.valueCapacity + Varargs(d, nargs)) <= |mem|
    requires s'.mem == PlaceArgs(mem, f + HEADER, d, src, nargs)
    requires f + HEADER <= src || SlotAt(src, nargs) <= f + HEADER
    requires SlotAt(f + HEADER, d.valueCapacity) <= SlotAt(src, d.numParams)
          || SlotAt(src, nargs) <= SlotAt(f + HEADER, d.valueCapacity)
          || Varargs(d, nargs) == 0
    ensures EntryOf(s', f, d) == ExpectedEntry(mem, src, clo, d, nargs)
  {
    var values := f + HEADER;
    var e, x := EntryOf(s', f, d), ExpectedEntry(mem, src, clo, d, nargs);
    forall i: nat | i < d.numParams
      ensures e.params[i] == x.params[i]
    {
      PlaceParams(mem, values, d, src, nargs, i);
    }
    forall i: nat | i < Varargs(d, nargs)
      ensures e.varargs[i] == x.varargs[i]
    {
      PlaceVarargs(mem, values, d, src, nargs, i);
      assert SlotAt(VarargSlice(s'.frames[f]), i) == SlotAt(values, d.valueCapacity + i);
    }
    assert e.params == x.params && e.varargs == x.varargs;
  }

  /** CALL enters the callee with argument i or nil in each parameter, exactly the
      surplus arguments in the vararg slice, and the callee's own limits. */
  lemma CallEntry(s: State, chain: seq<Addr>, clo: Addr, d: Descriptor, A: nat, nargs: nat,
                  results: int, pc: nat, cont: nat)
    requires ArenaOk(s, chain) && chain != [] && d.Valid() && Ready(s, s.current)
    requires CallNative(s, s.current, clo, d, A, nargs, results, pc, cont).control.Enter?
    ensures var s' := CallNative(s, s.current, clo, d, A, nargs, results, pc, cont).s;
            && Fits(s', s'.current) && SlotAt(SlotAt(s.frames[s.current].values, A + 1), nargs) <= |s.mem|
            && d.numParams <= s'.frames[s'.current].valueCapacity
            && EntryOf(s', s'.current, d) ==
                 ExpectedEntry(s.mem, SlotAt(s.frames[s.current].values, A + 1), clo, d, nargs)
  {
    var s' := CallNative(s, s.current, clo, d, A, nargs, results, pc, cont).s;
    var src := SlotAt(s.frames[s.current].values, A + 1);
    assert SlotAt(src, nargs) == SlotAt(s.frames[s.current].values, A + 1 + nargs);
    PlacedEntry(s.mem, s', s'.current, src, clo, d, nargs);
  }

  /** The slice of the new callee starts strictly inside the surplus arguments
      still to be copied into it. */
  predicate SliceOverruns(d: Descriptor, A: nat, nargs: nat) {
    A + 1 + d.numParams < d.valueCapacity < A + 1 + d.numParams + Varargs(d, nargs)
  }

  /** TAILCALL enters the callee with the same entry CALL would, as long as the
      vararg slice does not overrun its source; a fixed-arity callee has none. */
  lemma TailEntry(s: State, clo: Addr, d: Descriptor, A: nat, nargs: nat, pc: nat)
    requires d.Valid() && Ready(s, s.current)
    requires TailNative(s, s.current, clo, d, A, nargs, pc).control.Enter?
    requires !SliceOverruns(d, A, nargs)
    ensures var s' := TailNative(s, s.current, clo, d, A, nargs, pc).s;
            && Fits(s', s'.current) && SlotAt(SlotAt(s.frames[s.current].values, A + 1), nargs) <= |s.mem|
            && d.numParams <= s'.frames[s'.current].valueCapacity
            && EntryOf(s', s'.current, d) ==
                 ExpectedEntry(s.mem, SlotAt(s.frames[s.current].values, A + 1), clo, d, nargs)
  {
    var s' := TailNative(s, s.current, clo, d, A, nargs, pc).s;
    var src := SlotAt(s.frames[s.current].values, A + 1);
    assert SlotAt(src, nargs) == SlotAt(s.frames[s.current].values, A + 1 + nargs);
    PlacedEntry(s.mem, s', s'.current, src, clo, d, nargs);
  }

  /** When the slice overruns, the vararg entry at the distance between the two
      places receives the first surplus argument instead of its own. */
  lemma TailOverrun(mem: Mem, values: nat, d: Descriptor, A: nat, nargs: nat)
    requires d.Valid() && SliceOverruns(d, A, nargs)
    requires SlotAt(values, d.valueCapacity + Varargs(d, nargs)) <= |mem| && SlotAt(values, A + 1 + nargs) <= |mem|
    ensures var gap := d.valueCapacity - (A + 1 + d.numParams);
            && SlotAt(SlotAt(values, A + 1), nargs) <= |mem|
            && PlaceArgs(mem, values, d, SlotAt(values, A + 1), nargs)[SlotAt(values, d.valueCapacity + gap)]
               == mem[SlotAt(values, A + 1 + d.numParams)]
  {
    var n, v := d.numParams, Varargs(d, nargs);
    var gap := d.valueCapacity - (A + 1 + n);
    var src := SlotAt(values, A + 1);
    var m1 := CopySlots(mem, values, src, n);
    CopyFrame(mem, values, src, n);
    assert SlotAt(values, d.valueCapacity) == SlotAt(SlotAt(src, n), gap);
    CopyOverrun(m1, SlotAt(values, d.valueCapacity), SlotAt(src, n), v, gap);
    assert SlotAt(values, d.valueCapacity + gap) == SlotAt(SlotAt(values, d.valueCapacity), gap);
  }

  /** Surplus argument `i` arrives in slice entry `i`. */
  ghost predicate VarargRight(mem: Mem, values: nat, d: Descriptor, A: nat, nargs: nat, i: nat)
    requires d.Valid() && i < Varargs(d, nargs)
    requires SlotAt(values, d.valueCapacity + Varargs(d, nargs)) <= |mem| && SlotAt(values, A + 1 + nargs) <= |mem|
  {
    assert SlotAt(SlotAt(values, A + 1), nargs) == SlotAt(values, A + 1 + nargs);
    PlaceArgs(mem, values, d, SlotAt(values, A + 1), nargs)[SlotAt(values, d.valueCapacity + i)]
    == mem[SlotAt(values, A + 1 + d.numParams + i)]
  }

  /** TAILCALL hands over the surplus arguments correctly for every register
      content if and only if the slice does not overrun. */
  lemma TailVarargsIff(size: nat, values: nat, d: Descriptor, A: nat, nargs: nat)
    requires d.Valid()
    requires SlotAt(values, d.valueCapacity + Varargs(d, nargs)) <= size && SlotAt(values, A + 1 + nargs) <= size
    ensures (forall mem: Mem, i: nat {:trigger VarargRight(mem, values, d, A, nargs, i)}
               | |mem| == size && i < Varargs(d, nargs) :: VarargRight(mem, values, d, A, nargs, i))
            <==> !SliceOverruns(d, A, nargs)
  {
    if SliceOverruns(d, A, nargs) {
      var first, gap := SlotAt(values, A + 1 + d.numParams), d.valueCapacity - (A + 1 + d.numParams);
      var mem: Mem := seq(size, a => if a == first then Value(True, 0) else NIL);
      TailOverrun(mem, values, d, A, nargs);
      assert mem[SlotAt(values, A + 1 + d.numParams + gap)] == NIL;
      assert !VarargRight(mem, values, d, A, nargs, gap);
    } else {
      forall mem: Mem, i: nat | |mem| == size && i < Varargs(d, nargs)
        ensures VarargRight(mem, values, d, A, nargs, i)
      {
        PlaceVarargs(mem, values, d, SlotAt(values, A + 1), nargs, i);
      }
    }
  }

  // ---- RETURN ---------------------------------------------------------------------

  /** The sink window: the addresses RETURN may write. */
  ghost predicate InSink(k: Sink, nres: nat, a: Addr) {
    k.values != 0 && k.values <= a < SlotAt(k.values, Wanted(k, nres))
  }

  /** Results come from the current frame and land below it, outside the arena, or
      (at the root) at its own first register. */
  lemma SinkApart(s: State, chain: seq<Addr>, A: nat, nres: nat)
    requires ArenaOk(s, chain) && chain != [] && Ready(s, s.current)
    requires A + nres <= Extent(s.frames[s.current])
    ensures var k := s.frames[s.current].sink;
            k.values != 0 && k.base + Wanted(k, nres) <= k.capacity ==>
              || SlotAt(k.values, Wanted(k, nres)) <= s.current
              || s.frameEnd <= k.values
              || k.values == s.frames[s.current].values
  {
    var n := |chain| - 1;
    assert FrameOk(s, chain, n);
    if n > 0 {
      ChainOrder(s, chain, n - 1, n);
    }
  }

  /** RETURN writes the first results at the sink base, nil up to the wanted
      count, and no other value; or it publishes VALUE_OVERFLOW and writes
      nothing. */
  lemma ReturnDelivers(s: State, chain: seq<Addr>, A: nat, nres: nat, pc: nat)
    requires ArenaOk(s, chain) && chain != [] && Ready(s, s.current)
    requires A + nres <= Extent(s.frames[s.current])
    ensures var r := ReturnN(s, s.current, A, nres, pc);
            var fr := s.frames[s.current];
            var k := fr.sink;
            && |r.s.mem| == |s.mem|
            && (r.control.HostExit? <==> k.values != 0 && k.base + Wanted(k, nres) > k.capacity)
            && (r.control.HostExit? ==>
                  r.s == s.(outcome := ValueOverflow(k.base + Wanted(k, nres), k.capacity, pc)))
            && (forall a {:trigger r.s.mem[a]} :: 0 <= a < |s.mem| && !InSink(k, nres, a) ==> r.s.mem[a] == s.mem[a])
  {
    var r := ReturnN(s, s.current, A, nres, pc);
    var fr := s.frames[s.current];
    var k := fr.sink;
    if r.control.Enter? && k.values != 0 {
      var src, n := SlotAt(fr.values, A), Delivered(k, nres);
      CopyFrame(s.mem, k.values, src, n);
      NilFrame(CopySlots(s.mem, k.values, src, n), k.values, n, Wanted(k, nres));
    }
  }

  /** Result `i` arrives unchanged, and missing results arrive as nil. */
  lemma ReturnValues(s: State, chain: seq<Addr>, A: nat, nres: nat, pc: nat, i: nat)
    requires ArenaOk(s, chain) && chain != [] && Ready(s, s.current)
    requires A + nres <= Extent(s.frames[s.current])
    requires ReturnN(s, s.current, A, nres, pc).control.Enter?
    requires s.frames[s.current].sink.values != 0 && i < Wanted(s.frames[s.current].sink, nres)
    ensures var r := ReturnN(s, s.current, A, nres, pc);
            var k := s.frames[s.current].sink;
            && SlotAt(k.values, i) < |r.s.mem|
            && (if i < nres then r.s.mem[SlotAt(k.values, i)] == Reg(s, s.current, A + i)
                else r.s.mem[SlotAt(k.values, i)].tag == Nil)
  {
    var fr := s.frames[s.current];
    var k := fr.sink;
    var src, n := SlotAt(fr.values, A), Delivered(k, nres);
    SinkApart(s, chain, A, nres);
    var m1 := CopySlots(s.mem, k.values, src, n);
    NilFrame(m1, k.values, n, Wanted(k, nres));
    if i < n {
      CopyExact(s.mem, k.values, src, n, i);
      assert SlotAt(src, i) == SlotAt(fr.values, A + i);
    } else {
      NilExact(m1, k.values, n, Wanted(k, nres), i);
    }
  }

  // ---- VARARG ------------------------------------------------------------------------

  /** VARARG leaves in the registers, and where it runs past them in the slots behind,
      exactly the surplus arguments, padded with nil to a fixed count. */
  lemma VarargReads(s: State, f: Addr, target: nat, wanted: int, i: nat)
    requires Fits(s, f) && VarargFits(s.frames[f], target, wanted)
    requires i < (if wanted < 0 then s.frames[f].varargCount else wanted)
    ensures var s' := Vararg(s, f, target, wanted);
            Fits(s', f) && Reg(s', f, target + i).Same(GetVarg(s, f, i + 1))
  {
    var fr := s.frames[f];
    var used := VarargsUsed(fr, wanted);
    var base, slice := SlotAt(fr.values, target), VarargSlice(fr);
    var m1 := CopySlots(s.mem, base, slice, used);
    if wanted >= 0 {
      NilFrame(m1, base, used, wanted);
    }
    assert SlotAt(fr.values, target + i) == SlotAt(base, i);
    if i < used {
      CopyExact(s.mem, base, slice, used, i);
    } else {
      NilExact(m1, base, used, wanted, i);
    }
  }

  /** VARARG writes the slots it fills and no others. */
  lemma VarargWrites(s: State, f: Addr, target: nat, wanted: int)
    requires Fits(s, f) && VarargFits(s.frames[f], target, wanted)
    ensures var fr := s.frames[f];
            SameOutside(s.mem, Vararg(s, f, target, wanted).mem, SlotAt(fr.values, target),
                        SlotAt(fr.values, target + if wanted < 0 then fr.varargCount else wanted))
  {
    var fr := s.frames[f];
    var used, base := VarargsUsed(fr, wanted), SlotAt(fr.values, target);
    CopyFrame(s.mem, base, VarargSlice(fr), used);
    if wanted >= 0 {
      NilFrame(CopySlots(s.mem, base, VarargSlice(fr), used), base, used, wanted);
    }
  }

  /** The copy of all arguments runs from below into the slice it copies. */
  predicate VarargOverruns(fr: Frame, target: nat, wanted: int) {
    wanted < 0 && target < fr.valueCapacity < target + fr.varargCount
  }

  /** Slice entries behind the slots VARARG fills stay. */
  lemma VarargBehind(s: State, f: Addr, target: nat, wanted: int, key: nat)
    requires Fits(s, f) && VarargFits(s.frames[f], target, wanted)
    requires wanted >= 0 || s.frames[f].valueCapacity + key > target + s.frames[f].varargCount
    ensures var s' := Vararg(s, f, target, wanted);
            Fits(s', f) && GetVarg(s', f, key) == GetVarg(s, f, key)
  {
    VarargWrites(s, f, target, wanted);
  }

  /** An entry VARARG of all arguments runs over gets the entry as far behind it as the
      slice is behind the target. */
  lemma VarargOver(s: State, f: Addr, target: nat, key: nat)
    requires Fits(s, f) && VarargFits(s.frames[f], target, -1) && 1 <= key
    requires s.frames[f].valueCapacity + key <= target + s.frames[f].varargCount
    ensures var s' := Vararg(s, f, target, -1);
            && Fits(s', f) && target <= s.frames[f].valueCapacity
            && GetVarg(s', f, key) == GetVarg(s, f, key + (s.frames[f].valueCapacity - target))
  {
    var fr := s.frames[f];
    var base, slice, i := SlotAt(fr.values, target), VarargSlice(fr), fr.valueCapacity + key - 1 - target;
    CopyExact(s.mem, base, slice, fr.varargCount, i);
    assert SlotAt(base, i) == SlotAt(slice, key - 1);
  }

  /** What GETVARG reads after a VARARG: the same, except that an overrunning copy has
      moved the slice down by the distance between target and slice. */
  lemma VarargSliceAfter(s: State, f: Addr, target: nat, wanted: int, key: int)
    requires Fits(s, f) && VarargFits(s.frames[f], target, wanted)
    ensures var fr := s.frames[f];
            var s' := Vararg(s, f, target, wanted);
            && Fits(s', f)
            && GetVarg(s', f, key) ==
               if VarargOverruns(fr, target, wanted) && 1 <= key && fr.valueCapacity + key <= target + fr.varargCount
               then GetVarg(s, f, key + (fr.valueCapacity - target)) else GetVarg(s, f, key)
  {
    var fr := s.frames[f];
    if key < 1 {
      assert GetVarg(s, f, key) == NIL;
    } else if wanted < 0 && fr.valueCapacity + key <= target + fr.varargCount {
      VarargOver(s, f, target, key);
    } else {
      VarargBehind(s, f, target, wanted, key);
    }
  }

  /** Every GETVARG reads after a VARARG what it read before, for this memory. */
  ghost predicate SliceKept(s: State, f: Addr, target: nat, wanted: int, mem: Mem)
    requires Fits(s, f) && VarargFits(s.frames[f], target, wanted) && |mem| == |s.mem|
  {
    var t := s.(mem := mem);
    VarargSliceAfter(t, f, target, wanted, 0);
    forall key: int {:trigger GetVarg(t, f, key)} :: GetVarg(Vararg(t, f, target, wanted), f, key) == GetVarg(t, f, key)
  }

  /** GETVARG keeps reading the surplus after a VARARG, for every memory content, if and
      only if the VARARG does not overrun the slice. */
  lemma VarargKeepsSliceIff(s: State, f: Addr, target: nat, wanted: int)
    requires Fits(s, f) && VarargFits(s.frames[f], target, wanted)
    ensures (forall mem: Mem {:trigger SliceKept(s, f, target, wanted, mem)} | |mem| == |s.mem| ::
               SliceKept(s, f, target, wanted, mem))
            <==> !VarargOverruns(s.frames[f], target, wanted)
  {
    var fr := s.frames[f];
    if VarargOverruns(fr, target, wanted) {
      var slice := VarargSlice(fr);
      var mem: Mem := seq(|s.mem|, a => if a == slice then Value(True, 0) else NIL);
      var t := s.(mem := mem);
      VarargSliceAfter(t, f, target, wanted, 1);
      assert GetVarg(t, f, 1) == Value(True, 0);
      assert !SliceKept(s, f, target, wanted, mem);
    } else {
      forall mem: Mem | |mem| == |s.mem|
        ensures SliceKept(s, f, target, wanted, mem)
      {
        var t := s.(mem := mem);
        forall key: int
          ensures GetVarg(Vararg(t, f, target, wanted), f, key) == GetVarg(t, f, key)
        {
          VarargSliceAfter(t, f, target, wanted, key);
        }
      }
    }
  }
}
