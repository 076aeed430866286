/** The frame arena: what every call, tail call and return keeps about the
    live frames along the caller chain. */
module Arena {
  import opened Values
  import opened Slots
  import opened Frames

  function Prev(s: State, chain: seq<Addr>, i: nat): Addr
    requires i < |chain|
  {
    if i == 0 then 0 else chain[i - 1]
  }

  /** Frame `i` starts where its caller ends; the root starts the arena. */
  ghost predicate Placed(s: State, chain: seq<Addr>, i: nat)
    requires i < |chain|
  {
    if i == 0 then chain[0] == s.frameBegin
    else chain[i - 1] in s.frames && chain[i] == EndOf(chain[i - 1], s.frames[chain[i - 1]])
  }

  /** The sink of a root frame that the host reads its results from: the frame's own
      register window. */
  ghost predicate OwnWindow(s: State, f: Addr)
    requires f in s.frames
  {
    var k := s.frames[f].sink;
    k.values == s.frames[f].values && k.top == FrameTop(f) && k.base == 0 && SlotAt(k.values, k.capacity) <= s.frameEnd
  }

  /** A called frame returns into the register window of its caller; the root
      returns to nothing, to its own window, or to a host buffer outside the arena. */
  ghost predicate SinkOk(s: State, chain: seq<Addr>, i: nat)
    requires i < |chain| && chain[i] in s.frames
  {
    var k := s.frames[chain[i]].sink;
    if i == 0 then
      k.values == 0 || (SinkFits(s, k) && (OwnWindow(s, chain[0]) || (k.values >= s.frameEnd && k.top == HostTop)))
    else
      var p := chain[i - 1];
      && p in s.frames
      && k.values == SlotAt(s.frames[p].values, k.base)
      && k.top == FrameTop(p)
      && k.base <= k.capacity == s.frames[p].valueCapacity
      && s.frames[chain[i]].linkSubject == p
  }

  ghost predicate FrameOk(s: State, chain: seq<Addr>, i: nat)
    requires i < |chain|
  {
    && chain[i] in s.frames
    && s.frames[chain[i]].caller == Prev(s, chain, i)
    && Placed(s, chain, i)
    && SinkOk(s, chain, i)
  }

  /** `chain` is the caller chain from the root to the current frame, laid out
      end to end, with frame_next right behind the current frame. */
  ghost predicate ArenaOk(s: State, chain: seq<Addr>) {
    && 0 < s.frameBegin <= s.frameNext <= s.frameEnd <= |s.mem|
    && s.frameBegin % 16 == 0
    && FunctionsValid(s)
    && (forall i {:trigger chain[i]} :: 0 <= i < |chain| ==> Fits(s, chain[i]) && chain[i] % 16 == 0)
    && (forall i {:trigger FrameOk(s, chain, i)} :: 0 <= i < |chain| ==> FrameOk(s, chain, i))
    && (if chain == [] then s.current == 0 && s.frameNext == s.frameBegin
        else
          var f := chain[|chain| - 1];
          s.current == f && s.frameNext == EndOf(f, s.frames[f]))
  }

  /** Earlier frames end before later ones begin. */
  lemma {:induction false} ChainOrder(s: State, chain: seq<Addr>, i: nat, j: nat)
    requires ArenaOk(s, chain)
    requires i < j < |chain|
    ensures EndOf(chain[i], s.frames[chain[i]]) <= chain[j]
    decreases j
  {
    assert FrameOk(s, chain, j) && FrameOk(s, chain, i);
    if i < j - 1 {
      ChainOrder(s, chain, i, j - 1);
      assert FrameOk(s, chain, j - 1);
    }
  }

  /** Every live frame lies below frame_next and inside the arena. */
  lemma ChainBelow(s: State, chain: seq<Addr>, i: nat)
    requires ArenaOk(s, chain)
    requires i < |chain|
    ensures s.frameBegin <= chain[i] < EndOf(chain[i], s.frames[chain[i]]) <= s.frameNext
  {
    assert FrameOk(s, chain, i);
    if i < |chain| - 1 {
      ChainOrder(s, chain, i, |chain| - 1);
      assert FrameOk(s, chain, |chain| - 1);
    }
    if i > 0 {
      ChainOrder(s, chain, 0, i);
      assert FrameOk(s, chain, 0);
    }
  }

  /** Live frames are pairwise disjoint, 16-aligned and inside the arena. */
  lemma LiveFramesDisjoint(s: State, chain: seq<Addr>, i: nat, j: nat)
    requires ArenaOk(s, chain)
    requires i < |chain| && j < |chain| && i != j
    ensures EndOf(chain[i], s.frames[chain[i]]) <= chain[j] || EndOf(chain[j], s.frames[chain[j]]) <= chain[i]
    ensures chain[i] % 16 == 0
    ensures s.frameBegin <= chain[i] && EndOf(chain[i], s.frames[chain[i]]) <= s.frameEnd
  {
    if i < j { ChainOrder(s, chain, i, j); } else { ChainOrder(s, chain, j, i); }
    ChainBelow(s, chain, i);
    assert FrameOk(s, chain, i);
  }

  // ---- steps that stay inside the current frame -------------------------------

  /** Headers agree on everything but the open list and top. */
  ghost predicate SameHeader(fr: Frame, fr': Frame) {
    fr' == fr.(open := fr'.open, top := fr'.top) && fr'.top <= Extent(fr')
  }

  lemma ArenaStable(s: State, s': State, chain: seq<Addr>)
    requires ArenaOk(s, chain)
    requires s'.frameBegin == s.frameBegin && s'.frameNext == s.frameNext && s'.frameEnd == s.frameEnd
    requires s'.current == s.current && s'.functions == s.functions && |s'.mem| == |s.mem|
    requires forall i {:trigger chain[i]} :: 0 <= i < |chain| ==>
               chain[i] in s'.frames && SameHeader(s.frames[chain[i]], s'.frames[chain[i]])
    ensures ArenaOk(s', chain)
  {
    forall i | 0 <= i < |chain|
      ensures FrameOk(s', chain, i)
    {
      assert FrameOk(s, chain, i);
      if i > 0 {
        assert FrameOk(s, chain, i - 1);
        assert SameHeader(s.frames[chain[i - 1]], s'.frames[chain[i - 1]]);
      }
      assert SameHeader(s.frames[chain[i]], s'.frames[chain[i]]);
    }
    if chain != [] {
      assert FrameOk(s, chain, |chain| - 1);
      assert SameHeader(s.frames[s.current], s'.frames[s.current]);
    }
  }

  // ---- pushing, replacing and popping the current frame --------------------------

  /** A frame's place depends only on its own and its caller's header. */
  lemma FrameStable(s: State, s': State, chain: seq<Addr>, chain': seq<Addr>, i: nat)
    requires ArenaOk(s, chain) && i < |chain| && i < |chain'| && chain'[i] == chain[i]
    requires i > 0 ==> chain'[i - 1] == chain[i - 1]
    requires s'.frameBegin == s.frameBegin && s'.frameEnd == s.frameEnd && |s'.mem| == |s.mem|
    requires chain[i] in s'.frames && s'.frames[chain[i]] == s.frames[chain[i]]
    requires i > 0 ==> chain[i - 1] in s'.frames && s'.frames[chain[i - 1]] == s.frames[chain[i - 1]]
    ensures FrameOk(s', chain', i)
  {
    assert FrameOk(s, chain, i);
  }

  /** A new frame behind the current one that returns into it. */
  ghost predicate Pushed(s: State, s': State, h: Frame)
    requires s.current in s.frames
  {
    && s'.frameBegin == s.frameBegin && s'.frameEnd == s.frameEnd
    && s'.functions == s.functions && |s'.mem| == |s.mem|
    && s'.frames == s.frames[s.frameNext := h]
    && s'.current == s.frameNext
    && s'.frameNext == EndOf(s.frameNext, h) <= s.frameEnd
    && h.caller == s.current && h.linkSubject == s.current
    && h.values == s.frameNext + HEADER && h.top <= h.valueCapacity < TWO_31
    && h.sink.values == SlotAt(s.frames[s.current].values, h.sink.base)
    && h.sink.top == FrameTop(s.current)
    && h.sink.base <= h.sink.capacity == s.frames[s.current].valueCapacity
  }

  lemma PushedLower(s: State, s': State, chain: seq<Addr>, h: Frame)
    requires ArenaOk(s, chain) && chain != [] && Pushed(s, s', h)
    ensures forall i {:trigger chain[i]} :: 0 <= i < |chain| ==>
              chain[i] in s'.frames && s'.frames[chain[i]] == s.frames[chain[i]]
  {
    forall i | 0 <= i < |chain|
      ensures chain[i] in s'.frames && s'.frames[chain[i]] == s.frames[chain[i]]
    {
      ChainBelow(s, chain, i);
    }
  }

  lemma PushedFrame(s: State, s': State, chain: seq<Addr>, h: Frame)
    requires ArenaOk(s, chain) && chain != [] && Pushed(s, s', h)
    ensures FrameOk(s', chain + [s.frameNext], |chain|)
    ensures Fits(s', s.frameNext) && s.frameNext % 16 == 0
  {
    PushedLower(s, s', chain, h);
    NextAligned(s, chain);
    var n, chain' := |chain|, chain + [s.frameNext];
    assert chain'[n - 1] == chain[n - 1] == s.current && chain'[n] == s.frameNext;
    assert Placed(s', chain', n) && SinkOk(s', chain', n);
  }

  /** frame_next is 16-aligned. */
  lemma NextAligned(s: State, chain: seq<Addr>)
    requires ArenaOk(s, chain) && chain != []
    ensures s.frameNext % 16 == 0
  {
    assert chain[|chain| - 1] % 16 == 0;
  }

  lemma PushArena(s: State, s': State, chain: seq<Addr>, h: Frame)
    requires ArenaOk(s, chain) && chain != [] && Pushed(s, s', h)
    ensures ArenaOk(s', chain + [s.frameNext])
  {
    var chain' := chain + [s.frameNext];
    PushedLower(s, s', chain, h);
    PushedFrame(s, s', chain, h);
    forall i | 0 <= i < |chain'|
      ensures FrameOk(s', chain', i)
    {
      if i < |chain| {
        FrameStable(s, s', chain, chain', i);
      }
    }
  }

  /** The current frame is re-laid out in place. */
  ghost predicate Replaced(s: State, s': State, h: Frame)
    requires s.current in s.frames
  {
    && s'.frameBegin == s.frameBegin && s'.frameEnd == s.frameEnd
    && s'.functions == s.functions && |s'.mem| == |s.mem|
    && s'.frames == s.frames[s.current := h]
    && s'.current == s.current
    && s'.frameNext == EndOf(s.current, h) <= s.frameEnd
    && h.caller == s.frames[s.current].caller
    && h.linkSubject == s.frames[s.current].linkSubject
    && h.sink == s.frames[s.current].sink
    && h.values == s.frames[s.current].values && h.top <= h.valueCapacity < TWO_31
  }

  lemma ReplaceArena(s: State, s': State, chain: seq<Addr>, h: Frame)
    requires ArenaOk(s, chain) && chain != [] && Replaced(s, s', h)
    ensures ArenaOk(s', chain)
  {
    var n := |chain| - 1;
    forall i | 0 <= i < n
      ensures chain[i] < s.current && s'.frames[chain[i]] == s.frames[chain[i]]
    {
      ChainOrder(s, chain, i, n);
    }
    ChainBelow(s, chain, n);
    forall i | 0 <= i < |chain|
      ensures FrameOk(s', chain, i)
    {
      assert FrameOk(s, chain, i);
    }
  }

  /** The current frame is dropped. */
  ghost predicate Popped(s: State, s': State)
    requires s.current in s.frames
  {
    && s'.frameBegin == s.frameBegin && s'.frameEnd == s.frameEnd
    && s'.functions == s.functions && |s'.mem| == |s.mem|
    && s'.frameNext == s.current && s'.current == s.frames[s.current].caller
  }

  lemma PopArena(s: State, s': State, chain: seq<Addr>)
    requires ArenaOk(s, chain) && chain != [] && Popped(s, s')
    requires forall i {:trigger chain[i]} :: 0 <= i < |chain| - 1 ==>
               chain[i] in s'.frames && SameHeader(s.frames[chain[i]], s'.frames[chain[i]])
    ensures ArenaOk(s', chain[..|chain| - 1])
  {
    var n := |chain| - 1;
    var chain' := chain[..n];
    ChainBelow(s, chain, n);
    assert FrameOk(s, chain, n);
    forall i | 0 <= i < n
      ensures FrameOk(s', chain', i)
    {
      assert FrameOk(s, chain, i);
      assert SameHeader(s.frames[chain[i]], s'.frames[chain[i]]);
      if i > 0 {
        assert chain'[i - 1] == chain[i - 1];
        assert SameHeader(s.frames[chain[i - 1]], s'.frames[chain[i - 1]]);
      }
    }
    if n > 0 {
      assert SameHeader(s.frames[chain[n - 1]], s'.frames[chain[n - 1]]);
    }
  }

  // ---- the call family -----------------------------------------------------------

  lemma CallNativeArena(s: State, chain: seq<Addr>, clo: Addr, d: Descriptor, A: nat, nargs: nat,
                        results: int, pc: nat, cont: nat)
    requires ArenaOk(s, chain) && chain != [] && d.Valid() && Ready(s, s.current)
    ensures var r := CallNative(s, s.current, clo, d, A, nargs, results, pc, cont);
            ArenaOk(r.s, if r.control.Enter? then chain + [s.frameNext] else chain)
  {
    var r := CallNative(s, s.current, clo, d, A, nargs, results, pc, cont);
    if !r.control.Enter? {
      ArenaStable(s, r.s, chain);
    } else {
      PushArena(s, r.s, chain, CalleeHeader(s, s.current, clo, d, A, nargs, results, cont));
    }
  }

  lemma TailNativeArena(s: State, chain: seq<Addr>, clo: Addr, d: Descriptor, A: nat, nargs: nat, pc: nat)
    requires ArenaOk(s, chain) && chain != [] && d.Valid() && Ready(s, s.current)
    ensures ArenaOk(TailNative(s, s.current, clo, d, A, nargs, pc).s, chain)
  {
    var r := TailNative(s, s.current, clo, d, A, nargs, pc);
    if !r.control.Enter? {
      ArenaStable(s, r.s, chain);
    } else {
      var h := TailHeader(s.frames[s.current], clo, d, nargs);
      assert r.s.frames == s.frames[s.current := h];
      ReplaceArena(s, r.s, chain, h);
    }
  }

  /** RETURN writes no header but the caller's top and its own open list. */
  lemma ReturnFrames(s: State, f: Addr, A: nat, nres: nat, pc: nat, a: Addr)
    requires Ready(s, f) && A + nres <= Extent(s.frames[f])
    requires a in s.frames && a != f
    ensures var r := ReturnN(s, f, A, nres, pc);
            && a in r.s.frames
            && r.s.frames[a] == s.frames[a].(top := r.s.frames[a].top)
            && (s.frames[a].top <= Extent(s.frames[a])
                && (s.frames[f].sink.top == FrameTop(a) ==>
                      s.frames[f].sink.capacity == s.frames[a].valueCapacity)
                ==> r.s.frames[a].top <= Extent(s.frames[a]))
  {
  }

  /** RETURN leaves the headers below the current frame standing. */
  lemma ReturnHeaders(s: State, chain: seq<Addr>, A: nat, nres: nat, pc: nat)
    requires ArenaOk(s, chain) && chain != [] && Ready(s, s.current)
    requires A + nres <= Extent(s.frames[s.current])
    ensures var s' := ReturnN(s, s.current, A, nres, pc).s;
            forall i {:trigger chain[i]} :: 0 <= i < |chain| - 1 ==>
              chain[i] in s'.frames && SameHeader(s.frames[chain[i]], s'.frames[chain[i]])
  {
    var n := |chain| - 1;
    var s' := ReturnN(s, s.current, A, nres, pc).s;
    assert FrameOk(s, chain, n);
    forall i | 0 <= i < n
      ensures chain[i] in s'.frames && SameHeader(s.frames[chain[i]], s'.frames[chain[i]])
    {
      ChainOrder(s, chain, i, n);
      ReturnFrames(s, s.current, A, nres, pc, chain[i]);
      if i < n - 1 {
        ChainOrder(s, chain, i, n - 1);
      }
    }
  }

  lemma ReturnArena(s: State, chain: seq<Addr>, A: nat, nres: nat, pc: nat)
    requires ArenaOk(s, chain) && chain != [] && Ready(s, s.current)
    requires A + nres <= Extent(s.frames[s.current])
    ensures var r := ReturnN(s, s.current, A, nres, pc);
            ArenaOk(r.s, if r.control.Enter? then chain[..|chain| - 1] else chain)
  {
    var r := ReturnN(s, s.current, A, nres, pc);
    if !r.control.Enter? {
      ArenaStable(s, r.s, chain);
    } else {
      ReturnHeaders(s, chain, A, nres, pc);
      PopArena(s, r.s, chain);
    }
  }
}
