/** Proper tail calls: any chain of them runs in one frame slot. */
module TailCalls {
  import opened Frames
  import opened Upvalues
  import opened Machine

  /** The part of a frame that belongs to its caller. */
  ghost predicate SameLink(fr: Frame, fr': Frame) {
    && fr'.caller == fr.caller
    && fr'.linkEntry == fr.linkEntry && fr'.linkSubject == fr.linkSubject
    && fr'.sink == fr.sink
    && fr'.values == fr.values
  }

  predicate StaysInFrame(op: Op) { !op.CallOp? && !op.ReturnOp? }

  /** A step other than CALL and RETURN, tail calls included, keeps the link. */
  lemma StepLink(s: State, chain: seq<Addr>, opens: seq<seq<Addr>>, op: Op)
    requires Inv(s, chain, opens) && chain != [] && StaysInFrame(op)
    ensures var s' := Step(s, op);
            s.current in s'.frames && SameLink(s.frames[s.current], s'.frames[s.current])
  {
    if op.NewClosure? && Enabled(s, op) {
      ClosureShape(s, chain, opens, op.reg, op.proto, op.captures, op.pc);
    }
  }

  /** One step of a tail-call chain. */
  lemma StepStays(s: State, chain: seq<Addr>, opens: seq<seq<Addr>>, op: Op)
    returns (opens': seq<seq<Addr>>)
    requires Inv(s, chain, opens) && chain != [] && StaysInFrame(op)
    ensures var s' := Step(s, op);
            && Inv(s', chain, opens') && s.current in s'.frames
            && SameLink(s.frames[s.current], s'.frames[s.current])
  {
    StepLink(s, chain, opens, op);
    opens' := StepInv(s, chain, opens, op);
    assert ChainAfter(s, chain, op) == chain;
  }

  /** However many tail calls a function chain makes, the caller chain, the return
      link and the result sink are those of the first callee, and frame_next is
      exactly one frame of the latest callee above the frame start. */
  lemma {:induction false} TailChain(s: State, chain: seq<Addr>, opens: seq<seq<Addr>>, ops: seq<Op>)
    returns (opens': seq<seq<Addr>>)
    requires Inv(s, chain, opens) && chain != []
    requires forall op :: op in ops ==> StaysInFrame(op)
    ensures var t := Run(s, ops);
            && Inv(t, chain, opens') && t.current == s.current
            && s.current in t.frames && SameLink(s.frames[s.current], t.frames[s.current])
            && t.frameNext == EndOf(s.current, t.frames[s.current])
    decreases |ops|
  {
    opens' := opens;
    if ops != [] {
      opens' := StepStays(s, chain, opens, ops[0]);
      opens' := TailChain(Step(s, ops[0]), chain, opens', ops[1..]);
    }
  }
}
