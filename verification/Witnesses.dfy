/** States in which the laws with an exact condition fail. */
module Witnesses {
  import opened Values
  import opened Slots
  import opened GuestHeap
  import opened Frames
  import opened Arena
  import opened Upvalues
  import opened Machine
  import opened Transfer
  import opened Fragments

  /** An integer value. */
  function N(x: int64): Value { Value(Integer, x) }

  /** Memory with the given values in the slots from 136 on. */
  function Memory(v: seq<Value>): (m: Mem)
    requires |v| <= 64
    ensures |m| == 4000 && forall i: nat {:trigger v[i]} :: i < |v| ==> m[SlotAt(136, i)] == v[i]
  {
    assert forall i: nat :: (SlotAt(136, i) - 136) / SLOT == i && (SlotAt(136, i) - 136) % SLOT == 0;
    seq(4000, a => if 136 <= a < SlotAt(136, |v|) && (a - 136) % SLOT == 0 then v[(a - 136) / SLOT] else NIL)
  }

  /** Address of the one closure, over function 0. */
  const CLOSURE_AT := 5000

  /** The driver's root frame at address 16: its registers start at 136, and its results
      go to its own registers. */
  function Root(capacity: nat, mem: Mem, functions: seq<Descriptor>, cells: map<Addr, Cell>, open: Addr): State {
    State(mem,
          map[16 := Frame(0, 0, 16, Sink(136, FrameTop(16), 0, -1, capacity), 0, open, 0, 136, capacity, capacity,
                          0, 0, 0, 0)],
          16, 16 + FrameBytes(capacity, 0, 0), 4000, 16, functions, cells, map[CLOSURE_AT := Native(0, [])],
          Heap(4096, 8192, 6000), Executing, 0,
          PreparedCall(0, 0, 0, 0, 0), PreparedTail(0, 0, 0, 0, 0, 0, 0, 0, 0))
  }

  lemma RootLaunched(capacity: nat, mem: Mem, functions: seq<Descriptor>)
    requires capacity <= 64 && |mem| == 4000 && forall i :: 0 <= i < |functions| ==> functions[i].Valid()
    ensures var s := Root(capacity, mem, functions, map[], 0);
            Launched(s) && Inv(s, [16], [[]]) && Ready(s, 16)
  {
    LaunchInv(Root(capacity, mem, functions, map[], 0));
  }

  // ---- many arguments for a vararg function -------------------------------------------------

  /** `function f(...)` with two registers of its own and the driver's slack of 16. */
  const VARIADIC := Descriptor(1, 2, 0, true, 18, 0)

  /** A main chunk about to call f, in register 0, with the arguments 1, 2, ... after it. */
  ghost predicate Calling(s: State) {
    && Launched(s) && Inv(s, [16], [[]]) && Ready(s, 16) && s.current == 16
    && s.frames[16].valueCapacity == 60 && s.frames[16].values == 136
    && s.frameNext == 1104 && s.frameEnd == 4000 == |s.mem|
    && NativeCallee(s, Reg(s, 16, 0)) == Some((CLOSURE_AT, VARIADIC))
    && forall i: nat {:trigger Reg(s, 16, i)} :: 1 <= i < 60 ==> Reg(s, 16, i) == N(i)
  }

  lemma CallingExists() returns (s: State)
    ensures Calling(s)
  {
    var v := seq(60, (i: nat) requires i < 60 => if i == 0 then Reference(Closure, CLOSURE_AT) else N(i));
    s := Root(60, Memory(v), [VARIADIC], map[], 0);
    RootLaunched(60, Memory(v), [VARIADIC]);
    forall i: nat | i < 60
      ensures Reg(s, 16, i) == v[i]
    {
      assert Memory(v)[SlotAt(136, i)] == v[i];
    }
    assert Reg(s, 16, 0) == Reference(Closure, CLOSURE_AT);
  }

  /** `return f(1, ..., n)` with 18 arguments or more: the slice starts 17 slots behind
      them, so the eighteenth arrives as 1. */
  lemma TailOverrunsWitness(n: nat) returns (s: State, op: Op)
    requires 18 <= n < 60
    ensures Launched(s) && op == TailOp(0, n + 1, 0, 0) && Enabled(s, op) && Exec(s, op).control == Enter(1, 16)
    ensures var s' := Step(s, op);
            && Ready(s, 16) && Fits(s', 16) && s.frames[16].valueCapacity == 60
            && (forall i: nat {:trigger Reg(s, 16, i)} :: 1 <= i <= n ==> Reg(s, 16, i) == N(i))
            && GetVarg(s', 16, 18) == N(1)
  {
    s := CallingExists();
    op := TailOp(0, n + 1, 0, 0);
    assert Reg(s, 16, 1) == N(1);
    TailOverrun(s.mem, 136, VARIADIC, 0, n);
  }

  /** CALL enters f with n surplus arguments. */
  lemma Entered(s: State, n: nat)
    requires Calling(s) && 1 <= n < 60
    ensures var op := CallOp(0, n + 1, 0, 0, 0);
            && Enabled(s, op) && Exec(s, op).control.Enter?
            && Exec(s, op) == CallNative(s, 16, CLOSURE_AT, VARIADIC, 0, n, -1, 0, 0)
  {
  }

  /** The frame f(1, ..., n) runs in. */
  lemma Called(s: State, n: nat)
    requires Calling(s) && 1 <= n < 60
    ensures var s' := CallNative(s, 16, CLOSURE_AT, VARIADIC, 0, n, -1, 0, 0).s;
            var f := s'.current;
            && f == s.frameNext && Ready(s', f)
            && s'.frames[f].valueCapacity == 18 && s'.frames[f].varargCount == n
            && forall key: nat {:trigger GetVarg(s', f, key)} :: 1 <= key <= n ==> GetVarg(s', f, key) == N(key)
  {
    var s' := CallNative(s, 16, CLOSURE_AT, VARIADIC, 0, n, -1, 0, 0).s;
    var f := s'.current;
    forall key: nat {:trigger GetVarg(s', f, key)} | 1 <= key <= n
      ensures GetVarg(s', f, key) == N(key)
    {
      PlaceVarargs(s.mem, s.frameNext + HEADER, VARIADIC, SlotAt(136, 1), n, key - 1);
      assert Reg(s, 16, key) == N(key);
    }
  }

  /** `f(1, ..., n)` with 19 arguments or more, and then `...` from register 0 on: top
      passes the 18 registers, the slice moves, and its first entry reads 19 afterwards. */
  lemma VarargOverrunsWitness(n: nat) returns (s: State, call: Op, spread: Op)
    requires 19 <= n < 60
    ensures Launched(s) && call == CallOp(0, n + 1, 0, 0, 0) && Enabled(s, call) && Exec(s, call).control.Enter?
    ensures var s1 := Step(s, call);
            var s2 := Step(s1, spread);
            var f := s1.current;
            && spread.VarargOp? && Enabled(s1, spread) && Fits(s1, f) && Fits(s2, f)
            && s2.frames[f].top > s2.frames[f].valueCapacity
            && GetVarg(s1, f, 1) == N(1) && GetVarg(s2, f, 1) == N(19)
  {
    s := CallingExists();
    call, spread := CallOp(0, n + 1, 0, 0, 0), VarargOp(0, -1);
    Entered(s, n);
    Called(s, n);
    var s1 := Step(s, call);
    VarargSliceAfter(s1, s1.current, 0, -1, 1);
    assert GetVarg(s1, s1.current, 19) == N(19);
  }

  // ---- RETURN of the root ---------------------------------------------------------------

  lemma CapturedRootInv(mem: Mem, c: Addr)
    requires |mem| == 4000 && 0 < c < CLOSURE_AT
    ensures var s := Root(2, mem, [], map[c := Cell(136, NIL, 0, Opened, 1)], c);
            Inv(s, [16], [[c]]) && Ready(s, 16)
  {
    var s := Root(2, mem, [], map[c := Cell(136, NIL, 0, Opened, 1)], c);
    assert FrameOk(s, [16], 0);
    assert Linked(s.cells, c, [c]);
    assert [[c]][0] == [c];
  }

  /** A root with register 0 captured and holding 1 returns register 1 holding 2: the
      cell of register 0 closes on 2. */
  lemma RootReturnWitness() returns (s: State, c: Addr)
    ensures Inv(s, [16], [[c]]) && Ready(s, 16) && c in s.cells && View(s, c) == N(1) && s.frames[16].valueCapacity == 2
    ensures var r := ReturnN(s, 16, 1, 1, 0);
            r.control.Enter? && c in r.s.cells && View(r.s, c) == N(2)
  {
    var v := [N(1), N(2)];
    var mem := Memory(v);
    assert mem[SlotAt(136, 0)] == v[0] && mem[SlotAt(136, 1)] == v[1];
    c := 4200;
    s := Root(2, mem, [], map[c := Cell(136, NIL, 0, Opened, 1)], c);
    CapturedRootInv(mem, c);
    assert CopySlots(mem, 136, 152, 0) == mem;
    assert CopySlots(mem, 136, 152, 1) == mem[136 := N(2)];
    OpenCellsExact(s.cells, s.frames[16], [c]);
  }

  // ---- the one-argument call leaf -------------------------------------------------------

  /** A callee without value slots: CALL gives it top 0, the leaf top 1. */
  lemma CallOneWitness() returns (s: State, d: Descriptor)
    ensures Ready(s, 16) && d.Valid() && !d.isVararg && CallNative(s, 16, 0, d, 0, 1, 0, 0, 0).control.Enter?
    ensures CallOne(s, 16, 0, d, 0, 0, 0, 0) != CallNative(s, 16, 0, d, 0, 1, 0, 0, 0)
  {
    s := Root(3, Memory([]), [], map[], 0);
    d := Descriptor(1, 0, 0, false, 0, 0);
    RootLaunched(3, s.mem, []);
    CallOneExact(s, 16, 0, d, 0, 0, 0, 0);
  }
}
