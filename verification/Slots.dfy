/** Value memory addressed in bytes, and the ascending slot loops of the
    call family: copying `n` consecutive values and clearing tags to nil. */
module Slots {
  import opened Values

  /** sizeof a guest value. */
  const SLOT := 16

  /** Value memory: entry `a` is the value whose 16 bytes start at address `a`. */
  type Mem = seq<Value>

  function SlotAt(base: nat, i: nat): nat { base + SLOT * i }

  /** `for (i = 0; i < n; i++) dst[i] = src[i];`, overlap included. */
  function CopySlots(mem: Mem, dst: nat, src: nat, n: nat): (r: Mem)
    requires SlotAt(dst, n) <= |mem| && SlotAt(src, n) <= |mem|
    ensures |r| == |mem|
  {
    if n == 0 then mem
    else
      var m := CopySlots(mem, dst, src, n - 1);
      m[SlotAt(dst, n - 1) := m[SlotAt(src, n - 1)]]
  }

  /** `for (i = from; i < to; i++) SET_TAG(&base[i], NIL);` */
  function NilSlots(mem: Mem, base: nat, from: nat, to: nat): (r: Mem)
    requires SlotAt(base, to) <= |mem|
    ensures |r| == |mem|
  {
    if to <= from then mem
    else
      var m := NilSlots(mem, base, from, to - 1);
      var a := SlotAt(base, to - 1);
      m[a := m[a].SetTag(Nil)]
  }

  /** Equal everywhere except possibly at addresses in [lo, hi). */
  ghost predicate SameOutside(m: Mem, m': Mem, lo: int, hi: int) {
    && |m| == |m'|
    && forall a {:trigger m'[a]} :: 0 <= a < |m| && !(lo <= a < hi) ==> m'[a] == m[a]
  }

  lemma {:induction false} CopyFrame(mem: Mem, dst: nat, src: nat, n: nat)
    requires SlotAt(dst, n) <= |mem| && SlotAt(src, n) <= |mem|
    ensures SameOutside(mem, CopySlots(mem, dst, src, n), dst, SlotAt(dst, n))
  {
    if n > 0 {
      CopyFrame(mem, dst, src, n - 1);
    }
  }

  lemma {:induction false} NilFrame(mem: Mem, base: nat, from: nat, to: nat)
    requires SlotAt(base, to) <= |mem|
    ensures SameOutside(mem, NilSlots(mem, base, from, to), SlotAt(base, from), SlotAt(base, to))
  {
    if from < to {
      NilFrame(mem, base, from, to - 1);
    }
  }

  /** The copy delivers the original values as long as no slot is overwritten
      before it is read. */
  lemma {:induction false} CopyExact(mem: Mem, dst: nat, src: nat, n: nat, i: nat)
    requires SlotAt(dst, n) <= |mem| && SlotAt(src, n) <= |mem| && i < n
    requires dst <= src || SlotAt(src, n) <= dst
    ensures CopySlots(mem, dst, src, n)[SlotAt(dst, i)] == mem[SlotAt(src, i)]
  {
    CopyFrame(mem, dst, src, n - 1);
    if i < n - 1 {
      CopyExact(mem, dst, src, n - 1, i);
    }
  }

  lemma {:induction false} NilExact(mem: Mem, base: nat, from: nat, to: nat, i: nat)
    requires SlotAt(base, to) <= |mem| && from <= i < to
    ensures NilSlots(mem, base, from, to)[SlotAt(base, i)] == Value(Nil, mem[SlotAt(base, i)].word)
  {
    NilFrame(mem, base, from, to - 1);
    if i < to - 1 {
      NilExact(mem, base, from, to - 1, i);
    }
  }

  /** When the destination starts `d` slots after the source and inside it, slot
      `d` of the result holds the first source value instead of the `d`-th. */
  lemma {:induction false} CopyOverrun(mem: Mem, dst: nat, src: nat, n: nat, d: nat)
    requires SlotAt(dst, n) <= |mem| && SlotAt(src, n) <= |mem|
    requires 0 < d < n && dst == SlotAt(src, d)
    ensures CopySlots(mem, dst, src, n)[SlotAt(dst, d)] == mem[src]
    decreases n
  {
    if n == d + 1 {
      var m := CopySlots(mem, dst, src, d);
      assert SlotAt(src, d) == SlotAt(dst, 0);
      CopySubset(mem, dst, src, d, 0);
    } else {
      CopyOverrun(mem, dst, src, n - 1, d);
    }
  }

  /** Slots of the source that lie before the destination are read intact. */
  lemma {:induction false} CopySubset(mem: Mem, dst: nat, src: nat, n: nat, i: nat)
    requires SlotAt(dst, n) <= |mem| && SlotAt(src, n) <= |mem| && i < n
    requires SlotAt(src, i) < dst
    ensures CopySlots(mem, dst, src, n)[SlotAt(dst, i)] == mem[SlotAt(src, i)]
  {
    CopyFrame(mem, dst, src, n - 1);
    if i < n - 1 {
      CopySubset(mem, dst, src, n - 1, i);
    }
  }

  ghost predicate ExactCopy(mem: Mem, dst: nat, src: nat, n: nat)
    requires SlotAt(dst, n) <= |mem| && SlotAt(src, n) <= |mem|
  {
    forall i: nat {:trigger SlotAt(src, i)} :: i < n ==>
      CopySlots(mem, dst, src, n)[SlotAt(dst, i)] == mem[SlotAt(src, i)]
  }

  lemma CopyCorrupts(size: nat, dst: nat, src: nat, n: nat) returns (mem: Mem)
    requires SlotAt(dst, n) <= size && SlotAt(src, n) <= size
    requires dst % SLOT == src % SLOT
    requires src < dst < SlotAt(src, n)
    ensures |mem| == size && !ExactCopy(mem, dst, src, n)
  {
    mem := seq(size, a => if a == src then Value(True, 0) else NIL);
    var d := (dst - src) / SLOT;
    assert dst == SlotAt(src, d);
    CopyOverrun(mem, dst, src, n, d);
    assert mem[SlotAt(src, d)] == NIL && mem[src] != NIL;
  }

  /** A copy to a place a whole number of slots away is exact for every memory
      content if and only if the two places do not overlap forwards. */
  lemma CopyExactIff(size: nat, dst: nat, src: nat, n: nat)
    requires SlotAt(dst, n) <= size && SlotAt(src, n) <= size
    requires dst % SLOT == src % SLOT
    ensures (forall mem: Mem | |mem| == size :: ExactCopy(mem, dst, src, n))
            <==> !(src < dst < SlotAt(src, n))
  {
    if src < dst < SlotAt(src, n) {
      var mem := CopyCorrupts(size, dst, src, n);
    } else {
      forall mem: Mem | |mem| == size
        ensures ExactCopy(mem, dst, src, n)
      {
        forall i: nat | i < n
          ensures CopySlots(mem, dst, src, n)[SlotAt(dst, i)] == mem[SlotAt(src, i)]
        {
          CopyExact(mem, dst, src, n, i);
        }
      }
    }
  }
}
