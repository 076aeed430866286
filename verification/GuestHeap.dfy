/** The guest bump region: one cursor, 16-byte aligned blocks, no freeing. */
module GuestHeap {
  import opened Values

  datatype Heap = Heap(region: uint64, end: uint64, next: uint64) {
    /** A published region: non-null, cursor inside, and at least one alignment
        gap short of the top of the address space. */
    ghost predicate Valid() {
      0 < region <= next <= end <= TWO_64 - 16
    }
  }

  /** The cursor rounded up to 16, in pointer-width arithmetic. */
  function Aligned(next: uint64): (r: uint64)
    ensures r % 16 == 0
    ensures next <= TWO_64 - 16 ==> next <= r < next + 16
  {
    (next + 15) % TWO_64 / 16 * 16
  }

  /** Takes `size` bytes from the region; address 0 reports failure. */
  function Bump(h: Heap, size: uint64): (r: (Heap, uint64))
    ensures h.Valid() && r.1 == 0 ==> r.0 == h
  {
    if h.region == 0 then (h, 0)
    else
      var at := Aligned(h.next);
      var end := (at + size) % TWO_64;
      if end > h.end then (h, 0) else (h.(next := end), at)
  }

  /** A request whose end does not wrap is answered exactly: it succeeds when
      the aligned block fits, and the block then lies between the old and the
      new cursor. */
  lemma BumpExact(h: Heap, size: uint64)
    requires h.Valid()
    requires Aligned(h.next) + size < TWO_64
    ensures var (h', at) := Bump(h, size);
            && h'.Valid() && h'.region == h.region && h'.end == h.end
            && (at != 0 <==> Aligned(h.next) + size <= h.end)
            && (at != 0 ==> at % 16 == 0 && h.next <= at && at + size == h'.next)
  {
  }

  /** The region cannot give `size` bytes: it does not exist, or the end of the aligned
      block, in 64 bits, is past its end. */
  ghost predicate Denies(h: Heap, size: uint64) {
    h.region == 0 || Aligned(h.next) == 0 || (Aligned(h.next) + size) % TWO_64 > h.end
  }

  /** Whatever the region, a request is answered exactly so: address 0 and no change of the
      cursor, or the aligned cursor and the cursor behind the block. */
  lemma BumpAnswers(h: Heap, size: uint64)
    ensures Bump(h, size).1 == 0 <==> Denies(h, size)
    ensures !Denies(h, size) ==>
              Bump(h, size) == (h.(next := (Aligned(h.next) + size) % TWO_64), Aligned(h.next))
  {
  }

  /** For a published region and a request that does not wrap, that is the plain test. */
  lemma DeniesPlain(h: Heap, size: uint64)
    requires h.Valid() && Aligned(h.next) + size < TWO_64
    ensures Denies(h, size) <==> Aligned(h.next) + size > h.end
  {
  }

  /** The end test is done on the wrapped sum, so a granted block is contained
      in the region exactly when the sum did not wrap. */
  lemma BumpContainedIff(h: Heap, size: uint64)
    requires h.Valid()
    requires Bump(h, size).1 != 0
    ensures Bump(h, size).1 + size <= h.end <==> Aligned(h.next) + size < TWO_64
  {
  }

  /** A wrapping request is granted and moves the cursor backwards. */
  lemma BumpWraps()
    ensures var h := Heap(4096, 8192, 5000);
            var size: uint64 := TWO_64 - 16;
            h.Valid() && Bump(h, size).1 == 5008 && Bump(h, size).0.next == 4992
  {
  }

  // ---- building objects ----------------------------------------------------

  type byte = x: int | 0 <= x < 256

  /** The region together with its bytes, indexed by address. */
  datatype Memory = Memory(heap: Heap, bytes: seq<byte>) {
    ghost predicate Valid() {
      heap.Valid() && heap.end <= |bytes|
    }
  }

  /** Writes `content` at `at`. */
  function Write(bytes: seq<byte>, at: nat, content: seq<byte>): (r: seq<byte>)
    requires at + |content| <= |bytes|
    ensures |r| == |bytes|
    ensures r[at..at + |content|] == content
    ensures forall i {:trigger r[i]} :: 0 <= i < |bytes| && !(at <= i < at + |content|) ==> r[i] == bytes[i]
  {
    bytes[..at] + content + bytes[at + |content|..]
  }

  /** Builds one object: takes a block and fills it, or does nothing at all.
      This is what every guest constructor does with its block. */
  function Build(m: Memory, content: seq<byte>): (r: (Memory, nat))
    requires m.Valid() && |content| < TWO_64
    requires Aligned(m.heap.next) + |content| < TWO_64
    ensures r.0.Valid()
  {
    BumpExact(m.heap, |content|);
    var (h', at) := Bump(m.heap, |content|);
    if at == 0 then (m, 0) else (Memory(h', Write(m.bytes, at, content)), at)
  }

  /** Builds objects in order; failed ones get address 0. */
  function BuildAll(m: Memory, objects: seq<seq<byte>>): (r: (Memory, seq<nat>))
    requires m.Valid()
    requires forall o :: o in objects ==> m.heap.end + |o| <= TWO_64 - 16
    ensures r.0.Valid() && r.0.heap.end == m.heap.end && |r.1| == |objects|
    decreases |objects|
  {
    if objects == [] then (m, [])
    else
      var (m1, at) := Build(m, objects[0]);
      BumpExact(m.heap, |objects[0]|);
      var (m2, rest) := BuildAll(m1, objects[1..]);
      (m2, [at] + rest)
  }

  /** A block granted from cursor `lo` up to cursor `hi`. */
  ghost predicate Block(m: Memory, lo: nat, hi: nat, at: nat, content: seq<byte>) {
    && at % 16 == 0 && lo <= at && at + |content| <= hi <= |m.bytes|
    && m.bytes[at..at + |content|] == content
  }

  /** One construction leaves everything below the cursor alone. */
  lemma BuildOne(m: Memory, content: seq<byte>)
    requires m.Valid()
    requires m.heap.end + |content| <= TWO_64 - 16
    ensures var (m', at) := Build(m, content);
            && m.heap.next <= m'.heap.next <= m'.heap.end == m.heap.end
            && |m'.bytes| == |m.bytes|
            && m'.bytes[..m.heap.next] == m.bytes[..m.heap.next]
            && (at == 0 <==> Aligned(m.heap.next) + |content| > m.heap.end) && (at == 0 ==> m' == m)
            && (at != 0 ==> Block(m', m.heap.next, m'.heap.next, at, content))
  {
    BumpExact(m.heap, |content|);
  }

  /** A block survives anything that keeps the bytes below its cursor. */
  lemma BlockStays(m: Memory, m': Memory, lo: nat, mid: nat, hi: nat, at: nat, content: seq<byte>)
    requires Block(m, lo, mid, at, content)
    requires mid <= hi <= |m'.bytes| && m'.bytes[..mid] == m.bytes[..mid]
    ensures Block(m', lo, hi, at, content)
  {
    var end := at + |content|;
    assert m.bytes[at..end] == m.bytes[..mid][at..end];
    assert m'.bytes[at..end] == m'.bytes[..mid][at..end];
  }

  /** What a run from `m` to `m'` guarantees for the objects it built. */
  ghost predicate Kept(m: Memory, m': Memory, at: seq<nat>, objects: seq<seq<byte>>) {
    && |at| == |objects| && |m'.bytes| == |m.bytes|
    && m.heap.next <= m'.heap.next <= |m.bytes|
    && m'.bytes[..m.heap.next] == m.bytes[..m.heap.next]
    && forall i {:trigger at[i]} :: 0 <= i < |objects| && at[i] != 0 ==>
         Block(m', m.heap.next, m'.heap.next, at[i], objects[i])
  }

  lemma KeptCons(m: Memory, m1: Memory, m': Memory, a0: nat, rest: seq<nat>, o: seq<byte>,
                 os: seq<seq<byte>>)
    requires Kept(m, m1, [a0], [o]) && Kept(m1, m', rest, os)
    ensures Kept(m, m', [a0] + rest, [o] + os)
  {
    assert m'.bytes[..m.heap.next] == m'.bytes[..m1.heap.next][..m.heap.next];
    assert m1.bytes[..m.heap.next] == m1.bytes[..m1.heap.next][..m.heap.next];
    if a0 != 0 {
      assert [a0][0] != 0;
      BlockStays(m1, m', m.heap.next, m1.heap.next, m'.heap.next, a0, o);
    }
    var at := [a0] + rest;
    forall i | 0 <= i < |at| && at[i] != 0
      ensures Block(m', m.heap.next, m'.heap.next, at[i], ([o] + os)[i])
    {
      if i > 0 {
        assert at[i] == rest[i - 1];
      }
    }
  }

  /** Any run of constructions: bytes below the starting cursor are never
      touched, and every object built is 16-aligned, inside the region, and
      still holds its own bytes at the end of the run. */
  lemma {:induction false} BuildAllKeeps(m: Memory, objects: seq<seq<byte>>)
    requires m.Valid()
    requires forall o :: o in objects ==> m.heap.end + |o| <= TWO_64 - 16
    ensures Kept(m, BuildAll(m, objects).0, BuildAll(m, objects).1, objects)
    decreases |objects|
  {
    if objects != [] {
      BuildOne(m, objects[0]);
      var (m1, a0) := Build(m, objects[0]);
      BuildAllKeeps(m1, objects[1..]);
      var (m', rest) := BuildAll(m1, objects[1..]);
      KeptCons(m, m1, m', a0, rest, objects[0], objects[1..]);
      assert [objects[0]] + objects[1..] == objects;
    }
  }

  lemma BuildEnds(m: Memory, content: seq<byte>)
    requires m.Valid() && m.heap.end + |content| <= TWO_64 - 16
    ensures var (m', at) := Build(m, content);
            m'.heap.end == m.heap.end && (at != 0 ==> at + |content| <= m'.heap.next)
  {
    BumpExact(m.heap, |content|);
  }

  lemma BuildAllCons(m: Memory, objects: seq<seq<byte>>)
    requires m.Valid() && objects != []
    requires forall o :: o in objects ==> m.heap.end + |o| <= TWO_64 - 16
    ensures var (m1, a0) := Build(m, objects[0]);
            && m1.heap.end == m.heap.end
            && BuildAll(m, objects).1 == [a0] + BuildAll(m1, objects[1..]).1
  {
    BumpExact(m.heap, |objects[0]|);
  }

  /** Two objects of one run never share a byte: the later one starts at or
      after the end of the earlier one. */
  lemma {:induction false} BuildAllDisjoint(m: Memory, objects: seq<seq<byte>>, i: nat, j: nat)
    requires m.Valid()
    requires forall o :: o in objects ==> m.heap.end + |o| <= TWO_64 - 16
    requires i < j < |objects|
    ensures var at := BuildAll(m, objects).1;
            at[i] != 0 && at[j] != 0 ==> at[i] + |objects[i]| <= at[j]
    decreases |objects|
  {
    BuildEnds(m, objects[0]);
    BuildAllCons(m, objects);
    var (m1, a0) := Build(m, objects[0]);
    var tail := objects[1..];
    var rest := BuildAll(m1, tail).1;
    assert tail[j - 1] == objects[j] && ([a0] + rest)[j] == rest[j - 1];
    if i == 0 {
      BuiltAfter(m1, tail, j - 1);
    } else {
      assert tail[i - 1] == objects[i] && ([a0] + rest)[i] == rest[i - 1];
      BuildAllDisjoint(m1, tail, i - 1, j - 1);
    }
  }

  /** Everything a run builds lies at or after its starting cursor. */
  lemma BuiltAfter(m: Memory, objects: seq<seq<byte>>, j: nat)
    requires m.Valid() && j < |objects|
    requires forall o :: o in objects ==> m.heap.end + |o| <= TWO_64 - 16
    ensures BuildAll(m, objects).1[j] != 0 ==> m.heap.next <= BuildAll(m, objects).1[j]
  {
    BuildAllKeeps(m, objects);
    var (m', at) := BuildAll(m, objects);
    assert at[j] != 0 ==> Block(m', m.heap.next, m'.heap.next, at[j], objects[j]);
  }

  /** The heap record itself, whose cursor allocation moves in place. */
  class GuestRegion {
    var state: Heap

    constructor (h: Heap)
      ensures state == h
    {
      state := h;
    }

    method Take(size: uint64) returns (at: uint64)
      modifies this
      ensures (state, at) == Bump(old(state), size)
    {
      at := 0;
      if state.region == 0 { return; }
      var aligned := Aligned(state.next);
      var end := (aligned + size) % TWO_64;
      if end > state.end { return; }
      state := state.(next := end);
      at := aligned;
    }
  }
}
