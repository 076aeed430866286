/** Bulk 64-bit loops: the generic block-then-tail loop, the loops specialised by
    which operations are present, by tail length and by rotation, and the learner
    that picks one from the operands. */
module U64Loops {
  import opened Values
  import opened Bits

  type Word = uint64

  /** The word operations of the target. Shifts give 0 for counts of 64 and more, as
      the variable vector shifts do. */
  datatype Alu = Alu(
    add: (Word, Word) -> Word,
    xor: (Word, Word) -> Word,
    or: (Word, Word) -> Word,
    shl: (Word, nat) -> Word,
    shr: (Word, nat) -> Word)

  const MACHINE := Alu(Plus, Xor, Or, Left, Right)

  function Plus(x: Word, y: Word): Word { (x + y) % TWO_64 }

  function Xor(x: Word, y: Word): Word {
    Pow2Word();
    XorBelow(x, y, 64);
    XorBits(x, y)
  }

  function Or(x: Word, y: Word): Word {
    Pow2Word();
    OrBelow(x, y, 64);
    OrBits(x, y)
  }

  function Left(x: Word, n: nat): Word { if n >= 64 then 0 else x * Pow2(n) % TWO_64 }

  function Right(x: Word, n: nat): Word {
    if n >= 64 then 0
    else
      DivSmaller(x, Pow2(n));
      x / Pow2(n)
  }

  /** All the loops need to know: adding 0, masking with 0 and shifting by 0 and by
      64 do what they should. */
  ghost predicate Laws(u: Alu) {
    && (forall x: Word :: u.add(x, 0) == x)
    && (forall x: Word :: u.xor(x, 0) == x)
    && (forall x: Word {:trigger u.shl(x, 0)} :: u.or(u.shl(x, 0), u.shr(x, 64)) == x)
  }

  lemma MachineLaws()
    ensures Laws(MACHINE)
  {
    forall x: Word
      ensures Xor(x, 0) == x
      ensures Or(Left(x, 0), Right(x, 64)) == x
    {
      assert Pow2(0) == 1 && AndBits(x, 0) == 0 && XorBits(x, 0) == x;
    }
  }

  /** rotate_left_u64 and scalar_rotate. */
  function RotateLeft(u: Alu, x: Word, count: nat): Word {
    var r := count % 64;
    if r == 0 then x else u.or(u.shl(x, r), u.shr(x, 64 - r))
  }

  /** The operands of one run, with the operations they are applied by. */
  datatype Job = Job(u: Alu, addend: Word, mask: Word, rotate: nat)

  /** What every loop is to compute, element by element. */
  function Element(j: Job, x: Word): Word {
    RotateLeft(j.u, j.u.xor(j.u.add(x, j.addend), j.mask), j.rotate)
  }

  function Transformed(j: Job, input: seq<Word>, output: seq<Word>, count: nat): (r: seq<Word>)
    requires count <= |input| && count <= |output|
    ensures |r| == |output|
  {
    seq(|output|, i requires 0 <= i < |output| => if i < count then Element(j, input[i]) else output[i])
  }

  // ---- what an element means -----------------------------------------------------------------

  /** Shifted words, bit by bit. */
  lemma ShiftBits(x: Word, n: nat, i: nat)
    requires i < 64
    ensures Bit(Left(x, n), i) <==> i >= n && Bit(x, i - n)
    ensures Bit(Right(x, n), i) <==> i + n < 64 && Bit(x, i + n)
  {
    Pow2Word();
    NoBits(i);
    if n < 64 {
      LowBit(x * Pow2(n), 64, i);
      LeftBit(x, n, i);
      RightBit(x, n, Right(x, n), i);
      if i + n >= 64 {
        BitAbove(x, 64, i + n);
      }
    }
  }

  lemma SourceBit(i: nat, count: nat)
    requires i < 64
    ensures var r := count % 64; (i - count) % 64 == if i >= r then i - r else i - r + 64
  {
    var r, k := count % 64, count / 64;
    assert i - count == (i - r) - 64 * k;
  }

  /** Rotation to the left: bit i comes from bit i - count, modulo 64. */
  lemma RotateBits(x: Word, count: nat, i: nat)
    requires i < 64
    ensures Bit(RotateLeft(MACHINE, x, count), i) <==> Bit(x, (i - count) % 64)
  {
    var r := count % 64;
    SourceBit(i, count);
    if r != 0 {
      ShiftBits(x, r, i);
      ShiftBits(x, 64 - r, i);
      OrBit(Left(x, r), Right(x, 64 - r), i);
    }
  }

  /** An element of the machine: bit i of the result is bit i - rotate of the sum, modulo
      2^64, flipped where the mask has a bit. */
  lemma ElementMeans(j: Job, x: Word, i: nat)
    requires j.u == MACHINE && i < 64
    ensures var k: nat := (i - j.rotate) % 64;
            Bit(Element(j, x), i) <==> Bit((x + j.addend) % TWO_64, k) != Bit(j.mask, k)
  {
    var v := Xor(Plus(x, j.addend), j.mask);
    RotateBits(v, j.rotate, i);
    XorBit(Plus(x, j.addend), j.mask, (i - j.rotate) % 64);
  }

  // ---- lanes -------------------------------------------------------------------------

  /** One lane of the generic loop; the right count is 64 when nothing rotates. */
  function BulkLane(j: Job, x: Word): Word {
    var r := j.rotate % 64;
    var v := j.u.xor(j.u.add(x, j.addend), j.mask);
    j.u.or(j.u.shl(v, r), j.u.shr(v, 64 - r))
  }

  lemma BulkLaneExact(j: Job, x: Word)
    requires Laws(j.u)
    ensures BulkLane(j, x) == Element(j, x)
  {
    var v := j.u.xor(j.u.add(x, j.addend), j.mask);
    assert j.u.or(j.u.shl(v, 0), j.u.shr(v, 64)) == v;
  }

  /** A specialised loop: which operations it contains, its tail, and the rotation
      patched into its vector part. */
  datatype Code = Code(add: bool, xor: bool, rot: bool, tail: nat, imm: nat)

  function Prefix(c: Code, j: Job, x: Word): Word {
    var v := if c.add then j.u.add(x, j.addend) else x;
    if c.xor then j.u.xor(v, j.mask) else v
  }

  function VectorLane(c: Code, j: Job, x: Word): Word
    requires c.rot ==> 0 < c.imm < 64
  {
    var v := Prefix(c, j, x);
    if c.rot then j.u.or(j.u.shl(v, c.imm), j.u.shr(v, 64 - c.imm)) else v
  }

  function ScalarLane(c: Code, j: Job, x: Word): Word {
    var v := Prefix(c, j, x);
    if c.rot then RotateLeft(j.u, v, j.rotate) else v
  }

  /** The code is the one for these operands: it leaves out exactly the operations
      that would do nothing. */
  predicate For(c: Code, j: Job) {
    && c.add == (j.addend != 0) && c.xor == (j.mask != 0) && c.rot == (j.rotate % 64 != 0)
    && (c.rot ==> c.imm == j.rotate % 64)
  }

  lemma PrefixExact(c: Code, j: Job, x: Word)
    requires Laws(j.u) && For(c, j)
    ensures Prefix(c, j, x) == j.u.xor(j.u.add(x, j.addend), j.mask)
  {
    var v := j.u.add(x, j.addend);
    assert j.u.add(x, 0) == x && j.u.xor(v, 0) == v;
  }

  /** Vector lane, scalar lane and element agree. */
  lemma LanesExact(c: Code, j: Job, x: Word)
    requires Laws(j.u) && For(c, j)
    ensures VectorLane(c, j, x) == Element(j, x)
    ensures ScalarLane(c, j, x) == Element(j, x)
  {
    PrefixExact(c, j, x);
  }

  function BulkLanes(j: Job, xs: seq<Word>): (b: seq<Word>)
    requires |xs| == 4
    ensures |b| == 4
  {
    [BulkLane(j, xs[0]), BulkLane(j, xs[1]), BulkLane(j, xs[2]), BulkLane(j, xs[3])]
  }

  function VectorLanes(c: Code, j: Job, xs: seq<Word>): (b: seq<Word>)
    requires |xs| == 4 && (c.rot ==> 0 < c.imm < 64)
    ensures |b| == 4
  {
    [VectorLane(c, j, xs[0]), VectorLane(c, j, xs[1]), VectorLane(c, j, xs[2]), VectorLane(c, j, xs[3])]
  }

  lemma BulkLanesExact(j: Job, xs: seq<Word>)
    requires Laws(j.u) && |xs| == 4
    ensures forall k :: 0 <= k < 4 ==> BulkLanes(j, xs)[k] == Element(j, xs[k])
  {
    forall k | 0 <= k < 4
      ensures BulkLanes(j, xs)[k] == Element(j, xs[k])
    {
      BulkLaneExact(j, xs[k]);
    }
  }

  lemma VectorLanesExact(c: Code, j: Job, xs: seq<Word>)
    requires Laws(j.u) && For(c, j) && |xs| == 4
    ensures forall k :: 0 <= k < 4 ==> VectorLanes(c, j, xs)[k] == Element(j, xs[k])
  {
    forall k | 0 <= k < 4
      ensures VectorLanes(c, j, xs)[k] == Element(j, xs[k])
    {
      LanesExact(c, j, xs[k]);
    }
  }

  // ---- the loops ------------------------------------------------------------------------

  /** Elements below `done` are written, the others untouched. */
  ghost predicate Progress(j: Job, input: seq<Word>, output: seq<Word>, now: seq<Word>, done: nat) {
    && |now| == |output| && done <= |input| && done <= |output|
    && (forall i :: 0 <= i < done ==> now[i] == Element(j, input[i]))
    && (forall i :: done <= i < |output| ==> now[i] == output[i])
  }

  lemma ProgressDone(j: Job, input: seq<Word>, output: seq<Word>, now: seq<Word>, count: nat)
    requires Progress(j, input, output, now, count)
    ensures now == Transformed(j, input, output, count)
  {
  }

  /** Four stores. */
  method StoreBlock(output: array<Word>, index: nat, block: seq<Word>)
    requires |block| == 4 && index + 4 <= output.Length
    modifies output
    ensures output[..] == old(output[..index]) + block + old(output[index + 4..])
  {
    output[index] := block[0];
    output[index + 1] := block[1];
    output[index + 2] := block[2];
    output[index + 3] := block[3];
  }

  /** One more block of elements. */
  lemma ProgressBlock(j: Job, input: seq<Word>, output: seq<Word>, now: seq<Word>, index: nat, block: seq<Word>)
    requires Progress(j, input, output, now, index) && |block| == 4 && index + 4 <= |input| && index + 4 <= |output|
    requires forall k :: 0 <= k < 4 ==> block[k] == Element(j, input[index + k])
    ensures Progress(j, input, output, now[..index] + block + now[index + 4..], index + 4)
  {
    var now' := now[..index] + block + now[index + 4..];
    forall i | 0 <= i < index + 4
      ensures now'[i] == Element(j, input[i])
    {
      if i >= index {
        assert now'[i] == block[i - index];
      }
    }
  }

  /** The input still to be read is unchanged, also when the loop works in place. */
  ghost predicate Ahead(input: seq<Word>, now: seq<Word>, index: nat) {
    |now| == |input| && forall i :: index <= i < |input| ==> now[i] == input[i]
  }

  /** Storing a block of elements. */
  method PutBlock(j: Job, input: array<Word>, output: array<Word>, i: nat, block: seq<Word>,
                  ghost was: seq<Word>, ghost out: seq<Word>)
    requires |block| == 4 && i + 4 <= input.Length && i + 4 <= output.Length
    requires Progress(j, was, out, output[..], i) && Ahead(was, input[..], i)
    requires forall k :: 0 <= k < 4 ==> block[k] == Element(j, was[i + k])
    modifies output
    ensures Progress(j, was, out, output[..], i + 4) && Ahead(was, input[..], i + 4)
  {
    ProgressBlock(j, was, out, output[..], i, block);
    StoreBlock(output, i, block);
  }

  /** One block of the generic loop: four loads, the lanes, four stores. */
  method BulkBlock(j: Job, input: array<Word>, output: array<Word>, i: nat, ghost was: seq<Word>, ghost out: seq<Word>)
    requires Laws(j.u) && i + 4 <= input.Length && i + 4 <= output.Length
    requires Progress(j, was, out, output[..], i) && Ahead(was, input[..], i)
    modifies output
    ensures Progress(j, was, out, output[..], i + 4) && Ahead(was, input[..], i + 4)
  {
    var load := input[i..i + 4];
    BulkLanesExact(j, load);
    PutBlock(j, input, output, i, BulkLanes(j, load), was, out);
  }

  /** One block of a specialised loop. */
  method VectorBlock(c: Code, j: Job, input: array<Word>, output: array<Word>, i: nat,
                     ghost was: seq<Word>, ghost out: seq<Word>)
    requires Laws(j.u) && i + 4 <= input.Length && i + 4 <= output.Length && For(c, j)
    requires Progress(j, was, out, output[..], i) && Ahead(was, input[..], i)
    modifies output
    ensures Progress(j, was, out, output[..], i + 4) && Ahead(was, input[..], i + 4)
  {
    var load := input[i..i + 4];
    VectorLanesExact(c, j, load);
    PutBlock(j, input, output, i, VectorLanes(c, j, load), was, out);
  }

  method BulkElement(j: Job, input: array<Word>, output: array<Word>, i: nat,
                     ghost was: seq<Word>, ghost out: seq<Word>)
    requires i < input.Length && i < output.Length
    requires Progress(j, was, out, output[..], i) && Ahead(was, input[..], i)
    modifies output
    ensures Progress(j, was, out, output[..], i + 1) && Ahead(was, input[..], i + 1)
  {
    output[i] := RotateLeft(j.u, j.u.xor(j.u.add(input[i], j.addend), j.mask), j.rotate % 64);
    assert output[i] == Element(j, was[i]);
  }

  /** ns_u64_bulk. `input` may be `output`. */
  method BulkLoop(j: Job, input: array<Word>, output: array<Word>, count: nat)
    requires Laws(j.u) && count <= input.Length && count <= output.Length
    modifies output
    ensures output[..] == Transformed(j, old(input[..]), old(output[..]), count)
  {
    ghost var was, out := input[..], output[..];
    var index := 0;
    while index + 4 <= count
      invariant index <= count
      invariant Progress(j, was, out, output[..], index) && Ahead(was, input[..], index)
    {
      BulkBlock(j, input, output, index, was, out);
      index := index + 4;
    }
    while index < count
      invariant index <= count
      invariant Progress(j, was, out, output[..], index) && Ahead(was, input[..], index)
    {
      BulkElement(j, input, output, index, was, out);
      index := index + 1;
    }
    ProgressDone(j, was, out, output[..], count);
  }

  /** DEFINE_TAIL_LOOP: whole blocks up to count - tail, then up to three elements. */
  method TailLoop(c: Code, j: Job, input: array<Word>, output: array<Word>, count: nat)
    requires Laws(j.u) && count <= input.Length && count <= output.Length
    requires c.tail == count % 4 && For(c, j)
    modifies output
    ensures output[..] == Transformed(j, old(input[..]), old(output[..]), count)
  {
    ghost var was, out := input[..], output[..];
    var vectorCount := count - c.tail;
    var index := 0;
    while index < vectorCount
      invariant index <= vectorCount && index % 4 == 0
      invariant Progress(j, was, out, output[..], index) && Ahead(was, input[..], index)
    {
      VectorBlock(c, j, input, output, index, was, out);
      index := index + 4;
    }
    if c.tail > 0 { TailElement(c, j, input, output, index, was, out); }
    if c.tail > 1 { TailElement(c, j, input, output, index + 1, was, out); }
    if c.tail > 2 { TailElement(c, j, input, output, index + 2, was, out); }
    ProgressDone(j, was, out, output[..], count);
  }

  /** SCALAR_TAIL_ELEMENT. */
  method TailElement(c: Code, j: Job, input: array<Word>, output: array<Word>, i: nat,
                     ghost was: seq<Word>, ghost out: seq<Word>)
    requires Laws(j.u) && i < input.Length && i < output.Length && For(c, j)
    requires Progress(j, was, out, output[..], i) && Ahead(was, input[..], i)
    modifies output
    ensures Progress(j, was, out, output[..], i + 1) && Ahead(was, input[..], i + 1)
  {
    LanesExact(c, j, was[i]);
    output[i] := ScalarLane(c, j, input[i]);
  }

  // ---- the learner ---------------------------------------------------------------------------

  /** A compiled variant: its size in bytes, and the loop it is. */
  datatype Variant = Missing | Variant(size: nat, code: Code)

  /** The variant table, by kind, remainder and rotation. */
  type Variants = (nat, nat, nat) -> Variant

  /** Every variant in the table is the loop its indices say. */
  ghost predicate Built(variants: Variants) {
    forall kind: nat, rem: nat, r: nat {:trigger variants(kind, rem, r)} :: variants(kind, rem, r).Variant? ==>
      var c := variants(kind, rem, r).code;
      && c.add == (kind % 2 == 1) && c.xor == (kind / 2 % 2 == 1) && c.rot == (kind / 4 == 1)
      && c.tail == rem && (c.rot ==> c.imm == r)
  }

  /** One bit per operation that does something. */
  function Kind(j: Job): nat {
    (if j.addend != 0 then 1 else 0) + (if j.mask != 0 then 2 else 0) + (if j.rotate % 64 != 0 then 4 else 0)
  }

  function Chosen(variants: Variants, j: Job, count: nat): Variant {
    variants(Kind(j), count % 4, j.rotate % 64)
  }

  /** The variant picked from the operands is the loop for them. */
  lemma ChosenFits(variants: Variants, j: Job, count: nat)
    requires Built(variants) && Chosen(variants, j, count).Variant?
    ensures For(Chosen(variants, j, count).code, j) && Chosen(variants, j, count).code.tail == count % 4
  {
    var kind := Kind(j);
    assert kind % 2 == 1 <==> j.addend != 0;
  }

  class NativeLearner {
    var input: array<Word>
    var output: array<Word>
    var count: nat
    var job: Job
    /** The loop currently in the code slot. */
    var slot: Option<Code>
    var generation: nat
    const capacity: nat
    const variants: Variants

    constructor (src: array<Word>, dst: array<Word>, n: nat, j: Job, cap: nat, table: Variants)
      ensures input == src && output == dst && count == n && job == j
      ensures capacity == cap && variants == table && slot == None && generation == 0
    {
      input, output, count, job := src, dst, n, j;
      capacity, variants, slot, generation := cap, table, None, 0;
    }

    /** u64_native_learn_and_execute: 1 without a fitting variant, 2 and 3 when a
        protection change (`writable`, `executable`) is refused, else 0. */
    method LearnAndExecute(writable: bool, executable: bool) returns (status: nat)
      requires Laws(job.u) && Built(variants) && count <= input.Length && count <= output.Length && generation < TWO_64
      modifies `slot, `generation, output
      ensures var v := Chosen(variants, job, count);
              status == if v.Missing? || v.size == 0 || v.size > capacity then 1
                        else if !writable then 2 else if !executable then 3 else 0
      ensures status == 0 ==>
                && output[..] == Transformed(job, old(input[..]), old(output[..]), count)
                && generation == (old(generation) + 1) % TWO_64
      ensures status != 0 ==> output[..] == old(output[..]) && generation == old(generation)
      ensures if status == 1 || status == 2 then slot == old(slot)
              else Chosen(variants, job, count).Variant? && slot == Some(Chosen(variants, job, count).code)
    {
      var r := job.rotate % 64;
      var kind := 0;
      if job.addend != 0 { kind := kind + 1; }
      if job.mask != 0 { kind := kind + 2; }
      if r != 0 { kind := kind + 4; }
      var v := variants(kind, count % 4, r);
      if v.Missing? || v.size == 0 || v.size > capacity { return 1; }
      if !writable { return 2; }
      slot := Some(v.code);
      if !executable { return 3; }
      generation := (generation + 1) % TWO_64;
      ChosenFits(variants, job, count);
      TailLoop(v.code, job, input, output, count);
      status := 0;
    }
  }
}
