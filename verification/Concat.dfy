/** CONCAT: string objects in the guest region, the one-piece opcode, and the
    measure / allocate / write / finish fragments it is composed from. The number
    formatters are parameters. */
module Concat {
  import opened Values
  import opened GuestHeap

  /** sizeof a string object, and the longest string tagged short. */
  const STRING_BYTES := 24
  const SHORT_MAX := 40

  /** A string object: its kind, its 32-bit length, and where its bytes are. */
  datatype Str = Str(long: bool, length: uint32, at: nat)

  datatype Store = Store(heap: Heap, bytes: seq<byte>, strings: map<nat, Str>) {
    /** A string's header and bytes lie in memory, outside the free part of the region. */
    ghost predicate StringOk(a: nat, s: Str) {
      && s.at + s.length <= |bytes|
      && (a + STRING_BYTES <= heap.next || heap.end <= a)
      && (s.at + s.length <= heap.next || heap.end <= s.at)
    }

    ghost predicate Ok() {
      && heap.Valid() && heap.end <= |bytes|
      && 0 !in strings && forall a :: a in strings ==> StringOk(a, strings[a])
    }

    /** The region ends far enough from the top for an object with n bytes. */
    ghost predicate Fits(n: nat) { heap.end + STRING_BYTES + n + 1 <= TWO_64 - 16 }
  }

  /** The bytes the foreign formatters write for a payload word. */
  datatype Formats = Formats(itoa: int64 -> seq<byte>, dtoa: int64 -> seq<byte>)

  // ---- operands -----------------------------------------------------------------------

  /** The rendering of one operand. */
  function Text(st: Store, fmt: Formats, v: Value): seq<byte> {
    if v.tag.IsString() then
      var r := v.Ref();
      if r in st.strings && st.strings[r].at + st.strings[r].length <= |st.bytes|
      then st.bytes[st.strings[r].at..st.strings[r].at + st.strings[r].length] else []
    else if v.tag == Integer then fmt.itoa(v.word)
    else if v.tag == Float then fmt.dtoa(v.word)
    else []
  }

  function Join(st: Store, fmt: Formats, ops: seq<Value>): seq<byte>
    decreases |ops|
  {
    if ops == [] then [] else Text(st, fmt, ops[0]) + Join(st, fmt, ops[1..])
  }

  /** `s .. i .. x` of a string object, an integer and a float: its bytes, and what the two
      formatters write. */
  lemma JoinKinds(st: Store, fmt: Formats, s: Value, i: int64, x: int64)
    requires s.tag.IsString() && s.Ref() in st.strings
    requires st.strings[s.Ref()].at + st.strings[s.Ref()].length <= |st.bytes|
    ensures var str := st.strings[s.Ref()];
            Join(st, fmt, [s, Value(Integer, i), Value(Float, x)]) ==
            st.bytes[str.at..str.at + str.length] + fmt.itoa(i) + fmt.dtoa(x)
  {
    var ops := [s, Value(Integer, i), Value(Float, x)];
    assert ops[1..] == [ops[1], ops[2]] && [ops[1], ops[2]][1..] == [ops[2]] && [ops[2]][1..] == [];
    assert Join(st, fmt, [ops[2]]) == fmt.dtoa(x) + [];
    assert Join(st, fmt, [ops[1], ops[2]]) == fmt.itoa(i) + fmt.dtoa(x);
  }

  lemma {:induction false} JoinSplit(st: Store, fmt: Formats, ops: seq<Value>, i: nat)
    requires i < |ops|
    ensures Join(st, fmt, ops[..i + 1]) == Join(st, fmt, ops[..i]) + Text(st, fmt, ops[i])
    decreases |ops|
  {
    if i > 0 {
      JoinSplit(st, fmt, ops[1..], i - 1);
      assert ops[..i + 1][1..] == ops[1..][..i] && ops[..i][1..] == ops[1..][..i - 1];
    } else {
      assert ops[..1][1..] == [] && ops[..0] == [];
    }
  }

  lemma {:induction false} JoinPrefix(st: Store, fmt: Formats, ops: seq<Value>, i: nat)
    requires i <= |ops|
    ensures |Join(st, fmt, ops[..i])| <= |Join(st, fmt, ops)|
    decreases |ops| - i
  {
    if i < |ops| {
      JoinSplit(st, fmt, ops, i);
      JoinPrefix(st, fmt, ops, i + 1);
    } else {
      assert ops[..i] == ops;
    }
  }

  /** String operands are known objects. */
  ghost predicate Known(st: Store, ops: seq<Value>) {
    forall i :: 0 <= i < |ops| && ops[i].tag.IsString() ==> ops[i].Ref() in st.strings
  }

  // ---- making a string -------------------------------------------------------------------

  datatype Made = Made(st: Store, value: Value) | HeapFull | InvalidObject | Unsupported

  function StringTag(n: nat): Tag { if n <= SHORT_MAX then ShortString else LongString }

  /** Bytes requested for a string of n bytes: at least one after the header. */
  function Request(n: nat): nat { STRING_BYTES + if n > 0 then n else 1 }

  /** The block and header of a string of n bytes, its bytes not yet written. */
  function Allocate(st: Store, n: uint64): (r: Made)
    ensures r.Made? || r.HeapFull?
  {
    var (h, at) := Bump(st.heap, Request(n) % TWO_64);
    if at == 0 then HeapFull
    else
      var key: nat := at;
      var s := Str(n > SHORT_MAX, n % TWO_32, at + STRING_BYTES);
      Made(Store(h, st.bytes, st.strings[key := s]), Reference(StringTag(n), at))
  }

  /** There is no string of n bytes exactly when the region denies its header and bytes, of
      which an empty string takes one. */
  lemma AllocateFullIff(st: Store, n: uint64)
    ensures Allocate(st, n).HeapFull? <==> Denies(st.heap, (STRING_BYTES + if n == 0 then 1 else n) % TWO_64)
  {
    BumpAnswers(st.heap, Request(n) % TWO_64);
  }

  lemma AllocateBlock(st: Store, n: uint64)
    requires st.Ok() && st.Fits(n) && Allocate(st, n).Made?
    ensures var m := Allocate(st, n);
            var at: nat := m.value.Ref();
            && m.st.heap.Valid() && m.value.tag == StringTag(n)
            && st.heap.next <= at && at + Request(n) == m.st.heap.next <= st.heap.end == m.st.heap.end
            && m.st.bytes == st.bytes
            && m.st.strings == st.strings[at := Str(n > SHORT_MAX, n % TWO_32, at + STRING_BYTES)]
  {
    var size: uint64 := Request(n);
    assert Request(n) % TWO_64 == size;
    BumpExact(st.heap, size);
    var (h, at) := Bump(st.heap, size);
    assert Reference(StringTag(n), at).Ref() == at;
  }

  /** The block lies between the old and the new cursor, on no existing object. */
  lemma AllocateExact(st: Store, n: uint64)
    requires st.Ok() && st.Fits(n) && Allocate(st, n).Made?
    ensures var m := Allocate(st, n);
            var at: nat := m.value.Ref();
            && m.st.Ok() && m.value.tag == StringTag(n)
            && st.heap.next <= at && at + Request(n) == m.st.heap.next <= st.heap.end == m.st.heap.end
            && at !in st.strings && m.st.bytes == st.bytes
            && m.st.strings == st.strings[at := Str(n > SHORT_MAX, n % TWO_32, at + STRING_BYTES)]
  {
    AllocateBlock(st, n);
    var m := Allocate(st, n);
    forall a | a in m.st.strings
      ensures m.st.StringOk(a, m.st.strings[a])
    {
      if a in st.strings {
        assert st.StringOk(a, st.strings[a]);
      }
    }
  }

  /** A finished string with the given bytes. */
  function Make(st: Store, text: seq<byte>): (r: Made)
    requires st.Ok() && st.Fits(|text|)
    ensures r.Made? || r.HeapFull?
  {
    match Allocate(st, |text|)
    case Made(st1, v) =>
      AllocateExact(st, |text|);
      Made(st1.(bytes := Write(st1.bytes, v.Ref() + STRING_BYTES, text)), v)
    case _ => HeapFull
  }

  /** Making a string leaves every existing string as it was. */
  lemma MakeKeeps(st: Store, text: seq<byte>, fmt: Formats, v: Value)
    requires st.Ok() && st.Fits(|text|) && Make(st, text).Made? && Known(st, [v])
    ensures Make(st, text).st.Ok()
    ensures Text(Make(st, text).st, fmt, v) == Text(st, fmt, v)
  {
    AllocateExact(st, |text|);
    var m := Make(st, text);
    var st1 := Allocate(st, |text|).st;
    forall a | a in m.st.strings
      ensures m.st.StringOk(a, m.st.strings[a])
    {
      assert st1.StringOk(a, st1.strings[a]);
    }
    if v.tag.IsString() {
      assert [v][0] == v;
      assert st.StringOk(v.Ref(), st.strings[v.Ref()]);
      assert Text(m.st, fmt, v) == Text(st, fmt, v);
    }
  }

  /** The new string reads back as the text exactly when its length fits 32 bits;
      it is tagged short exactly when it has at most 40 bytes, and its header
      kind agrees with the tag. */
  lemma MakeReads(st: Store, text: seq<byte>, fmt: Formats)
    requires st.Ok() && st.Fits(|text|) && Make(st, text).Made?
    ensures var m := Make(st, text);
            && (Text(m.st, fmt, m.value) == text <==> |text| < TWO_32)
            && (m.value.tag == ShortString <==> |text| <= SHORT_MAX) && m.value.tag.IsString()
            && m.value.Ref() in m.st.strings && m.st.strings[m.value.Ref()].long == (m.value.tag == LongString)
  {
    AllocateExact(st, |text|);
    var m := Make(st, text);
    var s := m.st.strings[m.value.Ref()];
    if |text| < TWO_32 {
      assert s.length == |text|;
      assert m.st.bytes[s.at..s.at + s.length] == text;
    }
  }

  // ---- the one-piece opcode ------------------------------------------------------------------

  /** First operand the measuring loop refuses: not a string or number, or a null
      string. */
  function Refusal(ops: seq<Value>): (r: Option<Made>)
    ensures r.Some? ==> r.value == InvalidObject || r.value == Unsupported
    decreases |ops|
  {
    if ops == [] then None
    else if ops[0].tag.IsString() then (if ops[0].Ref() == 0 then Some(InvalidObject) else Refusal(ops[1..]))
    else if ops[0].tag.IsNumber() then Refusal(ops[1..])
    else Some(Unsupported)
  }

  /** CONCAT takes numbers and strings that are objects. */
  ghost predicate Joinable(v: Value) { v.tag == Integer || v.tag == Float || (v.tag.IsString() && v.Ref() != 0) }

  /** The measuring loop refuses exactly when an operand is not joinable, for the first such:
      a null string is an invalid object, anything else unsupported. */
  lemma {:induction false} RefusalFirst(ops: seq<Value>)
    ensures Refusal(ops).None? <==> forall i :: 0 <= i < |ops| ==> Joinable(ops[i])
    ensures Refusal(ops).Some? ==>
              exists i :: 0 <= i < |ops| && !Joinable(ops[i]) && (forall j :: 0 <= j < i ==> Joinable(ops[j]))
                && Refusal(ops).value == (if ops[i].tag.IsString() then InvalidObject else Unsupported)
    decreases |ops|
  {
    if ops != [] && Joinable(ops[0]) {
      var rest := ops[1..];
      RefusalFirst(rest);
      assert forall i :: 0 < i < |ops| ==> ops[i] == rest[i - 1];
      assert forall i :: 0 <= i < |rest| ==> rest[i] == ops[i + 1];
      if Refusal(rest).Some? {
        var i :| 0 <= i < |rest| && !Joinable(rest[i]) && (forall j :: 0 <= j < i ==> Joinable(rest[j]))
                 && Refusal(rest).value == (if rest[i].tag.IsString() then InvalidObject else Unsupported);
        assert !Joinable(ops[i + 1]) && forall j :: 0 <= j < i + 1 ==> Joinable(ops[j]);
      }
    }
  }

  /** lua55_v2l_concat; a heap without a region is rejected first. */
  function ConcatAll(st: Store, fmt: Formats, ops: seq<Value>): Made
    requires st.heap.region != 0 ==> st.Ok() && st.Fits(|Join(st, fmt, ops)|)
  {
    if st.heap.region == 0 then InvalidObject
    else match Refusal(ops)
    case Some(bad) => bad
    case None => Make(st, Join(st, fmt, ops))
  }

  // ---- the fragments --------------------------------------------------------------------------

  /** What a fragment was selected for. */
  datatype Kind = KString | KInteger | KFloat

  predicate Fit(k: Kind, v: Value) {
    match k case KString => v.tag.IsString() case KInteger => v.tag == Integer case KFloat => v.tag == Float
  }

  /** The kind selected for an operand by its tag. */
  ghost predicate Selected(k: Kind, v: Value) {
    match v.tag
    case ShortString => k == KString
    case LongString => k == KString
    case Integer => k == KInteger
    case Float => k == KFloat
    case _ => false
  }

  /** The invocation's prepared concat, with the store it works on. */
  datatype Prep = Prep(st: Store, total: uint64, header: nat, out: nat)

  function MeasureOne(p: Prep, fmt: Formats, k: Kind, v: Value): Option<Prep> {
    if !Fit(k, v) then None else Some(p.(total := (p.total + |Text(p.st, fmt, v)|) % TWO_64))
  }

  function AllocateOne(p: Prep): Option<Prep> {
    match Allocate(p.st, p.total)
    case Made(st1, v) => Some(Prep(st1, p.total, v.Ref(), v.Ref() + STRING_BYTES))
    case _ => None
  }

  /** None: the guard fails. The write stays inside memory. */
  function WriteOne(p: Prep, fmt: Formats, k: Kind, v: Value): Option<Prep>
    requires p.out + |Text(p.st, fmt, v)| <= |p.st.bytes|
  {
    if !Fit(k, v) then None
    else
      var text := Text(p.st, fmt, v);
      Some(p.(st := p.st.(bytes := Write(p.st.bytes, p.out, text)), out := p.out + |text|))
  }

  function FinishOne(p: Prep): (Prep, Value)
    requires p.header < TWO_64
  {
    (Prep(p.st, 0, 0, 0), Reference(StringTag(p.total), p.header))
  }

  /** measure* */
  function MeasureAll(p: Prep, fmt: Formats, shape: seq<Kind>, ops: seq<Value>): (Prep, bool)
    requires |shape| == |ops|
    decreases |ops|
  {
    if ops == [] then (p, true)
    else
      match MeasureOne(p, fmt, shape[0], ops[0])
      case None => (p, false)
      case Some(p1) => MeasureAll(p1, fmt, shape[1..], ops[1..])
  }

  /** write*; the flag says that no fragment exited. A write past memory counts as
      an exit here, so that the law below also excludes it. */
  function WriteAll(p: Prep, fmt: Formats, shape: seq<Kind>, ops: seq<Value>): (Prep, bool)
    requires |shape| == |ops|
    decreases |ops|
  {
    if ops == [] then (p, true)
    else if p.out + |Text(p.st, fmt, ops[0])| > |p.st.bytes| then (p, false)
    else
      match WriteOne(p, fmt, shape[0], ops[0])
      case None => (p, false)
      case Some(p1) => WriteAll(p1, fmt, shape[1..], ops[1..])
  }

  /** `Overflow` is the exit of the allocate fragment: no region, or the heap is full. */
  datatype Chained = Finished(p: Prep, value: Value) | MeasureExit(p: Prep) | Overflow(p: Prep) | WriteExit(p: Prep)

  /** allocate; write*; finish. */
  function Emit(p: Prep, fmt: Formats, shape: seq<Kind>, ops: seq<Value>): Chained
    requires |shape| == |ops|
  {
    match AllocateOne(p)
    case None => Overflow(p)
    case Some(p2) =>
      var (p3, written) := WriteAll(p2, fmt, shape, ops);
      if !written || p3.header >= TWO_64 then WriteExit(p3) else var (p4, v) := FinishOne(p3); Finished(p4, v)
  }

  /** The whole chain. */
  function Chain(p: Prep, fmt: Formats, shape: seq<Kind>, ops: seq<Value>): Chained
    requires |shape| == |ops|
  {
    var (p1, measured) := MeasureAll(p, fmt, shape, ops);
    if measured then Emit(p1, fmt, shape, ops) else MeasureExit(p1)
  }

  predicate AllFit(shape: seq<Kind>, ops: seq<Value>) {
    |shape| == |ops| && forall i :: 0 <= i < |ops| ==> Fit(shape[i], ops[i])
  }

  /** Measure and write fragment exit exactly when the operand has not their kind. */
  lemma FragmentGuards(p: Prep, fmt: Formats, k: Kind, v: Value)
    requires p.out + |Text(p.st, fmt, v)| <= |p.st.bytes|
    ensures MeasureOne(p, fmt, k, v).None? <==> !Selected(k, v)
    ensures WriteOne(p, fmt, k, v).None? <==> !Selected(k, v)
  {
  }

  /** The fragments fit their operands exactly when each is the one for its operand's tag. */
  lemma ShapeFits(shape: seq<Kind>, ops: seq<Value>)
    ensures AllFit(shape, ops) <==> |shape| == |ops| && forall i :: 0 <= i < |ops| ==> Selected(shape[i], ops[i])
  {
    assert forall k, v :: Fit(k, v) <==> Selected(k, v);
  }

  /** Measuring only adds lengths; it passes exactly when every operand fits. */
  lemma {:induction false} MeasureExact(p: Prep, fmt: Formats, shape: seq<Kind>, ops: seq<Value>)
    requires |shape| == |ops| && p.total + |Join(p.st, fmt, ops)| < TWO_64
    ensures var (p1, ok) := MeasureAll(p, fmt, shape, ops);
            && p1.st == p.st && p1.header == p.header && p1.out == p.out
            && p.total <= p1.total <= p.total + |Join(p.st, fmt, ops)|
            && (ok <==> AllFit(shape, ops))
            && (ok ==> p1.total == p.total + |Join(p.st, fmt, ops)|)
    decreases |ops|
  {
    if ops != [] && Fit(shape[0], ops[0]) {
      var p1 := MeasureOne(p, fmt, shape[0], ops[0]).value;
      MeasureExact(p1, fmt, shape[1..], ops[1..]);
    }
    AllFitCons(shape, ops);
  }

  lemma AllFitCons(shape: seq<Kind>, ops: seq<Value>)
    requires |shape| == |ops|
    ensures AllFit(shape, ops) <==> ops == [] || (Fit(shape[0], ops[0]) && AllFit(shape[1..], ops[1..]))
  {
    if ops != [] && Fit(shape[0], ops[0]) && AllFit(shape[1..], ops[1..]) {
      forall i | 0 <= i < |ops|
        ensures Fit(shape[i], ops[i])
      {
        if i > 0 {
          assert Fit(shape[1..][i - 1], ops[1..][i - 1]);
        }
      }
    }
  }

  /** Operands read the same while only [lo, hi) is written. */
  ghost predicate Apart(st: Store, ops: seq<Value>, lo: nat, hi: nat) {
    && Known(st, ops)
    && forall a :: a in st.strings && a in Refs(ops) ==>
         var s := st.strings[a];
         s.at + s.length <= |st.bytes| && (s.at + s.length <= lo || hi <= s.at)
  }

  ghost function Refs(ops: seq<Value>): set<nat> {
    set i | 0 <= i < |ops| && ops[i].tag.IsString() :: ops[i].Ref() as nat
  }

  lemma ApartTail(st: Store, ops: seq<Value>, lo: nat, hi: nat)
    requires ops != [] && Apart(st, ops, lo, hi)
    ensures Apart(st, ops[1..], lo, hi)
  {
    assert Refs(ops[1..]) <= Refs(ops) by {
      forall a | a in Refs(ops[1..])
        ensures a in Refs(ops)
      {
        var i :| 0 <= i < |ops[1..]| && ops[1..][i].tag.IsString() && a == ops[1..][i].Ref();
        assert ops[i + 1] == ops[1..][i];
      }
    }
  }

  /** `now` differs from `bytes` inside [lo, hi) only. */
  ghost predicate SameOutside(now: seq<byte>, bytes: seq<byte>, lo: nat, hi: nat) {
    |now| == |bytes| && forall i {:trigger now[i]} :: 0 <= i < |bytes| && !(lo <= i < hi) ==> now[i] == bytes[i]
  }

  /** Writing inside [lo, hi) changes no operand's text. */
  lemma TextApart(st: Store, fmt: Formats, ops: seq<Value>, lo: nat, hi: nat, now: seq<byte>, i: nat)
    requires Apart(st, ops, lo, hi) && i < |ops| && SameOutside(now, st.bytes, lo, hi)
    ensures Text(st.(bytes := now), fmt, ops[i]) == Text(st, fmt, ops[i])
  {
    if ops[i].tag.IsString() {
      assert (ops[i].Ref() as nat) in Refs(ops);
    }
  }

  lemma {:induction false} JoinApart(st: Store, fmt: Formats, ops: seq<Value>, lo: nat, hi: nat, now: seq<byte>)
    requires Apart(st, ops, lo, hi) && SameOutside(now, st.bytes, lo, hi)
    ensures Apart(st.(bytes := now), ops, lo, hi)
    ensures Join(st.(bytes := now), fmt, ops) == Join(st, fmt, ops)
    decreases |ops|
  {
    if ops != [] {
      ApartTail(st, ops, lo, hi);
      TextApart(st, fmt, ops, lo, hi, now, 0);
      JoinApart(st, fmt, ops[1..], lo, hi, now);
    }
  }

  /** Two adjacent writes are one. */
  lemma WriteWrite(bytes: seq<byte>, at: nat, a: seq<byte>, b: seq<byte>)
    requires at + |a| + |b| <= |bytes|
    ensures Write(Write(bytes, at, a), at + |a|, b) == Write(bytes, at, a + b)
  {
  }

  /** Once the shapes fit, no write fragment exits: together they write the joined
      text at the cursor, which ends right behind it. */
  lemma {:induction false} WriteExact(p: Prep, fmt: Formats, shape: seq<Kind>, ops: seq<Value>, lo: nat, hi: nat)
    requires AllFit(shape, ops) && Apart(p.st, ops, lo, hi)
    requires lo <= p.out && p.out + |Join(p.st, fmt, ops)| <= hi <= |p.st.bytes|
    ensures WriteAll(p, fmt, shape, ops) == (Wrote(p, Join(p.st, fmt, ops)), true)
    decreases |ops|
  {
    if ops == [] {
      assert Write(p.st.bytes, p.out, []) == p.st.bytes;
    } else {
      var text := Text(p.st, fmt, ops[0]);
      var rest := Join(p.st, fmt, ops[1..]);
      var p1 := Wrote(p, text);
      WriteCons(p, fmt, shape, ops);
      ApartTail(p.st, ops, lo, hi);
      JoinApart(p.st, fmt, ops[1..], lo, hi, p1.st.bytes);
      assert AllFit(shape[1..], ops[1..]);
      WriteExact(p1, fmt, shape[1..], ops[1..], lo, hi);
      WroteWrote(p, text, rest);
    }
  }

  lemma WriteCons(p: Prep, fmt: Formats, shape: seq<Kind>, ops: seq<Value>)
    requires |shape| == |ops| && ops != [] && Fit(shape[0], ops[0])
    requires p.out + |Text(p.st, fmt, ops[0])| <= |p.st.bytes|
    ensures WriteAll(p, fmt, shape, ops) == WriteAll(Wrote(p, Text(p.st, fmt, ops[0])), fmt, shape[1..], ops[1..])
  {
  }

  lemma WroteWrote(p: Prep, a: seq<byte>, b: seq<byte>)
    requires p.out + |a| + |b| <= |p.st.bytes|
    ensures Wrote(Wrote(p, a), b) == Wrote(p, a + b)
  {
    WriteWrite(p.st.bytes, p.out, a, b);
  }

  /** The operands lie outside a block just allocated. */
  lemma AllocatedApart(st: Store, n: uint64, ops: seq<Value>)
    requires st.Ok() && st.Fits(n) && Allocate(st, n).Made? && Known(st, ops)
    ensures var m := Allocate(st, n);
            Apart(m.st, ops, m.value.Ref() + STRING_BYTES, m.value.Ref() + Request(n))
  {
    AllocateExact(st, n);
    var m := Allocate(st, n);
    forall a | a in m.st.strings && a in Refs(ops)
      ensures var s := m.st.strings[a];
              && s.at + s.length <= |m.st.bytes|
              && (s.at + s.length <= m.value.Ref() + STRING_BYTES || m.value.Ref() + Request(n) <= s.at)
    {
      var i :| 0 <= i < |ops| && ops[i].tag.IsString() && a == ops[i].Ref();
      assert a in st.strings && st.StringOk(a, st.strings[a]);
    }
  }

  lemma {:induction false} JoinAllocated(st: Store, n: uint64, fmt: Formats, ops: seq<Value>)
    requires st.Ok() && st.Fits(n) && Allocate(st, n).Made? && Known(st, ops)
    ensures Join(Allocate(st, n).st, fmt, ops) == Join(st, fmt, ops)
    decreases |ops|
  {
    AllocateExact(st, n);
    if ops != [] {
      assert Known(st, ops[1..]);
      JoinAllocated(st, n, fmt, ops[1..]);
    }
  }

  /** The effect of writing `text` at the cursor. */
  function Wrote(p: Prep, text: seq<byte>): Prep
    requires p.out + |text| <= |p.st.bytes|
  {
    p.(st := p.st.(bytes := Write(p.st.bytes, p.out, text)), out := p.out + |text|)
  }

  /** After an allocation that covers the joined text, the writes all pass. */
  lemma AllocatedWrites(p: Prep, fmt: Formats, shape: seq<Kind>, ops: seq<Value>)
    requires AllFit(shape, ops) && p.st.Ok() && Known(p.st, ops) && p.st.Fits(p.total)
    requires p.total >= |Join(p.st, fmt, ops)| && AllocateOne(p).Some?
    ensures var p2 := AllocateOne(p).value;
            var text := Join(p.st, fmt, ops);
            && p2.header < TWO_64 && p2.out + |text| <= |p2.st.bytes|
            && WriteAll(p2, fmt, shape, ops) == (Wrote(p2, text), true)
  {
    AllocateExact(p.st, p.total);
    AllocatedApart(p.st, p.total, ops);
    JoinAllocated(p.st, p.total, fmt, ops);
    var p2 := AllocateOne(p).value;
    WriteExact(p2, fmt, shape, ops, p2.out, p2.header + Request(p.total));
  }

  /** What remains after measuring: the object is sized by the total, the joined
      text is written at its start, and no write exits. */
  lemma EmitRuns(p: Prep, fmt: Formats, shape: seq<Kind>, ops: seq<Value>)
    requires AllFit(shape, ops) && p.st.Ok() && Known(p.st, ops) && p.st.Fits(p.total)
    requires p.total >= |Join(p.st, fmt, ops)|
    ensures Emit(p, fmt, shape, ops) == Emitted(p, Join(p.st, fmt, ops))
  {
    if AllocateOne(p).Some? {
      AllocateExact(p.st, p.total);
      AllocatedWrites(p, fmt, shape, ops);
    }
  }

  function Emitted(p: Prep, text: seq<byte>): Chained
    requires p.st.Ok() && p.st.Fits(p.total) && p.total >= |text|
  {
    match Allocate(p.st, p.total)
    case Made(st, v) =>
      AllocateExact(p.st, p.total);
      Finished(Prep(st.(bytes := Write(st.bytes, v.Ref() + STRING_BYTES, text)), 0, 0, 0), v)
    case _ => Overflow(p)
  }

  /** The chain from any starting total: it exits at a measure exactly when an
      operand does not have its kind, with the store untouched. */
  lemma ChainRuns(p: Prep, fmt: Formats, shape: seq<Kind>, ops: seq<Value>)
    requires |shape| == |ops| && p.st.Ok() && Known(p.st, ops)
    requires p.st.Fits(p.total + |Join(p.st, fmt, ops)|)
    ensures var text := Join(p.st, fmt, ops);
            var c := Chain(p, fmt, shape, ops);
            if !AllFit(shape, ops) then c.MeasureExit? && c.p.st == p.st
            else c == Emitted(p.(total := p.total + |text|), text)
  {
    MeasureExact(p, fmt, shape, ops);
    var (p1, measured) := MeasureAll(p, fmt, shape, ops);
    if measured {
      EmitRuns(p1, fmt, shape, ops);
    }
  }

  /** With nothing left over from before, what is emitted is the made string. */
  lemma EmittedIsMade(p: Prep, text: seq<byte>)
    requires p.st.Ok() && p.st.Fits(p.total) && p.total == |text|
    ensures match Make(p.st, text)
            case Made(st, v) => Emitted(p, text) == Finished(Prep(st, 0, 0, 0), v)
            case _ => Emitted(p, text) == Overflow(p)
  {
    if Allocate(p.st, p.total).Made? {
      AllocateExact(p.st, p.total);
    }
  }

  /** The chain started at total 0: it exits at a measure exactly when an operand
      does not have its kind, and then the store is untouched; otherwise it makes
      the string of the joined renderings (or finds the heap full), no write
      exits, and the prepared state is reset. */
  lemma ChainExact(p: Prep, fmt: Formats, shape: seq<Kind>, ops: seq<Value>)
    requires |shape| == |ops| && p.st.Ok() && Known(p.st, ops) && p.total == 0
    requires p.st.Fits(|Join(p.st, fmt, ops)|)
    ensures var c := Chain(p, fmt, shape, ops);
            if !AllFit(shape, ops) then c.MeasureExit? && c.p.st == p.st
            else match Make(p.st, Join(p.st, fmt, ops))
                 case Made(st, v) => c == Finished(Prep(st, 0, 0, 0), v)
                 case _ => c.Overflow? && c.p.st == p.st
  {
    var text := Join(p.st, fmt, ops);
    ChainRuns(p, fmt, shape, ops);
    EmittedIsMade(p.(total := p.total + |text|), text);
  }

  /** A chain overflows exactly when every operand has its kind and the region denies the
      joined text; a measure exit comes first. */
  lemma ChainFullIff(p: Prep, fmt: Formats, shape: seq<Kind>, ops: seq<Value>)
    requires |shape| == |ops| && p.st.Ok() && Known(p.st, ops) && p.total == 0
    requires p.st.Fits(|Join(p.st, fmt, ops)|)
    ensures var n := |Join(p.st, fmt, ops)|;
            Chain(p, fmt, shape, ops).Overflow? <==>
            AllFit(shape, ops) && Aligned(p.st.heap.next) + STRING_BYTES + (if n == 0 then 1 else n) > p.st.heap.end
  {
    MakeFullIff(p.st, Join(p.st, fmt, ops));
    ChainExact(p, fmt, shape, ops);
  }

  lemma MakeFullIff(st: Store, text: seq<byte>)
    requires st.Ok() && st.Fits(|text|)
    ensures Make(st, text).HeapFull? <==>
            Aligned(st.heap.next) + STRING_BYTES + (if |text| == 0 then 1 else |text|) > st.heap.end
  {
    AllocatePlain(st, |text|, STRING_BYTES + if |text| == 0 then 1 else |text|);
  }

  lemma AllocatePlain(st: Store, n: uint64, size: uint64)
    requires st.heap.Valid() && Aligned(st.heap.next) + size < TWO_64
    requires size == STRING_BYTES + if n == 0 then 1 else n
    ensures Allocate(st, n).HeapFull? <==> Aligned(st.heap.next) + size > st.heap.end
  {
    AllocateFullIff(st, n);
    DeniesPlain(st.heap, size);
  }

  /** The starting total matters: a chain that finishes yields the joined text if and
      only if it started at a multiple of 2^32 and the text is shorter than 2^32,
      since the stored length is the sum in 32 bits. */
  lemma ChainRightIff(p: Prep, fmt: Formats, shape: seq<Kind>, ops: seq<Value>)
    requires AllFit(shape, ops) && p.st.Ok() && Known(p.st, ops)
    requires p.st.Fits(p.total + |Join(p.st, fmt, ops)|)
    requires Allocate(p.st, p.total + |Join(p.st, fmt, ops)|).Made?
    ensures var c := Chain(p, fmt, shape, ops);
            var text := Join(p.st, fmt, ops);
            && c.Finished?
            && (Text(c.p.st, fmt, c.value) == text <==> |text| < TWO_32 && p.total % TWO_32 == 0)
  {
    var text := Join(p.st, fmt, ops);
    EmittedRight(p, text, fmt);
    assert Chain(p, fmt, shape, ops) == Emitted(p.(total := p.total + |text|), text) by {
      ChainRuns(p, fmt, shape, ops);
    }
  }

  lemma EmittedRight(p: Prep, text: seq<byte>, fmt: Formats)
    requires p.st.Ok() && p.st.Fits(p.total + |text|) && Allocate(p.st, p.total + |text|).Made?
    ensures var c := Emitted(p.(total := p.total + |text|), text);
            c.Finished? && (Text(c.p.st, fmt, c.value) == text <==> |text| < TWO_32 && p.total % TWO_32 == 0)
  {
    EmittedText(p.(total := p.total + |text|), text, fmt);
    TruncatedSum(p.total, |text|);
  }

  lemma TruncatedSum(total: nat, n: nat)
    ensures (total + n) % TWO_32 == n <==> n < TWO_32 && total % TWO_32 == 0
  {
  }

  /** The string read back has the measured length in 32 bits. */
  lemma EmittedText(p: Prep, text: seq<byte>, fmt: Formats)
    requires p.st.Ok() && p.st.Fits(p.total) && |text| <= p.total && Allocate(p.st, p.total).Made?
    ensures var c := Emitted(p, text);
            c.Finished? && (Text(c.p.st, fmt, c.value) == text <==> p.total % TWO_32 == |text|)
  {
    AllocateExact(p.st, p.total);
    var c := Emitted(p, text);
    var s := c.p.st.strings[c.value.Ref()];
    assert |Text(c.p.st, fmt, c.value)| == p.total % TWO_32;
    if p.total % TWO_32 == |text| {
      assert c.p.st.bytes[s.at..s.at + s.length] == text;
    }
  }

  /** A measure that exits in the middle leaves the lengths added so far behind. */
  lemma ExitKeepsTotal(fmt: Formats)
    requires |fmt.itoa(7)| == 1
    ensures var st := Store(Heap(4096, 8192, 4096), seq(8192, _ => 0), map[]);
            var (p, ok) := MeasureAll(Prep(st, 0, 0, 0), fmt, [KInteger, KFloat], [Value(Integer, 7), NIL]);
            !ok && p.total == 1
  {
    var st := Store(Heap(4096, 8192, 4096), seq(8192, _ => 0), map[]);
    var p1 := MeasureOne(Prep(st, 0, 0, 0), fmt, KInteger, Value(Integer, 7)).value;
    assert [KInteger, KFloat][1..] == [KFloat] && [Value(Integer, 7), NIL][1..] == [NIL];
    assert MeasureAll(p1, fmt, [KFloat], [NIL]) == (p1, false);
  }

  /** Where both accept, the chain and the one-piece opcode build the same string. */
  lemma ChainIsConcat(p: Prep, fmt: Formats, shape: seq<Kind>, ops: seq<Value>)
    requires AllFit(shape, ops) && p.st.Ok() && Known(p.st, ops) && p.total == 0
    requires p.st.Fits(|Join(p.st, fmt, ops)|)
    ensures match ConcatAll(p.st, fmt, ops)
            case Made(st, v) => Chain(p, fmt, shape, ops) == Finished(Prep(st, 0, 0, 0), v)
            case other => other == HeapFull && Chain(p, fmt, shape, ops).Overflow?
  {
    ChainExact(p, fmt, shape, ops);
    FitAccepted(p.st, shape, ops);
  }

  lemma {:induction false} FitAccepted(st: Store, shape: seq<Kind>, ops: seq<Value>)
    requires AllFit(shape, ops) && Known(st, ops) && 0 !in st.strings
    ensures Refusal(ops).None?
    decreases |ops|
  {
    if ops != [] {
      assert Fit(shape[0], ops[0]);
      assert AllFit(shape[1..], ops[1..]) && Known(st, ops[1..]);
      FitAccepted(st, shape[1..], ops[1..]);
    }
  }
}
