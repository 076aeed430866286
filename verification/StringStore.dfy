/** CONCAT in place: the byte loops over guest memory, each proved against the
    store functions of module Concat. */
module StringStore {
  import opened Values
  import opened GuestHeap
  import opened Concat

  class StringHeap {
    var heap: Heap
    var bytes: array<byte>
    var strings: map<nat, Str>
    /** The prepared concat of the invocation. */
    var total: uint64
    var header: nat
    var out: nat

    ghost function Contents(): Store
      reads this, bytes
    {
      Store(heap, bytes[..], strings)
    }

    ghost function Prepared(): Prep
      reads this, bytes
    {
      Prep(Contents(), total, header, out)
    }

    /** `out[j] = source[j]` over another string's bytes. */
    method CopyBytes(to: nat, from: nat, n: nat)
      requires to + n <= bytes.Length && from + n <= bytes.Length && (from + n <= to || to + n <= from)
      modifies bytes
      ensures bytes[..] == Write(old(bytes[..]), to, old(bytes[from..from + n]))
    {
      var j := 0;
      while j < n
        invariant j <= n
        invariant forall i :: to <= i < to + j ==> bytes[i] == old(bytes[i - to + from])
        invariant forall i {:trigger bytes[i]} :: 0 <= i < bytes.Length && !(to <= i < to + j) ==>
                    bytes[i] == old(bytes[i])
      {
        bytes[to + j] := bytes[from + j];
        j := j + 1;
      }
    }

    /** `out[j] = buf[j]` from a formatter's buffer. */
    method CopyBuffer(to: nat, buf: seq<byte>)
      requires to + |buf| <= bytes.Length
      modifies bytes
      ensures bytes[..] == Write(old(bytes[..]), to, buf)
    {
      var j := 0;
      while j < |buf|
        invariant j <= |buf|
        invariant forall i :: to <= i < to + j ==> bytes[i] == buf[i - to]
        invariant forall i {:trigger bytes[i]} :: 0 <= i < bytes.Length && !(to <= i < to + j) ==>
                    bytes[i] == old(bytes[i])
      {
        bytes[to + j] := buf[j];
        j := j + 1;
      }
    }

    /** Length of an operand's rendering, as the measuring code gets it. */
    method LengthOf(fmt: Formats, v: Value) returns (n: nat)
      requires v.tag.IsString() ==> v.Ref() in strings
      requires v.tag.IsString() ==> strings[v.Ref()].at + strings[v.Ref()].length <= bytes.Length
      ensures n == |Text(Contents(), fmt, v)|
    {
      if v.tag.IsString() { n := strings[v.Ref()].length; }
      else if v.tag == Integer { n := |fmt.itoa(v.word)|; }
      else if v.tag == Float { n := |fmt.dtoa(v.word)|; }
      else { n := 0; }
    }

    /** The write branches: copy the rendering to the cursor. */
    method WriteText(to: nat, fmt: Formats, v: Value) returns (n: nat)
      requires v.tag.IsString() ==> v.Ref() in strings
      requires to + |Text(Contents(), fmt, v)| <= bytes.Length
      requires v.tag.IsString() ==>
                 var s := strings[v.Ref()];
                 s.at + s.length <= bytes.Length && (s.at + s.length <= to || to + s.length <= s.at)
      modifies bytes
      ensures n == |Text(old(Contents()), fmt, v)|
      ensures bytes[..] == Write(old(bytes[..]), to, Text(old(Contents()), fmt, v))
    {
      n := LengthOf(fmt, v);
      if v.tag.IsString() { CopyBytes(to, strings[v.Ref()].at, n); }
      else if v.tag == Integer { CopyBuffer(to, fmt.itoa(v.word)); }
      else if v.tag == Float { CopyBuffer(to, fmt.dtoa(v.word)); }
      else { assert Write(bytes[..], to, []) == bytes[..]; }
    }

    /** Takes the block and fills in the header. */
    method AllocateString(n: uint64) returns (v: Option<Value>)
      modifies `heap, `strings
      ensures match Allocate(old(Contents()), n)
              case Made(st, value) => Contents() == st && v == Some(value)
              case _ => Contents() == old(Contents()) && v == None
    {
      var (h, at) := Bump(heap, Request(n) % TWO_64);
      if at == 0 { return None; }
      var key: nat := at;
      heap := h;
      strings := strings[key := Str(n > SHORT_MAX, n % TWO_32, at + STRING_BYTES)];
      v := Some(Reference(StringTag(n), at));
    }

    // ---- the fragments ---------------------------------------------------------------

    method MeasureFragment(fmt: Formats, k: Kind, v: Value) returns (ok: bool)
      requires Contents().Ok() && Known(Contents(), [v])
      modifies `total
      ensures match MeasureOne(old(Prepared()), fmt, k, v)
              case Some(p) => ok && Prepared() == p
              case None => !ok && Prepared() == old(Prepared())
    {
      ok := Fit(k, v);
      if ok {
        KnownOne(Contents(), v);
        var n := LengthOf(fmt, v);
        total := (total + n) % TWO_64;
      }
    }

    method AllocateFragment() returns (ok: bool)
      modifies `heap, `strings, `header, `out
      ensures match AllocateOne(old(Prepared()))
              case Some(p) => ok && Prepared() == p
              case None => !ok && Prepared() == old(Prepared())
    {
      var v := AllocateString(total);
      ok := v.Some?;
      if ok {
        header := v.value.Ref();
        out := header + STRING_BYTES;
      }
    }

    method WriteFragment(fmt: Formats, k: Kind, v: Value) returns (ok: bool)
      requires Known(Contents(), [v]) && out + |Text(Contents(), fmt, v)| <= bytes.Length
      requires v.tag.IsString() && v.Ref() in strings ==>
                 var s := strings[v.Ref()];
                 s.at + s.length <= bytes.Length && (s.at + s.length <= out || out + s.length <= s.at)
      modifies `out, bytes
      ensures match WriteOne(old(Prepared()), fmt, k, v)
              case Some(p) => ok && Prepared() == p
              case None => !ok && Prepared() == old(Prepared())
    {
      assert [v][0] == v;
      ok := Fit(k, v);
      if ok {
        var n := WriteText(out, fmt, v);
        out := out + n;
      }
    }

    method FinishFragment() returns (v: Value)
      requires header < TWO_64
      modifies `total, `header, `out
      ensures (Prepared(), v) == FinishOne(old(Prepared()))
    {
      v := Reference(StringTag(total), header);
      total, header, out := 0, 0, 0;
    }

    // ---- the one-piece opcode -----------------------------------------------------------

    /** The measuring loop: the total, or the first refusal. */
    method MeasureLoop(fmt: Formats, ops: seq<Value>) returns (n: uint64, bad: Option<Made>)
      requires Contents().Ok() && Contents().Fits(|Join(Contents(), fmt, ops)|)
      requires forall i :: 0 <= i < |ops| && ops[i].tag.IsString() && ops[i].Ref() != 0 ==> ops[i].Ref() in strings
      ensures bad == Refusal(ops)
      ensures bad.None? ==> n == |Join(Contents(), fmt, ops)|
    {
      n := 0;
      var i := 0;
      while i < |ops|
        invariant i <= |ops| && n == |Join(Contents(), fmt, ops[..i])|
        invariant Refusal(ops[i..]) == Refusal(ops)
      {
        assert ops[i..][0] == ops[i] && ops[i..][1..] == ops[i + 1..];
        if ops[i].tag.IsString() {
          if ops[i].Ref() == 0 { return n, Some(InvalidObject); }
          assert Contents().StringOk(ops[i].Ref(), strings[ops[i].Ref()]);
        } else if !ops[i].tag.IsNumber() {
          return n, Some(Unsupported);
        }
        JoinSplit(Contents(), fmt, ops, i);
        JoinPrefix(Contents(), fmt, ops, i + 1);
        var m := LengthOf(fmt, ops[i]);
        n := (n + m) % TWO_64;
        i := i + 1;
      }
      assert ops[..i] == ops;
      bad := None;
    }

    /** One operand of the writing loop. */
    method WriteOperand(fmt: Formats, ops: seq<Value>, i: nat, to: nat, cursor: nat, ghost st: Store, ghost hi: nat)
      returns (next: nat)
      requires i < |ops| && Apart(st, ops, to, hi) && to + |Join(st, fmt, ops)| <= hi <= |st.bytes|
      requires strings == st.strings && Written(st, fmt, ops, i, to, cursor, bytes[..])
      modifies bytes
      ensures Written(st, fmt, ops, i + 1, to, next, bytes[..])
    {
      ghost var now := bytes[..];
      OperandReady(st, fmt, ops, to, hi, i, cursor, now);
      TextOnBytes(Contents(), st.(bytes := now), fmt, ops[i]);
      var n := WriteText(cursor, fmt, ops[i]);
      next := cursor + n;
      WriteHolds(now, cursor, Text(st, fmt, ops[i]));
      WrittenNext(st, fmt, ops, i, to, cursor, now, bytes[..]);
    }

    /** The writing loop. */
    method WriteLoop(fmt: Formats, ops: seq<Value>, to: nat, ghost hi: nat)
      requires Apart(Contents(), ops, to, hi)
      requires to + |Join(Contents(), fmt, ops)| <= hi <= bytes.Length
      modifies bytes
      ensures bytes[..] == Write(old(bytes[..]), to, Join(old(Contents()), fmt, ops))
    {
      ghost var st := Contents();
      var cursor, i := to, 0;
      while i < |ops|
        invariant i <= |ops| && Written(st, fmt, ops, i, to, cursor, bytes[..])
      {
        cursor := WriteOperand(fmt, ops, i, to, cursor, st, hi);
        i := i + 1;
      }
      assert ops[..i] == ops;
      HoldsWrite(bytes[..], st.bytes, to, Join(st, fmt, ops));
    }

    /** lua55_v2l_concat over the operand registers. */
    method ConcatOpcode(fmt: Formats, ops: seq<Value>) returns (r: Made)
      requires heap.region != 0 ==> Contents().Ok() && Contents().Fits(|Join(Contents(), fmt, ops)|)
      requires forall i :: 0 <= i < |ops| && ops[i].tag.IsString() && ops[i].Ref() != 0 ==> ops[i].Ref() in strings
      modifies `heap, `strings, bytes
      ensures match ConcatAll(old(Contents()), fmt, ops)
              case Made(st, v) => Contents() == st && r.Made? && r.value == v
              case other => Contents() == old(Contents()) && r == other
    {
      if heap.region == 0 { return InvalidObject; }
      ghost var st := Contents();
      var n, bad := MeasureLoop(fmt, ops);
      if bad.Some? { return bad.value; }
      AcceptedKnown(st, ops);
      var v := AllocateString(n);
      if v.None? { return HeapFull; }
      AllocateExact(st, n);
      AllocatedApart(st, n, ops);
      JoinAllocated(st, n, fmt, ops);
      WriteLoop(fmt, ops, v.value.Ref() + STRING_BYTES, v.value.Ref() + Request(n));
      r := Made(Store(heap, bytes[..], strings), v.value);
    }
  }

  /** `now` is `bytes` with `text` at `at`. */
  ghost predicate Holds(now: seq<byte>, bytes: seq<byte>, at: nat, text: seq<byte>) {
    && at + |text| <= |bytes| && SameOutside(now, bytes, at, at + |text|)
    && forall i {:trigger now[i]} :: at <= i < at + |text| ==> now[i] == text[i - at]
  }

  lemma HoldsWrite(now: seq<byte>, bytes: seq<byte>, at: nat, text: seq<byte>)
    requires Holds(now, bytes, at, text)
    ensures now == Write(bytes, at, text)
  {
  }

  lemma WriteHolds(bytes: seq<byte>, at: nat, text: seq<byte>)
    requires at + |text| <= |bytes|
    ensures Holds(Write(bytes, at, text), bytes, at, text)
  {
    var now := Write(bytes, at, text);
    forall i | at <= i < at + |text|
      ensures now[i] == text[i - at]
    {
      assert now[i] == now[at..at + |text|][i - at];
    }
  }

  /** A second piece right behind the first. */
  lemma HoldsThen(bytes: seq<byte>, now: seq<byte>, after: seq<byte>, at: nat, a: seq<byte>, b: seq<byte>)
    requires Holds(now, bytes, at, a) && Holds(after, now, at + |a|, b)
    ensures Holds(after, bytes, at, a + b)
  {
    forall i | at <= i < at + |a + b|
      ensures after[i] == (a + b)[i - at]
    {
      if i < at + |a| {
        assert after[i] == now[i];
      }
    }
  }

  /** The first i operands have been written at `to`, and the cursor is behind them. */
  ghost predicate Written(st: Store, fmt: Formats, ops: seq<Value>, i: nat, to: nat, cursor: nat, now: seq<byte>) {
    && i <= |ops| && cursor == to + |Join(st, fmt, ops[..i])|
    && Holds(now, st.bytes, to, Join(st, fmt, ops[..i]))
  }

  /** A rendering depends on bytes and string objects only. */
  lemma TextOnBytes(a: Store, b: Store, fmt: Formats, v: Value)
    requires a.bytes == b.bytes && a.strings == b.strings
    ensures Text(a, fmt, v) == Text(b, fmt, v)
  {
  }

  /** Before writing operand i: it fits, and its bytes are out of the way. */
  lemma OperandReady(st: Store, fmt: Formats, ops: seq<Value>, to: nat, hi: nat, i: nat, cursor: nat, now: seq<byte>)
    requires i < |ops| && Apart(st, ops, to, hi) && to + |Join(st, fmt, ops)| <= hi <= |st.bytes|
    requires Written(st, fmt, ops, i, to, cursor, now)
    ensures var text := Text(st, fmt, ops[i]);
            && Text(st.(bytes := now), fmt, ops[i]) == text && cursor + |text| <= hi && |now| == |st.bytes|
    ensures ops[i].tag.IsString() ==>
              && ops[i].Ref() in st.strings
              && var s := st.strings[ops[i].Ref()];
                 s.at + s.length <= |st.bytes| && (s.at + s.length <= cursor || cursor + s.length <= s.at)
  {
    JoinSplit(st, fmt, ops, i);
    JoinPrefix(st, fmt, ops, i + 1);
    TextApart(st, fmt, ops, to, hi, now, i);
    if ops[i].tag.IsString() {
      assert (ops[i].Ref() as nat) in Refs(ops);
    }
  }

  /** After writing it behind the cursor. */
  lemma WrittenNext(st: Store, fmt: Formats, ops: seq<Value>, i: nat, to: nat, cursor: nat, now: seq<byte>,
                    after: seq<byte>)
    requires i < |ops| && Written(st, fmt, ops, i, to, cursor, now)
    requires Holds(after, now, cursor, Text(st, fmt, ops[i]))
    ensures Written(st, fmt, ops, i + 1, to, cursor + |Text(st, fmt, ops[i])|, after)
  {
    JoinSplit(st, fmt, ops, i);
    HoldsThen(st.bytes, now, after, to, Join(st, fmt, ops[..i]), Text(st, fmt, ops[i]));
  }

  lemma KnownOne(st: Store, v: Value)
    requires st.Ok() && Known(st, [v])
    ensures v.tag.IsString() ==> v.Ref() in st.strings && st.StringOk(v.Ref(), st.strings[v.Ref()])
  {
    assert [v][0] == v;
  }

  /** Operands the measuring loop accepts are known objects. */
  lemma {:induction false} AcceptedKnown(st: Store, ops: seq<Value>)
    requires Refusal(ops).None?
    requires forall i :: 0 <= i < |ops| && ops[i].tag.IsString() && ops[i].Ref() != 0 ==> ops[i].Ref() in st.strings
    ensures Known(st, ops)
    decreases |ops|
  {
    if ops != [] {
      AcceptedKnown(st, ops[1..]);
      forall i | 0 <= i < |ops| && ops[i].tag.IsString()
        ensures ops[i].Ref() in st.strings
      {
        if i > 0 {
          assert ops[i] == ops[1..][i - 1];
        }
      }
    }
  }
}
