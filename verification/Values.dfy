/** The scalar vocabulary shared by every component: value tags, the payload
    word, and the fixed-width integers the machine computes with. */
module Values {

  const TWO_31 := 0x8000_0000
  const TWO_32 := 0x1_0000_0000
  const TWO_63 := 0x8000_0000_0000_0000
  const TWO_64 := 0x1_0000_0000_0000_0000

  type int64 = x: int | -TWO_63 <= x < TWO_63
  type uint64 = x: int | 0 <= x < TWO_64
  type uint32 = x: int | 0 <= x < TWO_32

  /** Conversion to a 64-bit two's complement integer. */
  function Wrap64(x: int): (r: int64)
    ensures exists k: int :: x == r + k * TWO_64
  {
    var u := x % TWO_64;
    assert x == u + (x / TWO_64) * TWO_64;
    if u < TWO_63 then u
    else
      assert x == (u - TWO_64) + (x / TWO_64 + 1) * TWO_64;
      u - TWO_64
  }

  /** A value in range survives the conversion. */
  lemma WrapExact(x: int)
    ensures -TWO_63 <= x < TWO_63 ==> Wrap64(x) == x
  {
  }

  /** Conversion only looks at the residue modulo 2^64. */
  lemma WrapCongruent(x: int, y: int, k: int)
    requires x == y + k * TWO_64
    ensures Wrap64(x) == Wrap64(y)
  {
    assert x % TWO_64 == y % TWO_64;
  }

  /** Wrapping an operand first does not change a wrapped sum. */
  lemma WrapAdd(x: int, y: int)
    ensures Wrap64(Wrap64(x) + y) == Wrap64(x + y)
  {
    var k :| x == Wrap64(x) + k * TWO_64;
    WrapCongruent(x + y, Wrap64(x) + y, k);
  }

  function Pow2(n: nat): (r: nat)
    ensures r > 0
  {
    if n == 0 then 1 else 2 * Pow2(n - 1)
  }

  lemma {:induction false} Pow2Mono(a: nat, b: nat)
    requires a <= b
    ensures Pow2(a) <= Pow2(b)
    decreases b
  {
    if a < b {
      Pow2Mono(a, b - 1);
    }
  }

  lemma Pow2Values()
    ensures Pow2(31) == TWO_31 && Pow2(32) == TWO_32
  {
    assert Pow2(8) == 256;
    assert Pow2(16) == 65536;
    assert Pow2(24) == 0x100_0000;
  }

  datatype Option<+T> = None | Some(value: T)

  /** Value tags, in the numeric order of opcode_value_tags.h. */
  datatype Tag =
    | Nil | False | True | Integer | Float
    | ShortString | LongString | Table | Closure
  {
    function Code(): nat {
      match this
      case Nil => 0 case False => 1 case True => 2
      case Integer => 3 case Float => 4
      case ShortString => 5 case LongString => 6
      case Table => 7 case Closure => 8
    }

    predicate IsString() { ShortString? || LongString? }
    predicate IsNumber() { Integer? || Float? }
  }

  /** The codes tell the tags apart, and fill 0 to 8. */
  lemma CodesDistinct(a: Tag, b: Tag)
    ensures a.Code() == b.Code() ==> a == b
    ensures a.Code() <= 8
  {
  }

  /** A guest value: a tag and the 64-bit payload union, kept as the integer
      reading of its bits. */
  datatype Value = Value(tag: Tag, word: int64) {
    /** Overwrites the tag only; the payload bits stay as they were. */
    function SetTag(t: Tag): Value { this.(tag := t) }

    /** The payload read as an address. */
    function Ref(): uint64 { if word < 0 then word + TWO_64 else word }

    /** Guest equality of cells: a nil has no payload. */
    predicate Same(other: Value) {
      tag == other.tag && (tag.Nil? || word == other.word)
    }
  }

  const NIL := Value(Nil, 0)

  /** A tagged reference to the object at address `a`. */
  function Reference(t: Tag, a: uint64): (v: Value)
    ensures v.tag == t && v.Ref() == a
  {
    Value(t, Wrap64(a))
  }
}
