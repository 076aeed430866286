/** The native iterators behind the generic for: `next` over array part and field
    part, the ipairs step, and the leading-run length ipairs must agree with. */
module Iterators {
  import opened Values
  import opened Tables
  import opened TableStore

  /** Tag of the string object at an address; address 0 is no object. */
  type StringKinds = nat -> bool

  function KeyCell(isLong: StringKinds, ref: nat): Value {
    Value(if ref != 0 && isLong(ref) then LongString else ShortString, Wrap64(ref))
  }

  /** Tables whose parts can be scanned with 32-bit counters, with pointer keys. */
  ghost predicate Scannable(t: Table) {
    && t.Valid() && |t.items| < TWO_32 - 1
    && forall i :: 0 <= i < |t.fields| ==> t.fields[i].key < TWO_64
  }

  /** `Wild`: the 32-bit counter is 0, and the code reads slot 2^32 - 1, outside the array. */
  datatype Step = Pair(key: Value, value: Value) | End | GuardFailed | Wild

  // ---- one step ------------------------------------------------------------------------

  /** First array index at or after i (1-based) that is not nil. */
  function NextItem(items: seq<Value>, i: nat): (r: Option<nat>)
    requires 1 <= i
    ensures r.Some? ==> i <= r.value <= |items| && items[r.value - 1].tag != Nil
    ensures r.Some? ==> forall j :: i - 1 <= j < r.value - 1 ==> items[j].tag == Nil
    ensures r.None? ==> forall j :: i - 1 <= j < |items| ==> items[j].tag == Nil
    decreases |items| + 1 - i
  {
    if i > |items| then None
    else if items[i - 1].tag != Nil then Some(i)
    else NextItem(items, i + 1)
  }

  /** First occupied slot at or after i. */
  function NextField(fs: seq<Field>, i: nat): (r: Option<nat>)
    ensures r.Some? ==> i <= r.value < |fs| && fs[r.value].occupied
    ensures r.Some? ==> forall j :: i <= j < r.value ==> !fs[j].occupied
    ensures r.None? ==> forall j :: i <= j < |fs| ==> !fs[j].occupied
    decreases |fs| - i
  {
    if i >= |fs| then None else if fs[i].occupied then Some(i) else NextField(fs, i + 1)
  }

  function FieldStep(t: Table, isLong: StringKinds, i: nat): Step {
    match NextField(t.fields, i)
    case Some(j) => Pair(KeyCell(isLong, t.fields[j].key), t.fields[j].value)
    case None => End
  }

  /** The array part from counter i, then the field part. A counter that passes the
      largest capacity wraps to 0 and the loop goes on. */
  function ItemStep(t: Table, isLong: StringKinds, i: uint32): Step
    requires |t.items| < TWO_32
  {
    if i == 0 then Wild
    else
      match NextItem(t.items, i)
      case Some(j) => var n: int64 := j; Pair(Value(Integer, n), t.items[j - 1])
      case None => if |t.items| == TWO_32 - 1 then Wild else FieldStep(t, isLong, 0)
  }

  /** The first index an integer key resumes at: `(uint32_t)(n + 1)`. */
  function Resume(n: int64): uint32 { (n + 1) % TWO_32 }

  /** Integer keys whose truncated successor is an index. */
  predicate Resumable(key: Value) { key.tag == Integer ==> Resume(key.word) != 0 }

  /** lua55_residual_next_iter on a plain table. */
  function Next(t: Table, isLong: StringKinds, key: Value): Step
    requires |t.items| < TWO_32
  {
    if key.tag == Nil then ItemStep(t, isLong, 1)
    else if key.tag == Integer then ItemStep(t, isLong, Resume(key.word))
    else if key.tag.IsString() then
      match Find(t.fields, key.Ref(), 0)
      case Some(i) => FieldStep(t, isLong, i + 1)
      case None => End
    else GuardFailed
  }

  /** `next` reads outside the array exactly for an integer key whose successor is a
      multiple of 2^32, or when no value is left in an array part of 2^32 - 1 slots. */
  lemma WildIff(t: Table, isLong: StringKinds, key: Value)
    requires |t.items| < TWO_32
    ensures Next(t, isLong, key).Wild? <==>
            || (key.tag == Integer && (key.word + 1) % TWO_32 == 0)
            || ((key.tag == Nil || key.tag == Integer) && |t.items| == TWO_32 - 1
                && var from := if key.tag == Nil then 0 else Resume(key.word) - 1;
                   forall j :: from <= j < |t.items| ==> t.items[j].tag == Nil)
  {
  }

  /** Such a key is -1, whatever the table. */
  lemma MinusOneWild(t: Table, isLong: StringKinds)
    requires |t.items| < TWO_32
    ensures Next(t, isLong, Value(Integer, -1)).Wild?
  {
    WildIff(t, isLong, Value(Integer, -1));
  }

  /** lua55_residual_ipairs_iter on a plain table. */
  function Ipairs(t: Table, key: Value): Step {
    if key.tag != Integer then GuardFailed
    else
      var n := Wrap64(key.word + 1);
      if 1 <= n <= |t.items| && t.items[n - 1].tag != Nil then Pair(Value(Integer, n), t.items[n - 1])
      else End
  }

  // ---- the whole traversal -----------------------------------------------------------------

  type Pairs = seq<(Value, Value)>

  /** Non-nil array indices from i on, ascending. */
  function ItemsFrom(items: seq<Value>, i: nat): Pairs
    requires 1 <= i && |items| < TWO_32
    decreases |items| + 1 - i
  {
    if i > |items| then []
    else
      var n: int64 := i;
      (if items[i - 1].tag == Nil then [] else [(Value(Integer, n), items[i - 1])]) + ItemsFrom(items, i + 1)
  }

  /** Occupied fields from slot i on, in slot order. */
  function FieldsFrom(fs: seq<Field>, isLong: StringKinds, i: nat): Pairs
    decreases |fs| - i
  {
    if i >= |fs| then []
    else (if fs[i].occupied then [(KeyCell(isLong, fs[i].key), fs[i].value)] else []) + FieldsFrom(fs, isLong, i + 1)
  }

  function Traverse(t: Table, isLong: StringKinds): Pairs
    requires |t.items| < TWO_32
  {
    ItemsFrom(t.items, 1) + FieldsFrom(t.fields, isLong, 0)
  }

  function Head(p: Pairs): Step { if p == [] then End else Pair(p[0].0, p[0].1) }

  /** Scanning skips exactly what the traversal leaves out. */
  lemma {:induction false} FieldsHead(t: Table, isLong: StringKinds, i: nat)
    ensures Head(FieldsFrom(t.fields, isLong, i)) == FieldStep(t, isLong, i)
    ensures NextField(t.fields, i).Some? ==>
              FieldsFrom(t.fields, isLong, i)[1..] == FieldsFrom(t.fields, isLong, NextField(t.fields, i).value + 1)
    decreases |t.fields| - i
  {
    if i < |t.fields| && !t.fields[i].occupied {
      FieldsHead(t, isLong, i + 1);
    }
  }

  lemma {:induction false} ItemsHead(items: seq<Value>, i: nat)
    requires 1 <= i && |items| < TWO_32
    ensures NextItem(items, i).None? ==> ItemsFrom(items, i) == []
    ensures NextItem(items, i).Some? ==>
              var j: int64 := NextItem(items, i).value;
              ItemsFrom(items, i) == [(Value(Integer, j), items[j - 1])] + ItemsFrom(items, j + 1)
    decreases |items| + 1 - i
  {
    if i <= |items| && items[i - 1].tag == Nil {
      ItemsHead(items, i + 1);
      var rest := ItemsFrom(items, i + 1);
      assert ItemsFrom(items, i) == [] + rest == rest;
    }
  }

  /** The rest of the traversal after a key. */
  function After(t: Table, isLong: StringKinds, key: Value): Pairs
    requires |t.items| < TWO_32 && Resumable(key)
  {
    if key.tag == Nil then Traverse(t, isLong)
    else if key.tag == Integer then ItemsFrom(t.items, Resume(key.word)) + FieldsFrom(t.fields, isLong, 0)
    else
      match Find(t.fields, key.Ref(), 0)
      case Some(i) => FieldsFrom(t.fields, isLong, i + 1)
      case None => []
  }

  /** A key the traversal yields can be resumed from. */
  lemma ItemKey(t: Table, isLong: StringKinds, j: nat)
    requires Scannable(t) && 1 <= j <= |t.items|
    ensures var n: int64 := j;
            var k := Value(Integer, n);
            Resumable(k) && After(t, isLong, k) == ItemsFrom(t.items, j + 1) + FieldsFrom(t.fields, isLong, 0)
  {
    var n: int64 := j;
    assert Resume(n) == j + 1;
  }

  lemma FieldKey(t: Table, isLong: StringKinds, i: nat)
    requires Scannable(t) && i < |t.fields| && t.fields[i].occupied
    ensures var k := KeyCell(isLong, t.fields[i].key);
            Resumable(k) && After(t, isLong, k) == FieldsFrom(t.fields, isLong, i + 1)
  {
    var key := t.fields[i].key;
    var cell := KeyCell(isLong, key);
    assert cell.Ref() == key;
    FindUnique(t, i);
  }

  /** One call of `next` gives the head of what is left, and its key leaves the tail. */
  lemma NextAfter(t: Table, isLong: StringKinds, key: Value)
    requires Scannable(t) && Resumable(key) && (key.tag == Nil || key.tag == Integer || key.tag.IsString())
    ensures Next(t, isLong, key) == Head(After(t, isLong, key))
    ensures Next(t, isLong, key).Pair? ==>
              var k := Next(t, isLong, key).key;
              && Resumable(k) && (k.tag == Integer || k.tag.IsString())
              && After(t, isLong, k) == After(t, isLong, key)[1..]
  {
    if key.tag.IsString() {
      var found := Find(t.fields, key.Ref(), 0);
      if found.Some? {
        FieldsAfter(t, isLong, found.value + 1);
      }
    } else {
      ItemsAfter(t, isLong, if key.tag == Nil then 1 else Resume(key.word));
    }
  }

  lemma FieldsAfter(t: Table, isLong: StringKinds, i: nat)
    requires Scannable(t)
    ensures var s := FieldStep(t, isLong, i);
            var p := FieldsFrom(t.fields, isLong, i);
            && s == Head(p)
            && (s.Pair? ==> Resumable(s.key) && s.key.tag.IsString() && After(t, isLong, s.key) == p[1..])
  {
    FieldsHead(t, isLong, i);
    var j := NextField(t.fields, i);
    if j.Some? {
      FieldKey(t, isLong, j.value);
    }
  }

  lemma ItemsAfter(t: Table, isLong: StringKinds, i: uint32)
    requires Scannable(t) && 1 <= i
    ensures var s := ItemStep(t, isLong, i);
            var p := ItemsFrom(t.items, i) + FieldsFrom(t.fields, isLong, 0);
            && s == Head(p)
            && (s.Pair? ==> Resumable(s.key) && (s.key.tag == Integer || s.key.tag.IsString()))
            && (s.Pair? ==> After(t, isLong, s.key) == p[1..])
  {
    ItemsHead(t.items, i);
    var j := NextItem(t.items, i);
    var fields := FieldsFrom(t.fields, isLong, 0);
    if j.Some? {
      var tail := ItemsFrom(t.items, j.value + 1);
      ConsTail(ItemStep(t, isLong, i), ItemsFrom(t.items, i), tail, fields);
      ItemKey(t, isLong, j.value);
    } else {
      FieldsAfter(t, isLong, 0);
      assert [] + fields == fields;
    }
  }

  lemma ConsTail(s: Step, items: Pairs, tail: Pairs, fields: Pairs)
    requires s.Pair? && items == [(s.key, s.value)] + tail
    ensures Head(items + fields) == s && (items + fields)[1..] == tail + fields
  {
  }

  /** Repeated `next` from a key, as the generic for does it, for at most n calls. */
  function Walk(t: Table, isLong: StringKinds, key: Value, n: nat): Pairs
    requires |t.items| < TWO_32
    decreases n
  {
    if n == 0 then []
    else
      match Next(t, isLong, key)
      case Pair(k, v) => [(k, v)] + Walk(t, isLong, k, n - 1)
      case _ => []
  }

  /** A key to resume from, with what is left of the traversal after it. */
  ghost predicate Leaves(t: Table, isLong: StringKinds, key: Value, rest: Pairs) {
    && |t.items| < TWO_32 && Resumable(key) && (key.tag == Nil || key.tag == Integer || key.tag.IsString())
    && After(t, isLong, key) == rest
  }

  lemma NextLeaves(t: Table, isLong: StringKinds, key: Value, rest: Pairs)
    requires Scannable(t) && Leaves(t, isLong, key, rest)
    ensures var s := Next(t, isLong, key);
            && s == Head(rest)
            && (s.Pair? ==> Leaves(t, isLong, s.key, rest[1..]))
  {
    NextAfter(t, isLong, key);
  }

  lemma WalkCons(t: Table, isLong: StringKinds, key: Value, n: nat, s: Step)
    requires |t.items| < TWO_32 && Resumable(key) && n > 0 && Next(t, isLong, key) == s && s.Pair?
    ensures Walk(t, isLong, key, n) == [(s.key, s.value)] + Walk(t, isLong, s.key, n - 1)
  {
  }

  lemma WalkEnd(t: Table, isLong: StringKinds, key: Value, n: nat)
    requires |t.items| < TWO_32 && Resumable(key) && !Next(t, isLong, key).Pair?
    ensures Walk(t, isLong, key, n) == []
  {
  }

  /** From any resumable key, `next` yields the rest of the traversal and then ends. */
  lemma {:induction false} WalkAfter(t: Table, isLong: StringKinds, key: Value, rest: Pairs, n: nat)
    requires Scannable(t) && Leaves(t, isLong, key, rest) && n >= |rest|
    ensures Walk(t, isLong, key, n) == rest
    decreases n
  {
    NextLeaves(t, isLong, key, rest);
    if rest == [] {
      WalkEnd(t, isLong, key, n);
    } else {
      var s := Next(t, isLong, key);
      WalkAfter(t, isLong, s.key, rest[1..], n - 1);
      WalkCons(t, isLong, key, n, s);
      assert rest == [rest[0]] + rest[1..];
    }
  }

  /** Iterating `next` from nil visits each non-nil array index in ascending order,
      then each occupied field once in slot order, and then ends. */
  lemma NextTraverses(t: Table, isLong: StringKinds, n: nat)
    requires Scannable(t) && n >= |Traverse(t, isLong)|
    ensures Walk(t, isLong, NIL, n) == Traverse(t, isLong)
  {
    WalkAfter(t, isLong, NIL, Traverse(t, isLong), n);
  }

  // ---- the traversal by position ----------------------------------------------------------------

  /** Positions: the array slots, then the field slots. A position is live when its array
      value is not nil, or its field is occupied. */
  ghost predicate LiveAt(t: Table, pos: nat) {
    if pos < |t.items| then t.items[pos].tag != Nil
    else pos < |t.items| + |t.fields| && t.fields[pos - |t.items|].occupied
  }

  /** The pair of a live position: an integer key and its value; or a string key, tagged long
      exactly when its string object is, and the field's value. */
  ghost predicate PairAt(t: Table, isLong: StringKinds, pos: nat, p: (Value, Value)) {
    && LiveAt(t, pos)
    && if pos < |t.items| then p.0.tag == Integer && p.0.word == pos + 1 && p.1 == t.items[pos]
       else
         var f := t.fields[pos - |t.items|];
         && p.0.Ref() == f.key && p.1 == f.value
         && p.0.tag == (if f.key != 0 && isLong(f.key) then LongString else ShortString)
  }

  /** The pairs are those of all live positions from lo up to hi, in ascending order. */
  ghost predicate Listing(t: Table, isLong: StringKinds, pairs: Pairs, ps: seq<nat>, lo: nat, hi: nat) {
    && |ps| == |pairs|
    && (forall k {:trigger ps[k]} :: 0 <= k < |ps| ==> lo <= ps[k] < hi && PairAt(t, isLong, ps[k], pairs[k]))
    && (forall j, k {:trigger ps[j], ps[k]} :: 0 <= j < k < |ps| ==> ps[j] < ps[k])
    && (forall pos: nat {:trigger LiveAt(t, pos)} :: lo <= pos < hi && LiveAt(t, pos) ==> pos in ps)
  }

  lemma ListingJoin(t: Table, isLong: StringKinds, p: Pairs, ps: seq<nat>, q: Pairs, qs: seq<nat>,
                    lo: nat, mid: nat, hi: nat)
    requires lo <= mid <= hi && Listing(t, isLong, p, ps, lo, mid) && Listing(t, isLong, q, qs, mid, hi)
    ensures Listing(t, isLong, p + q, ps + qs, lo, hi)
  {
    forall pos: nat {:trigger LiveAt(t, pos)} | lo <= pos < hi && LiveAt(t, pos)
      ensures pos in ps + qs
    {
      assert pos < mid ==> pos in ps;
      assert pos >= mid ==> pos in qs;
    }
  }

  /** One position. */
  lemma ListingOne(t: Table, isLong: StringKinds, pos: nat, p: Pairs, ps: seq<nat>)
    requires if LiveAt(t, pos) then |p| == 1 && ps == [pos] && PairAt(t, isLong, pos, p[0]) else p == [] && ps == []
    ensures Listing(t, isLong, p, ps, pos, pos + 1)
  {
  }

  lemma {:induction false} ItemsListed(t: Table, isLong: StringKinds, i: nat) returns (ps: seq<nat>)
    requires 1 <= i <= |t.items| + 1 && |t.items| < TWO_32
    ensures Listing(t, isLong, ItemsFrom(t.items, i), ps, i - 1, |t.items|)
    decreases |t.items| + 1 - i
  {
    ps := [];
    if i <= |t.items| {
      var n: int64 := i;
      var live := t.items[i - 1].tag != Nil;
      var p: Pairs := if live then [(Value(Integer, n), t.items[i - 1])] else [];
      var one: seq<nat> := if live then [i - 1] else [];
      ps := ItemsListed(t, isLong, i + 1);
      ListingOne(t, isLong, i - 1, p, one);
      ListingJoin(t, isLong, p, one, ItemsFrom(t.items, i + 1), ps, i - 1, i, |t.items|);
      ps := one + ps;
    }
  }

  lemma {:induction false} FieldsListed(t: Table, isLong: StringKinds, i: nat) returns (ps: seq<nat>)
    requires i <= |t.fields| && forall j :: 0 <= j < |t.fields| ==> t.fields[j].key < TWO_64
    ensures Listing(t, isLong, FieldsFrom(t.fields, isLong, i), ps, |t.items| + i, |t.items| + |t.fields|)
    decreases |t.fields| - i
  {
    ps := [];
    if i < |t.fields| {
      var f, at := t.fields[i], |t.items| + i;
      var p: Pairs := if f.occupied then [(KeyCell(isLong, f.key), f.value)] else [];
      var one: seq<nat> := if f.occupied then [at] else [];
      ps := FieldsListed(t, isLong, i + 1);
      assert KeyCell(isLong, f.key).Ref() == f.key;
      ListingOne(t, isLong, at, p, one);
      ListingJoin(t, isLong, p, one, FieldsFrom(t.fields, isLong, i + 1), ps, at, at + 1, |t.items| + |t.fields|);
      ps := one + ps;
    }
  }

  /** Iterating `next` from nil, for enough calls, yields exactly one pair for each live
      position, in ascending order, with its key and value. */
  lemma WalkListed(t: Table, isLong: StringKinds, n: nat) returns (ps: seq<nat>)
    requires Scannable(t) && n >= |Traverse(t, isLong)|
    ensures Listing(t, isLong, Walk(t, isLong, NIL, n), ps, 0, |t.items| + |t.fields|)
  {
    var items := ItemsListed(t, isLong, 1);
    var fields := FieldsListed(t, isLong, 0);
    NextTraverses(t, isLong, n);
    ListingJoin(t, isLong, ItemsFrom(t.items, 1), items, FieldsFrom(t.fields, isLong, 0), fields,
                0, |t.items|, |t.items| + |t.fields|);
    ps := items + fields;
  }

  /** The position `next` goes on from after a key: the first one for nil, behind an index,
      behind the field of a string; none for a string that is no field. */
  ghost function Onward(t: Table, key: Value): Option<nat>
    requires Resumable(key)
  {
    if key.tag == Nil then Some(0)
    else if key.tag == Integer then Some(if Resume(key.word) > |t.items| then |t.items| else Resume(key.word) - 1)
    else match Find(t.fields, key.Ref(), 0) case Some(i) => Some(|t.items| + i + 1) case None => None
  }

  /** s is the pair of the first live position from lo on, or the end. */
  ghost predicate First(t: Table, isLong: StringKinds, s: Step, lo: nat) {
    match s
    case Pair(k, v) => exists pos: nat :: FirstLive(t, lo, pos) && PairAt(t, isLong, pos, (k, v))
    case End => forall q: nat {:trigger LiveAt(t, q)} :: lo <= q ==> !LiveAt(t, q)
    case _ => false
  }

  ghost predicate FirstLive(t: Table, lo: nat, pos: nat) {
    lo <= pos && LiveAt(t, pos) && forall q: nat {:trigger LiveAt(t, q)} :: lo <= q < pos ==> !LiveAt(t, q)
  }

  lemma FieldStepFirst(t: Table, isLong: StringKinds, i: nat)
    requires Scannable(t)
    ensures First(t, isLong, FieldStep(t, isLong, i), |t.items| + i)
  {
    var j := NextField(t.fields, i);
    if j.Some? {
      assert KeyCell(isLong, t.fields[j.value].key).Ref() == t.fields[j.value].key;
      assert FirstLive(t, |t.items| + i, |t.items| + j.value);
    }
  }

  lemma ItemStepFirst(t: Table, isLong: StringKinds, i: uint32)
    requires Scannable(t) && 1 <= i
    ensures First(t, isLong, ItemStep(t, isLong, i), if i > |t.items| then |t.items| else i - 1)
  {
    var j := NextItem(t.items, i);
    if j.Some? {
      assert FirstLive(t, i - 1, j.value - 1);
    } else {
      FieldStepFirst(t, isLong, 0);
      var s := FieldStep(t, isLong, 0);
      if s.Pair? {
        var pos: nat :| FirstLive(t, |t.items|, pos) && PairAt(t, isLong, pos, (s.key, s.value));
        assert FirstLive(t, if i > |t.items| then |t.items| else i - 1, pos);
      }
    }
  }

  /** One call of `next` with any key it accepts: the pair of the first live position from
      there on, or the end when there is none. */
  lemma NextFirst(t: Table, isLong: StringKinds, key: Value)
    requires Scannable(t) && Resumable(key) && (key.tag == Nil || key.tag == Integer || key.tag.IsString())
    ensures match Onward(t, key)
            case Some(lo) => First(t, isLong, Next(t, isLong, key), lo)
            case None => Next(t, isLong, key) == End
  {
    if key.tag.IsString() {
      var found := Find(t.fields, key.Ref(), 0);
      if found.Some? {
        FieldStepFirst(t, isLong, found.value + 1);
      }
    } else {
      ItemStepFirst(t, isLong, if key.tag == Nil then 1 else Resume(key.word));
    }
  }

  // ---- what the traversal contains --------------------------------------------------------------

  function KeyOf(cell: Value): Key { if cell.tag == Integer then IntKey(cell.word) else StrKey(cell.Ref()) }

  ghost predicate ItemPair(p: (Value, Value), items: seq<Value>) {
    p.0.tag == Integer && 1 <= p.0.word <= |items| && p.1 == items[p.0.word - 1] && p.1.tag != Nil
  }

  lemma {:induction false} ItemsSound(items: seq<Value>, i: nat)
    requires 1 <= i && |items| < TWO_32
    ensures forall p :: p in ItemsFrom(items, i) ==> ItemPair(p, items)
    decreases |items| + 1 - i
  {
    if i <= |items| {
      ItemsSound(items, i + 1);
    }
  }

  lemma {:induction false} ItemsFound(items: seq<Value>, i: nat, n: int64)
    requires 1 <= i <= n <= |items| < TWO_32 && items[n - 1].tag != Nil
    ensures (Value(Integer, n), items[n - 1]) in ItemsFrom(items, i)
    decreases n - i
  {
    if i < n {
      ItemsFound(items, i + 1, n);
    }
  }

  lemma {:induction false} FieldsMembers(t: Table, isLong: StringKinds, i: nat, slot: nat)
    requires Scannable(t) && slot < |t.fields|
    ensures forall p :: p in FieldsFrom(t.fields, isLong, i) ==>
              p.0.tag.IsString() && Lookup(t, KeyOf(p.0)) == p.1
    ensures i <= slot && t.fields[slot].occupied ==>
              exists p :: p in FieldsFrom(t.fields, isLong, i) && KeyOf(p.0) == StrKey(t.fields[slot].key)
    decreases |t.fields| - i
  {
    if i < |t.fields| {
      FieldsMembers(t, isLong, i + 1, slot);
      var p := (KeyCell(isLong, t.fields[i].key), t.fields[i].value);
      assert p.0.Ref() == t.fields[i].key;
      if t.fields[i].occupied {
        FindUnique(t, i);
        assert p in FieldsFrom(t.fields, isLong, i);
      }
      assert forall q :: q in FieldsFrom(t.fields, isLong, i + 1) ==> q in FieldsFrom(t.fields, isLong, i);
    }
  }

  /** Every pair yielded is a key with its value, and every key that reads non-nil
      is yielded. */
  lemma TraverseComplete(t: Table, isLong: StringKinds, k: Key)
    requires Scannable(t)
    ensures forall p :: p in Traverse(t, isLong) ==> Lookup(t, KeyOf(p.0)) == p.1
    ensures Lookup(t, k).tag != Nil ==> exists p :: p in Traverse(t, isLong) && KeyOf(p.0) == k
  {
    var items, fields := ItemsFrom(t.items, 1), FieldsFrom(t.fields, isLong, 0);
    ItemsSound(t.items, 1);
    if k.IntKey? && Lookup(t, k).tag != Nil {
      ItemsFound(t.items, 1, k.n);
    }
    if |t.fields| > 0 {
      var found := if k.StrKey? then Find(t.fields, k.ref, 0) else None;
      FieldsMembers(t, isLong, 0, if found.Some? then found.value else 0);
    }
    assert forall p :: p in items ==> p in items + fields;
    assert forall p :: p in fields ==> p in items + fields;
  }

  /** Key k is yielded. */
  ghost predicate Yields(t: Table, isLong: StringKinds, k: Key)
    requires |t.items| < TWO_32
  {
    exists p :: p in Traverse(t, isLong) && KeyOf(p.0) == k
  }

  /** The language's traversal: exactly the keys that read non-nil. */
  ghost predicate TraversesValues(t: Table, isLong: StringKinds)
    requires |t.items| < TWO_32
  {
    forall k :: Yields(t, isLong, k) <==> Lookup(t, k).tag != Nil
  }

  ghost predicate HoldsNil(fs: seq<Field>, i: nat) { i < |fs| && fs[i].occupied && fs[i].value.tag == Nil }

  /** `next` yields exactly the keys that read non-nil if and only if no occupied field
      holds nil; a field set to nil stays occupied and is yielded with its nil. */
  lemma NextFaithfulIff(t: Table, isLong: StringKinds)
    requires Scannable(t)
    ensures TraversesValues(t, isLong) <==> forall i: nat :: !HoldsNil(t.fields, i)
  {
    if i: nat :| HoldsNil(t.fields, i) {
      NilFieldYielded(t, isLong, i);
    } else {
      forall k
        ensures Yields(t, isLong, k) <==> Lookup(t, k).tag != Nil
      {
        YieldedReads(t, isLong, k);
      }
    }
  }

  lemma NilFieldYielded(t: Table, isLong: StringKinds, i: nat)
    requires Scannable(t) && HoldsNil(t.fields, i)
    ensures !TraversesValues(t, isLong)
  {
    var k := StrKey(t.fields[i].key);
    FindUnique(t, i);
    FieldsMembers(t, isLong, 0, i);
    var p :| p in FieldsFrom(t.fields, isLong, 0) && KeyOf(p.0) == k;
    assert p in Traverse(t, isLong);
    assert Yields(t, isLong, k) && Lookup(t, k).tag == Nil;
  }

  lemma YieldedReads(t: Table, isLong: StringKinds, k: Key)
    requires Scannable(t) && forall i: nat :: !HoldsNil(t.fields, i)
    ensures Yields(t, isLong, k) <==> Lookup(t, k).tag != Nil
  {
    TraverseComplete(t, isLong, k);
    if Yields(t, isLong, k) {
      var p :| p in Traverse(t, isLong) && KeyOf(p.0) == k;
      ItemsSound(t.items, 1);
      if p in ItemsFrom(t.items, 1) {
        assert ItemPair(p, t.items);
      } else {
        assert p in FieldsFrom(t.fields, isLong, 0);
        FieldsStored(t.fields, isLong, 0, p);
      }
    }
  }

  /** A yielded field pair carries the value of an occupied field. */
  lemma {:induction false} FieldsStored(fs: seq<Field>, isLong: StringKinds, i: nat, p: (Value, Value))
    requires p in FieldsFrom(fs, isLong, i) && forall j: nat :: !HoldsNil(fs, j)
    ensures p.1.tag != Nil
    decreases |fs| - i
  {
    if fs[i].occupied && p == (KeyCell(isLong, fs[i].key), fs[i].value) {
      assert !HoldsNil(fs, i);
    } else {
      FieldsStored(fs, isLong, i + 1, p);
    }
  }

  /** A field that was set to nil is still yielded. */
  lemma NilFieldWitness(isLong: StringKinds)
    ensures var t := Table.Table([NIL], [Field(7, NIL, true)], 1);
            && Scannable(t) && Traverse(t, isLong) == [(KeyCell(isLong, 7), NIL)]
            && Lookup(t, StrKey(7)) == NIL && !TraversesValues(t, isLong)
  {
    var t := Table.Table([NIL], [Field(7, NIL, true)], 1);
    assert ItemsFrom(t.items, 1) == [] + ItemsFrom(t.items, 2);
    assert FieldsFrom(t.fields, isLong, 0) == [(KeyCell(isLong, 7), NIL)] + FieldsFrom(t.fields, isLong, 1);
    assert HoldsNil(t.fields, 0);
    NilFieldYielded(t, isLong, 0);
  }

  // ---- ipairs and length -------------------------------------------------------------------------

  /** Length of the leading run of non-nil values, from i on. */
  function RunFrom(items: seq<Value>, i: nat): (n: nat)
    requires i <= |items|
    ensures i <= n <= |items|
    ensures forall j :: i <= j < n ==> items[j].tag != Nil
    ensures n < |items| ==> items[n].tag == Nil
    decreases |items| - i
  {
    if i < |items| && items[i].tag != Nil then RunFrom(items, i + 1) else i
  }

  /** table_len: the scan loop. */
  method TableLen(table: GuestTable) returns (n: nat)
    ensures n == RunFrom(table.items[..], 0)
    ensures n <= table.items.Length && (n < table.items.Length ==> table.items[n].tag == Nil)
    ensures forall j :: 0 <= j < n ==> table.items[j].tag != Nil
  {
    n := 0;
    while n < table.items.Length
      invariant n <= table.items.Length
      invariant RunFrom(table.items[..], n) == RunFrom(table.items[..], 0)
      invariant forall j :: 0 <= j < n ==> table.items[j].tag != Nil
    {
      if table.items[n].tag == Nil { return; }
      n := n + 1;
    }
  }

  /** Repeated ipairs steps from a key, for at most n calls. */
  function WalkIpairs(t: Table, key: Value, n: nat): Pairs
    decreases n
  {
    if n == 0 then []
    else
      match Ipairs(t, key)
      case Pair(k, v) => [(k, v)] + WalkIpairs(t, k, n - 1)
      case _ => []
  }

  /** The pairs i+1 .. m of the array part. */
  function Counted(items: seq<Value>, i: nat, m: nat): (p: Pairs)
    requires i <= m <= |items| < TWO_32
    ensures |p| == m - i
    ensures forall j :: 0 <= j < m - i ==> p[j].0.tag == Integer && p[j].0.word == i + j + 1 && p[j].1 == items[i + j]
    decreases m - i
  {
    if i == m then [] else var n: int64 := i + 1; [(Value(Integer, n), items[i])] + Counted(items, i + 1, m)
  }

  /** From index i inside the leading run, ipairs yields i+1 .. length, then ends. */
  lemma {:induction false} IpairsFrom(t: Table, i: int64, n: nat)
    requires |t.items| < TWO_32 && 0 <= i <= RunFrom(t.items, 0) && n >= RunFrom(t.items, 0) - i
    ensures WalkIpairs(t, Value(Integer, i), n) == Counted(t.items, i, RunFrom(t.items, 0))
    decreases n
  {
    if i < RunFrom(t.items, 0) {
      IpairsNext(t, i, n);
      IpairsFrom(t, i + 1, n - 1);
    } else {
      IpairsEnd(t, i, n);
    }
  }

  /** Inside the leading run, one more pair. */
  lemma IpairsNext(t: Table, i: int64, n: nat)
    requires |t.items| < TWO_32 && 0 <= i < RunFrom(t.items, 0) && n > 0
    ensures WalkIpairs(t, Value(Integer, i), n) ==
            [(Value(Integer, i + 1), t.items[i])] + WalkIpairs(t, Value(Integer, i + 1), n - 1)
  {
    WrapExact(i + 1);
  }

  lemma IpairsEnd(t: Table, i: int64, n: nat)
    requires |t.items| < TWO_32 && i == RunFrom(t.items, 0)
    ensures WalkIpairs(t, Value(Integer, i), n) == []
  {
    WrapExact(i + 1);
  }

  /** One ipairs step from any index: the next index with the value the table has there, or
      the end where it has none. */
  lemma IpairsReads(t: Table, n: int64)
    requires |t.items| < TWO_32 && n < TWO_63 - 1
    ensures var v := Lookup(t, IntKey(n + 1));
            Ipairs(t, Value(Integer, n)) == if v.tag == Nil then End else Pair(Value(Integer, n + 1), v)
  {
    WrapExact(n + 1);
  }

  /** ipairs from 0 yields exactly 1 .. table_len, in order. */
  lemma IpairsIsLength(t: Table, n: nat)
    requires |t.items| < TWO_32 && n >= RunFrom(t.items, 0)
    ensures var p := WalkIpairs(t, Value(Integer, 0), n);
            && |p| == RunFrom(t.items, 0)
            && forall j :: 0 <= j < |p| ==> p[j].0.tag == Integer && p[j].0.word == j + 1 && p[j].1 == t.items[j]
  {
    IpairsFrom(t, 0, n);
  }

  /** Both iterators fail their guard exactly for the keys they have no step for. */
  lemma GuardsIff(t: Table, isLong: StringKinds, key: Value)
    requires |t.items| < TWO_32
    ensures Next(t, isLong, key).GuardFailed? <==> key.tag in {False, True, Float, Tag.Table, Closure}
    ensures Ipairs(t, key).GuardFailed? <==> key.tag != Integer
  {
  }

  // ---- the iterators in place ----------------------------------------------------------------------

  /** The register effect of a step: R2/R3 on a pair, R2 := nil at the end, nothing on a
      failed guard. After a wild read no effect is promised. */
  function Publish(r: seq<Value>, s: Step): (r': seq<Value>)
    requires |r| >= 4
    ensures |r'| == |r|
  {
    match s
    case Pair(k, v) => r[2 := k][3 := v]
    case End => r[2 := NIL]
    case GuardFailed => r
    case Wild => r
  }

  method ScanItems(table: GuestTable, start: nat) returns (r: Option<nat>)
    requires 1 <= start
    ensures r == NextItem(table.items[..], start)
  {
    var i := start;
    while i <= table.items.Length
      invariant start <= i && NextItem(table.items[..], i) == NextItem(table.items[..], start)
    {
      if table.items[i - 1].tag != Nil { return Some(i); }
      i := i + 1;
    }
    r := None;
  }

  method ScanFields(table: GuestTable, start: nat) returns (r: Option<nat>)
    ensures r == NextField(table.fields[..], start)
  {
    var i := start;
    while i < table.fields.Length
      invariant NextField(table.fields[..], i) == NextField(table.fields[..], start)
    {
      if table.fields[i].occupied { return Some(i); }
      i := i + 1;
    }
    r := None;
  }

  /** next_field: publishes the first occupied field from `start`, or nil. */
  method PublishField(regs: array<Value>, table: GuestTable, isLong: StringKinds, start: nat)
    requires regs.Length >= 4 && regs != table.items
    modifies regs
    ensures regs[..] == Publish(old(regs[..]), FieldStep(table.Abstract(), isLong, start))
  {
    var slot := ScanFields(table, start);
    if slot.Some? {
      regs[2] := KeyCell(isLong, table.fields[slot.value].key);
      regs[3] := table.fields[slot.value].value;
    } else {
      regs[2] := NIL;
    }
  }

  datatype Exit = Continues | Failing | Astray

  /** The array part, then the field part. */
  method PublishItem(regs: array<Value>, table: GuestTable, isLong: StringKinds, start: uint32) returns (exit: Exit)
    requires regs.Length >= 4 && regs != table.items && table.items.Length < TWO_32
    modifies regs
    ensures regs[..] == Publish(old(regs[..]), ItemStep(table.Abstract(), isLong, start))
    ensures exit == if ItemStep(table.Abstract(), isLong, start).Wild? then Astray else Continues
  {
    if start == 0 { return Astray; }
    exit := Continues;
    var i := ScanItems(table, start);
    if i.Some? {
      var n: int64 := i.value;
      regs[2] := Value(Integer, n);
      regs[3] := table.items[i.value - 1];
    } else if table.items.Length == TWO_32 - 1 {
      exit := Astray;
    } else {
      PublishField(regs, table, isLong, 0);
    }
  }

  /** lua55_residual_next_iter; `plain` is the receiver check. */
  method NextIter(regs: array<Value>, table: GuestTable, plain: bool, isLong: StringKinds) returns (exit: Exit)
    requires regs.Length >= 4 && regs != table.items && table.items.Length < TWO_32
    modifies regs
    ensures var s := if plain then Next(old(table.Abstract()), isLong, old(regs[1])) else GuardFailed;
            && exit == (if s.Wild? then Astray else if s.GuardFailed? then Failing else Continues)
            && (!s.Wild? ==> regs[..] == Publish(old(regs[..]), s))
            && (s.Pair? ==> regs[2] == s.key && regs[3] == s.value) && (s.End? ==> regs[2].tag == Nil)
  {
    if !plain { return Failing; }
    var key := regs[1];
    exit := Continues;
    if key.tag == Nil {
      exit := PublishItem(regs, table, isLong, 1);
    } else if key.tag == Integer {
      exit := PublishItem(regs, table, isLong, Resume(key.word));
    } else if key.tag.IsString() {
      var found, vacant := table.Scan(key.Ref());
      if found.Some? { PublishField(regs, table, isLong, found.value + 1); } else { regs[2] := NIL; }
    } else {
      exit := Failing;
    }
  }

  /** lua55_residual_ipairs_iter. */
  method IpairsIter(regs: array<Value>, table: GuestTable, plain: bool) returns (ok: bool)
    requires regs.Length >= 4 && regs != table.items
    modifies regs
    ensures var s := if plain then Ipairs(old(table.Abstract()), old(regs[1])) else GuardFailed;
            && ok == !s.GuardFailed? && regs[..] == Publish(old(regs[..]), s)
            && (s.Pair? ==> regs[2] == s.key && regs[3] == s.value) && (s.End? ==> regs[2].tag == Nil)
  {
    if !plain || regs[1].tag != Integer { return false; }
    var n := Wrap64(regs[1].word + 1);
    if 1 <= n <= table.items.Length && table.items[n - 1].tag != Nil {
      regs[2] := Value(Integer, n);
      regs[3] := table.items[n - 1];
    } else {
      regs[2] := NIL;
    }
    ok := true;
  }
}
