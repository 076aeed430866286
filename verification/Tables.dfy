/** Guest table storage: a growable array part for the keys 1..capacity and a
    linear field part for string keys, against a finite map with nil default. */
module Tables {
  import opened Values
  import opened GuestHeap

  /** sizeof a field entry and a value. */
  const FIELD_BYTES := 32
  const VALUE_BYTES := 16

  datatype Field = Field(key: nat, value: Value, occupied: bool)

  const VACANT := Field(0, NIL, false)

  datatype Key = IntKey(n: int) | StrKey(ref: nat)

  /** Storage of one table; `generation` counts structural changes. */
  datatype Table = Table(items: seq<Value>, fields: seq<Field>, generation: nat) {
    /** Occupied fields form a prefix, and no key occurs twice. */
    ghost predicate Valid() {
      && |items| < TWO_32 && |fields| < TWO_32
      && (forall i, j {:trigger fields[i], fields[j]} :: 0 <= i < j < |fields| && fields[j].occupied ==>
            fields[i].occupied && fields[i].key != fields[j].key)
    }
  }

  // ---- reading ------------------------------------------------------------------

  /** Index of the first occupied field with this key, from `i` on. */
  function Find(fs: seq<Field>, key: nat, i: nat): (r: Option<nat>)
    requires i <= |fs|
    ensures r.Some? ==> i <= r.value < |fs| && fs[r.value].occupied && fs[r.value].key == key
    ensures r.None? ==> forall j :: i <= j < |fs| ==> !(fs[j].occupied && fs[j].key == key)
    decreases |fs| - i
  {
    if i == |fs| then None
    else if fs[i].occupied && fs[i].key == key then Some(i)
    else Find(fs, key, i + 1)
  }

  /** Index of the first vacant field, from `i` on. */
  function FirstVacant(fs: seq<Field>, i: nat): (r: Option<nat>)
    requires i <= |fs|
    ensures r.Some? ==> i <= r.value < |fs| && !fs[r.value].occupied
    ensures r.Some? ==> forall j :: i <= j < r.value ==> fs[j].occupied
    ensures r.None? ==> forall j :: i <= j < |fs| ==> fs[j].occupied
    decreases |fs| - i
  {
    if i == |fs| then None
    else if !fs[i].occupied then Some(i)
    else FirstVacant(fs, i + 1)
  }

  function Lookup(t: Table, k: Key): Value {
    match k
    case IntKey(n) => if 1 <= n <= |t.items| then t.items[n - 1] else NIL
    case StrKey(r) =>
      match Find(t.fields, r, 0)
      case Some(i) => t.fields[i].value
      case None => NIL
  }

  // ---- growing ---------------------------------------------------------------------

  function Repeat<T>(x: T, n: nat): (s: seq<T>)
    ensures |s| == n && forall i :: 0 <= i < n ==> s[i] == x
  {
    seq(n, _ => x)
  }

  /** The doubling loop of v2_grow_array in 32-bit arithmetic. After 32 doublings
      the capacity is 0 for good, so running out of fuel means it never ends. */
  function NewCapacity(c: uint32, needed: nat, fuel: nat): (r: Option<uint32>)
    ensures r.Some? ==> r.value >= needed
    ensures needed <= c ==> r == Some(c)
    decreases fuel
  {
    if c >= needed then Some(c)
    else if fuel == 0 then None
    else NewCapacity((2 * c) % TWO_32, needed, fuel - 1)
  }

  function ArrayStart(t: Table): uint32
    requires |t.items| < TWO_32
  {
    if |t.items| > 0 then |t.items| else 1
  }

  /** `Beyond`: the capacity arithmetic leaves its 32 bits (the array doubling
      never ends, or the field doubling wraps to a smaller number). */
  datatype Grown = Grown(t: Table, heap: Heap) | OutOfHeap | Beyond

  /** v2_grow_array. */
  function GrowArray(t: Table, h: Heap, needed: nat): Grown
    requires |t.items| < TWO_32
  {
    match NewCapacity(ArrayStart(t), needed, 32)
    case None => Grown.Beyond
    case Some(cap) =>
      var (h', at) := Bump(h, VALUE_BYTES * cap);
      if at == 0 then OutOfHeap
      else Grown(t.(items := t.items + Repeat(NIL, cap - |t.items|), generation := t.generation + 1), h')
  }

  /** The field doubling of v2_find_field. */
  function FieldCapacity(n: nat): uint32 { (2 * (if n > 0 then n else 1)) % TWO_32 }

  function GrowFields(t: Table, h: Heap): Grown {
    var cap := FieldCapacity(|t.fields|);
    var (h', at) := Bump(h, FIELD_BYTES * cap);
    if at == 0 then OutOfHeap
    else if cap <= |t.fields| then Grown.Beyond
    else Grown(t.(fields := t.fields + Repeat(VACANT, cap - |t.fields|), generation := t.generation + 1), h')
  }

  // ---- creating fields ----------------------------------------------------------------

  /** Claiming vacant field `i` for `key`. */
  function Claim(t: Table, i: nat, key: nat): Table
    requires i < |t.fields|
  {
    t.(fields := t.fields[i := Field(key, NIL, true)], generation := t.generation + 1)
  }

  datatype Located = Located(t: Table, heap: Heap, slot: nat) | Missing | OffScale

  /** v2_find_field with create: found, claimed, or claimed after one growth. */
  function FindOrCreate(t: Table, h: Heap, key: nat): (r: Located)
    ensures r.Located? ==> r.slot < |r.t.fields| && r.t.fields[r.slot].occupied && r.t.fields[r.slot].key == key
  {
    match Find(t.fields, key, 0)
    case Some(i) => Located(t, h, i)
    case None =>
      match FirstVacant(t.fields, 0)
      case Some(i) => Located(Claim(t, i, key), h, i)
      case None =>
        match GrowFields(t, h)
        case Grown(t1, h1) => Located(Claim(t1, |t.fields|, key), h1, |t.fields|)
        case OutOfHeap => Missing
        case Beyond => OffScale
  }

  // ---- writing --------------------------------------------------------------------------

  datatype Written = Stored(t: Table, heap: Heap) | Refused | Unbounded

  function PutArray(t: Table, n: int, v: Value): Table
    requires 1 <= n <= |t.items|
  {
    t.(items := t.items[n - 1 := v])
  }

  function PutField(t: Table, i: nat, v: Value): Table
    requires i < |t.fields|
  {
    t.(fields := t.fields[i := t.fields[i].(value := v)])
  }

  /** SETI, SETFIELD and SETTABLE on a plain table. */
  function Set(t: Table, h: Heap, k: Key, v: Value): Written
    requires t.Valid()
  {
    match k
    case IntKey(n) =>
      if 1 <= n <= |t.items| then Stored(PutArray(t, n, v), h)
      else if n < 1 then Refused
      else (
        match GrowArray(t, h, n)
        case Beyond => Unbounded
        case OutOfHeap => Refused
        case Grown(t1, h1) => Stored(PutArray(t1, n, v), h1))
    case StrKey(r) =>
      match FindOrCreate(t, h, r)
      case Located(t1, h1, i) => Stored(PutField(t1, i, v), h1)
      case Missing => Refused
      case OffScale => Unbounded
  }

  // ---- growth facts ------------------------------------------------------------------------

  /** Requests up to 2^31 are always met, by a capacity that never wrapped. */
  lemma {:induction false} NewCapacityFits(c: uint32, needed: nat, fuel: nat, k: nat)
    requires Pow2(k) <= c && needed <= TWO_31 && k + fuel >= 31
    ensures NewCapacity(c, needed, fuel).Some?
    ensures NewCapacity(c, needed, fuel).value >= needed && NewCapacity(c, needed, fuel).value >= c
    decreases fuel
  {
    if c < needed {
      if fuel == 0 {
        Pow2Values();
        Pow2Mono(31, k);
      } else {
        assert Pow2(k + 1) == 2 * Pow2(k) && (2 * c) % TWO_32 == 2 * c;
        NewCapacityFits(2 * c, needed, fuel - 1, k + 1);
      }
    }
  }

  /** Capacity after j doublings in 32 bits. */
  function Shifted(c: uint32, j: nat): uint32 { (c * Pow2(j)) % TWO_32 }

  lemma ModAdd(x: int, k: int)
    ensures (x + k * TWO_32) % TWO_32 == x % TWO_32
  {
  }

  lemma ShiftedNext(c: uint32, j: nat)
    ensures Shifted((2 * c) % TWO_32, j) == Shifted(c, j + 1)
  {
    var p, d, k := Pow2(j), (2 * c) % TWO_32, (2 * c) / TWO_32;
    assert c * Pow2(j + 1) == d * p + (k * p) * TWO_32 by {
      assert c * Pow2(j + 1) == (2 * c) * p;
      assert 2 * c == d + k * TWO_32;
    }
    ModAdd(d * p, k * p);
  }

  /** After 32 doublings nothing is left. */
  lemma {:induction false} ShiftedOut(c: uint32, j: nat)
    requires j >= 32
    ensures Shifted(c, j) == 0
    decreases j
  {
    if j == 32 {
      Pow2Values();
    } else {
      ShiftedOut(c, j - 1);
      ShiftedNext(c, j - 1);
      ShiftedOut((2 * c) % TWO_32, j - 1);
    }
  }

  /** The doubling loop ends exactly when some doubling, wrapped or not, reaches. */
  lemma {:induction false} NewCapacityIff(c: uint32, needed: nat, fuel: nat)
    ensures NewCapacity(c, needed, fuel).Some? <==>
            exists j: nat {:trigger Shifted(c, j)} :: j <= fuel && Shifted(c, j) >= needed
    decreases fuel
  {
    assert Shifted(c, 0) == c;
    if c < needed && fuel > 0 {
      var d := (2 * c) % TWO_32;
      NewCapacityIff(d, needed, fuel - 1);
      if NewCapacity(d, needed, fuel - 1).Some? {
        var j: nat :| j <= fuel - 1 && Shifted(d, j) >= needed;
        ShiftedNext(c, j);
        assert Shifted(c, j + 1) >= needed;
      }
      if j: nat :| j <= fuel && Shifted(c, j) >= needed {
        ShiftedNext(c, j - 1);
        assert Shifted(d, j - 1) >= needed;
      }
    }
  }

  /** Doubling j is the first one that reaches n. */
  ghost predicate FirstReach(c: uint32, n: nat, j: nat) {
    Shifted(c, j) >= n && forall i: nat {:trigger Shifted(c, i)} :: i < j ==> Shifted(c, i) < n
  }

  /** The loop stops at the first doubling that reaches. */
  lemma {:induction false} NewCapacityFirst(c: uint32, n: nat, fuel: nat) returns (j: nat)
    requires NewCapacity(c, n, fuel).Some?
    ensures FirstReach(c, n, j) && NewCapacity(c, n, fuel) == Some(Shifted(c, j))
    decreases fuel
  {
    assert Shifted(c, 0) == c;
    j := 0;
    if c < n {
      var d := (2 * c) % TWO_32;
      j := NewCapacityFirst(d, n, fuel - 1);
      ShiftedNext(c, j);
      forall i: nat {:trigger Shifted(c, i)} | i < j + 1
        ensures Shifted(c, i) < n
      {
        if i > 0 {
          ShiftedNext(c, i - 1);
        }
      }
      j := j + 1;
    }
  }

  lemma FirstOnce(c: uint32, n: nat, i: nat, j: nat)
    requires FirstReach(c, n, i) && FirstReach(c, n, j)
    ensures i == j
  {
  }

  /** Growing to an index ends, with a larger array or a full heap, if and only if some
      doubling of the capacity in 32 bits reaches the index; else it never returns. */
  lemma GrowArrayEndsIff(t: Table, h: Heap, needed: nat)
    requires |t.items| < TWO_32 && needed > 0
    ensures !GrowArray(t, h, needed).Beyond? <==>
            exists j: nat {:trigger Shifted(ArrayStart(t), j)} :: Shifted(ArrayStart(t), j) >= needed
  {
    var c := ArrayStart(t);
    NewCapacityIff(c, needed, 32);
    if j: nat :| Shifted(c, j) >= needed && j > 32 {
      ShiftedOut(c, j);
    }
  }

  /** A capacity that has wrapped can still reach: 0xB000_0000 wraps to 0x6000_0000,
      which doubles to 0xC000_0000. */
  lemma WrappedCapacity()
    ensures NewCapacity(0xB000_0000, 0xC000_0000, 32) == Some(0xC000_0000)
  {
    assert NewCapacity(0x6000_0000, 0xC000_0000, 31) == Some(0xC000_0000);
  }

  /** Growing to an index of at most 2^31 either succeeds or finds the heap full. */
  lemma GrowArrayEnds(t: Table, h: Heap, needed: nat)
    requires |t.items| < TWO_32 && |t.items| < needed <= TWO_31
    ensures !GrowArray(t, h, needed).Beyond?
  {
    NewCapacityFits(ArrayStart(t), needed, 32, 0);
  }

  /** Growth changes no read, never shrinks, and raises the generation by one. */
  lemma GrowArrayKeeps(t: Table, h: Heap, needed: nat)
    requires t.Valid() && GrowArray(t, h, needed).Grown?
    ensures var t' := GrowArray(t, h, needed).t;
            && t'.Valid() && |t'.items| >= |t.items| && |t'.items| >= needed
            && t'.fields == t.fields && t'.generation == t.generation + 1
            && forall k :: Lookup(t', k) == Lookup(t, k)
  {
  }

  lemma GrowFieldsKeeps(t: Table, h: Heap)
    requires t.Valid() && GrowFields(t, h).Grown?
    ensures var t' := GrowFields(t, h).t;
            && t'.Valid() && t'.items == t.items && |t'.fields| > |t.fields|
            && t'.fields[..|t.fields|] == t.fields && !t'.fields[|t.fields|].occupied
            && t'.generation == t.generation + 1
            && forall k :: Lookup(t', k) == Lookup(t, k)
  {
    var t' := GrowFields(t, h).t;
    forall k
      ensures Lookup(t', k) == Lookup(t, k)
    {
      if k.StrKey? {
        FindAppend(t.fields, FieldCapacity(|t.fields|) - |t.fields|, k.ref, 0);
      }
    }
  }

  /** Vacant entries at the end are invisible to the scan. */
  lemma {:induction false} FindAppend(fs: seq<Field>, n: nat, key: nat, i: nat)
    requires i <= |fs|
    ensures Find(fs + Repeat(VACANT, n), key, i) == Find(fs, key, i)
    decreases |fs| - i
  {
    if i < |fs| {
      FindAppend(fs, n, key, i + 1);
    } else if n > 0 {
      assert Find(fs + Repeat(VACANT, n), key, i).None?;
    }
  }

  /** With distinct keys the scan finds the one field that has the key. */
  lemma FindUnique(t: Table, i: nat)
    requires t.Valid() && i < |t.fields| && t.fields[i].occupied
    ensures Find(t.fields, t.fields[i].key, 0) == Some(i)
  {
    var j := Find(t.fields, t.fields[i].key, 0).value;
  }

  /** The scan over updated fields. */
  lemma {:induction false} FindUpdate(fs: seq<Field>, j: nat, f: Field, key: nat, i: nat)
    requires i <= |fs| && j < |fs|
    requires !(fs[j].occupied && fs[j].key == key) && !(f.occupied && f.key == key)
    ensures Find(fs[j := f], key, i) == Find(fs, key, i)
    decreases |fs| - i
  {
    if i < |fs| {
      FindUpdate(fs, j, f, key, i + 1);
    }
  }

  /** The key a creation adds reads nil, every other key as before. */
  lemma ClaimKeeps(t: Table, i: nat, key: nat)
    requires t.Valid() && FirstVacant(t.fields, 0) == Some(i) && Find(t.fields, key, 0).None?
    ensures Claim(t, i, key).Valid()
    ensures forall k :: Lookup(Claim(t, i, key), k) == Lookup(t, k)
  {
    var t' := Claim(t, i, key);
    FindUnique(t', i);
    forall k
      ensures Lookup(t', k) == Lookup(t, k)
    {
      if k.StrKey? && k.ref != key {
        FindUpdate(t.fields, i, t'.fields[i], k.ref, 0);
      }
    }
  }

  /** Layout: capacities and which key sits where. */
  function Slots(fs: seq<Field>): seq<(bool, nat)> {
    seq(|fs|, i requires 0 <= i < |fs| => (fs[i].occupied, fs[i].key))
  }

  ghost predicate SameLayout(t: Table, t': Table) {
    |t'.items| == |t.items| && Slots(t'.fields) == Slots(t.fields)
  }

  /** Capacities never shrink, and the generation rises exactly with the layout. */
  ghost predicate Evolves(t: Table, t': Table) {
    && |t'.items| >= |t.items| && |t'.fields| >= |t.fields|
    && t'.generation >= t.generation
    && (t'.generation == t.generation <==> SameLayout(t, t'))
  }

  lemma ClaimEvolves(t: Table, t': Table, i: nat)
    requires |t'.items| == |t.items| && |t'.fields| >= |t.fields|
    requires i < |t'.fields| && t'.fields[i].occupied && (i < |t.fields| ==> !t.fields[i].occupied)
    requires i >= |t.fields| ==> |t'.fields| > |t.fields|
    requires t'.generation > t.generation
    ensures Evolves(t, t')
  {
    if |t'.fields| == |t.fields| {
      assert Slots(t'.fields)[i] != Slots(t.fields)[i];
    }
  }

  /** Finding or creating a field: all reads stay, and the slot is the key's. */
  lemma FindOrCreateKeeps(t: Table, h: Heap, key: nat)
    requires t.Valid() && FindOrCreate(t, h, key).Located?
    ensures var l := FindOrCreate(t, h, key);
            && l.t.Valid() && Evolves(t, l.t) && l.t.items == t.items
            && (forall k :: Lookup(l.t, k) == Lookup(t, k))
            && Find(l.t.fields, key, 0) == Some(l.slot)
  {
    var l := FindOrCreate(t, h, key);
    if Find(t.fields, key, 0).None? {
      match FirstVacant(t.fields, 0)
      case Some(i) =>
        ClaimKeeps(t, i, key);
        ClaimEvolves(t, l.t, i);
      case None =>
        GrowFieldsKeeps(t, h);
        var t1 := GrowFields(t, h).t;
        FullThenVacant(t, t1, key);
        ClaimKeeps(t1, |t.fields|, key);
        ClaimEvolves(t, l.t, |t.fields|);
      FindUnique(l.t, l.slot);
    }
    FindUnique(l.t, l.slot);
  }

  /** After growing a full field part the first vacancy is the first new entry, so
      the create loop needs no second growth. */
  lemma FullThenVacant(t: Table, t1: Table, key: nat)
    requires FirstVacant(t.fields, 0).None? && Find(t.fields, key, 0).None?
    requires |t1.fields| > |t.fields| && t1.fields[..|t.fields|] == t.fields && !t1.fields[|t.fields|].occupied
    requires Lookup(t1, StrKey(key)) == Lookup(t, StrKey(key))
    requires forall j :: |t.fields| <= j < |t1.fields| ==> !t1.fields[j].occupied
    ensures FirstVacant(t1.fields, 0) == Some(|t.fields|) && Find(t1.fields, key, 0).None?
  {
    assert forall j :: 0 <= j < |t.fields| ==> t1.fields[..|t.fields|][j] == t1.fields[j];
  }

  lemma PutFieldKeeps(t: Table, key: nat, i: nat, v: Value)
    requires t.Valid() && Find(t.fields, key, 0) == Some(i)
    ensures PutField(t, i, v).Valid() && SameLayout(t, PutField(t, i, v))
    ensures forall k :: Lookup(PutField(t, i, v), k) == if k == StrKey(key) then v else Lookup(t, k)
  {
    var t' := PutField(t, i, v);
    assert Slots(t'.fields) == Slots(t.fields);
    FindUnique(t', i);
    forall k
      ensures Lookup(t', k) == if k == StrKey(key) then v else Lookup(t, k)
    {
      if k.StrKey? && k.ref != key {
        FindUpdate(t.fields, i, t'.fields[i], k.ref, 0);
      }
    }
  }

  // ---- the map law -----------------------------------------------------------------------

  /** A successful write updates exactly the named key; layout, capacities and
      generation evolve monotonically. */
  lemma SetIsUpdate(t: Table, h: Heap, k: Key, v: Value)
    requires t.Valid() && Set(t, h, k, v).Stored?
    ensures var t' := Set(t, h, k, v).t;
            && t'.Valid() && Evolves(t, t')
            && forall k' :: Lookup(t', k') == if k' == k then v else Lookup(t, k')
  {
    match k
    case IntKey(n) =>
      if !(1 <= n <= |t.items|) {
        GrowArrayKeeps(t, h, n);
      }
    case StrKey(r) =>
      FindOrCreateKeeps(t, h, r);
      var l := FindOrCreate(t, h, r);
      PutFieldKeeps(l.t, r, l.slot, v);
  }

  /** An occupied field has the key; every field is occupied. */
  ghost predicate HasField(t: Table, key: nat) {
    exists i :: 0 <= i < |t.fields| && t.fields[i].occupied && t.fields[i].key == key
  }

  ghost predicate Full(t: Table) { forall i :: 0 <= i < |t.fields| ==> t.fields[i].occupied }

  ghost function AtLeastOne(n: nat): nat { if n == 0 then 1 else n }

  /** Growing array part t to index n by doubling j asks for 16 bytes a value. */
  ghost predicate DeniesDoubling(t: Table, h: Heap, n: int, j: nat)
    requires |t.items| < TWO_32
  {
    var c := AtLeastOne(|t.items|);
    n >= 0 && FirstReach(c, n, j) && Denies(h, 16 * Shifted(c, j))
  }

  /** The region has no room for what the write of k asks for: the array part at the first
      doubling that reaches an index behind it, or a field part of twice the entries, 32
      bytes each, for a new key in a full one. */
  ghost predicate NoRoom(t: Table, h: Heap, k: Key)
    requires |t.items| < TWO_32
  {
    match k
    case IntKey(n) => n > |t.items| && exists j: nat :: DeniesDoubling(t, h, n, j)
    case StrKey(r) => !HasField(t, r) && Full(t) && Denies(h, 32 * (2 * AtLeastOne(|t.fields|) % TWO_32))
  }

  /** The writes that leave 32 bits: an index no doubling reaches, where growth never
      returns, and a new field in a full field part whose doubling wraps to a smaller
      block that is granted, which the copy then overruns. */
  ghost predicate OffLimits(t: Table, h: Heap, k: Key)
    requires |t.items| < TWO_32
  {
    match k
    case IntKey(n) => n >= 1 && n > |t.items| && forall j: nat :: Shifted(AtLeastOne(|t.items|), j) < n
    case StrKey(r) =>
      && !HasField(t, r) && Full(t) && |t.fields| >= TWO_31
      && !Denies(h, 32 * (2 * AtLeastOne(|t.fields|) % TWO_32))
  }

  lemma FieldAbsent(t: Table, key: nat)
    ensures Find(t.fields, key, 0).None? <==> !HasField(t, key)
    ensures FirstVacant(t.fields, 0).None? <==> Full(t)
  {
  }

  lemma SetUnboundedIff(t: Table, h: Heap, k: Key, v: Value)
    requires t.Valid()
    ensures Set(t, h, k, v).Unbounded? <==> OffLimits(t, h, k)
  {
    if k.StrKey? {
      FieldAbsent(t, k.ref);
      BumpAnswers(h, 32 * FieldCapacity(|t.fields|));
    } else if k.n >= 1 && k.n > |t.items| {
      GrowArrayEndsIff(t, h, k.n);
      assert ArrayStart(t) == AtLeastOne(|t.items|);
      assert (forall j: nat :: Shifted(ArrayStart(t), j) < k.n)
        <==> !(exists j: nat {:trigger Shifted(ArrayStart(t), j)} :: Shifted(ArrayStart(t), j) >= k.n);
    }
  }

  /** A write is refused exactly for an index below 1 and where the region has no room. */
  lemma SetRefusedIff(t: Table, h: Heap, k: Key, v: Value)
    requires t.Valid()
    ensures Set(t, h, k, v).Refused? <==> (k.IntKey? && k.n < 1) || NoRoom(t, h, k)
  {
    if k.StrKey? {
      FieldAbsent(t, k.ref);
      BumpAnswers(h, 32 * FieldCapacity(|t.fields|));
    } else if k.n > |t.items| && k.n >= 1 {
      GrowRefusedIff(t, h, k.n);
    }
  }

  lemma GrowRefusedIff(t: Table, h: Heap, n: nat)
    requires |t.items| < n && |t.items| < TWO_32
    ensures GrowArray(t, h, n).OutOfHeap? <==> NoRoom(t, h, IntKey(n))
  {
    var c := ArrayStart(t);
    if NewCapacity(c, n, 32).Some? {
      var j := NewCapacityFirst(c, n, 32);
      BumpAnswers(h, 16 * Shifted(c, j));
      if i: nat :| DeniesDoubling(t, h, n, i) {
        FirstOnce(c, n, i, j);
      }
      assert DeniesDoubling(t, h, n, j) <==> Denies(h, 16 * Shifted(c, j));
    } else {
      GrowArrayEndsIff(t, h, n);
    }
  }

  /** Doubling j of capacity c is the first to reach n, and gives `cap`. */
  ghost predicate Doubled(c: nat, n: nat, j: nat, cap: nat)
    requires c < TWO_32
  {
    FirstReach(AtLeastOne(c), n, j) && cap == Shifted(AtLeastOne(c), j)
  }

  /** What writing index n does to capacities, cursor and generation. */
  ghost predicate ArrayGrew(t: Table, h: Heap, n: int, t': Table, h': Heap)
    requires |t.items| < TWO_32
  {
    && |t'.fields| == |t.fields|
    && (n <= |t.items| ==> |t'.items| == |t.items| && h' == h && t'.generation == t.generation)
    && (n > |t.items| ==>
          && (exists j: nat :: Doubled(|t.items|, n, j, |t'.items|))
          && h' == h.(next := (Aligned(h.next) + 16 * |t'.items|) % TWO_64)
          && t'.generation == t.generation + 1)
  }

  /** What writing string key r does to them. */
  ghost predicate FieldsGrew(t: Table, h: Heap, r: nat, t': Table, h': Heap) {
    && |t'.items| == |t.items|
    && (HasField(t, r) || !Full(t) ==>
          && |t'.fields| == |t.fields| && h' == h
          && t'.generation == (if HasField(t, r) then t.generation else t.generation + 1))
    && (!HasField(t, r) && Full(t) ==>
          && |t'.fields| == 2 * AtLeastOne(|t.fields|)
          && h' == h.(next := (Aligned(h.next) + 32 * |t'.fields|) % TWO_64)
          && t'.generation == t.generation + 2)
  }

  /** The table and heap after a write that is stored differ only by the growth it takes -
      the array part at the first reaching doubling, or the field part at twice its size -
      and the generation counts each growth and each new field. */
  lemma SetGrows(t: Table, h: Heap, k: Key, v: Value)
    requires t.Valid() && Set(t, h, k, v).Stored?
    ensures var w := Set(t, h, k, v);
            match k
            case IntKey(n) => ArrayGrew(t, h, n, w.t, w.heap)
            case StrKey(r) => FieldsGrew(t, h, r, w.t, w.heap)
  {
    if k.StrKey? {
      CreateGrows(t, h, k.ref);
    } else if k.n > |t.items| {
      var j := NewCapacityFirst(ArrayStart(t), k.n, 32);
      BumpAnswers(h, 16 * Shifted(ArrayStart(t), j));
      GrowArrayKeeps(t, h, k.n);
      assert Doubled(|t.items|, k.n, j, |GrowArray(t, h, k.n).t.items|);
    }
  }

  lemma CreateGrows(t: Table, h: Heap, r: nat)
    requires t.Valid() && FindOrCreate(t, h, r).Located?
    ensures var l := FindOrCreate(t, h, r); FieldsGrew(t, h, r, l.t, l.heap)
  {
    FieldAbsent(t, r);
    BumpAnswers(h, 32 * FieldCapacity(|t.fields|));
  }

  /** Indices up to 2^31 and field parts below 2^31 stay within 32 bits. */
  lemma SetInScope(t: Table, h: Heap, k: Key, v: Value)
    requires t.Valid() && |t.fields| < TWO_31 && (k.IntKey? ==> k.n <= TWO_31)
    ensures !Set(t, h, k, v).Unbounded?
  {
    if k.IntKey? && k.n > |t.items| && k.n >= 1 {
      GrowArrayEnds(t, h, k.n);
    }
  }

  /** Writing index 2^31 + 1 of a fresh table: the doublings of its capacity of 1 reach
      2^31 and then 0, so the write never returns. */
  lemma EndlessGrowth(h: Heap, v: Value)
    ensures Set(NewTable(0, 0), h, IntKey(TWO_31 + 1), v).Unbounded?
  {
    var t := NewTable(0, 0);
    Pow2Values();
    forall j: nat
      ensures Shifted(ArrayStart(t), j) <= TWO_31
    {
      if j >= 32 { ShiftedOut(ArrayStart(t), j); } else { Pow2Mono(j, 31); }
    }
    SetUnboundedIff(t, h, IntKey(TWO_31 + 1), v);
  }

  // ---- every sequence of accesses ------------------------------------------------------------

  /** v2_new_table: at least one vacant entry in each part. */
  function NewTable(arrayCap: uint32, fieldCap: uint32): (t: Table)
    ensures t.Valid()
  {
    var items, fields := if arrayCap > 0 then arrayCap else 1, if fieldCap > 0 then fieldCap else 1;
    Table.Table(Repeat(NIL, items), Repeat(VACANT, fields), 1)
  }

  datatype Access = Read(k: Key) | Write(k: Key, v: Value)

  /** `Lost` ends a run: the write never returns, or overruns its block. */
  datatype Seen = Got(v: Value) | Done | Failed | Lost

  /** One access on the storage; a write that cannot be done changes nothing. */
  function AccessTable(t: Table, h: Heap, a: Access): (r: (Table, Heap, Seen))
    requires t.Valid()
    ensures r.0.Valid()
  {
    match a
    case Read(k) => (t, h, Got(Lookup(t, k)))
    case Write(k, v) =>
      match Set(t, h, k, v)
      case Stored(t', h') => SetIsUpdate(t, h, k, v); (t', h', Done)
      case Refused => (t, h, Failed)
      case Unbounded => (t, h, Lost)
  }

  /** The table when the run ends, or just before the access that is lost. */
  function AccessAll(t: Table, h: Heap, accesses: seq<Access>): (Table, Heap, seq<Seen>)
    requires t.Valid()
    decreases |accesses|
  {
    if accesses == [] then (t, h, [])
    else
      var (t1, h1, o) := AccessTable(t, h, accesses[0]);
      if o.Lost? then (t, h, [Lost])
      else
        var (t2, h2, os) := AccessAll(t1, h1, accesses[1..]);
        (t2, h2, [o] + os)
  }

  /** An access is lost exactly when it is a write off limits. */
  lemma LostIff(t: Table, h: Heap, a: Access)
    requires t.Valid()
    ensures AccessTable(t, h, a).2 == Lost <==> a.Write? && OffLimits(t, h, a.k)
  {
    if a.Write? {
      SetUnboundedIff(t, h, a.k, a.v);
    }
  }

  /** The specification: a finite map whose absent keys read nil. */
  function Get(m: map<Key, Value>, k: Key): Value { if k in m then m[k] else NIL }

  ghost predicate Represents(t: Table, m: map<Key, Value>) {
    t.Valid() && forall k :: Lookup(t, k) == Get(m, k)
  }

  /** The observations are those of the map m that table t stands for, and `m'` is the map at
      the end. A write fails exactly for an index below 1 or without room, and a write off
      limits is the last access. */
  ghost predicate MapRun(t: Table, h: Heap, m: map<Key, Value>, accesses: seq<Access>, seen: seq<Seen>,
                         m': map<Key, Value>)
    requires t.Valid()
    decreases |accesses|
  {
    if accesses == [] then seen == [] && m' == m
    else
      && seen != []
      && var (t1, h1, _) := AccessTable(t, h, accesses[0]);
         match accesses[0]
         case Read(k) => seen[0] == Got(Get(m, k)) && MapRun(t, h, m, accesses[1..], seen[1..], m')
         case Write(k, v) =>
           if OffLimits(t, h, k) then seen == [Lost] && m' == m
           else if (k.IntKey? && k.n < 1) || NoRoom(t, h, k) then
             seen[0] == Failed && MapRun(t, h, m, accesses[1..], seen[1..], m')
           else seen[0] == Done && MapRun(t1, h1, m[k := v], accesses[1..], seen[1..], m')
  }

  lemma NewTableIsEmpty(arrayCap: uint32, fieldCap: uint32)
    ensures Represents(NewTable(arrayCap, fieldCap), map[])
    ensures var t := NewTable(arrayCap, fieldCap);
            && |t.items| == AtLeastOne(arrayCap) && |t.fields| == AtLeastOne(fieldCap) && t.generation == 1
            && forall i :: 0 <= i < |t.fields| ==> !t.fields[i].occupied
  {
  }

  /** Every sequence of reads and writes on the storage, growths and creations
      included, is a run of the map, up to the first write that leaves 32 bits;
      capacities and generation only grow. */
  lemma {:induction false} AccessAllIsMap(t: Table, h: Heap, accesses: seq<Access>, m: map<Key, Value>)
    returns (m': map<Key, Value>)
    requires Represents(t, m)
    ensures var (t', h', seen) := AccessAll(t, h, accesses);
            && Represents(t', m') && MapRun(t, h, m, accesses, seen, m')
            && |t'.items| >= |t.items| && |t'.fields| >= |t.fields| && t'.generation >= t.generation
    decreases |accesses|
  {
    m' := m;
    if accesses != [] {
      var (t1, h1, o) := AccessTable(t, h, accesses[0]);
      var m1 := m;
      if accesses[0].Write? {
        SetRefusedIff(t, h, accesses[0].k, accesses[0].v);
        SetUnboundedIff(t, h, accesses[0].k, accesses[0].v);
      }
      if accesses[0].Write? && Set(t, h, accesses[0].k, accesses[0].v).Stored? {
        SetIsUpdate(t, h, accesses[0].k, accesses[0].v);
        m1 := m[accesses[0].k := accesses[0].v];
      }
      assert Represents(t1, m1);
      if !o.Lost? {
        m' := AccessAllIsMap(t1, h1, accesses[1..], m1);
        var (t2, h2, os) := AccessAll(t1, h1, accesses[1..]);
        assert ([o] + os)[1..] == os;
      }
    }
  }
}
