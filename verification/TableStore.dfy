/** The table object in place: scan, create-or-grow and copy loops over its two
    storage slices, each proved to compute the corresponding function of module
    Tables. */
module TableStore {
  import opened Values
  import opened GuestHeap
  import opened Tables

  lemma {:induction false} FindSkip(fs: seq<Field>, key: nat, i: nat)
    requires i <= |fs|
    requires forall j :: 0 <= j < i ==> !(fs[j].occupied && fs[j].key == key)
    ensures Find(fs, key, 0) == Find(fs, key, i)
    decreases i
  {
    if i > 0 {
      FindSkip(fs, key, i - 1);
    }
  }

  lemma {:induction false} VacantSkip(fs: seq<Field>, i: nat)
    requires i <= |fs|
    requires forall j :: 0 <= j < i ==> fs[j].occupied
    ensures FirstVacant(fs, 0) == FirstVacant(fs, i)
    decreases i
  {
    if i > 0 {
      VacantSkip(fs, i - 1);
    }
  }

  class GuestTable {
    var items: array<Value>
    var fields: array<Field>
    var generation: nat
    const heap: GuestRegion

    ghost function Abstract(): Table
      reads this, items, fields
    {
      Table.Table(items[..], fields[..], generation)
    }

    constructor (region: GuestRegion, arrayCap: uint32, fieldCap: uint32)
      ensures heap == region && fresh(items) && fresh(fields)
      ensures Abstract() == NewTable(arrayCap, fieldCap)
    {
      var a := if arrayCap > 0 then arrayCap else 1;
      var f := if fieldCap > 0 then fieldCap else 1;
      items := new Value[a](_ => NIL);
      fields := new Field[f](_ => VACANT);
      generation := 1;
      heap := region;
      new;
      assert items[..] == Repeat(NIL, a) && fields[..] == Repeat(VACANT, f);
    }

    /** One scan of the field part: the field with the key, and the first vacancy. */
    method Scan(key: nat) returns (found: Option<nat>, vacant: Option<nat>)
      ensures found == Find(fields[..], key, 0)
      ensures found.None? ==> vacant == FirstVacant(fields[..], 0)
    {
      vacant := None;
      var index := 0;
      while index < fields.Length
        invariant index <= fields.Length
        invariant forall j :: 0 <= j < index ==> !(fields[j].occupied && fields[j].key == key)
        invariant vacant.None? ==> forall j :: 0 <= j < index ==> fields[j].occupied
        invariant vacant.Some? ==> vacant.value < index && !fields[vacant.value].occupied
        invariant vacant.Some? ==> forall j :: 0 <= j < vacant.value ==> fields[j].occupied
      {
        if fields[index].occupied && fields[index].key == key {
          FindSkip(fields[..], key, index);
          return Some(index), vacant;
        }
        if !fields[index].occupied && vacant.None? { vacant := Some(index); }
        index := index + 1;
      }
      FindSkip(fields[..], key, fields.Length);
      VacantSkip(fields[..], if vacant.Some? then vacant.value else fields.Length);
      found := None;
    }

    /** The copy loop of field growth: old entries, then vacancies. */
    method CopyFields(cap: nat) returns (slice: array<Field>)
      requires cap >= fields.Length
      ensures fresh(slice) && slice[..] == fields[..] + Repeat(VACANT, cap - fields.Length)
    {
      slice := new Field[cap](_ => VACANT);
      var index := 0;
      while index < fields.Length
        invariant index <= fields.Length && slice.Length == cap
        invariant slice[..index] == fields[..index]
        invariant forall j :: index <= j < cap ==> slice[j] == VACANT
      {
        slice[index] := fields[index];
        index := index + 1;
      }
      assert slice[..] == slice[..index] + slice[index..];
    }

    /** Growing the field part in place. */
    method GrowFieldPart() returns (ok: bool)
      requires heap.state.Valid() && !GrowFields(Abstract(), heap.state).Beyond?
      modifies this`fields, this`generation, heap
      ensures items == old(items)
      ensures match GrowFields(old(Abstract()), old(heap.state))
              case Grown(t, h) => ok && Abstract() == t && heap.state == h && fresh(fields)
              case OutOfHeap =>
                !ok && fields == old(fields) && Abstract() == old(Abstract()) && heap.state == old(heap.state)
              case Beyond => true
    {
      var cap := FieldCapacity(fields.Length);
      var at := heap.Take(FIELD_BYTES * cap);
      if at == 0 { return false; }
      fields := CopyFields(cap);
      generation := generation + 1;
      ok := true;
    }

    /** v2_find_field with create: scan; claim a vacancy, or grow and rescan. */
    method FindOrCreateField(key: nat) returns (slot: Option<nat>)
      requires heap.state.Valid() && !FindOrCreate(Abstract(), heap.state, key).OffScale?
      modifies this`fields, this`generation, fields, heap
      ensures items == old(items) && (fields == old(fields) || fresh(fields))
      ensures fields.Length == old(fields.Length) ==> fields == old(fields)
      ensures match FindOrCreate(old(Abstract()), old(heap.state), key)
              case Located(t, h, i) => Abstract() == t && heap.state == h && slot == Some(i)
              case Missing => Abstract() == old(Abstract()) && heap.state == old(heap.state) && slot == None
              case OffScale => true
    {
      ghost var t0, h0 := Abstract(), heap.state;
      ghost var grown := false;
      while true
        invariant items == old(items)
        invariant !grown ==> fields == old(fields) && Abstract() == t0 && heap.state == h0
        invariant grown ==>
          && fresh(fields) && fields.Length > |t0.fields|
          && Find(t0.fields, key, 0).None? && FirstVacant(t0.fields, 0).None?
          && GrowFields(t0, h0) == Grown(Abstract(), heap.state)
        decreases if grown then 0 else 1
      {
        if grown { Rescan(t0, h0, key); }
        var found, vacant := Scan(key);
        if found.Some? { return found; }
        if vacant.Some? {
          fields[vacant.value] := Field(key, NIL, true);
          generation := generation + 1;
          return vacant;
        }
        var ok := GrowFieldPart();
        if !ok { return None; }
        grown := true;
      }
    }

    /** The copy loop of array growth: old values, then nils. */
    method CopyItems(cap: nat) returns (slice: array<Value>)
      requires cap >= items.Length
      ensures fresh(slice) && slice[..] == items[..] + Repeat(NIL, cap - items.Length)
    {
      slice := new Value[cap](_ => NIL);
      var index := 0;
      while index < items.Length
        invariant index <= items.Length && slice.Length == cap
        invariant slice[..index] == items[..index]
        invariant forall j :: index <= j < cap ==> slice[j] == NIL
      {
        slice[index] := items[index];
        index := index + 1;
      }
      assert slice[..] == slice[..index] + slice[index..];
    }

    /** v2_grow_array: the 32-bit doubling loop, a fresh slice, the live prefix. */
    method GrowArrayPart(needed: nat) returns (ok: bool)
      requires heap.state.Valid() && items.Length < TWO_32
      requires !GrowArray(Abstract(), heap.state, needed).Beyond?
      modifies this`items, this`generation, heap
      ensures fields == old(fields)
      ensures match GrowArray(old(Abstract()), old(heap.state), needed)
              case Grown(t, h) => ok && Abstract() == t && heap.state == h && fresh(items)
              case OutOfHeap =>
                !ok && items == old(items) && Abstract() == old(Abstract()) && heap.state == old(heap.state)
              case Beyond => true
    {
      var cap: uint32 := if items.Length > 0 then items.Length else 1;
      ghost var goal, fuel: nat := NewCapacity(cap, needed, 32), 32;
      while cap < needed
        invariant NewCapacity(cap, needed, fuel) == goal
        decreases fuel
      {
        cap := (2 * cap) % TWO_32;
        fuel := fuel - 1;
      }
      assert goal == Some(cap);
      var at := heap.Take(VALUE_BYTES * cap);
      if at == 0 { return false; }
      items := CopyItems(cap);
      generation := generation + 1;
      ok := true;
    }

    /** SETI / SETFIELD / SETTABLE: find the cell, growing or creating, and store. */
    method SetValue(k: Key, v: Value) returns (ok: bool)
      requires heap.state.Valid() && Abstract().Valid()
      requires !Set(Abstract(), heap.state, k, v).Unbounded?
      modifies this, items, fields, heap
      ensures (items == old(items) || fresh(items)) && (fields == old(fields) || fresh(fields))
      ensures match Set(old(Abstract()), old(heap.state), k, v)
              case Stored(t, h) => ok && Abstract() == t && heap.state == h
              case Refused => !ok && Abstract() == old(Abstract()) && heap.state == old(heap.state)
              case Unbounded => true
    {
      match k {
        case IntKey(n) =>
          if !(1 <= n <= items.Length) {
            if n < 1 { return false; }
            if GrowArray(Abstract(), heap.state, n).Grown? { GrowArrayKeeps(Abstract(), heap.state, n); }
            var grown := GrowArrayPart(n);
            if !grown { return false; }
          }
          items[n - 1] := v;
          ok := true;
        case StrKey(r) =>
          var slot := FindOrCreateField(r);
          if slot.None? { return false; }
          fields[slot.value] := fields[slot.value].(value := v);
          ok := true;
      }
    }

    /** GETI / GETFIELD / GETTABLE. */
    method GetValue(k: Key) returns (v: Value)
      ensures v == Lookup(Abstract(), k)
    {
      match k {
        case IntKey(n) =>
          if 1 <= n <= items.Length { v := items[n - 1]; } else { v := NIL; }
        case StrKey(r) =>
          var found, vacant := Scan(r);
          if found.Some? { v := fields[found.value].value; } else { v := NIL; }
      }
    }
  }

  /** The second scan of the create loop meets the first new entry. */
  lemma Rescan(t: Table, h: Heap, key: nat)
    requires Find(t.fields, key, 0).None? && FirstVacant(t.fields, 0).None? && GrowFields(t, h).Grown?
    ensures var t1 := GrowFields(t, h).t;
            FirstVacant(t1.fields, 0) == Some(|t.fields|) && Find(t1.fields, key, 0).None?
  {
    var t1 := GrowFields(t, h).t;
    FindAppend(t.fields, FieldCapacity(|t.fields|) - |t.fields|, key, 0);
    VacantSkip(t1.fields, |t.fields|);
  }
}
