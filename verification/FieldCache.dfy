/** Cached field slots: the residual GETFIELD and SETFIELD/SETTABUP leaves go
    straight to a learned slot under two guards, instead of scanning. */
module FieldCache {
  import opened Values
  import opened GuestHeap
  import opened Tables
  import opened TableStore

  /** What a leaf was patched with: key, slot, and the field capacity it expects. */
  datatype Site = Site(key: nat, slot: nat, layout: nat)

  /** The guards of the slot location: capacity, range, and no other key there. */
  predicate Guarded(t: Table, s: Site) {
    && |t.fields| == s.layout && s.slot < |t.fields|
    && !(t.fields[s.slot].occupied && t.fields[s.slot].key != s.key)
  }

  /** The getfield slot leaf; None is a specialization mismatch. */
  function ReadSlot(t: Table, s: Site): Option<Value> {
    if !Guarded(t, s) then None
    else Some(if t.fields[s.slot].occupied then t.fields[s.slot].value else NIL)
  }

  datatype Stepped = Next(t: Table, heap: Heap) | NeedCreate | Mismatch(t: Table, heap: Heap)

  /** The existing leaf: store when the slot is occupied, else go to create. */
  function SetExisting(t: Table, h: Heap, s: Site, v: Value): Stepped {
    if !Guarded(t, s) then Mismatch(t, h)
    else if t.fields[s.slot].occupied then Next(PutField(t, s.slot, v), h)
    else NeedCreate
  }

  /** The create leaf: find or create by scan, and store only if that is the slot. */
  function SetCreate(t: Table, h: Heap, s: Site, v: Value): Stepped {
    if !Guarded(t, s) then Mismatch(t, h)
    else if t.fields[s.slot].occupied then Next(PutField(t, s.slot, v), h)
    else
      match FindOrCreate(t, h, s.key)
      case Located(t1, h1, i) =>
        if i == s.slot && |t1.fields| == |t.fields| then Next(PutField(t1, i, v), h1) else Mismatch(t1, h1)
      case Missing => Mismatch(t, h)
      case OffScale => Mismatch(t, h)
  }

  function SetPair(t: Table, h: Heap, s: Site, v: Value): Stepped {
    match SetExisting(t, h, s, v)
    case NeedCreate => SetCreate(t, h, s, v)
    case done => done
  }

  // ---- agreement with the scan --------------------------------------------------------

  /** A guarded occupied slot is the very cell the linear scan finds. */
  lemma CachedCell(t: Table, s: Site)
    requires t.Valid() && Guarded(t, s) && t.fields[s.slot].occupied
    ensures Find(t.fields, s.key, 0) == Some(s.slot)
    ensures ReadSlot(t, s) == Some(Lookup(t, StrKey(s.key)))
  {
    FindUnique(t, s.slot);
  }

  /** A read that passes its guards is right exactly when the slot is occupied, or
      the scan has nothing but nil for the key. */
  lemma ReadSlotExactIff(t: Table, s: Site)
    requires t.Valid() && ReadSlot(t, s).Some?
    ensures ReadSlot(t, s).value.Same(Lookup(t, StrKey(s.key))) <==>
            || t.fields[s.slot].occupied
            || Find(t.fields, s.key, 0).None?
            || t.fields[Find(t.fields, s.key, 0).value].value.tag == Nil
  {
    if t.fields[s.slot].occupied {
      CachedCell(t, s);
    }
  }

  /** The failing family is inhabited: slot 1 vacant, the key in slot 0. */
  lemma VacantReadWrong()
    ensures var t := Table.Table([NIL], [Field(7, Value(Integer, 5), true), VACANT], 1);
            && t.Valid() && ReadSlot(t, Site(7, 1, 2)) == Some(NIL)
            && Lookup(t, StrKey(7)) == Value(Integer, 5)
  {
  }

  /** The write pair never grows, and either is the map update of the key or leaves
      every key reading as before. */
  lemma SetPairExact(t: Table, h: Heap, s: Site, v: Value)
    requires t.Valid()
    ensures !SetPair(t, h, s, v).NeedCreate?
    ensures var r := SetPair(t, h, s, v);
            && r.t.Valid() && r.heap == h && |r.t.fields| == |t.fields| && r.t.items == t.items
            && (r.Next? ==> Set(t, h, StrKey(s.key), v) == Stored(r.t, h))
            && (r.Next? ==> forall k :: Lookup(r.t, k) == if k == StrKey(s.key) then v else Lookup(t, k))
            && (r.Mismatch? ==> forall k :: Lookup(r.t, k) == Lookup(t, k))
  {
    if Guarded(t, s) {
      if t.fields[s.slot].occupied {
        CachedCell(t, s);
        PutFieldKeeps(t, s.key, s.slot, v);
      } else {
        assert FirstVacant(t.fields, 0).Some?;
        FindOrCreateKeeps(t, h, s.key);
        var l := FindOrCreate(t, h, s.key);
        PutFieldKeeps(l.t, s.key, l.slot, v);
      }
    }
  }

  /** Exactly when the pair stores: the guards hold, and the slot is the key's own
      or the first vacancy for a key the table does not have. */
  lemma SetPairStoresIff(t: Table, h: Heap, s: Site, v: Value)
    requires t.Valid()
    ensures SetPair(t, h, s, v).Next? <==>
            && |t.fields| == s.layout && s.slot < |t.fields|
            && (|| Find(t.fields, s.key, 0) == Some(s.slot)
                || (Find(t.fields, s.key, 0).None? && FirstVacant(t.fields, 0) == Some(s.slot)))
  {
    if Guarded(t, s) && t.fields[s.slot].occupied {
      CachedCell(t, s);
    }
  }

  // ---- a learned slot stays right ---------------------------------------------------------

  /** No write moves a field: a key keeps its slot. */
  lemma SlotStays(t: Table, h: Heap, k: Key, v: Value, key: nat)
    requires t.Valid() && Set(t, h, k, v).Stored? && Find(t.fields, key, 0).Some?
    ensures Find(Set(t, h, k, v).t.fields, key, 0) == Find(t.fields, key, 0)
  {
    var i := Find(t.fields, key, 0).value;
    var t' := Set(t, h, k, v).t;
    SetIsUpdate(t, h, k, v);
    assert i < |t'.fields| && t'.fields[i].occupied && t'.fields[i].key == key;
    FindUnique(t', i);
  }

  /** Over every sequence of reads and writes (up to one that is lost), a slot learned as
      found either mismatches, exactly when the field part has been resized, or still
      reads what the scan reads. */
  lemma {:induction false} LearnedSlotStaysRight(t: Table, h: Heap, accesses: seq<Access>, s: Site)
    requires t.Valid() && Find(t.fields, s.key, 0) == Some(s.slot) && s.layout == |t.fields|
    ensures var t' := AccessAll(t, h, accesses).0;
            && t'.Valid() && Find(t'.fields, s.key, 0) == Some(s.slot)
            && ReadSlot(t', s) ==
               if |t'.fields| == s.layout then Some(Lookup(t', StrKey(s.key))) else None
  {
    FoundForever(t, h, accesses, s.key);
  }

  lemma {:induction false} FoundForever(t: Table, h: Heap, accesses: seq<Access>, key: nat)
    requires t.Valid() && Find(t.fields, key, 0).Some?
    ensures var t' := AccessAll(t, h, accesses).0;
            t'.Valid() && Find(t'.fields, key, 0) == Find(t.fields, key, 0)
    decreases |accesses|
  {
    if accesses != [] {
      var (t1, h1, o) := AccessTable(t, h, accesses[0]);
      if accesses[0].Write? && Set(t, h, accesses[0].k, accesses[0].v).Stored? {
        SlotStays(t, h, accesses[0].k, accesses[0].v, key);
      }
      if !o.Lost? {
        FoundForever(t1, h1, accesses[1..], key);
      }
    }
  }

  // ---- the leaves in place -----------------------------------------------------------------

  /** The existing leaf followed by the create leaf, on the table object. */
  method StoreCached(table: GuestTable, s: Site, v: Value) returns (stored: bool)
    requires table.heap.state.Valid() && table.Abstract().Valid()
    modifies table, table.fields, table.heap
    ensures table.items == old(table.items)
    ensures table.heap.state == old(table.heap.state)
    ensures var r := SetPair(old(table.Abstract()), old(table.heap.state), s, v);
            stored == r.Next? && !r.NeedCreate? && table.Abstract() == r.t
  {
    SetPairExact(table.Abstract(), table.heap.state, s, v);
    var fields := table.fields;
    if fields.Length != s.layout || s.slot >= fields.Length { return false; }
    if fields[s.slot].occupied {
      if fields[s.slot].key != s.key { return false; }
      fields[s.slot] := fields[s.slot].(value := v);
      return true;
    }
    assert FirstVacant(table.Abstract().fields, 0).Some?;
    var cell := table.FindOrCreateField(s.key);
    if cell != Some(s.slot) || table.fields != fields { return false; }
    fields[s.slot] := fields[s.slot].(value := v);
    stored := true;
  }
}
