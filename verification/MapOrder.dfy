/** Maps at every level: the order of keys does not matter, and decoding adds to the entries that are there. */
module MapOrder {
  import opened Numeric
  import opened Wire
  import opened Values
  import opened Layout
  import opened Encoding
  import opened Decoding
  import opened RoundTrip
  import opened NormalForm

  // ----- contents -----

  /** With distinct keys, the contents are exactly the entries. */
  lemma {:induction false} AsMapExact(es: seq<Entry>, k: Value)
    requires DistinctKeys(es)
    ensures k in AsMap(es) ==> Entry(k, AsMap(es)[k]) in es
    ensures forall v | Entry(k, v) in es :: k in AsMap(es) && AsMap(es)[k] == v
  {
    if es != [] {
      AsMapExact(es[1..], k);
      assert es == [es[0]] + es[1..];
    }
  }

  /** Insert is the update of a map. */
  lemma {:induction false} InsertIsUpdate(es: seq<Entry>, key: Value, value: Value)
    ensures DistinctKeys(es) ==> AsMap(Insert(es, key, value)) == AsMap(es)[key := value]
  {
    if es != [] && DistinctKeys(es) {
      if es[0].key == key {
        AsMapExact(es[1..], key);
      } else {
        InsertIsUpdate(es[1..], key, value);
        AddThenUpdate(map[es[0].key := es[0].value], AsMap(es[1..]), key, value);
      }
    }
  }

  lemma {:induction false} AddThenUpdate(m: map<Value, Value>, n: map<Value, Value>, k: Value, v: Value)
    ensures m + n[k := v] == (m + n)[k := v]
  {
  }

  /** The contents after merging: the old contents, overwritten by the new. */
  lemma {:induction false} InsertAllContents(acc: seq<Entry>, es: seq<Entry>)
    requires DistinctKeys(acc)
    ensures DistinctKeys(InsertAll(acc, es)) && AsMap(InsertAll(acc, es)) == AsMap(acc) + AsMap(es)
    decreases |es|
  {
    if es != [] {
      InsertIsUpdate(acc, es[0].key, es[0].value);
      UpdateThenAdd(AsMap(acc), es[0].key, es[0].value, AsMap(es[1..]));
      InsertAllContents(Insert(acc, es[0].key, es[0].value), es[1..]);
    }
  }

  lemma {:induction false} UpdateThenAdd(m: map<Value, Value>, k: Value, v: Value, n: map<Value, Value>)
    ensures m[k := v] + n == m + (map[k := v] + n)
  {
  }

  /** There are as many keys as entries. */
  lemma {:induction false} CountKeys(es: seq<Entry>)
    requires DistinctKeys(es)
    ensures |AsMap(es).Keys| == |es|
  {
    if es != [] {
      CountKeys(es[1..]);
      AsMapExact(es[1..], es[0].key);
      assert AsMap(es).Keys == {es[0].key} + AsMap(es[1..]).Keys;
    }
  }

  /** The contents of the restored entries are the restored contents. */
  lemma {:induction false} RestoredContents(c: Decoder, t: Type, es: seq<Entry>, k: Value)
    requires t.TMap? && HoldsEntries(t, es)
    ensures var rs := RestoredEntries(c, t, es);
            && (k in AsMap(rs) <==> k in AsMap(es))
            && (k in AsMap(es) ==> AsMap(rs)[k] == Restored(c, t.val, AsMap(es)[k]))
  {
    var rs := RestoredEntries(c, t, es);
    RestoredDistinct(c, t, es);
    AsMapExact(es, k);
    AsMapExact(rs, k);
    if k in AsMap(es) {
      var i :| 0 <= i < |es| && es[i] == Entry(k, AsMap(es)[k]);
      assert rs[i] == Entry(k, Restored(c, t.val, AsMap(es)[k]));
    }
    if k in AsMap(rs) {
      var i :| 0 <= i < |rs| && rs[i] == Entry(k, AsMap(rs)[k]);
      assert es[i] == Entry(k, es[i].value);
    }
  }

  /** The contents of a map after decoding: the restored contents of the data over the old ones. */
  lemma {:induction false} MergedContents(c: Decoder, t: Type, es: seq<Entry>, acc: seq<Entry>, k: Value)
    requires t.TMap? && HoldsEntries(t, es) && DistinctKeys(acc)
    ensures var m := AsMap(InsertAll(acc, RestoredEntries(c, t, es)));
            && (k in m <==> k in AsMap(es) || k in AsMap(acc))
            && (k in m ==> m[k] == if k in AsMap(es) then Restored(c, t.val, AsMap(es)[k]) else AsMap(acc)[k])
  {
    InsertAllContents(acc, RestoredEntries(c, t, es));
    RestoredContents(c, t, es, k);
  }

  // ----- equal up to the order of keys -----

  /** Values equal up to the order of the keys of the maps in them, at every level; spare capacity is ignored. */
  ghost predicate Alike(t: Type, a: Value, b: Value)
    decreases t, 1
  {
    if t.TArray? && a.VArray? && b.VArray? then AllAlike(t.elem, a.elems, b.elems)
    else if t.TSlice? && a.VSlice? && b.VSlice? then AllAlike(t.elem, a.elems, b.elems)
    else if t.TMap? && a.VMap? && b.VMap? then ContentsAlike(t, AsMap(a.entries), AsMap(b.entries))
    else if t.TStruct? && a.VStruct? && b.VStruct? then FieldsAlike(t, a.fields, b.fields)
    else if t.TPtr? && a.VPtr? && b.VPtr? then Alike(t.elem, a.target, b.target)
    else a == b
  }

  ghost predicate AllAlike(e: Type, xs: seq<Value>, ys: seq<Value>)
    decreases e, 2
  {
    |xs| == |ys| && forall i | 0 <= i < |xs| :: Alike(e, xs[i], ys[i])
  }

  ghost predicate ContentsAlike(t: Type, m: map<Value, Value>, n: map<Value, Value>)
    requires t.TMap?
    decreases t, 0
  {
    m.Keys == n.Keys && forall k | k in m :: Alike(t.val, m[k], n[k])
  }

  ghost predicate FieldsAlike(t: Type, xs: seq<Value>, ys: seq<Value>)
    requires t.TStruct?
    decreases t, 0
  {
    |xs| == |ys| && forall i | 0 <= i < |xs| && i < |t.fields| :: Alike(t.fields[i].typ, xs[i], ys[i])
  }

  lemma {:induction false} AlikeSelf(t: Type, v: Value)
    requires HasType(t, v)
    ensures Alike(t, v, v)
    decreases t
  {
    if v.VArray? || v.VSlice? {
      forall i | 0 <= i < |v.elems|
        ensures Alike(t.elem, v.elems[i], v.elems[i])
      {
        AlikeSelf(t.elem, v.elems[i]);
      }
    } else if v.VMap? {
      var m := AsMap(v.entries);
      forall k | k in m
        ensures Alike(t.val, m[k], m[k])
      {
        AsMapExact(v.entries, k);
        AlikeSelf(t.val, m[k]);
      }
    } else if v.VStruct? {
      forall i | 0 <= i < |v.fields|
        ensures Alike(t.fields[i].typ, v.fields[i], v.fields[i])
      {
        AlikeSelf(t.fields[i].typ, v.fields[i]);
      }
    } else if v.VPtr? {
      AlikeSelf(t.elem, v.target);
    }
  }

  /** Only zero is like zero. */
  lemma {:induction false} AlikeZero(t: Type, a: Value, b: Value)
    requires HasType(t, a) && HasType(t, b) && Alike(t, a, b)
    ensures a == Zero(t) <==> b == Zero(t)
    decreases t
  {
    if a.VArray? {
      forall i | 0 <= i < t.len
        ensures a.elems[i] == Zero(t.elem) <==> b.elems[i] == Zero(t.elem)
      {
        AlikeZero(t.elem, a.elems[i], b.elems[i]);
      }
      AllZero(t, a);
      AllZero(t, b);
    } else if a.VStruct? {
      var fs := t.fields;
      forall i | 0 <= i < |fs|
        ensures a.fields[i] == Zero(fs[i].typ) <==> b.fields[i] == Zero(fs[i].typ)
      {
        AlikeZero(fs[i].typ, a.fields[i], b.fields[i]);
      }
      AllFieldsZero(t, a);
      AllFieldsZero(t, b);
    }
  }

  lemma {:induction false} AllZero(t: Type, v: Value)
    requires t.TArray? && v.VArray? && |v.elems| == t.len
    ensures v == Zero(t) <==> forall i | 0 <= i < t.len :: v.elems[i] == Zero(t.elem)
  {
    assert (forall i | 0 <= i < t.len :: v.elems[i] == Zero(t.elem)) ==> v.elems == Zero(t).elems;
  }

  lemma {:induction false} AllFieldsZero(t: Type, v: Value)
    requires t.TStruct? && v.VStruct? && |v.fields| == |t.fields|
    ensures v == Zero(t) <==> forall i | 0 <= i < |t.fields| :: v.fields[i] == Zero(t.fields[i].typ)
  {
    assert (forall i | 0 <= i < |t.fields| :: v.fields[i] == Zero(t.fields[i].typ)) ==> v.fields == Zero(t).fields;
  }

  /** As many fields are written. */
  lemma {:induction false} AlikeKept(t: Type, xs: seq<Value>, ys: seq<Value>)
    requires t.TStruct? && HoldsFields(t, xs) && HoldsFields(t, ys) && FieldsAlike(t, xs, ys)
    ensures Kept(t.fields, xs) == Kept(t.fields, ys)
  {
    forall i | 0 <= i < |xs|
      ensures xs[i] == Zero(t.fields[i].typ) <==> ys[i] == Zero(t.fields[i].typ)
    {
      AlikeZero(t.fields[i].typ, xs[i], ys[i]);
    }
    if xs != [] {
      SameTop(t.fields, xs, ys, |xs|);
    }
  }

  lemma {:induction false} SameTop(fs: seq<Field>, xs: seq<Value>, ys: seq<Value>, n: nat)
    requires 0 < |fs| == |xs| == |ys| && n <= |fs|
    requires forall i | 0 <= i < |fs| :: xs[i] == Zero(fs[i].typ) <==> ys[i] == Zero(fs[i].typ)
    ensures TopVersion(fs, xs, n) == TopVersion(fs, ys, n)
  {
    if n > 0 {
      SameTop(fs, xs, ys, n - 1);
    }
  }

  /** Their items have the same count or length, and both are a Zero item or neither. */
  predicate LikeItems(w: Item, w': Item) {
    HeadOf(w).n == HeadOf(w').n && (w == WZero <==> w' == WZero)
  }

  lemma {:induction false} AlikeFront(t: Type, a: Value, b: Value)
    requires Holds(t, a) && Holds(t, b) && Alike(t, a, b)
    ensures LikeItems(WireOf(t, a), WireOf(t, b))
    decreases t
  {
    HoldsParts(t, a);
    HoldsParts(t, b);
    if (a.VArray? && b.VArray?) || (a.VSlice? && b.VSlice?) {
      ElemsFront(t, a, b);
    } else if a.VMap? && b.VMap? {
      MapFront(t, a.entries, b.entries);
    } else if a.VStruct? {
      StructFront(t, a.fields, b.fields);
    } else if a.VPtr? {
      AlikeFront(t.elem, a.target, b.target);
    }
  }

  lemma {:induction false} ElemsFront(t: Type, a: Value, b: Value)
    requires (t.TArray? && a.VArray? && b.VArray?) || (t.TSlice? && a.VSlice? && b.VSlice?)
    requires AllAlike(t.elem, a.elems, b.elems)
    ensures LikeItems(WireOf(t, a), WireOf(t, b))
  {
    if t.elem == BYTE {
      BytesAlike(a.elems, b.elems);
    }
  }

  lemma {:induction false} BytesAlike(xs: seq<Value>, ys: seq<Value>)
    requires AllAlike(BYTE, xs, ys)
    ensures xs == ys
  {
    assert forall i | 0 <= i < |xs| :: Alike(BYTE, xs[i], ys[i]) ==> xs[i] == ys[i];
  }

  lemma {:induction false} MapFront(t: Type, es: seq<Entry>, es': seq<Entry>)
    requires t.TMap? && DistinctKeys(es) && DistinctKeys(es') && AsMap(es).Keys == AsMap(es').Keys
    ensures LikeItems(WireOf(t, VMap(es)), WireOf(t, VMap(es')))
  {
    CountKeys(es);
    CountKeys(es');
  }

  lemma {:induction false} StructFront(t: Type, xs: seq<Value>, ys: seq<Value>)
    requires t.TStruct? && HoldsFields(t, xs) && HoldsFields(t, ys) && FieldsAlike(t, xs, ys)
    ensures LikeItems(WireOf(t, VStruct(xs)), WireOf(t, VStruct(ys)))
  {
    AlikeKept(t, xs, ys);
    OwnCount(t, xs);
    OwnCount(t, ys);
  }

  lemma {:induction false} OwnCount(t: Type, vs: seq<Value>)
    requires t.TStruct? && HoldsFields(t, vs)
    ensures var w := WireOf(t, VStruct(vs));
            HeadOf(w).n == (if vs == [] then 0 else OrderBefore(t.fields, Kept(t.fields, vs)) + 1)
            && (w == WZero <==> vs == [])
  {
    if vs != [] {
      var k := Kept(t.fields, vs);
      FieldItemsLength(t, vs, k);
      StructWire(t, vs);
    }
  }

  // ----- what can be read -----

  /** A map can be read when its contents can. */
  ghost predicate ContentsReadable(c: Decoder, t: Type, m: map<Value, Value>, d: nat)
    requires t.TMap?
  {
    forall k | k in m :: Readable(c, t.key, k, d) && Readable(c, t.val, m[k], d)
  }

  lemma {:induction false} EntriesAreContents(c: Decoder, t: Type, es: seq<Entry>, d: nat)
    requires t.TMap? && DistinctKeys(es)
    ensures EntriesReadable(c, t, es, d) <==> ContentsReadable(c, t, AsMap(es), d)
  {
    var m := AsMap(es);
    forall i | 0 <= i < |es|
      ensures es[i].key in m && m[es[i].key] == es[i].value
    {
      AsMapExact(es, es[i].key);
      assert Entry(es[i].key, es[i].value) in es;
    }
    if ContentsReadable(c, t, m, d) {
      forall i | 0 <= i < |es|
        ensures EntryReadable(c, t, es[i], d)
      {
        assert es[i].key in m;
      }
    }
    if EntriesReadable(c, t, es, d) {
      forall k | k in m
        ensures Readable(c, t.key, k, d) && Readable(c, t.val, m[k], d)
      {
        AsMapExact(es, k);
        var i :| 0 <= i < |es| && es[i] == Entry(k, m[k]);
        assert EntryReadable(c, t, es[i], d);
      }
    }
  }

  /** Both can be read or neither. */
  lemma {:induction false} AlikeReadable(c: Decoder, t: Type, a: Value, b: Value, d: nat)
    requires Holds(t, a) && Holds(t, b) && Alike(t, a, b)
    ensures Readable(c, t, a, d) <==> Readable(c, t, b, d)
    decreases t, 2
  {
    AlikeFront(t, a, b);
    AlikeReads(c, t, a, b, d);
  }

  lemma {:induction false} AlikeReads(c: Decoder, t: Type, a: Value, b: Value, d: nat)
    requires Holds(t, a) && Holds(t, b) && Alike(t, a, b)
    ensures Reads(c, t, a, d) <==> Reads(c, t, b, d)
    decreases t, 1
  {
    if c.events || d <= MAX_NESTED {
      HoldsParts(t, a);
      HoldsParts(t, b);
      if t.TArray? || (a.VSlice? && b.VSlice?) {
        ElemsRead(c, t, a, b, d, d + 1);
      } else if a.VMap? && b.VMap? {
        MapsRead(c, t, a.entries, b.entries, d, d + 1);
      } else if a.VStruct? {
        FieldsRead(c, t, a.fields, b.fields, d);
      } else if a.VPtr? && b.VPtr? {
        AlikeFront(t.elem, a.target, b.target);
        AlikeReads(c, t.elem, a.target, b.target, d);
      }
    }
  }

  lemma {:induction false} ElemsRead(c: Decoder, t: Type, a: Value, b: Value, d: nat, inner: nat)
    requires (t.TArray? && a.VArray? && b.VArray?) || (t.TSlice? && a.VSlice? && b.VSlice?)
    requires AllAlike(t.elem, a.elems, b.elems) && inner == d + 1
    requires forall i | 0 <= i < |a.elems| :: Holds(t.elem, a.elems[i]) && Holds(t.elem, b.elems[i])
    ensures Reads(c, t, a, d) <==> Reads(c, t, b, d)
    decreases t, 0
  {
    AllReads(c, t.elem, a.elems, b.elems, inner);
    ElemsAreRead(c, t, a, d, inner);
    ElemsAreRead(c, t, b, d, inner);
  }

  /** The elements of an array or slice can be read; bytes are read as a string. */
  predicate ElemsReads(c: Decoder, e: Type, v: Value, d: nat, inner: nat)
    requires v.VArray? || v.VSlice?
  {
    if e == BYTE then (v.VArray? ==> v.elems != []) && LoneByteOk(c, v.elems, d) else AllReadable(c, e, v.elems, inner)
  }

  lemma {:induction false} ElemsAreRead(c: Decoder, t: Type, v: Value, d: nat, inner: nat)
    requires ((t.TArray? && v.VArray?) || (t.TSlice? && v.VSlice?)) && inner == d + 1
    ensures Reads(c, t, v, d) <==> (c.events || d <= MAX_NESTED) && ElemsReads(c, t.elem, v, d, inner)
  {
  }

  lemma {:induction false} MapsRead(c: Decoder, t: Type, es: seq<Entry>, es': seq<Entry>, d: nat, inner: nat)
    requires t.TMap? && HoldsEntries(t, es) && HoldsEntries(t, es') && ContentsAlike(t, AsMap(es), AsMap(es'))
    requires inner == d + 1
    ensures Reads(c, t, VMap(es), d) <==> Reads(c, t, VMap(es'), d)
    decreases t, 0, 1
  {
    ContentsRead(c, t, es, es', inner);
    MapIsRead(c, t, es, d, inner);
    MapIsRead(c, t, es', d, inner);
  }

  lemma {:induction false} MapIsRead(c: Decoder, t: Type, es: seq<Entry>, d: nat, inner: nat)
    requires t.TMap? && inner == d + 1
    ensures Reads(c, t, VMap(es), d) <==> (c.events || d <= MAX_NESTED) && EntriesReadable(c, t, es, inner)
  {
  }

  lemma {:induction false} AllReads(c: Decoder, e: Type, xs: seq<Value>, ys: seq<Value>, d: nat)
    requires AllAlike(e, xs, ys) && forall i | 0 <= i < |xs| :: Holds(e, xs[i]) && Holds(e, ys[i])
    ensures if e == BYTE then xs == ys else AllReadable(c, e, xs, d) <==> AllReadable(c, e, ys, d)
    decreases e, 3
  {
    forall i | 0 <= i < |xs|
      ensures if e == BYTE then xs[i] == ys[i] else Readable(c, e, xs[i], d) <==> Readable(c, e, ys[i], d)
    {
      if e != BYTE {
        AlikeReadable(c, e, xs[i], ys[i], d);
      }
    }
  }

  lemma {:induction false} ContentsRead(c: Decoder, t: Type, es: seq<Entry>, es': seq<Entry>, d: nat)
    requires t.TMap? && HoldsEntries(t, es) && HoldsEntries(t, es') && ContentsAlike(t, AsMap(es), AsMap(es'))
    ensures EntriesReadable(c, t, es, d) <==> EntriesReadable(c, t, es', d)
    decreases t, 0, 0
  {
    var m, m' := AsMap(es), AsMap(es');
    forall k | k in m
      ensures Readable(c, t.val, m[k], d) <==> Readable(c, t.val, m'[k], d)
    {
      ContentHolds(t, es, k);
      ContentHolds(t, es', k);
      AlikeReadable(c, t.val, m[k], m'[k], d);
    }
    EntriesAreContents(c, t, es, d);
    EntriesAreContents(c, t, es', d);
  }

  lemma {:induction false} ContentHolds(t: Type, es: seq<Entry>, k: Value)
    requires t.TMap? && HoldsEntries(t, es) && k in AsMap(es)
    ensures Holds(t.val, AsMap(es)[k])
  {
    AsMapExact(es, k);
  }

  lemma {:induction false} FieldsRead(c: Decoder, t: Type, xs: seq<Value>, ys: seq<Value>, d: nat)
    requires t.TStruct? && HoldsFields(t, xs) && HoldsFields(t, ys) && FieldsAlike(t, xs, ys)
    ensures Reads(c, t, VStruct(xs), d) <==> Reads(c, t, VStruct(ys), d)
    decreases t, 0
  {
    var n, inner := Kept(t.fields, xs), d + 1;
    AlikeKept(t, xs, ys);
    forall i | 0 <= i < n
      ensures Readable(c, t.fields[i].typ, xs[i], inner) <==> Readable(c, t.fields[i].typ, ys[i], inner)
    {
      AlikeReadable(c, t.fields[i].typ, xs[i], ys[i], inner);
    }
    FieldsAreRead(c, t, xs, n, d, inner);
    FieldsAreRead(c, t, ys, n, d, inner);
  }

  predicate FieldsReadable(c: Decoder, t: Type, vs: seq<Value>, n: nat, d: nat)
    requires t.TStruct? && n <= |t.fields| == |vs|
  {
    forall i | 0 <= i < n :: Readable(c, t.fields[i].typ, vs[i], d)
  }

  lemma {:induction false} FieldsAreRead(c: Decoder, t: Type, vs: seq<Value>, n: nat, d: nat, inner: nat)
    requires t.TStruct? && |t.fields| == |vs| && n == Kept(t.fields, vs) && inner == d + 1
    ensures Reads(c, t, VStruct(vs), d) <==> (c.events || d <= MAX_NESTED) && FieldsReadable(c, t, vs, n, inner)
  {
  }

  // ----- what comes back -----

  /** What alike values come back as in the same destination is alike. */
  lemma {:induction false} AlikeLanded(c: Decoder, t: Type, a: Value, b: Value, prev: Value)
    requires Holds(t, a) && Holds(t, b) && Alike(t, a, b) && HasType(t, prev)
    ensures Alike(t, Landed(c, t, a, prev), Landed(c, t, b, prev))
    decreases t, 1
  {
    HoldsParts(t, a);
    HoldsParts(t, b);
    if t.TArray? || (a.VSlice? && b.VSlice?) {
      ElemsLandAlike(c, t, a, b, prev);
    } else if a.VMap? && b.VMap? {
      MapsLandAlike(c, t, a.entries, b.entries, prev);
    } else if a.VStruct? {
      FieldsLandAlike(c, t, a.fields, b.fields, FieldValues(t.fields, prev));
    } else if a.VPtr? && b.VPtr? {
      TargetsLandAlike(c, t, a.target, b.target, prev);
    }
  }

  lemma {:induction false} TargetHasType(t: Type, prev: Value)
    requires t.TPtr? && HasType(t, prev)
    ensures HasType(t.elem, OldTarget(t.elem, prev))
  {
    ZeroHasType(t.elem);
  }

  lemma {:induction false} LandedTarget(c: Decoder, t: Type, x: Value, prev: Value)
    requires t.TPtr?
    ensures Landed(c, t, VPtr(x), prev) ==
            if WireOf(t.elem, x) == WZero then VNil else VPtr(Landed(c, t.elem, x, OldTarget(t.elem, prev)))
    ensures Restored(c, t, VPtr(x)) == if WireOf(t.elem, x) == WZero then VNil else VPtr(Restored(c, t.elem, x))
  {
  }

  lemma {:induction false} TargetsLandAlike(c: Decoder, t: Type, a: Value, b: Value, prev: Value)
    requires t.TPtr? && Holds(t.elem, a) && Holds(t.elem, b) && Alike(t.elem, a, b) && HasType(t, prev)
    ensures Alike(t, Landed(c, t, VPtr(a), prev), Landed(c, t, VPtr(b), prev))
    decreases t, 0
  {
    TargetHasType(t, prev);
    AlikeFront(t.elem, a, b);
    LandedTarget(c, t, a, prev);
    LandedTarget(c, t, b, prev);
    AlikeLanded(c, t.elem, a, b, OldTarget(t.elem, prev));
  }

  lemma {:induction false} ElemsLandAlike(c: Decoder, t: Type, a: Value, b: Value, prev: Value)
    requires (t.TArray? && a.VArray? && b.VArray? && |a.elems| == t.len) || (t.TSlice? && a.VSlice? && b.VSlice?)
    requires AllAlike(t.elem, a.elems, b.elems) && HasType(t, prev)
    requires forall i | 0 <= i < |a.elems| :: Holds(t.elem, a.elems[i]) && Holds(t.elem, b.elems[i])
    ensures Alike(t, Landed(c, t, a, prev), Landed(c, t, b, prev))
    decreases t, 0
  {
    if t.TArray? {
      AllLandAlike(c, t.elem, a.elems, b.elems, Elements(t.elem, t.len, prev));
    } else {
      ResizeHasType(t.elem, prev, |a.elems|);
      AllLandAlike(c, t.elem, a.elems, b.elems, Resize(t.elem, prev, |a.elems|));
    }
  }

  lemma {:induction false} AllLandAlike(c: Decoder, e: Type, xs: seq<Value>, ys: seq<Value>, prevs: seq<Value>)
    requires AllAlike(e, xs, ys) && |prevs| == |xs| && AllHaveType(e, prevs)
    requires forall i | 0 <= i < |xs| :: Holds(e, xs[i]) && Holds(e, ys[i])
    ensures AllAlike(e, LandedAll(c, e, xs, prevs), LandedAll(c, e, ys, prevs))
    decreases e, 2
  {
    forall i | 0 <= i < |xs|
      ensures Alike(e, Landed(c, e, xs[i], prevs[i]), Landed(c, e, ys[i], prevs[i]))
    {
      AlikeLanded(c, e, xs[i], ys[i], prevs[i]);
    }
  }

  lemma {:induction false} FieldsLandAlike(c: Decoder, t: Type, xs: seq<Value>, ys: seq<Value>, prevs: seq<Value>)
    requires t.TStruct? && HoldsFields(t, xs) && HoldsFields(t, ys) && FieldsAlike(t, xs, ys)
    requires FieldsHaveType(t.fields, prevs)
    ensures FieldsAlike(t, LandedFields(c, t, xs, prevs), LandedFields(c, t, ys, prevs))
    decreases t, 0
  {
    forall i | 0 <= i < |xs|
      ensures Alike(t.fields[i].typ, Landed(c, t.fields[i].typ, xs[i], prevs[i]),
                    Landed(c, t.fields[i].typ, ys[i], prevs[i]))
    {
      AlikeLanded(c, t.fields[i].typ, xs[i], ys[i], prevs[i]);
    }
  }

  lemma {:induction false} MapHasType(t: Type, prev: Value)
    requires t.TMap? && HasType(t, prev)
    ensures DistinctKeys(OldEntries(prev)) && EntriesHaveType(t, OldEntries(prev))
  {
  }

  lemma {:induction false} LandedMap(c: Decoder, t: Type, es: seq<Entry>, prev: Value)
    requires t.TMap?
    ensures Landed(c, t, VMap(es), prev) ==
            VMap(if es == [] then [] else InsertAll(OldEntries(prev), RestoredEntries(c, t, es)))
  {
  }

  lemma {:induction false} MapsAlike(t: Type, es: seq<Entry>, es': seq<Entry>)
    requires t.TMap?
    ensures Alike(t, VMap(es), VMap(es')) <==> ContentsAlike(t, AsMap(es), AsMap(es'))
  {
  }

  lemma {:induction false} MapsLandAlike(c: Decoder, t: Type, es: seq<Entry>, es': seq<Entry>, prev: Value)
    requires t.TMap? && HoldsEntries(t, es) && HoldsEntries(t, es') && ContentsAlike(t, AsMap(es), AsMap(es'))
    requires HasType(t, prev)
    ensures Alike(t, Landed(c, t, VMap(es), prev), Landed(c, t, VMap(es'), prev))
    decreases t, 0, 2
  {
    CountKeys(es);
    CountKeys(es');
    if es != [] {
      var acc := OldEntries(prev);
      MapHasType(t, prev);
      ContentsLandAlike(c, t, es, es', acc);
      LandedMap(c, t, es, prev);
      LandedMap(c, t, es', prev);
      MapsAlike(t, InsertAll(acc, RestoredEntries(c, t, es)), InsertAll(acc, RestoredEntries(c, t, es')));
    }
  }

  lemma {:induction false} ContentsLandAlike(c: Decoder, t: Type, es: seq<Entry>, es': seq<Entry>, acc: seq<Entry>)
    requires t.TMap? && HoldsEntries(t, es) && HoldsEntries(t, es') && ContentsAlike(t, AsMap(es), AsMap(es'))
    requires DistinctKeys(acc) && EntriesHaveType(t, acc)
    ensures ContentsAlike(t, AsMap(InsertAll(acc, RestoredEntries(c, t, es))),
                          AsMap(InsertAll(acc, RestoredEntries(c, t, es'))))
    decreases t, 0, 1
  {
    var m, m' := AsMap(InsertAll(acc, RestoredEntries(c, t, es))), AsMap(InsertAll(acc, RestoredEntries(c, t, es')));
    forall k
      ensures k in m <==> k in m'
      ensures k in m && k in m' ==> Alike(t.val, m[k], m'[k])
    {
      ContentLandsAlike(c, t, es, es', acc, k);
    }
  }

  lemma {:induction false} ContentLandsAlike(c: Decoder, t: Type, es: seq<Entry>, es': seq<Entry>, acc: seq<Entry>,
                                             k: Value)
    requires t.TMap? && HoldsEntries(t, es) && HoldsEntries(t, es') && ContentsAlike(t, AsMap(es), AsMap(es'))
    requires DistinctKeys(acc) && EntriesHaveType(t, acc)
    ensures var m := AsMap(InsertAll(acc, RestoredEntries(c, t, es)));
            var m' := AsMap(InsertAll(acc, RestoredEntries(c, t, es')));
            (k in m <==> k in m') && (k in m ==> Alike(t.val, m[k], m'[k]))
    decreases t, 0, 0
  {
    MergedContents(c, t, es, acc, k);
    MergedContents(c, t, es', acc, k);
    if k in AsMap(es) {
      ContentHolds(t, es, k);
      ContentHolds(t, es', k);
      AlikeRestored(c, t.val, AsMap(es)[k], AsMap(es')[k]);
    } else if k in AsMap(acc) {
      AsMapExact(acc, k);
      AlikeSelf(t.val, AsMap(acc)[k]);
    }
  }

  lemma {:induction false} AlikeRestored(c: Decoder, t: Type, a: Value, b: Value)
    requires Holds(t, a) && Holds(t, b) && Alike(t, a, b)
    ensures Alike(t, Restored(c, t, a), Restored(c, t, b))
    decreases t, 2
  {
    ZeroHasType(t);
    ZeroNoEntries(t);
    LandedFresh(c, t, a, Zero(t));
    LandedFresh(c, t, b, Zero(t));
    AlikeLanded(c, t, a, b, Zero(t));
  }

  /**
   Whatever order the maps of a value yield their keys in, at every level, what is written decodes alike in
   the same destination, with the same bytes left, or is an error for both orders.
   */
  lemma {:induction false} OrderIrrelevant(c: Decoder, t: Type, a: Value, b: Value, d: nat, prev: Value, tail: Bytes)
    requires Holds(t, a) && Holds(t, b) && Alike(t, a, b) && HasType(t, prev)
    ensures var r := Dec(c, t, prev, ItemBytes(WireOf(t, a)) + tail, d);
            var r' := Dec(c, t, prev, ItemBytes(WireOf(t, b)) + tail, d);
            (r.Err? && r'.Err?) || (r.Ok? && r'.Ok? && r.rest == r'.rest == tail && Alike(t, r.value, r'.value))
  {
    RoundTrip.RoundTrip(c, t, a, d, prev, tail);
    RoundTrip.RoundTrip(c, t, b, d, prev, tail);
    AlikeReadable(c, t, a, b, d);
    AlikeLanded(c, t, a, b, prev);
  }

  // ----- what a destination had before -----

  /**
   No map that is added to has a key beyond those of the data. Only maps keep anything: an empty map is made
   new, and a pointer whose target is written as Zero becomes nil.
   */
  ghost predicate Unmixed(t: Type, v: Value, prev: Value)
    decreases t, 1
  {
    if t.TArray? && v.VArray? then AllUnmixed(t.elem, v.elems, Elements(t.elem, |v.elems|, prev))
    else if t.TSlice? && v.VSlice? then AllUnmixed(t.elem, v.elems, Resize(t.elem, prev, |v.elems|))
    else if t.TMap? && v.VMap? then v.entries == [] || AsMap(OldEntries(prev)).Keys <= AsMap(v.entries).Keys
    else if t.TStruct? && v.VStruct? && |v.fields| == |t.fields| then
      FieldsUnmixed(t, v.fields, FieldValues(t.fields, prev))
    else if t.TPtr? && v.VPtr? then
      WireOf(t.elem, v.target) == WZero || Unmixed(t.elem, v.target, OldTarget(t.elem, prev))
    else true
  }

  ghost predicate AllUnmixed(e: Type, vs: seq<Value>, prevs: seq<Value>)
    requires |prevs| == |vs|
    decreases e, 2
  {
    forall i | 0 <= i < |vs| :: Unmixed(e, vs[i], prevs[i])
  }

  ghost predicate FieldsUnmixed(t: Type, vs: seq<Value>, prevs: seq<Value>)
    requires t.TStruct? && |t.fields| == |vs| == |prevs|
    decreases t, 0
  {
    forall i | 0 <= i < |vs| :: Unmixed(t.fields[i].typ, vs[i], prevs[i])
  }

  /** What lands is the restored value, up to the order of keys, exactly when nothing old is mixed in. */
  lemma {:induction false} UnmixedExact(c: Decoder, t: Type, v: Value, prev: Value)
    requires Holds(t, v) && HasType(t, prev)
    ensures Alike(t, Landed(c, t, v, prev), Restored(c, t, v)) <==> Unmixed(t, v, prev)
    decreases t, 1
  {
    HoldsParts(t, v);
    if v.VArray? || v.VSlice? {
      ElemsUnmixedExact(c, t, v, prev);
    } else if v.VMap? {
      MapUnmixedExact(c, t, v.entries, prev);
    } else if v.VStruct? {
      FieldsUnmixedExact(c, t, v.fields, FieldValues(t.fields, prev));
    } else if v.VPtr? {
      TargetUnmixedExact(c, t, v.target, prev);
    }
  }

  lemma {:induction false} TargetUnmixedExact(c: Decoder, t: Type, x: Value, prev: Value)
    requires t.TPtr? && Holds(t.elem, x) && HasType(t, prev)
    ensures Alike(t, Landed(c, t, VPtr(x), prev), Restored(c, t, VPtr(x))) <==> Unmixed(t, VPtr(x), prev)
    decreases t, 0
  {
    TargetHasType(t, prev);
    LandedTarget(c, t, x, prev);
    UnmixedExact(c, t.elem, x, OldTarget(t.elem, prev));
  }

  lemma {:induction false} ElemsUnmixedExact(c: Decoder, t: Type, v: Value, prev: Value)
    requires (t.TArray? && v.VArray? && |v.elems| == t.len) || (t.TSlice? && v.VSlice?)
    requires HasType(t, prev) && forall i | 0 <= i < |v.elems| :: Holds(t.elem, v.elems[i])
    ensures Alike(t, Landed(c, t, v, prev), Restored(c, t, v)) <==> Unmixed(t, v, prev)
    decreases t, 0
  {
    if v.VArray? {
      AllUnmixedExact(c, t.elem, v.elems, Elements(t.elem, |v.elems|, prev));
    } else {
      ResizeHasType(t.elem, prev, |v.elems|);
      AllUnmixedExact(c, t.elem, v.elems, Resize(t.elem, prev, |v.elems|));
    }
  }

  lemma {:induction false} AllUnmixedExact(c: Decoder, e: Type, vs: seq<Value>, prevs: seq<Value>)
    requires |prevs| == |vs| && AllHaveType(e, prevs) && forall i | 0 <= i < |vs| :: Holds(e, vs[i])
    ensures AllAlike(e, LandedAll(c, e, vs, prevs), RestoredAll(c, e, vs)) <==> AllUnmixed(e, vs, prevs)
    decreases e, 2
  {
    var ls, rs := LandedAll(c, e, vs, prevs), RestoredAll(c, e, vs);
    forall i | 0 <= i < |vs|
      ensures Alike(e, ls[i], rs[i]) <==> Unmixed(e, vs[i], prevs[i])
    {
      UnmixedExact(c, e, vs[i], prevs[i]);
    }
  }

  lemma {:induction false} FieldsUnmixedExact(c: Decoder, t: Type, vs: seq<Value>, prevs: seq<Value>)
    requires t.TStruct? && HoldsFields(t, vs) && FieldsHaveType(t.fields, prevs)
    ensures FieldsAlike(t, LandedFields(c, t, vs, prevs), RestoredFields(c, t, vs)) <==> FieldsUnmixed(t, vs, prevs)
    decreases t, 0
  {
    var ls, rs := LandedFields(c, t, vs, prevs), RestoredFields(c, t, vs);
    forall i | 0 <= i < |vs|
      ensures Alike(t.fields[i].typ, ls[i], rs[i]) <==> Unmixed(t.fields[i].typ, vs[i], prevs[i])
    {
      UnmixedExact(c, t.fields[i].typ, vs[i], prevs[i]);
    }
  }

  lemma {:induction false} MapUnmixedExact(c: Decoder, t: Type, es: seq<Entry>, prev: Value)
    requires t.TMap? && HoldsEntries(t, es) && HasType(t, prev)
    ensures Alike(t, Landed(c, t, VMap(es), prev), Restored(c, t, VMap(es))) <==> Unmixed(t, VMap(es), prev)
  {
    if es != [] {
      var acc, rs := OldEntries(prev), RestoredEntries(c, t, es);
      var m, n := AsMap(InsertAll(acc, rs)), AsMap(rs);
      forall k
        ensures k in m <==> k in AsMap(es) || k in AsMap(acc)
        ensures k in n <==> k in AsMap(es)
        ensures k in n ==> k in m && Alike(t.val, m[k], n[k])
      {
        MergedContents(c, t, es, acc, k);
        RestoredContents(c, t, es, k);
        if k in AsMap(es) {
          ContentHolds(t, es, k);
          RestoredHolds(c, t.val, AsMap(es)[k]);
          AlikeSelf(t.val, Restored(c, t.val, AsMap(es)[k]));
        }
      }
      assert m.Keys == n.Keys <==> AsMap(acc).Keys <= AsMap(es).Keys;
    }
  }

  /**
   Decoding readable data into any destination gives what it would give in a fresh one, up to the order of
   keys, if and only if no map that is added to had a key beyond those of the data.
   */
  lemma {:induction false} DestinationExact(c: Decoder, t: Type, v: Value, d: nat, prev: Value, tail: Bytes)
    requires Holds(t, v) && HasType(t, prev) && Readable(c, t, v, d)
    ensures var r := Dec(c, t, prev, ItemBytes(WireOf(t, v)) + tail, d);
            r.Ok? && r.rest == tail && (Alike(t, r.value, Restored(c, t, v)) <==> Unmixed(t, v, prev))
  {
    RoundTrip.RoundTrip(c, t, v, d, prev, tail);
    UnmixedExact(c, t, v, prev);
  }

  /**
   The contents of a map after decoding: those of the data, and for keys that are not in the data the old
   ones. An empty map is made new.
   */
  lemma {:induction false} MapMerges(c: Decoder, t: Type, es: seq<Entry>, d: nat, prev: Value, tail: Bytes)
    requires t.TMap? && Holds(t, VMap(es)) && HasType(t, prev) && Readable(c, t, VMap(es), d)
    ensures var r := Dec(c, t, prev, ItemBytes(WireOf(t, VMap(es))) + tail, d);
            var data, before := AsMap(RestoredEntries(c, t, es)), AsMap(OldEntries(prev));
            && r.Ok? && r.rest == tail && r.value.VMap?
            && AsMap(r.value.entries) == (if es == [] then map[] else before + data)
            && (AsMap(r.value.entries) == data <==> es == [] || before.Keys <= AsMap(es).Keys)
  {
    HoldsParts(t, VMap(es));
    RoundTrip.RoundTrip(c, t, VMap(es), d, prev, tail);
    LandedMap(c, t, es, prev);
    MapHasType(t, prev);
    Merged(c, t, es, OldEntries(prev));
  }

  lemma {:induction false} Merged(c: Decoder, t: Type, es: seq<Entry>, acc: seq<Entry>)
    requires t.TMap? && HoldsEntries(t, es) && DistinctKeys(acc)
    ensures var rs := RestoredEntries(c, t, es);
            && (es == [] ==> AsMap(rs) == map[])
            && AsMap(InsertAll(acc, rs)) == AsMap(acc) + AsMap(rs)
            && (AsMap(acc) + AsMap(rs) == AsMap(rs) <==> AsMap(acc).Keys <= AsMap(es).Keys)
  {
    var rs := RestoredEntries(c, t, es);
    InsertAllContents(acc, rs);
    forall k
      ensures k in AsMap(rs) <==> k in AsMap(es)
    {
      RestoredContents(c, t, es, k);
    }
    Covered(AsMap(acc), AsMap(rs));
  }

  lemma {:induction false} Covered(m: map<Value, Value>, n: map<Value, Value>)
    ensures m + n == n <==> m.Keys <= n.Keys
  {
    assert (m + n).Keys == m.Keys + n.Keys;
    assert m.Keys <= n.Keys ==> m + n == n;
  }
}
