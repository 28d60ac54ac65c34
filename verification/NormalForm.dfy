/** The normal form a round trip gives: what the two decoders agree on, and what re-encoding it writes. */
module NormalForm {
  import opened Numeric
  import opened Wrappers
  import opened Wire
  import opened Values
  import opened Layout
  import opened Encoding
  import opened Decoding
  import opened RoundTrip

  // ----- the two decoders -----

  /** No big integer that comes back is strictly between -2^64 and -2^63. */
  predicate GapFree(t: Type, v: Value)
    decreases t
  {
    match (t, v)
    case (TBigInt, VBig(i)) => !InBigGap(i)
    case (TArray(e, _), VArray(vs)) => forall i | 0 <= i < |vs| :: GapFree(e, vs[i])
    case (TSlice(e), VSlice(vs, _)) => forall i | 0 <= i < |vs| :: GapFree(e, vs[i])
    case (TMap(k, e), VMap(es)) => forall i | 0 <= i < |es| :: GapFree(k, es[i].key) && GapFree(e, es[i].value)
    case (TStruct(fs), VStruct(vs)) => |fs| == |vs| ==> forall i | 0 <= i < |vs| :: GapFree(fs[i].typ, vs[i])
    case (TPtr(e), VPtr(x)) => WireOf(e, x) == WZero || GapFree(e, x)
    case _ => true
  }

  /** The decoders give back the same value exactly when it holds no big integer in the gap. */
  lemma {:induction false} SameRestored(c1: Decoder, c2: Decoder, t: Type, v: Value)
    requires !c1.events && c2.events
    ensures Restored(c1, t, v) == Restored(c2, t, v) <==> GapFree(t, v)
    decreases t, 1
  {
    if (t.TArray? && v.VArray?) || (t.TSlice? && v.VSlice?) {
      SameSequence(c1, c2, t, v);
    } else if t.TMap? && v.VMap? {
      SameEntries(c1, c2, t, v.entries);
    } else if t.TStruct? && v.VStruct? && |t.fields| == |v.fields| {
      SameFields(c1, c2, t, v.fields);
    } else if t.TPtr? && v.VPtr? {
      SameTargets(c1, c2, t, v.target);
    }
  }

  lemma {:induction false} SameSequence(c1: Decoder, c2: Decoder, t: Type, v: Value)
    requires !c1.events && c2.events && ((t.TArray? && v.VArray?) || (t.TSlice? && v.VSlice?))
    ensures Restored(c1, t, v) == Restored(c2, t, v) <==> GapFree(t, v)
    decreases t, 0, 1
  {
    SameElems(c1, c2, t.elem, v.elems);
  }

  lemma {:induction false} SameTargets(c1: Decoder, c2: Decoder, t: Type, x: Value)
    requires !c1.events && c2.events && t.TPtr?
    ensures Restored(c1, t, VPtr(x)) == Restored(c2, t, VPtr(x)) <==> GapFree(t, VPtr(x))
    decreases t, 0, 1
  {
    SameRestored(c1, c2, t.elem, x);
  }

  lemma {:induction false} SameElems(c1: Decoder, c2: Decoder, e: Type, vs: seq<Value>)
    requires !c1.events && c2.events
    ensures RestoredAll(c1, e, vs) == RestoredAll(c2, e, vs) <==> forall i | 0 <= i < |vs| :: GapFree(e, vs[i])
    decreases e, 2
  {
    var xs, ys := RestoredAll(c1, e, vs), RestoredAll(c2, e, vs);
    forall i | 0 <= i < |vs|
      ensures xs[i] == ys[i] <==> GapFree(e, vs[i])
    {
      SameRestored(c1, c2, e, vs[i]);
    }
    assert (forall i | 0 <= i < |vs| :: xs[i] == ys[i]) ==> xs == ys;
  }

  lemma {:induction false} SameEntries(c1: Decoder, c2: Decoder, t: Type, es: seq<Entry>)
    requires !c1.events && c2.events && t.TMap?
    ensures RestoredEntries(c1, t, es) == RestoredEntries(c2, t, es) <==>
            forall i | 0 <= i < |es| :: GapFree(t.key, es[i].key) && GapFree(t.val, es[i].value)
    decreases t, 0
  {
    var xs, ys := RestoredEntries(c1, t, es), RestoredEntries(c2, t, es);
    forall i | 0 <= i < |es|
      ensures xs[i] == ys[i] <==> GapFree(t.key, es[i].key) && GapFree(t.val, es[i].value)
    {
      SameRestored(c1, c2, t.key, es[i].key);
      SameRestored(c1, c2, t.val, es[i].value);
    }
    assert (forall i | 0 <= i < |es| :: xs[i] == ys[i]) ==> xs == ys;
  }

  lemma {:induction false} SameFields(c1: Decoder, c2: Decoder, t: Type, vs: seq<Value>)
    requires !c1.events && c2.events && t.TStruct? && |t.fields| == |vs|
    ensures RestoredFields(c1, t, vs) == RestoredFields(c2, t, vs) <==>
            forall i | 0 <= i < |vs| :: GapFree(t.fields[i].typ, vs[i])
    decreases t, 0
  {
    var xs, ys := RestoredFields(c1, t, vs), RestoredFields(c2, t, vs);
    forall i | 0 <= i < |vs|
      ensures xs[i] == ys[i] <==> GapFree(t.fields[i].typ, vs[i])
    {
      SameRestored(c1, c2, t.fields[i].typ, vs[i]);
    }
    assert (forall i | 0 <= i < |vs| :: xs[i] == ys[i]) ==> xs == ys;
  }

  /**
   Whatever both decoders can read, they read alike exactly when no big integer lies in the gap; both then
   leave the same bytes.
   */
  lemma {:induction false} DecodersAgree(c1: Decoder, c2: Decoder, t: Type, v: Value, prev: Value, tail: Bytes)
    requires !c1.events && c2.events && Holds(t, v) && NoEntries(prev)
    requires Readable(c1, t, v, 0) && Readable(c2, t, v, 0)
    ensures var bs := ItemBytes(WireOf(t, v)) + tail;
            Dec(c1, t, prev, bs, 0) == Dec(c2, t, prev, bs, 0) <==> GapFree(t, v)
  {
    RoundTrip.RoundTrip(c1, t, v, 0, prev, tail);
    RoundTrip.RoundTrip(c2, t, v, 0, prev, tail);
    LandedFresh(c1, t, v, prev);
    LandedFresh(c2, t, v, prev);
    SameRestored(c1, c2, t, v);
  }

  // ----- re-encoding -----

  /**
   The value comes back zero: it is zero, or a pointer to something written as Zero, or an array or struct
   of which every part comes back zero.
   */
  predicate Fades(t: Type, v: Value)
    decreases t
  {
    v == Zero(t) ||
    match (t, v)
    case (TArray(e, _), VArray(vs)) => forall i | 0 <= i < |vs| :: Fades(e, vs[i])
    case (TStruct(fs), VStruct(vs)) => |fs| == |vs| && forall i | 0 <= i < |vs| :: Fades(fs[i].typ, vs[i])
    case (TPtr(e), VPtr(x)) => WireOf(e, x) == WZero
    case _ => false
  }

  lemma {:induction false} FadesExact(c: Decoder, t: Type, v: Value)
    requires HasType(t, v)
    ensures Restored(c, t, v) == Zero(t) <==> Fades(t, v)
    decreases t, 1
  {
    if v.VArray? {
      ElemsFade(c, t, v.elems);
    } else if v.VStruct? {
      FieldsFade(c, t, v.fields);
    }
  }

  lemma {:induction false} ElemsFade(c: Decoder, t: Type, vs: seq<Value>)
    requires t.TArray? && |vs| == t.len && AllHaveType(t.elem, vs)
    ensures Restored(c, t, VArray(vs)) == Zero(t) <==> Fades(t, VArray(vs))
    decreases t, 0
  {
    var xs, zs := RestoredAll(c, t.elem, vs), Zero(t).elems;
    forall i | 0 <= i < |vs|
      ensures xs[i] == zs[i] <==> Fades(t.elem, vs[i])
    {
      FadesExact(c, t.elem, vs[i]);
    }
    RestoredZero(c, t);
    assert (forall i | 0 <= i < |vs| :: xs[i] == zs[i]) <==> xs == zs;
  }

  lemma {:induction false} FieldsFade(c: Decoder, t: Type, vs: seq<Value>)
    requires t.TStruct? && FieldsHaveType(t.fields, vs)
    ensures Restored(c, t, VStruct(vs)) == Zero(t) <==> Fades(t, VStruct(vs))
    decreases t, 0
  {
    var xs, zs := RestoredFields(c, t, vs), Zero(t).fields;
    forall i | 0 <= i < |vs|
      ensures xs[i] == zs[i] <==> Fades(t.fields[i].typ, vs[i])
    {
      FadesExact(c, t.fields[i].typ, vs[i]);
    }
    RestoredZero(c, t);
    assert (forall i | 0 <= i < |vs| :: xs[i] == zs[i]) <==> xs == zs;
  }

  /** The highest version in use is the first field's, or some field of that version does not fade. */
  predicate TopStays(fs: seq<Field>, vs: seq<Value>)
    requires |fs| == |vs|
  {
    fs == [] ||
    var top := TopVersion(fs, vs, |fs|);
    top == fs[0].version || exists i :: 0 <= i < |fs| && fs[i].version == top && !Fades(fs[i].typ, vs[i])
  }

  /** A struct keeps as many fields when it is written again exactly when its top version stays in use. */
  lemma {:induction false} KeptAgain(c: Decoder, t: Type, vs: seq<Value>)
    requires t.TStruct? && FieldsHaveType(t.fields, vs) && NonDecreasing(Versions(t.fields))
    ensures Kept(t.fields, RestoredFields(c, t, vs)) == Kept(t.fields, vs) <==> TopStays(t.fields, vs)
  {
    var fs, xs := t.fields, RestoredFields(c, t, vs);
    if fs != [] {
      forall i | 0 <= i < |fs|
        ensures xs[i] == Zero(fs[i].typ) <==> Fades(fs[i].typ, vs[i])
      {
        FadesExact(c, fs[i].typ, vs[i]);
      }
      KeptSame(fs, vs, xs);
    }
  }

  /** Re-encoding writes the same: no big integer changes, and the top version of every struct stays in use. */
  predicate Steady(c: Decoder, t: Type, v: Value)
    decreases t
  {
    match (t, v)
    case (TBigInt, VBig(i)) => c.events || !InBigGap(i)
    case (TArray(e, _), VArray(vs)) => e == BYTE || forall i | 0 <= i < |vs| :: Steady(c, e, vs[i])
    case (TSlice(e), VSlice(vs, _)) => e == BYTE || forall i | 0 <= i < |vs| :: Steady(c, e, vs[i])
    case (TMap(k, e), VMap(es)) => forall i | 0 <= i < |es| :: Steady(c, e, es[i].value)
    case (TStruct(fs), VStruct(vs)) =>
      |fs| == |vs| ==> TopStays(fs, vs) && forall i | 0 <= i < Kept(fs, vs) :: Steady(c, fs[i].typ, vs[i])
    case (TPtr(e), VPtr(x)) => WireOf(e, x) == WZero || Steady(c, e, x)
    case _ => true
  }

  /** Re-encoding what came back writes the same item if and only if the value is steady. */
  lemma {:induction false} Reencoded(c: Decoder, t: Type, v: Value)
    requires Holds(t, v)
    ensures WireOf(t, Restored(c, t, v)) == WireOf(t, v) <==> Steady(c, t, v)
    decreases t, 2
  {
    HoldsParts(t, v);
    if v.VBig? {
      BigReencoded(c, v.i);
    } else if v.VArray? || v.VSlice? {
      if t.elem == BYTE {
        BytesRestored(c, v.elems);
      } else {
        ElemsReencoded(c, t.elem, v.elems);
        ElemsDecide(c, t, v);
      }
    } else if v.VMap? {
      EntriesReencoded(c, t, v.entries);
      EntriesDecide(c, t, v.entries);
    } else if v.VStruct? {
      FieldsReencoded(c, t, v.fields);
    } else if v.VPtr? {
      Reencoded(c, t.elem, v.target);
      PointerDecides(c, t.elem, v.target);
    }
  }

  lemma {:induction false} PointerDecides(c: Decoder, e: Type, x: Value)
    ensures WireOf(TPtr(e), Restored(c, TPtr(e), VPtr(x))) ==
            if WireOf(e, x) == WZero then WZero else WireOf(e, Restored(c, e, x))
  {
  }

  lemma {:induction false} ElemsDecide(c: Decoder, t: Type, v: Value)
    requires (t.TArray? && v.VArray?) || (t.TSlice? && v.VSlice?)
    requires t.elem != BYTE
    ensures WireOf(t, Restored(c, t, v)) == WireOf(t, v) <==>
            ElemItems(t.elem, RestoredAll(c, t.elem, v.elems)) == ElemItems(t.elem, v.elems)
  {
  }

  lemma {:induction false} EntriesDecide(c: Decoder, t: Type, es: seq<Entry>)
    requires t.TMap?
    ensures WireOf(t, Restored(c, t, VMap(es))) == WireOf(t, VMap(es)) <==>
            EntryItems(t, RestoredEntries(c, t, es)) == EntryItems(t, es)
  {
  }

  lemma {:induction false} BytesRestored(c: Decoder, vs: seq<Value>)
    requires AllHaveType(BYTE, vs)
    ensures RestoredAll(c, BYTE, vs) == vs
  {
    assert forall i | 0 <= i < |vs| :: HasType(BYTE, vs[i]) ==> Restored(c, BYTE, vs[i]) == vs[i];
  }

  lemma {:induction false} BigReencoded(c: Decoder, i: int)
    ensures var j := if !c.events && InBigGap(i) then -i - TWO_TO_THE_64 else i;
            NumberItem(j < 0, Abs(j)) == NumberItem(i < 0, Abs(i)) <==> c.events || !InBigGap(i)
  {
    var j := if !c.events && InBigGap(i) then -i - TWO_TO_THE_64 else i;
    if j != i {
      ValueOfUintBytes(Abs(i));
      ValueOfUintBytes(Abs(j));
    }
  }

  lemma {:induction false} ElemsReencoded(c: Decoder, e: Type, vs: seq<Value>)
    requires forall i | 0 <= i < |vs| :: Holds(e, vs[i])
    ensures ElemItems(e, RestoredAll(c, e, vs)) == ElemItems(e, vs) <==> forall i | 0 <= i < |vs| :: Steady(c, e, vs[i])
    decreases e, 3
  {
    var xs, ys := ElemItems(e, RestoredAll(c, e, vs)), ElemItems(e, vs);
    forall i | 0 <= i < |vs|
      ensures xs[i] == ys[i] <==> Steady(c, e, vs[i])
    {
      Reencoded(c, e, vs[i]);
    }
    assert (forall i | 0 <= i < |vs| :: xs[i] == ys[i]) ==> xs == ys;
  }

  lemma {:induction false} EntriesReencoded(c: Decoder, t: Type, es: seq<Entry>)
    requires t.TMap? && HoldsEntries(t, es)
    ensures EntryItems(t, RestoredEntries(c, t, es)) == EntryItems(t, es) <==>
            forall i | 0 <= i < |es| :: Steady(c, t.val, es[i].value)
    decreases t, 1
  {
    var rs := RestoredEntries(c, t, es);
    forall i | 0 <= i < |es|
      ensures WireOf(t.key, rs[i].key) == WireOf(t.key, es[i].key)
      ensures WireOf(t.val, rs[i].value) == WireOf(t.val, es[i].value) <==> Steady(c, t.val, es[i].value)
    {
      RestoredKey(c, t.key, es[i].key);
      Reencoded(c, t.val, es[i].value);
    }
    SameEntryItems(t, rs, es);
  }

  lemma {:induction false} SameEntryItems(t: Type, rs: seq<Entry>, es: seq<Entry>)
    requires t.TMap? && |rs| == |es|
    ensures EntryItems(t, rs) == EntryItems(t, es) <==>
            forall i | 0 <= i < |es| :: WireOf(t.key, rs[i].key) == WireOf(t.key, es[i].key) &&
                                        WireOf(t.val, rs[i].value) == WireOf(t.val, es[i].value)
    decreases |es|
  {
    if es != [] {
      SameEntryItems(t, rs[1..], es[1..]);
      SameFront(WireOf(t.key, rs[0].key), WireOf(t.val, rs[0].value), EntryItems(t, rs[1..]),
                WireOf(t.key, es[0].key), WireOf(t.val, es[0].value), EntryItems(t, es[1..]));
      assert forall i | 1 <= i < |es| :: es[i] == es[1..][i - 1] && rs[i] == rs[1..][i - 1];
    }
  }

  lemma {:induction false} SameFront(k: Item, v: Item, ws: seq<Item>, k': Item, v': Item, ws': seq<Item>)
    ensures [k, v] + ws == [k', v'] + ws' <==> k == k' && v == v' && ws == ws'
  {
    var xs, ys := [k, v] + ws, [k', v'] + ws';
    assert xs[0] == k && xs[1] == v && xs[2..] == ws;
    assert ys[0] == k' && ys[1] == v' && ys[2..] == ws';
  }

  lemma {:induction false} FieldsReencoded(c: Decoder, t: Type, vs: seq<Value>)
    requires t.TStruct? && HoldsFields(t, vs)
    ensures var xs := RestoredFields(c, t, vs);
            WireOf(t, VStruct(xs)) == WireOf(t, VStruct(vs)) <==>
            TopStays(t.fields, vs) && forall i | 0 <= i < Kept(t.fields, vs) :: Steady(c, t.fields[i].typ, vs[i])
    decreases t, 1
  {
    if vs != [] {
      var xs := RestoredFields(c, t, vs);
      ItemsReencoded(c, t, vs);
      StructWire(t, xs);
      StructWire(t, vs);
    }
  }

  lemma {:induction false} ItemsReencoded(c: Decoder, t: Type, vs: seq<Value>)
    requires t.TStruct? && HoldsFields(t, vs) && vs != []
    ensures OwnItems(t, RestoredFields(c, t, vs)) == OwnItems(t, vs) <==>
            TopStays(t.fields, vs) && forall i | 0 <= i < Kept(t.fields, vs) :: Steady(c, t.fields[i].typ, vs[i])
    decreases t, 0, 1
  {
    var fs, xs := t.fields, RestoredFields(c, t, vs);
    KeptAgain(c, t, vs);
    KeptExact(fs, vs);
    KeptExact(fs, xs);
    SameFieldItems(t, xs, Kept(fs, xs), vs, Kept(fs, vs));
    EachReencoded(c, t, vs);
  }

  lemma {:induction false} EachReencoded(c: Decoder, t: Type, vs: seq<Value>)
    requires t.TStruct? && HoldsFields(t, vs)
    ensures forall i | 0 <= i < |vs| ::
              WireOf(t.fields[i].typ, RestoredFields(c, t, vs)[i]) == WireOf(t.fields[i].typ, vs[i]) <==>
              Steady(c, t.fields[i].typ, vs[i])
    decreases t, 0, 0
  {
    forall i | 0 <= i < |vs|
      ensures WireOf(t.fields[i].typ, RestoredFields(c, t, vs)[i]) == WireOf(t.fields[i].typ, vs[i]) <==>
              Steady(c, t.fields[i].typ, vs[i])
    {
      Reencoded(c, t.fields[i].typ, vs[i]);
    }
  }

  /** Two structs are written as the same items exactly when as many fields are, and each as the same item. */
  lemma {:induction false} SameFieldItems(t: Type, xs: seq<Value>, m: nat, vs: seq<Value>, n: nat)
    requires t.TStruct? && StrictlyIncreasing(Orders(t.fields)) && 0 < m <= |xs| == |t.fields| == |vs| && 0 < n <= |vs|
    ensures FieldItems(t, xs, m) == FieldItems(t, vs, n) <==>
            m == n && forall i | 0 <= i < n :: WireOf(t.fields[i].typ, xs[i]) == WireOf(t.fields[i].typ, vs[i])
  {
    if FieldItems(t, xs, m) == FieldItems(t, vs, n) {
      FieldsFromItems(t, xs, m, vs, n);
    }
    if m == n && forall i | 0 <= i < n :: WireOf(t.fields[i].typ, xs[i]) == WireOf(t.fields[i].typ, vs[i]) {
      ItemsFromFields(t, xs, vs, n);
    }
  }

  lemma {:induction false} FieldsFromItems(t: Type, xs: seq<Value>, m: nat, vs: seq<Value>, n: nat)
    requires t.TStruct? && StrictlyIncreasing(Orders(t.fields)) && 0 < m <= |xs| == |t.fields| == |vs| && 0 < n <= |vs|
    requires FieldItems(t, xs, m) == FieldItems(t, vs, n)
    ensures m == n && forall i | 0 <= i < n :: WireOf(t.fields[i].typ, xs[i]) == WireOf(t.fields[i].typ, vs[i])
  {
    var fs := t.fields;
    FieldItemsLength(t, xs, m);
    FieldItemsLength(t, vs, n);
    assert Orders(fs)[m - 1] == Orders(fs)[n - 1];
    forall i | 0 <= i < n
      ensures WireOf(fs[i].typ, xs[i]) == WireOf(fs[i].typ, vs[i])
    {
      FieldItemAt(t, xs, m, i);
      FieldItemAt(t, vs, n, i);
    }
  }

  lemma {:induction false} ItemsFromFields(t: Type, xs: seq<Value>, vs: seq<Value>, n: nat)
    requires t.TStruct? && n <= |xs| == |t.fields| == |vs|
    requires forall i | 0 <= i < n :: WireOf(t.fields[i].typ, xs[i]) == WireOf(t.fields[i].typ, vs[i])
    ensures FieldItems(t, xs, n) == FieldItems(t, vs, n)
  {
    if n > 0 {
      ItemsFromFields(t, xs, vs, n - 1);
    }
  }

  // ----- the normal form itself -----

  /** What comes back is a value a Go program can hold. */
  lemma {:induction false} RestoredHolds(c: Decoder, t: Type, v: Value)
    requires Holds(t, v)
    ensures Holds(t, Restored(c, t, v))
    decreases t, 1
  {
    HoldsParts(t, v);
    if v.VBig? {
      GapFits(v.i);
    } else if v.VArray? || v.VSlice? {
      ElemsHold(c, t.elem, v.elems);
    } else if v.VMap? {
      EntriesHold(c, t, v.entries);
    } else if v.VStruct? {
      forall i | 0 <= i < |v.fields|
        ensures Holds(t.fields[i].typ, RestoredFields(c, t, v.fields)[i])
      {
        RestoredHolds(c, t.fields[i].typ, v.fields[i]);
      }
    } else if v.VPtr? {
      RestoredHolds(c, t.elem, v.target);
    }
  }

  lemma {:induction false} ElemsHold(c: Decoder, e: Type, vs: seq<Value>)
    requires forall i | 0 <= i < |vs| :: Holds(e, vs[i])
    ensures forall i | 0 <= i < |vs| :: Holds(e, RestoredAll(c, e, vs)[i])
    decreases e, 2
  {
    forall i | 0 <= i < |vs|
      ensures Holds(e, RestoredAll(c, e, vs)[i])
    {
      RestoredHolds(c, e, vs[i]);
    }
  }

  lemma {:induction false} GapFits(i: int)
    ensures InBigGap(i) ==> |UintBytes(Abs(-i - TWO_TO_THE_64))| <= 8
  {
    if InBigGap(i) {
      NumberFits(Abs(-i - TWO_TO_THE_64));
    }
  }

  lemma {:induction false} EntriesHold(c: Decoder, t: Type, es: seq<Entry>)
    requires t.TMap? && Holds(t, VMap(es))
    ensures Holds(t, VMap(RestoredEntries(c, t, es)))
    decreases t, 0
  {
    var rs := RestoredEntries(c, t, es);
    forall i | 0 <= i < |es|
      ensures rs[i].key == es[i].key && Holds(t.val, rs[i].value)
    {
      RestoredKey(c, t.key, es[i].key);
      RestoredHolds(c, t.val, es[i].value);
    }
  }

  /** What comes back is written as Zero exactly when the value was. */
  lemma {:induction false} ZeroStays(c: Decoder, t: Type, v: Value)
    requires HasType(t, v)
    ensures WireOf(t, Restored(c, t, v)) == WZero <==> WireOf(t, v) == WZero
    decreases t
  {
    if v.VArray? || v.VSlice? {
      assert |RestoredAll(c, t.elem, v.elems)| == |v.elems|;
    } else if v.VMap? {
      assert |RestoredEntries(c, t, v.entries)| == |v.entries|;
    } else if v.VStruct? {
      assert |RestoredFields(c, t, v.fields)| == |v.fields|;
    } else if v.VPtr? {
      ZeroStays(c, t.elem, v.target);
    }
  }

  /** A second round trip changes nothing more. */
  lemma {:induction false} RestoredTwice(c: Decoder, t: Type, v: Value)
    requires HasType(t, v)
    ensures Restored(c, t, Restored(c, t, v)) == Restored(c, t, v)
    decreases t, 1
  {
    if v.VArray? || v.VSlice? {
      ElemsTwice(c, t.elem, v.elems);
    } else if v.VMap? {
      EntriesTwice(c, t, v.entries);
    } else if v.VStruct? {
      var xs := RestoredFields(c, t, v.fields);
      forall i | 0 <= i < |v.fields|
        ensures RestoredFields(c, t, xs)[i] == xs[i]
      {
        RestoredTwice(c, t.fields[i].typ, v.fields[i]);
      }
      assert RestoredFields(c, t, xs) == xs;
    } else if v.VPtr? {
      ZeroStays(c, t.elem, v.target);
      RestoredTwice(c, t.elem, v.target);
    }
  }

  lemma {:induction false} EntriesTwice(c: Decoder, t: Type, es: seq<Entry>)
    requires t.TMap? && EntriesHaveType(t, es)
    ensures RestoredEntries(c, t, RestoredEntries(c, t, es)) == RestoredEntries(c, t, es)
    decreases t, 0
  {
    var rs := RestoredEntries(c, t, es);
    forall i | 0 <= i < |es|
      ensures RestoredEntries(c, t, rs)[i] == rs[i]
    {
      RestoredTwice(c, t.key, es[i].key);
      RestoredTwice(c, t.val, es[i].value);
    }
  }

  lemma {:induction false} ElemsTwice(c: Decoder, e: Type, vs: seq<Value>)
    requires AllHaveType(e, vs)
    ensures RestoredAll(c, e, RestoredAll(c, e, vs)) == RestoredAll(c, e, vs)
    decreases e, 2
  {
    var xs := RestoredAll(c, e, vs);
    forall i | 0 <= i < |vs|
      ensures RestoredAll(c, e, xs)[i] == xs[i]
    {
      RestoredTwice(c, e, vs[i]);
    }
  }

  /** The same of bytes: one round trip changes what is written exactly for values that are not steady. */
  lemma {:induction false} ReencodedBytes(c: Decoder, t: Type, v: Value)
    requires Holds(t, v)
    ensures ItemBytes(WireOf(t, Restored(c, t, v))) == ItemBytes(WireOf(t, v)) <==> Steady(c, t, v)
  {
    Reencoded(c, t, v);
    WireValid(t, v);
    RestoredHolds(c, t, v);
    WireValid(t, Restored(c, t, v));
    var b1, b2 := ItemBytes(WireOf(t, Restored(c, t, v))), ItemBytes(WireOf(t, v));
    if b1 == b2 {
      PrefixFree(WireOf(t, Restored(c, t, v)), WireOf(t, v));
    }
  }

  /** A struct whose second version added a pointer. */
  const VERSIONED := TStruct([Field(0, 0, TBool), Field(1, 1, TPtr(TBool))])

  lemma {:induction false} VersionKept()
    ensures Kept(VERSIONED.fields, [VBool(true), VPtr(VBool(false))]) == 2
    ensures Kept(VERSIONED.fields, [VBool(true), VNil]) == 1
  {
  }

  lemma {:induction false} VersionItems(a: Value, b: Value)
    ensures FieldItems(VERSIONED, [a, b], 1) == [WireOf(TBool, a)]
    ensures FieldItems(VERSIONED, [a, b], 2) == [WireOf(TBool, a), WireOf(TPtr(TBool), b)]
  {
    assert FieldItems(VERSIONED, [a, b], 0) == [];
  }

  lemma {:induction false} VersionWire(a: Value, b: Value)
    ensures WireOf(VERSIONED, VStruct([a, b])) == WArr(FieldItems(VERSIONED, [a, b], Kept(VERSIONED.fields, [a, b])))
  {
  }

  lemma {:induction false} VersionRestored(c: Decoder)
    ensures Restored(c, VERSIONED, VStruct([VBool(true), VPtr(VBool(false))])) == VStruct([VBool(true), VNil])
  {
    var vs := [VBool(true), VPtr(VBool(false))];
    assert Restored(c, TPtr(TBool), vs[1]) == VNil;
    assert RestoredFields(c, VERSIONED, vs) == [VBool(true), VNil];
  }

  /** With the pointer leading to false, two fields are written; it comes back nil, and then only one is. */
  lemma {:induction false} VersionLost(c: Decoder)
    ensures var v := VStruct([VBool(true), VPtr(VBool(false))]);
            && WireOf(VERSIONED, v) == WArr([WTrue, WZero])
            && WireOf(VERSIONED, Restored(c, VERSIONED, v)) == WArr([WTrue])
  {
    VersionRestored(c);
    VersionKept();
    VersionWire(VBool(true), VPtr(VBool(false)));
    VersionItems(VBool(true), VPtr(VBool(false)));
    VersionWire(VBool(true), VNil);
    VersionItems(VBool(true), VNil);
  }

  // ----- what survives -----

  /**
   The value comes back as it was: no pointer leads to something written as Zero, no slice has spare capacity,
   and no big integer is in the recursive reader's gap.
   */
  predicate Survives(c: Decoder, t: Type, v: Value)
    decreases t, 1
  {
    match (t, v)
    case (TBigInt, VBig(i)) => c.events || !InBigGap(i)
    case (TArray(e, _), VArray(vs)) => AllSurvive(c, e, vs)
    case (TSlice(e), VSlice(vs, spare)) => spare == [] && AllSurvive(c, e, vs)
    case (TMap(_, _), VMap(es)) => EntriesSurvive(c, t, es)
    case (TStruct(fs), VStruct(vs)) => |fs| == |vs| ==> FieldsSurvive(c, t, vs)
    case (TPtr(e), VPtr(x)) => WireOf(e, x) != WZero && Survives(c, e, x)
    case _ => true
  }

  predicate AllSurvive(c: Decoder, e: Type, vs: seq<Value>)
    decreases e, 2
  {
    forall i | 0 <= i < |vs| :: Survives(c, e, vs[i])
  }

  predicate EntriesSurvive(c: Decoder, t: Type, es: seq<Entry>)
    requires t.TMap?
    decreases t, 0
  {
    forall i | 0 <= i < |es| :: Survives(c, t.key, es[i].key) && Survives(c, t.val, es[i].value)
  }

  predicate FieldsSurvive(c: Decoder, t: Type, vs: seq<Value>)
    requires t.TStruct? && |t.fields| == |vs|
    decreases t, 0
  {
    forall i | 0 <= i < |vs| :: Survives(c, t.fields[i].typ, vs[i])
  }

  /** The normal form of a value is the value itself exactly when it survives. */
  lemma {:induction false} SurvivesExact(c: Decoder, t: Type, v: Value)
    ensures Restored(c, t, v) == v <==> Survives(c, t, v)
    decreases t, 1
  {
    if (t.TArray? && v.VArray?) || (t.TSlice? && v.VSlice?) {
      ElemsSurvive(c, t.elem, v.elems);
    } else if t.TMap? && v.VMap? {
      MapSurvives(c, t, v.entries);
    } else if t.TStruct? && v.VStruct? && |t.fields| == |v.fields| {
      StructSurvives(c, t, v.fields);
    } else if t.TPtr? && v.VPtr? {
      SurvivesExact(c, t.elem, v.target);
    }
  }

  lemma {:induction false} ElemsSurvive(c: Decoder, e: Type, vs: seq<Value>)
    ensures RestoredAll(c, e, vs) == vs <==> AllSurvive(c, e, vs)
    decreases e, 2
  {
    var xs := RestoredAll(c, e, vs);
    forall i | 0 <= i < |vs|
      ensures xs[i] == vs[i] <==> Survives(c, e, vs[i])
    {
      SurvivesExact(c, e, vs[i]);
    }
    assert (forall i | 0 <= i < |vs| :: xs[i] == vs[i]) ==> xs == vs;
  }

  lemma {:induction false} MapSurvives(c: Decoder, t: Type, es: seq<Entry>)
    requires t.TMap?
    ensures RestoredEntries(c, t, es) == es <==> EntriesSurvive(c, t, es)
    decreases t, 0
  {
    var rs := RestoredEntries(c, t, es);
    forall i | 0 <= i < |es|
      ensures rs[i] == es[i] <==> Survives(c, t.key, es[i].key) && Survives(c, t.val, es[i].value)
    {
      SurvivesExact(c, t.key, es[i].key);
      SurvivesExact(c, t.val, es[i].value);
    }
    assert (forall i | 0 <= i < |es| :: rs[i] == es[i]) ==> rs == es;
  }

  lemma {:induction false} StructSurvives(c: Decoder, t: Type, vs: seq<Value>)
    requires t.TStruct? && |t.fields| == |vs|
    ensures RestoredFields(c, t, vs) == vs <==> FieldsSurvive(c, t, vs)
    decreases t, 0
  {
    var xs := RestoredFields(c, t, vs);
    forall i | 0 <= i < |vs|
      ensures xs[i] == vs[i] <==> Survives(c, t.fields[i].typ, vs[i])
    {
      SurvivesExact(c, t.fields[i].typ, vs[i]);
    }
    assert (forall i | 0 <= i < |vs| :: xs[i] == vs[i]) ==> xs == vs;
  }

  /**
   Decoding what was written gives the value itself, in a destination whose maps have no entries, if and only
   if the value can be read and survives.
   */
  lemma {:induction false} ValueBack(c: Decoder, t: Type, v: Value, d: nat, prev: Value, tail: Bytes)
    requires Holds(t, v) && NoEntries(prev)
    ensures Dec(c, t, prev, ItemBytes(WireOf(t, v)) + tail, d) == Ok(v, tail) <==>
            Readable(c, t, v, d) && Survives(c, t, v)
  {
    RoundTrip.RoundTrip(c, t, v, d, prev, tail);
    LandedFresh(c, t, v, prev);
    SurvivesExact(c, t, v);
  }
}
