/** The nesting limit, and what the writer accepts but a decoder refuses. */
module Nesting {
  import opened Numeric
  import opened Wrappers
  import opened Wire
  import opened Values
  import opened Layout
  import opened Encoding
  import opened Decoding
  import opened RoundTrip
  import opened NormalForm

  /** The arrays around the deepest item, the item's own included. */
  function Depth(w: Item): nat
    decreases w, 0
  {
    if w.WArr? then 1 + DepthOf(w.items) else 0
  }

  function DepthOf(ws: seq<Item>): nat
    decreases ws, 1
  {
    if ws == [] then 0 else
    var first, rest := Depth(ws[0]), DepthOf(ws[1..]);
    if first > rest then first else rest
  }

  lemma {:induction false} DepthOfAtMost(ws: seq<Item>, n: nat)
    ensures DepthOf(ws) <= n <==> forall i | 0 <= i < |ws| :: Depth(ws[i]) <= n
  {
    if ws != [] {
      DepthOfAtMost(ws[1..], n);
      assert ws == [ws[0]] + ws[1..];
    }
  }

  /**
   The writer's limit is on what it writes: a value is accepted at depth d exactly when d and the depth of
   its item are at most the limit together.
   */
  lemma {:induction false} WritableIsDepth(t: Type, v: Value, d: nat)
    requires Holds(t, v)
    ensures Writable(t, v, d) <==> d + Depth(WireOf(t, v)) <= MAX_NESTED
    decreases t, 2
  {
    HoldsParts(t, v);
    if v.VArray? || v.VSlice? {
      SequenceDepth(t, v, d);
    } else if v.VMap? {
      MapDepth(t, v.entries, d);
    } else if v.VStruct? {
      StructDepth(t, v.fields, d);
    } else if v.VPtr? {
      WritableIsDepth(t.elem, v.target, d);
    } else {
      PlainDepth(t, v, d);
    }
  }

  lemma {:induction false} MapDepth(t: Type, es: seq<Entry>, d: nat)
    requires t.TMap?
    ensures HoldsEntries(t, es) ==> (Writable(t, VMap(es), d) <==> d + Depth(WireOf(t, VMap(es))) <= MAX_NESTED)
    decreases t, 1, 1
  {
    if HoldsEntries(t, es) {
      if es != [] && d < MAX_NESTED {
        EntriesDepth(t, es, d + 1);
      }
      EntriesDecide(t, es, d);
    }
  }

  lemma {:induction false} StructDepth(t: Type, vs: seq<Value>, d: nat)
    requires t.TStruct?
    ensures HoldsFields(t, vs) ==> (Writable(t, VStruct(vs), d) <==> d + Depth(WireOf(t, VStruct(vs))) <= MAX_NESTED)
    decreases t, 1, 1
  {
    if HoldsFields(t, vs) {
      if vs != [] && d < MAX_NESTED {
        FieldsDepth(t, vs, d + 1);
      }
      FieldsDecide(t, vs, d);
    }
  }

  lemma {:induction false} PlainDepth(t: Type, v: Value, d: nat)
    requires !v.VArray? && !v.VSlice? && !v.VMap? && !v.VStruct? && !v.VPtr?
    ensures Writable(t, v, d) <==> d + Depth(WireOf(t, v)) <= MAX_NESTED
  {
  }

  lemma {:induction false} SequenceDepth(t: Type, v: Value, d: nat)
    requires (t.TArray? && v.VArray?) || (t.TSlice? && v.VSlice?)
    requires forall i | 0 <= i < |v.elems| :: Holds(t.elem, v.elems[i])
    ensures Writable(t, v, d) <==> d + Depth(WireOf(t, v)) <= MAX_NESTED
    decreases t, 1
  {
    if t.elem != BYTE && v.elems != [] && d < MAX_NESTED {
      ElemsDepth(t.elem, v.elems, d + 1);
    }
    ElemsDecide(t, v, d);
  }

  lemma {:induction false} ElemsDecide(t: Type, v: Value, d: nat)
    requires (t.TArray? && v.VArray?) || (t.TSlice? && v.VSlice?)
    requires t.elem != BYTE && v.elems != [] && d < MAX_NESTED ==>
               (d + 1 + DepthOf(ElemItems(t.elem, v.elems)) <= MAX_NESTED <==>
                forall i | 0 <= i < |v.elems| :: Writable(t.elem, v.elems[i], d + 1))
    ensures Writable(t, v, d) <==> d + Depth(WireOf(t, v)) <= MAX_NESTED
  {
  }

  lemma {:induction false} EntriesDecide(t: Type, es: seq<Entry>, d: nat)
    requires t.TMap?
    requires es != [] && d < MAX_NESTED ==>
               (d + 1 + DepthOf(EntryItems(t, es)) <= MAX_NESTED <==>
                forall i | 0 <= i < |es| :: Writable(t.key, es[i].key, d + 1) && Writable(t.val, es[i].value, d + 1))
    ensures Writable(t, VMap(es), d) <==> d + Depth(WireOf(t, VMap(es))) <= MAX_NESTED
  {
  }

  lemma {:induction false} FieldsDecide(t: Type, vs: seq<Value>, d: nat)
    requires t.TStruct? && |t.fields| == |vs|
    requires vs != [] && d < MAX_NESTED ==>
               (d + 1 + DepthOf(OwnItems(t, vs)) <= MAX_NESTED <==>
                forall i | 0 <= i < Kept(t.fields, vs) :: Writable(t.fields[i].typ, vs[i], d + 1))
    ensures Writable(t, VStruct(vs), d) <==> d + Depth(WireOf(t, VStruct(vs))) <= MAX_NESTED
  {
  }

  lemma {:induction false} ElemsDepth(e: Type, vs: seq<Value>, d: nat)
    requires d <= MAX_NESTED && forall i | 0 <= i < |vs| :: Holds(e, vs[i])
    ensures d + DepthOf(ElemItems(e, vs)) <= MAX_NESTED <==> forall i | 0 <= i < |vs| :: Writable(e, vs[i], d)
    decreases e, 3
  {
    var ws := ElemItems(e, vs);
    DepthOfAtMost(ws, MAX_NESTED - d);
    forall i | 0 <= i < |vs|
      ensures Writable(e, vs[i], d) <==> Depth(ws[i]) <= MAX_NESTED - d
    {
      WritableIsDepth(e, vs[i], d);
    }
  }

  lemma {:induction false} EntriesDepth(t: Type, es: seq<Entry>, d: nat)
    requires t.TMap? && HoldsEntries(t, es) && d <= MAX_NESTED
    ensures d + DepthOf(EntryItems(t, es)) <= MAX_NESTED <==>
            forall i | 0 <= i < |es| :: Writable(t.key, es[i].key, d) && Writable(t.val, es[i].value, d)
    decreases t, 1, 0
  {
    forall i | 0 <= i < |es|
      ensures Writable(t.key, es[i].key, d) <==> Depth(WireOf(t.key, es[i].key)) <= MAX_NESTED - d
      ensures Writable(t.val, es[i].value, d) <==> Depth(WireOf(t.val, es[i].value)) <= MAX_NESTED - d
    {
      WritableIsDepth(t.key, es[i].key, d);
      WritableIsDepth(t.val, es[i].value, d);
    }
    EntriesAtMost(t, es, MAX_NESTED - d);
  }

  lemma {:induction false} EntriesAtMost(t: Type, es: seq<Entry>, m: nat)
    requires t.TMap?
    ensures DepthOf(EntryItems(t, es)) <= m <==>
            forall i | 0 <= i < |es| :: Depth(WireOf(t.key, es[i].key)) <= m && Depth(WireOf(t.val, es[i].value)) <= m
    decreases |es|
  {
    if es != [] {
      EntriesAtMost(t, es[1..], m);
      DepthOfTwo(WireOf(t.key, es[0].key), WireOf(t.val, es[0].value), EntryItems(t, es[1..]), m);
      assert forall i | 1 <= i < |es| :: es[i] == es[1..][i - 1];
    }
  }

  lemma {:induction false} DepthOfTwo(k: Item, v: Item, ws: seq<Item>, m: nat)
    ensures DepthOf([k, v] + ws) <= m <==> Depth(k) <= m && Depth(v) <= m && DepthOf(ws) <= m
  {
    assert ([k, v] + ws)[1..] == [v] + ws && ([v] + ws)[1..] == ws;
  }

  lemma {:induction false} FieldsDepth(t: Type, vs: seq<Value>, d: nat)
    requires t.TStruct? && HoldsFields(t, vs) && t.fields != [] && d <= MAX_NESTED
    ensures d + DepthOf(OwnItems(t, vs)) <= MAX_NESTED <==>
            forall i | 0 <= i < Kept(t.fields, vs) :: Writable(t.fields[i].typ, vs[i], d)
    decreases t, 1, 0
  {
    var fs, k, ws := t.fields, Kept(t.fields, vs), OwnItems(t, vs);
    DepthOfAtMost(ws, MAX_NESTED - d);
    FieldItemsAt(t, vs, k);
    forall i | 0 <= i < k
      ensures Writable(fs[i].typ, vs[i], d) <==> Depth(ws[fs[i].order]) <= MAX_NESTED - d
    {
      WritableIsDepth(fs[i].typ, vs[i], d);
    }
    if forall i | 0 <= i < k :: Writable(fs[i].typ, vs[i], d) {
      forall j | 0 <= j < |ws|
        ensures Depth(ws[j]) <= MAX_NESTED - d
      {
        if i :| 0 <= i < k && fs[i].order == j {
          assert Writable(fs[i].typ, vs[i], d);
        }
      }
    }
  }

  // ----- what is accepted and can be read -----

  /** No byte array of the type has length zero. */
  predicate NoEmptyByteArrays(t: Type) {
    match t
    case TArray(e, n) => (e == BYTE ==> n > 0) && NoEmptyByteArrays(e)
    case TSlice(e) => NoEmptyByteArrays(e)
    case TMap(k, e) => NoEmptyByteArrays(k) && NoEmptyByteArrays(e)
    case TStruct(fs) => forall i | 0 <= i < |fs| :: NoEmptyByteArrays(fs[i].typ)
    case TPtr(e) => NoEmptyByteArrays(e)
    case _ => true
  }

  /** No length or count of the item is beyond int32. */
  predicate Small(w: Item) {
    HeadOf(w).n <= MAX_INT32 && (w.WArr? ==> AllSmall(w.items))
  }

  predicate AllSmall(ws: seq<Item>) {
    forall i | 0 <= i < |ws| :: Small(ws[i])
  }

  /** The parts of the item have no length or count beyond int32. */
  predicate PartsSmall(w: Item) {
    w.WArr? ==> AllSmall(w.items)
  }

  /**
   Nothing that the writer accepts and the decoder does not is reached: no byte array of length zero, and for
   the recursive reader no lone byte below 128 at the nesting limit.
   */
  predicate Clear(c: Decoder, t: Type, v: Value, d: nat)
    decreases t
  {
    match (t, v)
    case (TArray(e, _), VArray(vs)) =>
      if e == BYTE then vs != [] && LoneByteOk(c, vs, d) else forall i | 0 <= i < |vs| :: Clear(c, e, vs[i], d + 1)
    case (TSlice(e), VSlice(vs, _)) =>
      if e == BYTE then LoneByteOk(c, vs, d) else forall i | 0 <= i < |vs| :: Clear(c, e, vs[i], d + 1)
    case (TMap(k, e), VMap(es)) =>
      forall i | 0 <= i < |es| :: Clear(c, k, es[i].key, d + 1) && Clear(c, e, es[i].value, d + 1)
    case (TStruct(fs), VStruct(vs)) =>
      |fs| == |vs| ==> forall i | 0 <= i < Kept(fs, vs) :: Clear(c, fs[i].typ, vs[i], d + 1)
    case (TPtr(e), VPtr(x)) => WireOf(e, x) == WZero || Clear(c, e, x, d)
    case _ => true
  }

  /** The value is clear and, for the event decoder, has no length or count beyond int32. */
  predicate Passable(c: Decoder, t: Type, v: Value, d: nat) {
    Clear(c, t, v, d) && (c.events ==> Small(WireOf(t, v)))
  }

  /**
   Of what the writer accepts, the recursive reader reads back exactly what is clear; the event decoder, which
   has no nesting limit, reads back exactly what is clear and has no length beyond int32.
   */
  lemma {:induction false} AcceptedExact(c: Decoder, t: Type, v: Value, d: nat)
    requires Holds(t, v) && (c.events || Writable(t, v, d))
    ensures Readable(c, t, v, d) <==> Passable(c, t, v, d)
    decreases t, 3
  {
    ReadsExact(c, t, v, d);
  }

  /** The same once the head of the item is read. */
  lemma {:induction false} ReadsExact(c: Decoder, t: Type, v: Value, d: nat)
    requires Holds(t, v) && (c.events || Writable(t, v, d))
    ensures Reads(c, t, v, d) <==> Clear(c, t, v, d) && (c.events ==> PartsSmall(WireOf(t, v)))
    decreases t, 2
  {
    HoldsParts(t, v);
    if v.VArray? || v.VSlice? {
      SequenceExact(c, t, v, d);
    } else if v.VMap? {
      MapExact(c, t, v.entries, d, d + 1);
    } else if v.VStruct? {
      StructExact(c, t, v.fields, d, d + 1);
    } else if v.VPtr? {
      ReadsExact(c, t.elem, v.target, d);
    } else {
      PlainExact(c, t, v, d);
    }
  }

  lemma {:induction false} PlainExact(c: Decoder, t: Type, v: Value, d: nat)
    requires !v.VArray? && !v.VSlice? && !v.VMap? && !v.VStruct? && !v.VPtr? && (c.events || d <= MAX_NESTED)
    ensures Reads(c, t, v, d) && Clear(c, t, v, d) && PartsSmall(WireOf(t, v))
  {
  }

  lemma {:induction false} SequenceExact(c: Decoder, t: Type, v: Value, d: nat)
    requires (t.TArray? && v.VArray?) || (t.TSlice? && v.VSlice?)
    requires (forall i | 0 <= i < |v.elems| :: Holds(t.elem, v.elems[i])) && (c.events || Writable(t, v, d))
    ensures Reads(c, t, v, d) <==> Clear(c, t, v, d) && (c.events ==> PartsSmall(WireOf(t, v)))
    decreases t, 1
  {
    var inner := d + 1;
    if t.elem != BYTE {
      ElemsExact(c, t.elem, v.elems, inner);
    }
    SequenceDecides(c, t, v, d, inner);
  }

  predicate AllPassable(c: Decoder, e: Type, vs: seq<Value>, d: nat) {
    forall i | 0 <= i < |vs| :: Passable(c, e, vs[i], d)
  }

  lemma {:induction false} ElemsExact(c: Decoder, e: Type, vs: seq<Value>, d: nat)
    requires forall i | 0 <= i < |vs| :: Holds(e, vs[i]) && (c.events || Writable(e, vs[i], d))
    ensures AllReadable(c, e, vs, d) <==> AllPassable(c, e, vs, d)
    decreases e, 4
  {
    forall i | 0 <= i < |vs|
      ensures Readable(c, e, vs[i], d) <==> Passable(c, e, vs[i], d)
    {
      AcceptedExact(c, e, vs[i], d);
    }
  }

  lemma {:induction false} SequenceDecides(c: Decoder, t: Type, v: Value, d: nat, inner: nat)
    requires ((t.TArray? && v.VArray?) || (t.TSlice? && v.VSlice?)) && inner == d + 1 && (c.events || d <= MAX_NESTED)
    requires t.elem != BYTE ==> (AllReadable(c, t.elem, v.elems, inner) <==> AllPassable(c, t.elem, v.elems, inner))
    ensures Reads(c, t, v, d) <==> Clear(c, t, v, d) && (c.events ==> PartsSmall(WireOf(t, v)))
  {
    if t.elem != BYTE {
      ElemsSmall(t.elem, v.elems);
      assert AllPassable(c, t.elem, v.elems, inner) <==>
             (forall i | 0 <= i < |v.elems| :: Clear(c, t.elem, v.elems[i], inner)) &&
             (c.events ==> AllSmall(ElemItems(t.elem, v.elems)));
    }
  }

  lemma {:induction false} ElemsSmall(e: Type, vs: seq<Value>)
    ensures AllSmall(ElemItems(e, vs)) <==> forall i | 0 <= i < |vs| :: Small(WireOf(e, vs[i]))
  {
    var ws := ElemItems(e, vs);
    assert forall i | 0 <= i < |vs| :: ws[i] == WireOf(e, vs[i]);
  }

  predicate EntryPassable(c: Decoder, t: Type, e: Entry, d: nat)
    requires t.TMap?
  {
    Passable(c, t.key, e.key, d) && Passable(c, t.val, e.value, d)
  }

  lemma {:induction false} MapExact(c: Decoder, t: Type, es: seq<Entry>, d: nat, inner: nat)
    requires t.TMap? && HoldsEntries(t, es) && inner == d + 1 && (c.events || Writable(t, VMap(es), d))
    ensures Reads(c, t, VMap(es), d) <==> Clear(c, t, VMap(es), d) && (c.events ==> PartsSmall(WireOf(t, VMap(es))))
    decreases t, 1
  {
    forall i | 0 <= i < |es|
      ensures EntryReadable(c, t, es[i], inner) <==> EntryPassable(c, t, es[i], inner)
    {
      AcceptedExact(c, t.key, es[i].key, inner);
      AcceptedExact(c, t.val, es[i].value, inner);
    }
    MapDecides(c, t, es, d, inner);
  }

  lemma {:induction false} MapDecides(c: Decoder, t: Type, es: seq<Entry>, d: nat, inner: nat)
    requires t.TMap? && inner == d + 1 && (c.events || d <= MAX_NESTED)
    requires forall i | 0 <= i < |es| :: EntryReadable(c, t, es[i], inner) <==> EntryPassable(c, t, es[i], inner)
    ensures Reads(c, t, VMap(es), d) <==> Clear(c, t, VMap(es), d) && (c.events ==> PartsSmall(WireOf(t, VMap(es))))
  {
    EntriesSmall(t, es);
    if es != [] {
      MapReads(c, t, es, d);
    }
  }

  lemma {:induction false} EntriesSmall(t: Type, es: seq<Entry>)
    requires t.TMap?
    ensures AllSmall(EntryItems(t, es)) <==>
            forall i | 0 <= i < |es| :: Small(WireOf(t.key, es[i].key)) && Small(WireOf(t.val, es[i].value))
    decreases |es|
  {
    if es != [] {
      var ws := EntryItems(t, es[1..]);
      EntriesSmall(t, es[1..]);
      SmallPair(WireOf(t.key, es[0].key), WireOf(t.val, es[0].value), ws);
      assert forall i | 1 <= i < |es| :: es[i] == es[1..][i - 1];
    }
  }

  lemma {:induction false} SmallPair(k: Item, v: Item, ws: seq<Item>)
    ensures AllSmall([k, v] + ws) <==> Small(k) && Small(v) && AllSmall(ws)
  {
    var us := [k, v] + ws;
    assert us[0] == k && us[1] == v && forall i | 0 <= i < |ws| :: us[i + 2] == ws[i];
  }

  lemma {:induction false} StructExact(c: Decoder, t: Type, vs: seq<Value>, d: nat, inner: nat)
    requires t.TStruct? && HoldsFields(t, vs) && inner == d + 1 && (c.events || Writable(t, VStruct(vs), d))
    ensures Reads(c, t, VStruct(vs), d) <==>
            Clear(c, t, VStruct(vs), d) && (c.events ==> PartsSmall(WireOf(t, VStruct(vs))))
    decreases t, 1
  {
    var fs, n := t.fields, Kept(t.fields, vs);
    forall i | 0 <= i < n
      ensures Readable(c, fs[i].typ, vs[i], inner) <==> Passable(c, fs[i].typ, vs[i], inner)
    {
      AcceptedExact(c, fs[i].typ, vs[i], inner);
    }
    StructDecides(c, t, vs, d, inner);
  }

  lemma {:induction false} StructDecides(c: Decoder, t: Type, vs: seq<Value>, d: nat, inner: nat)
    requires t.TStruct? && HoldsFields(t, vs) && inner == d + 1 && (c.events || d <= MAX_NESTED)
    requires forall i | 0 <= i < Kept(t.fields, vs) ::
               Readable(c, t.fields[i].typ, vs[i], inner) <==> Passable(c, t.fields[i].typ, vs[i], inner)
    ensures Reads(c, t, VStruct(vs), d) <==>
            Clear(c, t, VStruct(vs), d) && (c.events ==> PartsSmall(WireOf(t, VStruct(vs))))
  {
    if vs != [] {
      StructWire(t, vs);
      FieldsSmall(t, vs);
    }
  }

  lemma {:induction false} FieldsSmall(t: Type, vs: seq<Value>)
    requires t.TStruct? && HoldsFields(t, vs)
    ensures AllSmall(OwnItems(t, vs)) <==>
            forall i | 0 <= i < Kept(t.fields, vs) :: Small(WireOf(t.fields[i].typ, vs[i]))
  {
    var fs, n, ws := t.fields, Kept(t.fields, vs), OwnItems(t, vs);
    FieldItemsAt(t, vs, n);
    if AllSmall(ws) {
      forall i | 0 <= i < n
        ensures Small(WireOf(fs[i].typ, vs[i]))
      {
        assert Small(ws[fs[i].order]);
      }
    }
    if forall i | 0 <= i < n :: Small(WireOf(fs[i].typ, vs[i])) {
      forall j | 0 <= j < |ws|
        ensures Small(ws[j])
      {
        if i :| 0 <= i < n && fs[i].order == j {
          assert ws[j] == WireOf(fs[i].typ, vs[i]);
        }
      }
    }
  }

  /** One level above the limit, and without byte arrays of length zero, everything is clear. */
  lemma {:induction false} ClearAbove(c: Decoder, t: Type, v: Value, d: nat, inner: nat)
    requires HasType(t, v) && NoEmptyByteArrays(t) && inner == d + 1 && (c.events || Writable(t, v, inner))
    ensures Clear(c, t, v, d)
    decreases t
  {
    var next := inner + 1;
    if v.VArray? || v.VSlice? {
      if t.elem != BYTE {
        forall i | 0 <= i < |v.elems|
          ensures Clear(c, t.elem, v.elems[i], inner)
        {
          ClearAbove(c, t.elem, v.elems[i], inner, next);
        }
      }
    } else if v.VMap? {
      forall i | 0 <= i < |v.entries|
        ensures Clear(c, t.key, v.entries[i].key, inner) && Clear(c, t.val, v.entries[i].value, inner)
      {
        ClearAbove(c, t.key, v.entries[i].key, inner, next);
        ClearAbove(c, t.val, v.entries[i].value, inner, next);
      }
    } else if v.VStruct? {
      forall i | 0 <= i < Kept(t.fields, v.fields)
        ensures Clear(c, t.fields[i].typ, v.fields[i], inner)
      {
        ClearAbove(c, t.fields[i].typ, v.fields[i], inner, next);
      }
    } else if v.VPtr? {
      ClearAbove(c, t.elem, v.target, d, inner);
    }
  }

  /**
   What the writer accepts is read back by the recursive reader when nothing is at the very limit, and by the
   event decoder when no length is beyond int32, if the type has no byte array of length zero.
   */
  lemma {:induction false} AcceptedReadable(c: Decoder, t: Type, v: Value, d: nat)
    requires Holds(t, v) && NoEmptyByteArrays(t)
    requires if c.events then Small(WireOf(t, v)) else d + Depth(WireOf(t, v)) < MAX_NESTED
    ensures Readable(c, t, v, d)
  {
    WritableIsDepth(t, v, d);
    WritableIsDepth(t, v, d + 1);
    ClearAbove(c, t, v, d, d + 1);
    AcceptedExact(c, t, v, d);
  }

  /**
   What each decoder makes of data the writer accepts, in a destination whose maps have no entries. The values
   they give agree if and only if no big integer lies in the gap.
   */
  lemma {:induction false} BothDecode(c1: Decoder, c2: Decoder, t: Type, v: Value, prev: Value, tail: Bytes)
    requires !c1.events && c2.events && Holds(t, v) && Writable(t, v, 0) && NoEntries(prev)
    ensures var bs := ItemBytes(WireOf(t, v)) + tail;
            && Dec(c1, t, prev, bs, 0) == (if Passable(c1, t, v, 0) then Ok(Restored(c1, t, v), tail) else Err)
            && Dec(c2, t, prev, bs, 0) == (if Passable(c2, t, v, 0) then Ok(Restored(c2, t, v), tail) else Err)
            && (Restored(c1, t, v) == Restored(c2, t, v) <==> GapFree(t, v))
  {
    AcceptedExact(c1, t, v, 0);
    AcceptedExact(c2, t, v, 0);
    RoundTrip.RoundTrip(c1, t, v, 0, prev, tail);
    RoundTrip.RoundTrip(c2, t, v, 0, prev, tail);
    LandedFresh(c1, t, v, prev);
    LandedFresh(c2, t, v, prev);
    SameRestored(c1, c2, t, v);
  }
}
