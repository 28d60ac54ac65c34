/** What a destination hands on to its parts: elements, fields and targets are read into what was there. */
module Destinations {
  import opened Numeric
  import opened Wrappers
  import opened Wire
  import opened Values
  import opened Layout
  import opened Encoding
  import opened Decoding
  import opened Schema
  import opened RoundTrip

  /** The part x is what decoding the data of v into prev gives. */
  ghost predicate EndsAs(c: Decoder, t: Type, v: Value, d: nat, prev: Value, x: Value) {
    Decodes(c, t, WireOf(t, v), d, prev, true, x)
  }

  ghost predicate AllEndAs(c: Decoder, e: Type, vs: seq<Value>, d: nat, prevs: seq<Value>, xs: seq<Value>) {
    |vs| == |prevs| == |xs| && forall i | 0 <= i < |vs| :: EndsAs(c, e, vs[i], d, prevs[i], xs[i])
  }

  lemma {:induction false} LandedEnds(c: Decoder, t: Type, v: Value, d: nat, prev: Value)
    requires Holds(t, v) && Readable(c, t, v, d)
    ensures EndsAs(c, t, v, d, prev, Landed(c, t, v, prev))
  {
    DecodesBack(c, t, v, d, prev);
  }

  lemma {:induction false} AllLandedEnd(c: Decoder, e: Type, vs: seq<Value>, d: nat, prevs: seq<Value>)
    requires |prevs| == |vs| && AllReadable(c, e, vs, d) && forall i | 0 <= i < |vs| :: Holds(e, vs[i])
    ensures AllEndAs(c, e, vs, d, prevs, LandedAll(c, e, vs, prevs))
  {
    forall i | 0 <= i < |vs|
      ensures EndsAs(c, e, vs[i], d, prevs[i], LandedAll(c, e, vs, prevs)[i])
    {
      LandedEnds(c, e, vs[i], d, prevs[i]);
    }
  }

  /**
   The elements a slice is read into: those of the old slice, the ones between its length and its capacity
   included, when they are enough; new ones otherwise.
   */
  ghost predicate Handed(e: Type, prev: Value, prevs: seq<Value>) {
    var n := |prevs|;
    if prev.VSlice? && n <= |prev.elems| + |prev.spare| then prevs == (prev.elems + prev.spare)[..n]
    else forall i | 0 <= i < n :: prevs[i] == Zero(e)
  }

  /** The outcome of reading a slice of other elements than bytes: each is read into the one it is handed. */
  lemma {:induction false} SliceReused(c: Decoder, t: Type, v: Value, prev: Value, d: nat,
                                       tail: Bytes) returns (prevs: seq<Value>)
    requires t.TSlice? && t.elem != BYTE && v.VSlice? && Holds(t, v) && Readable(c, t, v, d)
    ensures |prevs| == |v.elems| && Handed(t.elem, prev, prevs)
    ensures var r := Dec(c, t, prev, ItemBytes(WireOf(t, v)) + tail, d);
            && r.Ok? && r.rest == tail && r.value.VSlice? && r.value.spare == []
            && AllEndAs(c, t.elem, v.elems, d + 1, prevs, r.value.elems)
  {
    prevs := Resize(t.elem, prev, |v.elems|);
    HoldsParts(t, v);
    RoundTrip.RoundTrip(c, t, v, d, prev, tail);
    ElemsReadable(c, t, v, d, d + 1);
    AllLandedEnd(c, t.elem, v.elems, d + 1, prevs);
  }

  lemma {:induction false} ElemsReadable(c: Decoder, t: Type, v: Value, d: nat, inner: nat)
    requires ((t.TSlice? && v.VSlice?) || (t.TArray? && v.VArray?)) && t.elem != BYTE && inner == d + 1
    requires Readable(c, t, v, d)
    ensures AllReadable(c, t.elem, v.elems, inner)
  {
  }

  /** The outcome of reading an array: each element is read into the old one. */
  lemma {:induction false} ArrayReused(c: Decoder, t: Type, v: Value, olds: seq<Value>, d: nat, tail: Bytes)
    requires t.TArray? && t.elem != BYTE && v.VArray? && Holds(t, v) && Readable(c, t, v, d) && |olds| == t.len > 0
    ensures var r := Dec(c, t, VArray(olds), ItemBytes(WireOf(t, v)) + tail, d);
            r.Ok? && r.rest == tail && r.value.VArray? && AllEndAs(c, t.elem, v.elems, d + 1, olds, r.value.elems)
  {
    HoldsParts(t, v);
    RoundTrip.RoundTrip(c, t, v, d, VArray(olds), tail);
    ElemsReadable(c, t, v, d, d + 1);
    AllLandedEnd(c, t.elem, v.elems, d + 1, olds);
  }

  /** The outcome of reading a struct: each field that was written is read into the old one, the others are zeroed. */
  lemma {:induction false} StructReused(c: Decoder, t: Type, vs: seq<Value>, olds: seq<Value>, d: nat, tail: Bytes)
    requires t.TStruct? && Holds(t, VStruct(vs)) && Readable(c, t, VStruct(vs), d) && |olds| == |t.fields|
    ensures var r := Dec(c, t, VStruct(olds), ItemBytes(WireOf(t, VStruct(vs))) + tail, d);
            && r.Ok? && r.rest == tail && r.value.VStruct? && |r.value.fields| == |vs| == |t.fields|
            && (forall i | 0 <= i < Kept(t.fields, vs) ::
                  EndsAs(c, t.fields[i].typ, vs[i], d + 1, olds[i], r.value.fields[i]))
            && (forall i | Kept(t.fields, vs) <= i < |vs| :: r.value.fields[i] == Zero(t.fields[i].typ))
  {
    HoldsParts(t, VStruct(vs));
    RoundTrip.RoundTrip(c, t, VStruct(vs), d, VStruct(olds), tail);
    LandedStruct(c, t, vs, VStruct(olds));
    FieldsEnd(c, t, vs, olds, d, d + 1);
  }

  lemma {:induction false} FieldsEnd(c: Decoder, t: Type, vs: seq<Value>, olds: seq<Value>, d: nat, inner: nat)
    requires t.TStruct? && HoldsFields(t, vs) && Reads(c, t, VStruct(vs), d) && |olds| == |vs| && inner == d + 1
    ensures var xs := LandedFields(c, t, vs, olds);
            && (forall i | 0 <= i < Kept(t.fields, vs) :: EndsAs(c, t.fields[i].typ, vs[i], inner, olds[i], xs[i]))
            && (forall i | Kept(t.fields, vs) <= i < |vs| :: xs[i] == Zero(t.fields[i].typ))
  {
    var fs := t.fields;
    forall i | 0 <= i < Kept(fs, vs)
      ensures EndsAs(c, fs[i].typ, vs[i], inner, olds[i], LandedFields(c, t, vs, olds)[i])
    {
      LandedEnds(c, fs[i].typ, vs[i], inner, olds[i]);
    }
    forall i | Kept(fs, vs) <= i < |vs|
      ensures LandedFields(c, t, vs, olds)[i] == Zero(fs[i].typ)
    {
      KeptExact(fs, vs);
      LandedZero(c, fs[i].typ, olds[i]);
    }
  }

  /** The outcome of reading a pointer: what it pointed to is read into, or a new zero value for a nil pointer. */
  lemma {:induction false} TargetReused(c: Decoder, t: Type, x: Value, prev: Value, d: nat, tail: Bytes)
    requires t.TPtr? && Holds(t, VPtr(x)) && Readable(c, t, VPtr(x), d) && (prev.VPtr? || prev.VNil?)
    requires WireOf(t.elem, x) != WZero
    ensures var r := Dec(c, t, prev, ItemBytes(WireOf(t, VPtr(x))) + tail, d);
            && r.Ok? && r.rest == tail && r.value.VPtr?
            && EndsAs(c, t.elem, x, d, if prev.VPtr? then prev.target else Zero(t.elem), r.value.target)
  {
    RoundTrip.RoundTrip(c, t, VPtr(x), d, prev, tail);
    LandedEnds(c, t.elem, x, d, OldTarget(t.elem, prev));
  }

  /** The outcome of reading a map: the entries put into the old ones, each value read into a new zero value. */
  lemma {:induction false} EntriesFresh(c: Decoder, t: Type, es: seq<Entry>, olds: seq<Entry>, d: nat, tail: Bytes)
    returns (rs: seq<Entry>)
    requires t.TMap? && es != [] && Holds(t, VMap(es)) && Readable(c, t, VMap(es), d)
    ensures Dec(c, t, VMap(olds), ItemBytes(WireOf(t, VMap(es))) + tail, d) == Ok(VMap(InsertAll(olds, rs)), tail)
    ensures |rs| == |es| && forall i | 0 <= i < |es| ::
              rs[i].key == es[i].key && EndsAs(c, t.val, es[i].value, d + 1, Zero(t.val), rs[i].value)
  {
    var inner := d + 1;
    rs := RestoredEntries(c, t, es);
    HoldsParts(t, VMap(es));
    RoundTrip.RoundTrip(c, t, VMap(es), d, VMap(olds), tail);
    RestoredDistinct(c, t, es);
    MapReads(c, t, es, d);
    forall i | 0 <= i < |es|
      ensures EndsAs(c, t.val, es[i].value, inner, Zero(t.val), rs[i].value)
    {
      assert EntryReadable(c, t, es[i], inner);
      LandedEnds(c, t.val, es[i].value, inner, Zero(t.val));
      ZeroNoEntries(t.val);
      LandedFresh(c, t.val, es[i].value, Zero(t.val));
    }
  }

  // ----- any items -----

  /** Decoding each item has its outcome, whatever follows it. */
  ghost predicate ItemOutcomes(c: Decoder, e: Type, ws: seq<Item>, d: nat, prevs: seq<Value>, oks: seq<bool>,
                               xs: seq<Value>) {
    |ws| == |prevs| == |oks| == |xs| && forall i | 0 <= i < |ws| :: Decodes(c, e, ws[i], d, prevs[i], oks[i], xs[i])
  }

  lemma {:induction false} ElemsDecode(c: Decoder, e: Type, ws: seq<Item>, prevs: seq<Value>, oks: seq<bool>,
                                       xs: seq<Value>, d: nat, tail: Bytes)
    requires ItemOutcomes(c, e, ws, d, prevs, oks, xs)
    ensures DecElems(c, e, prevs, Concat(ws) + tail, d) == if AllTrue(oks) then Ok(xs, tail) else Err
    decreases |ws|
  {
    if ws == [] {
      assert Concat(ws) + tail == tail;
    } else {
      var after := Concat(ws[1..]) + tail;
      assert DecodesAt(c, e, ws[0], d, prevs[0], oks[0], xs[0], after);
      ConcatHead(ws, tail);
      ElemsDecode(c, e, ws[1..], prevs[1..], oks[1..], xs[1..], d, tail);
      AllTrueFirst(oks);
      assert [xs[0]] + xs[1..] == xs;
    }
  }

  lemma {:induction false} AllTrueFirst(oks: seq<bool>)
    requires oks != []
    ensures AllTrue(oks) <==> oks[0] && AllTrue(oks[1..])
  {
    assert forall i | 0 < i < |oks| :: oks[i] == oks[1..][i - 1];
  }

  /** An array of any items into a slice of any type, bytes included: each item into the element it is handed. */
  lemma {:induction false} ItemsIntoSlice(c: Decoder, e: Type, ws: seq<Item>, prev: Value, prevs: seq<Value>,
                                          oks: seq<bool>, xs: seq<Value>, d: nat, tail: Bytes)
    requires ws != [] && Valid(WArr(ws)) && LengthOk(c, WArr(ws)) && (c.events || d <= MAX_NESTED)
    requires |prevs| == |ws| && Handed(e, prev, prevs) && ItemOutcomes(c, e, ws, d + 1, prevs, oks, xs)
    ensures Dec(c, TSlice(e), prev, ItemBytes(WArr(ws)) + tail, d) ==
            if AllTrue(oks) then Ok(VSlice(xs, []), tail) else Err
  {
    HandedIs(e, prev, prevs);
    FromHead(c, TSlice(e), WArr(ws), d, prev, tail);
    SliceOfItems(c, TSlice(e), HeadOf(WArr(ws)), prev, Concat(ws) + tail, d, d + 1);
    ElemsDecode(c, e, ws, prevs, oks, xs, d + 1, tail);
  }

  lemma {:induction false} HandedIs(e: Type, prev: Value, prevs: seq<Value>)
    requires Handed(e, prev, prevs)
    ensures prevs == Resize(e, prev, |prevs|)
  {
  }

  /** The same into an array of as many elements. */
  lemma {:induction false} ItemsIntoArray(c: Decoder, e: Type, ws: seq<Item>, prevs: seq<Value>, oks: seq<bool>,
                                          xs: seq<Value>, d: nat, tail: Bytes)
    requires ws != [] && Valid(WArr(ws)) && LengthOk(c, WArr(ws)) && (c.events || d <= MAX_NESTED)
    requires ItemOutcomes(c, e, ws, d + 1, prevs, oks, xs)
    ensures Dec(c, TArray(e, |ws|), VArray(prevs), ItemBytes(WArr(ws)) + tail, d) ==
            if AllTrue(oks) then Ok(VArray(xs), tail) else Err
  {
    var t, inner := TArray(e, |ws|), d + 1;
    FromHead(c, t, WArr(ws), d, VArray(prevs), tail);
    ElemsDecode(c, e, ws, prevs, oks, xs, inner, tail);
    ArrayDecodes(c, t, HeadOf(WArr(ws)), prevs, Concat(ws) + tail, d, inner);
  }

  lemma {:induction false} ArrayDecodes(c: Decoder, t: Type, h: Head, prevs: seq<Value>, bs: Bytes, d: nat, inner: nat)
    requires t.TArray? && h.th.IsArray() && h.n == t.len == |prevs| && inner == d + 1 && (c.events || d <= MAX_NESTED)
    ensures DecHead(c, t, VArray(prevs), h, bs, d) ==
            var r := DecElems(c, t.elem, prevs, bs, inner);
            if r.Err? then Err else Ok(VArray(r.value), r.rest)
  {
    ArrayOfItems(c, t, h, prevs, bs, d, inner);
  }
}
