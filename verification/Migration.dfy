/** Data written with one struct type and decoded into another. */
module Migration {
  import opened Numeric
  import opened Wrappers
  import opened Wire
  import opened Skipping
  import opened Values
  import opened Layout
  import opened Encoding
  import opened Decoding
  import opened Schema
  import opened Leftover
  import opened Passing
  import opened RoundTrip
  import opened Cursors

  /** The first field with this order, or the number of fields if there is none. */
  function FieldOf(fs: seq<Field>, order: nat): (i: nat)
    ensures i <= |fs| && forall m | 0 <= m < i :: fs[m].order != order
    ensures if i < |fs| then fs[i].order == order else Unclaimed(fs, order)
  {
    if fs == [] then 0
    else if fs[0].order == order then 0
    else
      assert fs == [fs[0]] + fs[1..];
      1 + FieldOf(fs[1..], order)
  }

  /** What a field with this order and type that held prev gets from the values of a struct of type s. */
  function Received(c: Decoder, s: Type, vs: seq<Value>, f: Field, prev: Value): Value
    requires s.TStruct? && |s.fields| == |vs|
  {
    var i := FieldOf(s.fields, f.order);
    if i < Kept(s.fields, vs) then Landed(c, f.typ, vs[i], prev) else Zero(f.typ)
  }

  /** The field can be set at depth d, and its value can be read when it was written. */
  predicate Receivable(c: Decoder, s: Type, vs: seq<Value>, f: Field, d: nat)
    requires s.TStruct? && |s.fields| == |vs|
  {
    var i := FieldOf(s.fields, f.order);
    (c.events || d <= MAX_NESTED) && (i < Kept(s.fields, vs) ==> Readable(c, f.typ, vs[i], d))
  }

  /** The same of a field that has an item. */
  predicate ItemReceivable(c: Decoder, s: Type, vs: seq<Value>, f: Field, d: nat)
    requires s.TStruct? && |s.fields| == |vs|
  {
    f.order < |OwnItems(s, vs)| ==> Receivable(c, s, vs, f, d)
  }

  function AllReceived(c: Decoder, s: Type, vs: seq<Value>, fs: seq<Field>, prevs: seq<Value>): seq<Value>
    requires s.TStruct? && |s.fields| == |vs| && |prevs| == |fs|
  {
    seq(|fs|, k requires 0 <= k < |fs| => Received(c, s, vs, fs[k], prevs[k]))
  }

  predicate AllReceivable(c: Decoder, s: Type, vs: seq<Value>, fs: seq<Field>, d: nat)
    requires s.TStruct? && |s.fields| == |vs|
  {
    forall k | 0 <= k < |fs| :: Receivable(c, s, vs, fs[k], d)
  }

  function ItemsReceivable(c: Decoder, s: Type, vs: seq<Value>, fs: seq<Field>, d: nat): seq<bool>
    requires s.TStruct? && |s.fields| == |vs|
  {
    seq(|fs|, k requires 0 <= k < |fs| => ItemReceivable(c, s, vs, fs[k], d))
  }

  /** A field of the same order has the same type. */
  predicate Agrees(ss: seq<Field>, f: Field) {
    forall i | 0 <= i < |ss| && ss[i].order == f.order :: ss[i].typ == f.typ
  }

  /** Fields of the two types with the same order have the same type. */
  predicate SameTypes(ss: seq<Field>, ts: seq<Field>) {
    forall k | 0 <= k < |ts| :: Agrees(ss, ts[k])
  }

  /** Every written field that is passed over can be skipped. */
  predicate OthersSkip(c: Decoder, s: Type, vs: seq<Value>, ts: seq<Field>)
    requires s.TStruct? && |s.fields| == |vs|
  {
    forall i | 0 <= i < Kept(s.fields, vs) && PassedOver(c, ts, |OwnItems(s, vs)|, s.fields[i].order) ::
      Skippable(c.popSkip, WireOf(s.fields[i].typ, vs[i]))
  }

  /** One field of the target, which held prev. */
  lemma {:induction false} FieldReceived(c: Decoder, s: Type, vs: seq<Value>, f: Field, d: nat, prev: Value)
    requires s.TStruct? && HoldsFields(s, vs) && vs != [] && Agrees(s.fields, f)
    ensures OutcomeAt(c, f, OwnItems(s, vs), d, prev, ItemReceivable(c, s, vs, f, d), Received(c, s, vs, f, prev))
  {
    var fs, n := s.fields, Kept(s.fields, vs);
    var i := FieldOf(fs, f.order);
    KeptExact(fs, vs);
    FieldItemsLength(s, vs, n);
    if f.order < |OwnItems(s, vs)| {
      if !c.events && d > MAX_NESTED {
        TooDeep(c, f.typ, OwnItems(s, vs)[f.order], d, prev, Received(c, s, vs, f, prev));
      } else if i < n {
        FieldItemAt(s, vs, n, i);
        DecodesBack(c, f.typ, vs[i], d, prev);
      } else {
        HoleAt(s, vs, n, f.order);
        ZeroDecodes(c, f.typ, d, prev);
      }
    } else if i < n {
      FieldItemAt(s, vs, n, i);
    }
  }

  /** Beyond its nesting limit the recursive reader reads nothing. */
  lemma {:induction false} TooDeep(c: Decoder, t: Type, w: Item, d: nat, prev: Value, x: Value)
    requires !c.events && d > MAX_NESTED
    ensures Decodes(c, t, w, d, prev, false, x)
  {
    forall tail: Bytes
      ensures DecodesAt(c, t, w, d, prev, false, x, tail)
    {
      NothingRead(c, t, prev, ItemBytes(w) + tail, d);
    }
  }

  lemma {:induction false} NothingRead(c: Decoder, t: Type, prev: Value, bs: Bytes, d: nat)
    requires !c.events && d > MAX_NESTED
    ensures Dec(c, t, prev, bs, d) == Err
  {
  }

  lemma {:induction false} AllFieldsReceived(c: Decoder, s: Type, vs: seq<Value>, ts: seq<Field>, d: nat,
                                             prevs: seq<Value>)
    requires s.TStruct? && HoldsFields(s, vs) && vs != [] && SameTypes(s.fields, ts) && |prevs| == |ts|
    ensures FieldOutcomes(c, ts, OwnItems(s, vs), d, prevs, ItemsReceivable(c, s, vs, ts, d),
                          AllReceived(c, s, vs, ts, prevs))
  {
    forall k | 0 <= k < |ts|
      ensures OutcomeAt(c, ts[k], OwnItems(s, vs), d, prevs[k], ItemsReceivable(c, s, vs, ts, d)[k],
                        AllReceived(c, s, vs, ts, prevs)[k])
    {
      FieldReceived(c, s, vs, ts[k], d, prevs[k]);
    }
  }

  /** All fields can be received exactly when those with items can, and the others can be zeroed. */
  lemma {:induction false} ReceivableOrZero(c: Decoder, s: Type, vs: seq<Value>, ts: seq<Field>, d: nat)
    requires s.TStruct? && HoldsFields(s, vs)
    ensures AllTrue(ItemsReceivable(c, s, vs, ts, d)) && CanZero(c, ts, |OwnItems(s, vs)|, d) <==>
            AllReceivable(c, s, vs, ts, d)
  {
    var oks, size := ItemsReceivable(c, s, vs, ts, d), |OwnItems(s, vs)|;
    forall k | 0 <= k < |ts|
      ensures Receivable(c, s, vs, ts[k], d) ==> oks[k] && (c.events || d <= MAX_NESTED)
      ensures oks[k] && (c.events || d <= MAX_NESTED || ts[k].order < size) ==> Receivable(c, s, vs, ts[k], d)
    {
      if ts[k].order >= size {
        NotWritten(s, vs, ts[k].order);
      }
    }
    if AllTrue(oks) && CanZero(c, ts, size, d) {
      forall k | 0 <= k < |ts|
        ensures Receivable(c, s, vs, ts[k], d)
      {
        assert oks[k];
      }
    }
  }

  /** No field that was written has an order beyond the items. */
  lemma {:induction false} NotWritten(s: Type, vs: seq<Value>, order: nat)
    requires s.TStruct? && HoldsFields(s, vs) && order >= |OwnItems(s, vs)|
    ensures FieldOf(s.fields, order) >= Kept(s.fields, vs)
  {
    var i, n := FieldOf(s.fields, order), Kept(s.fields, vs);
    if i < n {
      FieldItemAt(s, vs, n, i);
    }
  }

  lemma {:induction false} OtherItemsSkip(c: Decoder, s: Type, vs: seq<Value>, ts: seq<Field>)
    requires s.TStruct? && HoldsFields(s, vs)
    ensures SkipsFine(c, ts, OwnItems(s, vs)) <==> OthersSkip(c, s, vs, ts)
  {
    var fs, n, ws := s.fields, Kept(s.fields, vs), OwnItems(s, vs);
    FieldItemsAt(s, vs, n);
    if OthersSkip(c, s, vs, ts) {
      forall j | 0 <= j < |ws| && PassedOver(c, ts, |ws|, j)
        ensures Skippable(c.popSkip, ws[j])
      {
        if i :| 0 <= i < n && fs[i].order == j {
          assert ws[fs[i].order] == WireOf(fs[i].typ, vs[i]);
        }
      }
    }
  }

  /**
   What decoding a struct of type s into one of type t that holds prev yields: when every shared field can be
   received, each field of t ends with what s wrote at its order, or zero where s has a hole or ends earlier. A
   struct without fields is written as Zero.
   */
  function Migrated(c: Decoder, s: Type, vs: seq<Value>, t: Type, d: nat, prev: Value, tail: Bytes): Res<Value>
    requires s.TStruct? && |s.fields| == |vs| && t.TStruct?
  {
    if !c.events && d > MAX_NESTED then Err
    else if vs == [] then Ok(Zero(t), tail)
    else if LengthOk(c, WireOf(s, VStruct(vs))) && AllReceivable(c, s, vs, t.fields, d + 1) then
      Ok(VStruct(AllReceived(c, s, vs, t.fields, FieldValues(t.fields, prev))),
         Behind(c, t.fields, OwnItems(s, vs), tail))
    else Err
  }

  /**
   Data of a struct type s, decoded into a struct type t with strictly increasing orders that agrees on shared
   fields. When the written fields that are passed over can be skipped, the outcome is Migrated. It is a success
   that ends where it should if and only if they can and every shared field can be received.
   */
  lemma {:induction false} StructMigrates(c: Decoder, s: Type, vs: seq<Value>, t: Type, d: nat, prev: Value,
                                          tail: Bytes)
    requires s.TStruct? && HoldsFields(s, vs)
    requires t.TStruct? && StrictlyIncreasing(Orders(t.fields)) && SameTypes(s.fields, t.fields)
    ensures var r := Dec(c, t, prev, ItemBytes(WireOf(s, VStruct(vs))) + tail, d);
            var m := Migrated(c, s, vs, t, d, prev, tail);
            && (OthersSkip(c, s, vs, t.fields) ==> r == m)
            && (InStep(r, Behind(c, t.fields, OwnItems(s, vs), tail)) <==> m.Ok? && OthersSkip(c, s, vs, t.fields))
  {
    if vs == [] {
      EmptyMigrates(c, s, t, d, prev, tail);
    } else {
      var inner := d + 1;
      StructWire(s, vs);
      OwnLength(s, vs);
      FieldsValid(s, vs, Kept(s.fields, vs));
      OtherItemsSkip(c, s, vs, t.fields);
      ReceivableOrZero(c, s, vs, t.fields, inner);
      AllFieldsReceived(c, s, vs, t.fields, inner, FieldValues(t.fields, prev));
      ItemsMigrate(c, t, OwnItems(s, vs), d, inner, ItemsReceivable(c, s, vs, t.fields, inner),
                   AllReceived(c, s, vs, t.fields, FieldValues(t.fields, prev)), prev, tail);
    }
  }

  /** Items whose outcomes are known, in a struct. */
  lemma {:induction false} ItemsMigrate(c: Decoder, t: Type, ws: seq<Item>, d: nat, inner: nat, oks: seq<bool>,
                                        xs: seq<Value>, prev: Value, tail: Bytes)
    requires t.TStruct? && StrictlyIncreasing(Orders(t.fields)) && Valid(WArr(ws)) && inner == d + 1
    requires FieldOutcomes(c, t.fields, ws, inner, FieldValues(t.fields, prev), oks, xs)
    ensures var r, w := Dec(c, t, prev, ItemBytes(WArr(ws)) + tail, d), WArr(ws);
            var fine := AllTrue(oks) && CanZero(c, t.fields, |ws|, inner);
            var ok := (c.events || d <= MAX_NESTED) && LengthOk(c, w) && fine;
            && (SkipsFine(c, t.fields, ws) ==> r == if ok then Ok(VStruct(xs), Behind(c, t.fields, ws, tail)) else Err)
            && (InStep(r, Behind(c, t.fields, ws, tail)) <==> ok && SkipsFine(c, t.fields, ws))
  {
    FromHead(c, t, WArr(ws), d, prev, tail);
    if c.events || d <= MAX_NESTED {
      StructDecodes(c, t, ws, oks, xs, prev, HeadOf(WArr(ws)), d, tail);
    }
  }

  lemma {:induction false} EmptyMigrates(c: Decoder, s: Type, t: Type, d: nat, prev: Value, tail: Bytes)
    requires s.TStruct? && s.fields == [] && t.TStruct?
    ensures OwnItems(s, []) == [] && Behind(c, t.fields, [], tail) == tail && OthersSkip(c, s, [], t.fields)
    ensures Dec(c, t, prev, ItemBytes(WireOf(s, VStruct([]))) + tail, d) == Migrated(c, s, [], t, d, prev, tail)
  {
    assert [] + tail == tail;
    FromHead(c, t, WZero, d, prev, tail);
    if c.events || d <= MAX_NESTED {
      ZeroHead(c, t, prev, HeadOf(WZero), tail, d);
    }
  }

  // ----- arrays of another length -----

  /** The outcome of reading the first k elements of vs into prevs. */
  function ElemsOutcome(c: Decoder, e: Type, vs: seq<Value>, k: nat, prevs: seq<Value>, d: nat,
                        tail: Bytes): Res<seq<Value>>
    requires k == |prevs| <= |vs|
  {
    if AllReadable(c, e, vs[..k], d) then Ok(LandedAll(c, e, vs[..k], prevs), Concat(ElemItems(e, vs)[k..]) + tail)
    else Err
  }

  /** The outcome of reading an array of the elements vs, none of them a byte, into one of type t. */
  function ArrayOutcome(c: Decoder, t: Type, vs: seq<Value>, prevs: seq<Value>, d: nat, tail: Bytes): Res<Value>
    requires t.TArray? && |prevs| == t.len
  {
    var k := Min(|vs|, |prevs|);
    if !c.events && d > MAX_NESTED then Err
    else if vs == [] then Ok(Zero(t), tail)
    else if !LengthOk(c, WArr(ElemItems(t.elem, vs))) then Err
    else Overwriting(c, prevs[k..], ElemsOutcome(c, t.elem, vs, k, prevs[..k], d + 1, tail), tail)
  }

  /** The elements read, with the old ones beyond them; the event decoder has skipped the surplus. */
  function Overwriting(c: Decoder, others: seq<Value>, r: Res<seq<Value>>, tail: Bytes): Res<Value> {
    if r.Err? then Err else Ok(VArray(r.value + others), if c.events then tail else r.rest)
  }

  /** The event decoder can skip the elements from the k-th on. */
  predicate SurplusSkips(c: Decoder, e: Type, vs: seq<Value>, k: nat) {
    var ws := ElemItems(e, vs);
    c.events ==> forall i | k <= i < |ws| :: Skippable(c.popSkip, ws[i])
  }

  /** What is left behind an array: the recursive reader leaves the surplus. */
  function ArrayBehind(c: Decoder, e: Type, vs: seq<Value>, k: nat, tail: Bytes): Bytes
    requires k <= |vs|
  {
    if c.events then tail else Concat(ElemItems(e, vs)[k..]) + tail
  }

  /**
   An array decoded into one of any length: as many elements as fit are read, and elements beyond the data
   keep their old values, unless there is no data at all. The event decoder skips the surplus items; the
   recursive reader leaves them unread. The outcome is a success that ends where it should if and only if the
   surplus can be skipped and the elements that fit can be read.
   */
  lemma {:induction false} ArrayMigrates(c: Decoder, t: Type, vs: seq<Value>, prev: Value, d: nat, tail: Bytes)
    requires t.TArray? && t.elem != BYTE && Holds(TArray(t.elem, |vs|), VArray(vs))
    ensures var r := Dec(c, t, prev, ItemBytes(WireOf(TArray(t.elem, |vs|), VArray(vs))) + tail, d);
            var a, k := ArrayOutcome(c, t, vs, Elements(t.elem, t.len, prev), d, tail), Min(|vs|, t.len);
            && (SurplusSkips(c, t.elem, vs, k) ==> r == a)
            && (InStep(r, ArrayBehind(c, t.elem, vs, k, tail)) <==> a.Ok? && SurplusSkips(c, t.elem, vs, k))
  {
    HoldsParts(TArray(t.elem, |vs|), VArray(vs));
    if vs == [] {
      NoneArrive(c, t, prev, d, tail);
      assert ElemItems(t.elem, vs)[0..] == [] && [] + tail == tail;
    } else {
      WireValid(TArray(t.elem, |vs|), VArray(vs));
      var w, prevs, k, inner := WArr(ElemItems(t.elem, vs)), Elements(t.elem, t.len, prev), Min(|vs|, t.len), d + 1;
      SomeArrive(c, t, vs, k, prevs, HeadOf(w), d, inner, tail);
      WholeArrives(c, t, vs, w, k, prev, d, inner, tail);
    }
  }

  /** What becomes of the array behind its head: x, which is y when the surplus can be skipped, and astray otherwise. */
  ghost predicate Arrives(x: Res<Value>, y: Res<Value>, behind: Bytes, skips: bool) {
    (if skips then x == y else !InStep(x, behind)) && (InStep(y, behind) <==> y.Ok?)
  }

  lemma {:induction false} SomeArrive(c: Decoder, t: Type, vs: seq<Value>, k: nat, prevs: seq<Value>, h: Head, d: nat,
                                      inner: nat, tail: Bytes)
    requires t.TArray? && |prevs| == t.len && h.th.IsArray() && h.n == |vs| && inner == d + 1 && k == Min(|vs|, t.len)
    requires forall i | 0 <= i < |vs| :: Holds(t.elem, vs[i])
    ensures Arrives(DecArray(c, t, prevs, h, Concat(ElemItems(t.elem, vs)) + tail, d),
                    Overwriting(c, prevs[k..], ElemsOutcome(c, t.elem, vs, k, prevs[..k], inner, tail), tail),
                    ArrayBehind(c, t.elem, vs, k, tail), SurplusSkips(c, t.elem, vs, k))
  {
    ElemsArrive(c, t, vs, prevs, k, h, d, inner, tail);
    OverwritingInStep(c, prevs[k..], vs, t.elem, k, prevs[..k], inner, tail);
  }

  /** From behind the head to the whole array. */
  lemma {:induction false} WholeArrives(c: Decoder, t: Type, vs: seq<Value>, w: Item, k: nat, prev: Value, d: nat,
                                        inner: nat, tail: Bytes)
    requires t.TArray? && vs != [] && inner == d + 1 && k == Min(|vs|, t.len)
    requires w == WArr(ElemItems(t.elem, vs)) && Valid(w)
    requires var prevs := Elements(t.elem, t.len, prev);
             Arrives(DecArray(c, t, prevs, HeadOf(w), Concat(ElemItems(t.elem, vs)) + tail, d),
                     Overwriting(c, prevs[k..], ElemsOutcome(c, t.elem, vs, k, prevs[..k], inner, tail), tail),
                     ArrayBehind(c, t.elem, vs, k, tail), SurplusSkips(c, t.elem, vs, k))
    ensures var r := Dec(c, t, prev, ItemBytes(w) + tail, d);
            var a := ArrayOutcome(c, t, vs, Elements(t.elem, t.len, prev), d, tail);
            && (SurplusSkips(c, t.elem, vs, k) ==> r == a)
            && (InStep(r, ArrayBehind(c, t.elem, vs, k, tail)) <==> a.Ok? && SurplusSkips(c, t.elem, vs, k))
  {
    var prevs, bs := Elements(t.elem, t.len, prev), Concat(ElemItems(t.elem, vs)) + tail;
    var x := DecArray(c, t, prevs, HeadOf(w), bs, d);
    var y := Overwriting(c, prevs[k..], ElemsOutcome(c, t.elem, vs, k, prevs[..k], inner, tail), tail);
    FromArray(c, t, w, prev, d, tail, x);
    Decided(Dec(c, t, prev, ItemBytes(w) + tail, d), x, ArrayOutcome(c, t, vs, prevs, d, tail), y,
            ArrayBehind(c, t.elem, vs, k, tail), LengthOk(c, w) && (c.events || d <= MAX_NESTED),
            SurplusSkips(c, t.elem, vs, k));
  }

  /** From the outcomes x and y behind a head to the outcomes r and a of the whole item. */
  lemma {:induction false} Decided(r: Res<Value>, x: Res<Value>, a: Res<Value>, y: Res<Value>, behind: Bytes, ok: bool,
                                   skips: bool)
    requires r == (if ok then x else Err) && a == (if ok then y else Err)
    requires Arrives(x, y, behind, skips)
    ensures (skips ==> r == a) && (InStep(r, behind) <==> a.Ok? && skips)
  {
  }

  lemma {:induction false} OverwritingInStep(c: Decoder, others: seq<Value>, vs: seq<Value>, e: Type, k: nat,
                                             prevs: seq<Value>, d: nat, tail: Bytes)
    requires k == |prevs| <= |vs|
    ensures var r := ElemsOutcome(c, e, vs, k, prevs, d, tail);
            InStep(Overwriting(c, others, r, tail), ArrayBehind(c, e, vs, k, tail)) <==> r.Ok?
  {
  }

  lemma {:induction false} NoneArrive(c: Decoder, t: Type, prev: Value, d: nat, tail: Bytes)
    requires t.TArray?
    ensures Dec(c, t, prev, ItemBytes(WZero) + tail, d) ==
            if c.events || d <= MAX_NESTED then Ok(Zero(t), tail) else Err
  {
    FromHead(c, t, WZero, d, prev, tail);
    if c.events || d <= MAX_NESTED {
      assert [] + tail == tail;
      ZeroHead(c, t, prev, HeadOf(WZero), tail, d);
    }
  }

  /** From the outcome behind an array's head to the outcome for the whole array. */
  lemma {:induction false} FromArray(c: Decoder, t: Type, w: Item, prev: Value, d: nat, tail: Bytes, a: Res<Value>)
    requires t.TArray? && Valid(w) && DecArray(c, t, Elements(t.elem, t.len, prev), HeadOf(w), BodyOf(w) + tail, d) == a
    ensures Dec(c, t, prev, ItemBytes(w) + tail, d) ==
            if LengthOk(c, w) && (c.events || d <= MAX_NESTED) then a else Err
  {
    FromHead(c, t, w, d, prev, tail);
  }

  /** The array behind its head. */
  lemma {:induction false} ElemsArrive(c: Decoder, t: Type, vs: seq<Value>, prevs: seq<Value>, k: nat, h: Head,
                                       d: nat, inner: nat, tail: Bytes)
    requires t.TArray? && |prevs| == t.len && h.th.IsArray() && h.n == |vs| && inner == d + 1 && k == Min(|vs|, t.len)
    requires forall i | 0 <= i < |vs| :: Holds(t.elem, vs[i])
    ensures var a := DecArray(c, t, prevs, h, Concat(ElemItems(t.elem, vs)) + tail, d);
            if SurplusSkips(c, t.elem, vs, k) then
              a == Overwriting(c, prevs[k..], ElemsOutcome(c, t.elem, vs, k, prevs[..k], inner, tail), tail)
            else !InStep(a, ArrayBehind(c, t.elem, vs, k, tail))
  {
    var left := |vs| - k;
    var r, bs := ElemsOutcome(c, t.elem, vs, k, prevs[..k], inner, tail), Concat(ElemItems(t.elem, vs)) + tail;
    ElemsFit(c, t.elem, vs, k, prevs[..k], inner, tail);
    SurplusExact(c, t.elem, vs, k, left, tail);
    if SurplusSkips(c, t.elem, vs, k) {
      SurplusAfter(c, t.elem, vs, k, prevs[..k], inner, left, tail);
      ArrayFromPart(c, t, prevs, k, h, left, bs, r, d, inner, tail);
    } else {
      SurplusStays(c, t.elem, vs, k, prevs[..k], inner, left, tail);
      ArrayItems(c, t, prevs, k, h, left, bs, d, inner);
      FinishedAstray(c, r, left, prevs[k..], tail);
    }
  }

  lemma {:induction false} FinishedAstray(c: Decoder, r: Res<seq<Value>>, n: nat, others: seq<Value>, tail: Bytes)
    requires c.events && (r.Ok? ==> SkipMany(c.popSkip, n, r.rest) != Some(tail))
    ensures !InStep(Finished(c, r, n, others), tail)
  {
  }

  lemma {:induction false} SurplusStays(c: Decoder, e: Type, vs: seq<Value>, k: nat, prevs: seq<Value>, d: nat,
                                        n: nat, tail: Bytes)
    requires k == |prevs| <= |vs| && SkipMany(c.popSkip, n, Concat(ElemItems(e, vs)[k..]) + tail) != Some(tail)
    ensures var r := ElemsOutcome(c, e, vs, k, prevs, d, tail); r.Ok? ==> SkipMany(c.popSkip, n, r.rest) != Some(tail)
  {
  }

  lemma {:induction false} SurplusAfter(c: Decoder, e: Type, vs: seq<Value>, k: nat, prevs: seq<Value>, d: nat,
                                        n: nat, tail: Bytes)
    requires k == |prevs| <= |vs|
    requires c.events ==> SkipMany(c.popSkip, n, Concat(ElemItems(e, vs)[k..]) + tail) == Some(tail)
    ensures var r := ElemsOutcome(c, e, vs, k, prevs, d, tail);
            r.Ok? && c.events ==> SkipMany(c.popSkip, n, r.rest) == Some(tail)
  {
  }

  lemma {:induction false} ArrayFromPart(c: Decoder, t: Type, prevs: seq<Value>, k: nat, h: Head, left: nat, bs: Bytes,
                                         r: Res<seq<Value>>, d: nat, inner: nat, tail: Bytes)
    requires t.TArray? && |prevs| == t.len && h.th.IsArray() && k == Min(h.n, t.len) && left == h.n - k
    requires inner == d + 1
    requires DecElems(c, t.elem, prevs[..k], bs, inner) == r
    requires r.Ok? && c.events ==> SkipMany(c.popSkip, left, r.rest) == Some(tail)
    ensures DecArray(c, t, prevs, h, bs, d) == Overwriting(c, prevs[k..], r, tail)
  {
    ArrayItems(c, t, prevs, k, h, left, bs, d, inner);
    Overwrites(DecArray(c, t, prevs, h, bs, d), c, r, left, prevs[k..], tail);
  }

  /** The event decoder passes over the elements that do not fit exactly when each of them can be skipped. */
  lemma {:induction false} SurplusExact(c: Decoder, e: Type, vs: seq<Value>, k: nat, left: nat, tail: Bytes)
    requires k <= |vs| && left == |vs| - k && (forall i | 0 <= i < |vs| :: Holds(e, vs[i]))
    ensures c.events ==>
              (SkipMany(c.popSkip, left, Concat(ElemItems(e, vs)[k..]) + tail) == Some(tail) <==>
               SurplusSkips(c, e, vs, k))
  {
    ElemsValid(e, vs);
    SkipRestExact(c.popSkip, ElemItems(e, vs), k, left, tail);
  }

  lemma {:induction false} Overwrites(a: Res<Value>, c: Decoder, r: Res<seq<Value>>, n: nat, others: seq<Value>,
                                      tail: Bytes)
    requires a == Finished(c, r, n, others)
    requires r.Ok? && c.events ==> SkipMany(c.popSkip, n, r.rest) == Some(tail)
    ensures a == Overwriting(c, others, r, tail)
  {
  }

  /** The elements that fit, with the items of the others behind them. */
  lemma {:induction false} ElemsFit(c: Decoder, e: Type, vs: seq<Value>, k: nat, prevs: seq<Value>, d: nat, tail: Bytes)
    requires k <= |vs| && |prevs| == k && forall i | 0 <= i < k :: Holds(e, vs[i])
    ensures DecElems(c, e, prevs, Concat(ElemItems(e, vs)) + tail, d) == ElemsOutcome(c, e, vs, k, prevs, d, tail)
  {
    ElemsSplit(e, vs, k, tail);
    ElemsBack(c, e, vs[..k], d, prevs, Concat(ElemItems(e, vs)[k..]) + tail);
  }

  lemma {:induction false} ElemsSplit(e: Type, vs: seq<Value>, k: nat, tail: Bytes)
    requires k <= |vs|
    ensures var ws := ElemItems(e, vs);
            Concat(ws) + tail == Concat(ElemItems(e, vs[..k])) + (Concat(ws[k..]) + tail)
  {
    var ws := ElemItems(e, vs);
    assert ws == ElemItems(e, vs[..k]) + ws[k..];
    ConcatAppend(ElemItems(e, vs[..k]), ws[k..]);
  }

  /** The outcome of reading the bytes vs into a byte array with elements prevs, behind the head. */
  function BytesOutcome(c: Decoder, vs: seq<Value>, prevs: seq<Value>, d: nat, tail: Bytes): Res<Value> {
    var k := Min(|vs|, |prevs|);
    if vs != [] && (prevs == [] || LoneByteOk(c, vs, d)) then Ok(VArray(vs[..k] + prevs[k..]), tail) else Err
  }

  /**
   A byte array decoded into one of any length: no bytes at all are refused, surplus bytes are dropped by
   both decoders, and elements beyond the data keep their old values.
   */
  lemma {:induction false} ByteArrayMigrates(c: Decoder, t: Type, vs: seq<Value>, prev: Value, d: nat, tail: Bytes)
    requires t.TArray? && t.elem == BYTE && Holds(TArray(BYTE, |vs|), VArray(vs))
    ensures var w := WireOf(TArray(BYTE, |vs|), VArray(vs));
            Dec(c, t, prev, ItemBytes(w) + tail, d) ==
            if LengthOk(c, w) && (c.events || d <= MAX_NESTED) then
              BytesOutcome(c, vs, Elements(t.elem, t.len, prev), d, tail)
            else Err
  {
    var prevs := Elements(t.elem, t.len, prev);
    assert AllHaveType(BYTE, vs);
    WireValid(TArray(BYTE, |vs|), VArray(vs));
    BytesMigrate(c, t, vs, prev, d, tail);
  }

  lemma {:induction false} BytesMigrate(c: Decoder, t: Type, vs: seq<Value>, prev: Value, d: nat, tail: Bytes)
    requires t.TArray? && t.elem == BYTE && AllHaveType(BYTE, vs) && Valid(BytesItem(BytesOf(vs)))
    ensures var w := BytesItem(BytesOf(vs));
            Dec(c, t, prev, ItemBytes(w) + tail, d) ==
            if LengthOk(c, w) && (c.events || d <= MAX_NESTED) then
              BytesOutcome(c, vs, Elements(t.elem, t.len, prev), d, tail)
            else Err
  {
    var w, prevs := BytesItem(BytesOf(vs)), Elements(t.elem, t.len, prev);
    if c.events || d <= MAX_NESTED {
      BytesArrive(c, t, vs, prevs, d, tail);
    }
    FromArray(c, t, w, prev, d, tail, DecArray(c, t, prevs, HeadOf(w), BodyOf(w) + tail, d));
  }

  lemma {:induction false} BytesArrive(c: Decoder, t: Type, vs: seq<Value>, prevs: seq<Value>, d: nat, tail: Bytes)
    requires t.TArray? && t.elem == BYTE && AllHaveType(BYTE, vs) && |prevs| == t.len && (c.events || d <= MAX_NESTED)
    ensures var w := BytesItem(BytesOf(vs));
            DecArray(c, t, prevs, HeadOf(w), BodyOf(w) + tail, d) == BytesOutcome(c, vs, prevs, d, tail)
  {
    var w := BytesItem(BytesOf(vs));
    assert BodyOf(w) + tail == tail;
    if vs != [] {
      FillFits(c, vs, prevs, tail, d);
      ArrayFromFill(c, t, HeadOf(w), d, prevs, tail);
    }
  }

  lemma {:induction false} FillFits(c: Decoder, vs: seq<Value>, prevs: seq<Value>, bs: Bytes, d: nat)
    requires vs != [] && AllHaveType(BYTE, vs) && (c.events || d <= MAX_NESTED)
    ensures var h := HeadOf(BytesItem(BytesOf(vs)));
            var k := Min(|vs|, |prevs|);
            && (h.th.THSingleByte? || h.th.IsString())
            && Fill(c, BYTE, prevs, h, bs, d) ==
               if prevs == [] || LoneByteOk(c, vs, d) then Ok(vs[..k] + prevs[k..], bs) else Err
  {
    var buf := BytesOf(vs);
    var h := HeadOf(BytesItem(buf));
    var k := Min(|vs|, |prevs|);
    BytesOfElements(vs);
    assert Text(h) == buf;
    assert vs[0] == ByteValues(buf)[0] == VUint(buf[0]);
    if h.th.THSingleByte? && !c.events {
      if prevs == [] {
        BytesDone(c, BYTE, bs, d + 1);
      } else {
        LoneByteBack(c, prevs[..1], buf, bs, d + 1);
        assert vs[..1] == [vs[0]] && buf[..1] == buf;
      }
    } else {
      assert ByteValues(buf[..k]) == vs[..k];
    }
  }
}
