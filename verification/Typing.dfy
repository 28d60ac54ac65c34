/** Decoding is type safe: whatever the bytes, a decoded value is a value of the destination's type. */
module Typing {
  import opened Numeric
  import opened Headers
  import opened Wire
  import opened Skipping
  import opened Values
  import opened Decoding
  import opened Cursors

  lemma {:induction false} PlainTyped(c: Decoder, t: Type, prev: Value, h: Head, bs: Bytes, d: nat)
    requires t.TInt? || t.TUint? || t.TBool? || t.TString? || t.TBigInt?
    ensures var r := DecHead(c, t, prev, h, bs, d); r.Ok? ==> HasType(t, r.value)
  {
  }

  /** For every byte sequence and every destination of the type. */
  lemma {:induction false} DecTyped(c: Decoder, t: Type, prev: Value, bs: Bytes, d: nat)
    requires HasType(t, prev)
    ensures var r := Dec(c, t, prev, bs, d); r.Ok? ==> HasType(t, r.value)
    decreases |bs|, t, 3, 0
  {
    var h := ReadHead(c.events, bs);
    if h.Ok? {
      HeadTyped(c, t, prev, h.value, h.rest, d);
    }
  }

  lemma {:induction false} HeadTyped(c: Decoder, t: Type, prev: Value, h: Head, bs: Bytes, d: nat)
    requires HasType(t, prev)
    ensures var r := DecHead(c, t, prev, h, bs, d); r.Ok? ==> HasType(t, r.value)
    decreases |bs|, t, 2, 0
  {
    ZeroHasType(t);
    match t
    case TArray(e, n) => ArrayTyped(c, t, Elements(e, n, prev), h, bs, d);
    case TSlice(e) => SliceTyped(c, t, prev, h, bs, d);
    case TMap(_, _) => MapTyped(c, t, if prev.VMap? then prev.entries else [], h, bs, d);
    case TStruct(fs) =>
      if h.th.IsArray() {
        FieldsTyped(c, t, 0, 0, h.n, FieldValues(fs, prev), bs, d + 1);
      }
    case TPtr(e) =>
      ZeroHasType(e);
      HeadTyped(c, e, if prev.VPtr? then prev.target else Zero(e), h, bs, d);
    case _ => PlainTyped(c, t, prev, h, bs, d);
  }

  lemma {:induction false} ArrayTyped(c: Decoder, t: Type, prevs: seq<Value>, h: Head, bs: Bytes, d: nat)
    requires t.TArray? && |prevs| == t.len && AllHaveType(t.elem, prevs)
    ensures var r := DecArray(c, t, prevs, h, bs, d); r.Ok? ==> HasType(t, r.value)
    decreases |bs|, t, 1, 0
  {
    ZeroHasType(t);
    if h.th.IsArray() {
      ElemsTyped(c, t.elem, prevs[..Min(h.n, t.len)], bs, d + 1);
    } else if h.th.THSingleByte? || h.th.IsString() {
      FillTyped(c, t.elem, prevs, h, bs, d);
    }
  }

  lemma {:induction false} SliceTyped(c: Decoder, t: Type, prev: Value, h: Head, bs: Bytes, d: nat)
    requires t.TSlice? && HasType(t, prev)
    ensures var r := DecSlice(c, t, prev, h, bs, d); r.Ok? ==> HasType(t, r.value)
    decreases |bs|, t, 1, 0
  {
    if h.th.IsArray() {
      ResizeHasType(t.elem, prev, h.n);
      ElemsTyped(c, t.elem, Resize(t.elem, prev, h.n), bs, d + 1);
    } else if h.th.THSingleByte? || h.th.IsString() {
      ResizeHasType(t.elem, prev, |Text(h)|);
      FillTyped(c, t.elem, Resize(t.elem, prev, |Text(h)|), h, bs, d);
    }
  }

  lemma {:induction false} MapTyped(c: Decoder, t: Type, es: seq<Entry>, h: Head, bs: Bytes, d: nat)
    requires t.TMap? && DistinctKeys(es) && EntriesHaveType(t, es)
    ensures var r := DecMap(c, t, es, h, bs, d); r.Ok? ==> HasType(t, r.value)
    decreases |bs|, t, 1, 0
  {
    if h.th.IsArray() && h.n % 2 == 0 {
      EntriesTyped(c, t, h.n / 2, es, bs, d + 1);
    }
  }

  lemma {:induction false} ElemsTyped(c: Decoder, e: Type, prevs: seq<Value>, bs: Bytes, d: nat)
    requires AllHaveType(e, prevs)
    ensures var r := DecElems(c, e, prevs, bs, d); r.Ok? ==> AllHaveType(e, r.value)
    decreases |bs|, e, 4, |prevs|
  {
    if prevs != [] {
      DecTyped(c, e, prevs[0], bs, d);
      var r := Dec(c, e, prevs[0], bs, d);
      if r.Ok? {
        ElemsTyped(c, e, prevs[1..], r.rest, d);
      }
    }
  }

  lemma {:induction false} FillTyped(c: Decoder, e: Type, prevs: seq<Value>, h: Head, bs: Bytes, d: nat)
    requires AllHaveType(e, prevs)
    ensures var r := Fill(c, e, prevs, h, bs, d); r.Ok? ==> AllHaveType(e, r.value)
    decreases |bs|, e, 5, 0
  {
    var m := Min(|Text(h)|, |prevs|);
    if e == BYTE && (c.events || !h.th.THSingleByte?) {
      BytesHaveType(Text(h)[..m]);
    } else {
      BytesTyped(c, e, prevs[..m], Text(h)[..m], bs, d + 1);
    }
  }

  lemma {:induction false} BytesTyped(c: Decoder, e: Type, prevs: seq<Value>, buf: Bytes, bs: Bytes, d: nat)
    requires |prevs| == |buf| && AllHaveType(e, prevs)
    ensures var r := DecBytes(c, e, prevs, buf, bs, d); r.Ok? ==> AllHaveType(e, r.value)
    decreases |bs|, e, 4, |prevs|
  {
    if prevs != [] {
      HeadTyped(c, e, prevs[0], Head(THSingleByte, buf[0], []), bs, d);
      var r := DecHead(c, e, prevs[0], Head(THSingleByte, buf[0], []), bs, d);
      if r.Ok? {
        BytesTyped(c, e, prevs[1..], buf[1..], r.rest, d);
      }
    }
  }

  lemma {:induction false} EntriesTyped(c: Decoder, t: Type, n: nat, es: seq<Entry>, bs: Bytes, d: nat)
    requires t.TMap? && DistinctKeys(es) && EntriesHaveType(t, es)
    ensures var r := DecEntries(c, t, n, es, bs, d); r.Ok? ==> DistinctKeys(r.value) && EntriesHaveType(t, r.value)
    decreases |bs|, t, 0, n, 1
  {
    if n > 0 {
      EntryTyped(c, t, n, n - 1, es, bs, d);
    }
  }

  lemma {:induction false} EntryTyped(c: Decoder, t: Type, n: nat, others: nat, es: seq<Entry>, bs: Bytes, d: nat)
    requires t.TMap? && DistinctKeys(es) && EntriesHaveType(t, es) && n == others + 1
    ensures var r := DecEntries(c, t, n, es, bs, d); r.Ok? ==> DistinctKeys(r.value) && EntriesHaveType(t, r.value)
    decreases |bs|, t, 0, n, 0
  {
    EntryNext(c, t, n, others, es, bs, d);
    ZeroHasType(t.key);
    DecTyped(c, t.key, Zero(t.key), bs, d);
    var k := Dec(c, t.key, Zero(t.key), bs, d);
    if k.Ok? {
      ValueTyped(c, t, others, es, k.value, k.rest, d);
    }
  }

  lemma {:induction false} ValueTyped(c: Decoder, t: Type, n: nat, es: seq<Entry>, key: Value, bs: Bytes, d: nat)
    requires t.TMap? && DistinctKeys(es) && EntriesHaveType(t, es) && HasType(t.key, key)
    ensures var r := AfterKey(c, t, n, es, key, bs, d); r.Ok? ==> DistinctKeys(r.value) && EntriesHaveType(t, r.value)
    decreases |bs|, t, 4, 0
  {
    ZeroHasType(t.val);
    DecTyped(c, t.val, Zero(t.val), bs, d);
    var v := Dec(c, t.val, Zero(t.val), bs, d);
    if v.Ok? {
      InsertHasType(t, es, key, v.value);
      EntriesTyped(c, t, n, Insert(es, key, v.value), v.rest, d);
    }
  }

  lemma {:induction false} FieldsTyped(c: Decoder, t: Type, k: nat, i: nat, size: nat, vs: seq<Value>, bs: Bytes,
                                       d: nat)
    requires t.TStruct? && FieldsHaveType(t.fields, vs) && k <= |vs| && i <= size
    ensures var r := DecFields(c, t, k, i, size, vs, bs, d); r.Ok? ==> HasType(t, r.value)
    decreases |bs|, t, 0, size - i, 0
  {
    if k < |vs| && i < size {
      if i == t.fields[k].order {
        TakeTyped(c, t, k, i, i + 1, size, vs, bs, d);
      } else {
        PassTyped(c, t, k, i, i + 1, size, vs, bs, d);
      }
    } else {
      FieldsDone(c, t, k, i, size, size - i, vs, bs, d);
      ZerosHaveType(t, vs, k);
    }
  }

  lemma {:induction false} TakeTyped(c: Decoder, t: Type, k: nat, i: nat, next: nat, size: nat, vs: seq<Value>,
                                     bs: Bytes, d: nat)
    requires t.TStruct? && FieldsHaveType(t.fields, vs) && k < |vs| && next == i + 1 <= size && i == t.fields[k].order
    ensures var r := DecFields(c, t, k, i, size, vs, bs, d); r.Ok? ==> HasType(t, r.value)
    decreases |bs|, t, 0, size - next, 2
  {
    FieldsStep(c, t, k, i, size, vs, bs, d);
    FieldTyped(c, t, k, k + 1, next, size, vs, bs, d);
  }

  lemma {:induction false} PassTyped(c: Decoder, t: Type, k: nat, i: nat, next: nat, size: nat, vs: seq<Value>,
                                     bs: Bytes, d: nat)
    requires t.TStruct? && FieldsHaveType(t.fields, vs) && k < |vs| && next == i + 1 <= size && i != t.fields[k].order
    ensures var r := DecFields(c, t, k, i, size, vs, bs, d); r.Ok? ==> HasType(t, r.value)
    decreases |bs|, t, 0, size - next, 2
  {
    FieldsStep(c, t, k, i, size, vs, bs, d);
    var s := Skim(c.popSkip, bs);
    if i < t.fields[k].order && s.Ok? {
      FieldsTyped(c, t, k, next, size, vs, s.rest, d);
    }
  }

  /** A field and those behind it. */
  lemma {:induction false} FieldTyped(c: Decoder, t: Type, k: nat, after: nat, next: nat, size: nat, vs: seq<Value>,
                                      bs: Bytes, d: nat)
    requires t.TStruct? && FieldsHaveType(t.fields, vs) && k < |vs| && next <= size && after == k + 1
    ensures var r := Dec(c, t.fields[k].typ, vs[k], bs, d);
            r.Ok? ==>
              var r' := DecFields(c, t, after, next, size, vs[k := r.value], r.rest, d);
              r'.Ok? ==> HasType(t, r'.value)
    decreases |bs|, t, 0, size - next, 1
  {
    DecTyped(c, t.fields[k].typ, vs[k], bs, d);
    var r := Dec(c, t.fields[k].typ, vs[k], bs, d);
    if r.Ok? {
      FieldsTyped(c, t, after, next, size, vs[k := r.value], r.rest, d);
    }
  }

  lemma {:induction false} ZerosHaveType(t: Type, vs: seq<Value>, k: nat)
    requires t.TStruct? && FieldsHaveType(t.fields, vs) && k <= |vs|
    ensures HasType(t, VStruct(vs[..k] + Zeros(t.fields)[k..]))
  {
    ZeroHasType(t);
  }
}
