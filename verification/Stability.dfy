/**
 Input that goes on: what was read, skipped or decoded stays so when more bytes follow, so data that is cut off
 is never taken for whole.
 */
module Stability {
  import opened Numeric
  import opened Headers
  import opened Wrappers
  import opened Wire
  import opened Skipping
  import opened Values
  import opened Encoding
  import opened Decoding
  import opened Cursors
  import opened RoundTrip

  /** A success, with `more` behind what it leaves. */
  ghost predicate Extends<T>(r: Res<T>, r': Res<T>, more: Bytes) {
    r.Ok? ==> r' == Ok(r.value, r.rest + more)
  }

  /** The same of a skip. */
  ghost predicate Goes(r: Option<Bytes>, r': Option<Bytes>, more: Bytes) {
    r.Some? ==> r' == Some(r.value + more)
  }

  // ----- heads -----

  lemma {:induction false} FrontStays(bs: Bytes, n: nat, more: Bytes)
    requires n <= |bs|
    ensures (bs + more)[..n] == bs[..n] && (bs + more)[n..] == bs[n..] + more
  {
  }

  lemma {:induction false} HeaderStays(bs: Bytes, more: Bytes)
    ensures Extends(ReadHeader(bs), ReadHeader(bs + more), more)
  {
    if bs != [] {
      FrontStays(bs, 1, more);
    }
  }

  lemma {:induction false} LengthStays(th: Parsed, l: nat, bs: Bytes, more: Bytes)
    ensures Extends(ReadLength(th, l, bs), ReadLength(th, l, bs + more), more)
  {
    if HeaderTypeMap(th).t.VTMultiHeader? && 0 < l <= |bs| {
      FrontStays(bs, l, more);
    }
  }

  lemma {:induction false} SizeStays(bs: Bytes, more: Bytes)
    ensures Extends(ReadSize(bs), ReadSize(bs + more), more)
  {
    HeaderStays(bs, more);
    var h := ReadHeader(bs);
    if h.Ok? {
      LengthStays(h.value.0, h.value.1, h.rest, more);
    }
  }

  lemma {:induction false} HeadStays(int32: bool, bs: Bytes, more: Bytes)
    ensures Extends(ReadHead(int32, bs), ReadHead(int32, bs + more), more)
  {
    HeaderStays(bs, more);
    var h := ReadHeader(bs);
    if h.Ok? {
      TailStays(int32, h.value.0, h.value.1, h.rest, more);
    }
  }

  lemma {:induction false} TailStays(int32: bool, th: Parsed, l: nat, bs: Bytes, more: Bytes)
    ensures Extends(ReadTail(int32, th, l, bs), ReadTail(int32, th, l, bs + more), more)
  {
    LengthStays(th, l, bs, more);
    var n := ReadLength(th, l, bs);
    if n.Ok? && n.value <= |n.rest| {
      FrontStays(n.rest, n.value, more);
    }
  }

  // ----- skipping -----

  /** A skip that succeeds is the same skip when more bytes follow. */
  lemma {:induction false} SkimStable(pop: bool, bs: Bytes, more: Bytes)
    ensures Extends(Skim(pop, bs), Skim(pop, bs + more), more)
    decreases |bs|, 0
  {
    SizeStays(bs, more);
    var size := ReadSize(bs);
    if size.Ok? {
      var (th, n) := size.value;
      if HeaderTypeMap(th).x {
        SkimManyStable(pop, n, size.rest, more);
      } else if n <= |size.rest| {
        FrontStays(size.rest, n, more);
      }
    }
  }

  lemma {:induction false} SkimManyStable(pop: bool, n: nat, bs: Bytes, more: Bytes)
    ensures Goes(SkimMany(pop, n, bs), SkimMany(pop, n, bs + more), more)
    decreases |bs|, 1, n
  {
    if n > 0 {
      SkimStable(pop, bs, more);
      var item := Skim(pop, bs);
      if item.Ok? {
        SkimManyStable(pop, n - 1, item.rest, more);
      }
    }
  }

  lemma {:induction false} SkipManyStable(pop: bool, n: nat, bs: Bytes, more: Bytes)
    ensures Goes(SkipMany(pop, n, bs), SkipMany(pop, n, bs + more), more)
    decreases n
  {
    if n > 0 {
      SkimStable(pop, bs, more);
      var item := Skim(pop, bs);
      if item.Ok? {
        SkipManyStable(pop, n - 1, item.rest, more);
      }
    }
  }

  /**
   No proper prefix of an encoded item is skipped: of every item with a pop, and as written of items whose
   arrays nest in last position only.
   */
  lemma {:induction false} NoPrefixSkipped(pop: bool, w: Item, cut: Bytes, more: Bytes)
    requires Valid(w) && Skippable(pop, w) && ItemBytes(w) == cut + more && more != []
    ensures Skim(pop, cut).Err?
  {
    assert ItemBytes(w) + [] == ItemBytes(w);
    SkipOne(pop, w, []);
    SkimStable(pop, cut, more);
  }

  /** The skip as written passes a cut item only if what is missing is among what it would not have reached. */
  lemma {:induction false} CutSkipped(w: Item, cut: Bytes, more: Bytes)
    requires Valid(w) && ItemBytes(w) == cut + more
    ensures Skim(false, cut).Ok? ==> |more| <= |Unread(w)|
  {
    assert ItemBytes(w) + [] == ItemBytes(w) && Unread(w) + [] == Unread(w);
    SkimItem(false, w, []);
    SkimStable(false, cut, more);
  }

  // ----- decoding -----

  /**
   A decode that succeeds gives the same value when more bytes follow, for every type, destination, decoder and
   depth, and leaves those bytes behind what it left.
   */
  lemma {:induction false} DecStable(c: Decoder, t: Type, prev: Value, bs: Bytes, d: nat, more: Bytes)
    ensures Extends(Dec(c, t, prev, bs, d), Dec(c, t, prev, bs + more, d), more)
    decreases |bs|, t, 3, 0
  {
    var h := ReadHead(c.events, bs);
    HeadStays(c.events, bs, more);
    if h.Ok? {
      DecHeadStable(c, t, prev, h.value, h.rest, d, more);
    }
  }

  lemma {:induction false} DecHeadStable(c: Decoder, t: Type, prev: Value, h: Head, bs: Bytes, d: nat, more: Bytes)
    ensures Extends(DecHead(c, t, prev, h, bs, d), DecHead(c, t, prev, h, bs + more, d), more)
    decreases |bs|, t, 2, 0
  {
    match t
    case TArray(e, n) => ArrayStable(c, t, Elements(e, n, prev), h, bs, d, more);
    case TSlice(_) => SliceStable(c, t, prev, h, bs, d, more);
    case TMap(_, _) => MapStable(c, t, if prev.VMap? then prev.entries else [], h, bs, d, more);
    case TStruct(fs) =>
      if h.th.IsArray() {
        FieldsStable(c, t, 0, 0, h.n, FieldValues(fs, prev), bs, d + 1, h.n, more);
      }
    case TPtr(e) => DecHeadStable(c, e, if prev.VPtr? then prev.target else Zero(e), h, bs, d, more);
    case _ => PlainStable(c, t, prev, h, bs, d, more);
  }

  lemma {:induction false} PlainStable(c: Decoder, t: Type, prev: Value, h: Head, bs: Bytes, d: nat, more: Bytes)
    requires t.TInt? || t.TUint? || t.TBool? || t.TString? || t.TBigInt?
    ensures Extends(DecHead(c, t, prev, h, bs, d), DecHead(c, t, prev, h, bs + more, d), more)
  {
  }

  lemma {:induction false} ArrayStable(c: Decoder, t: Type, prevs: seq<Value>, h: Head, bs: Bytes, d: nat, more: Bytes)
    requires t.TArray? && |prevs| == t.len
    ensures Extends(DecArray(c, t, prevs, h, bs, d), DecArray(c, t, prevs, h, bs + more, d), more)
    decreases |bs|, t, 1, 0
  {
    if h.th.IsArray() {
      var m := Min(h.n, t.len);
      ItemsStable(c, t, prevs, h, m, h.n - m, bs, d, d + 1, more);
    } else if h.th.THSingleByte? || h.th.IsString() {
      FillStable(c, t.elem, prevs, h, bs, d, more);
    }
  }

  lemma {:induction false} ItemsStable(c: Decoder, t: Type, prevs: seq<Value>, h: Head, m: nat, left: nat, bs: Bytes,
                                       d: nat, inner: nat, more: Bytes)
    requires t.TArray? && |prevs| == t.len && h.th.IsArray() && m == Min(h.n, t.len) && left == h.n - m
    requires inner == d + 1
    ensures Extends(DecArray(c, t, prevs, h, bs, d), DecArray(c, t, prevs, h, bs + more, d), more)
    decreases |bs|, t, 0, 0
  {
    ArrayItems(c, t, prevs, m, h, left, bs, d, inner);
    ArrayItems(c, t, prevs, m, h, left, bs + more, d, inner);
    ElemsStable(c, t.elem, prevs[..m], bs, inner, more);
    FinishedStable(c, DecElems(c, t.elem, prevs[..m], bs, inner),
                   DecElems(c, t.elem, prevs[..m], bs + more, inner), left, prevs[m..], more);
  }

  lemma {:induction false} FinishedStable(c: Decoder, r: Res<seq<Value>>, r': Res<seq<Value>>, n: nat,
                                          others: seq<Value>, more: Bytes)
    requires Extends(r, r', more)
    ensures Extends(Finished(c, r, n, others), Finished(c, r', n, others), more)
  {
    if r.Ok? {
      SkipManyStable(c.popSkip, n, r.rest, more);
    }
  }

  lemma {:induction false} SliceStable(c: Decoder, t: Type, prev: Value, h: Head, bs: Bytes, d: nat, more: Bytes)
    requires t.TSlice?
    ensures Extends(DecSlice(c, t, prev, h, bs, d), DecSlice(c, t, prev, h, bs + more, d), more)
    decreases |bs|, t, 1, 0
  {
    if h.th.IsArray() {
      ElemsStable(c, t.elem, Resize(t.elem, prev, h.n), bs, d + 1, more);
    } else if h.th.THSingleByte? || h.th.IsString() {
      FillStable(c, t.elem, Resize(t.elem, prev, |Text(h)|), h, bs, d, more);
    }
  }

  lemma {:induction false} MapStable(c: Decoder, t: Type, es: seq<Entry>, h: Head, bs: Bytes, d: nat, more: Bytes)
    requires t.TMap?
    ensures Extends(DecMap(c, t, es, h, bs, d), DecMap(c, t, es, h, bs + more, d), more)
    decreases |bs|, t, 1, 0
  {
    if h.th.IsArray() && h.n % 2 == 0 {
      EntriesStable(c, t, h.n / 2, es, bs, d + 1, more);
    }
  }

  lemma {:induction false} ElemsStable(c: Decoder, e: Type, prevs: seq<Value>, bs: Bytes, d: nat, more: Bytes)
    ensures Extends(DecElems(c, e, prevs, bs, d), DecElems(c, e, prevs, bs + more, d), more)
    decreases |bs|, e, 4, |prevs|
  {
    if prevs != [] {
      DecStable(c, e, prevs[0], bs, d, more);
      var r := Dec(c, e, prevs[0], bs, d);
      if r.Ok? {
        ElemsStable(c, e, prevs[1..], r.rest, d, more);
      }
    }
  }

  lemma {:induction false} FillStable(c: Decoder, e: Type, prevs: seq<Value>, h: Head, bs: Bytes, d: nat, more: Bytes)
    ensures Extends(Fill(c, e, prevs, h, bs, d), Fill(c, e, prevs, h, bs + more, d), more)
    decreases |bs|, e, 5, 0
  {
    var m := Min(|Text(h)|, |prevs|);
    if e != BYTE || (!c.events && h.th.THSingleByte?) {
      BytesStable(c, e, prevs[..m], Text(h)[..m], bs, d + 1, more);
    }
  }

  lemma {:induction false} BytesStable(c: Decoder, e: Type, prevs: seq<Value>, buf: Bytes, bs: Bytes, d: nat,
                                       more: Bytes)
    requires |prevs| == |buf|
    ensures Extends(DecBytes(c, e, prevs, buf, bs, d), DecBytes(c, e, prevs, buf, bs + more, d), more)
    decreases |bs|, e, 4, |prevs|
  {
    if prevs != [] {
      var h := Head(THSingleByte, buf[0], []);
      DecHeadStable(c, e, prevs[0], h, bs, d, more);
      var r := DecHead(c, e, prevs[0], h, bs, d);
      if r.Ok? {
        BytesStable(c, e, prevs[1..], buf[1..], r.rest, d, more);
      }
    }
  }

  lemma {:induction false} EntriesStable(c: Decoder, t: Type, n: nat, es: seq<Entry>, bs: Bytes, d: nat, more: Bytes)
    requires t.TMap?
    ensures Extends(DecEntries(c, t, n, es, bs, d), DecEntries(c, t, n, es, bs + more, d), more)
    decreases |bs|, t, 0, n, 1
  {
    if n > 0 {
      EntryStable(c, t, n, n - 1, es, bs, d, more);
    }
  }

  lemma {:induction false} EntryStable(c: Decoder, t: Type, n: nat, others: nat, es: seq<Entry>, bs: Bytes, d: nat,
                                       more: Bytes)
    requires t.TMap? && n == others + 1
    ensures Extends(DecEntries(c, t, n, es, bs, d), DecEntries(c, t, n, es, bs + more, d), more)
    decreases |bs|, t, 0, n, 0
  {
    EntryNext(c, t, n, others, es, bs, d);
    EntryNext(c, t, n, others, es, bs + more, d);
    PartStable(c, t, t.key, bs, d, more);
    var k := Dec(c, t.key, Zero(t.key), bs, d);
    if k.Ok? {
      ValueStable(c, t, others, es, k.value, k.rest, d, more);
    }
  }

  /** A key or value. */
  lemma {:induction false} PartStable(c: Decoder, t: Type, p: Type, bs: Bytes, d: nat, more: Bytes)
    requires t.TMap? && (p == t.key || p == t.val)
    ensures Extends(Dec(c, p, Zero(p), bs, d), Dec(c, p, Zero(p), bs + more, d), more)
    decreases |bs|, t, 0, 0
  {
    DecStable(c, p, Zero(p), bs, d, more);
  }

  lemma {:induction false} ValueStable(c: Decoder, t: Type, others: nat, es: seq<Entry>, key: Value, bs: Bytes, d: nat,
                                       more: Bytes)
    requires t.TMap?
    ensures Extends(AfterKey(c, t, others, es, key, bs, d), AfterKey(c, t, others, es, key, bs + more, d), more)
    decreases |bs|, t, 0, others + 1, 0
  {
    PartStable(c, t, t.val, bs, d, more);
    var v := Dec(c, t.val, Zero(t.val), bs, d);
    if v.Ok? {
      EntriesStable(c, t, others, Insert(es, key, v.value), v.rest, d, more);
    }
  }

  lemma {:induction false} FieldsStable(c: Decoder, t: Type, k: nat, i: nat, size: nat, vs: seq<Value>, bs: Bytes,
                                        d: nat, left: nat, more: Bytes)
    requires t.TStruct? && |vs| == |t.fields| && k <= |vs| && i + left == size
    ensures Extends(DecFields(c, t, k, i, size, vs, bs, d), DecFields(c, t, k, i, size, vs, bs + more, d), more)
    decreases |bs|, t, 0, left, 2
  {
    if k < |vs| && i < size {
      if i == t.fields[k].order {
        TakeStable(c, t, k, i, size, vs, bs, d, left - 1, more);
      } else {
        PassStable(c, t, k, i, size, vs, bs, d, left - 1, more);
      }
    } else {
      FieldsDone(c, t, k, i, size, left, vs, bs, d);
      FieldsDone(c, t, k, i, size, left, vs, bs + more, d);
      SkipManyStable(c.popSkip, left, bs, more);
    }
  }

  lemma {:induction false} TakeStable(c: Decoder, t: Type, k: nat, i: nat, size: nat, vs: seq<Value>, bs: Bytes, d: nat,
                                      left: nat, more: Bytes)
    requires t.TStruct? && k < |vs| == |t.fields| && i + 1 + left == size && i == t.fields[k].order
    ensures Extends(DecFields(c, t, k, i, size, vs, bs, d), DecFields(c, t, k, i, size, vs, bs + more, d), more)
    decreases |bs|, t, 0, left + 1, 1
  {
    FieldsStep(c, t, k, i, size, vs, bs, d);
    FieldsStep(c, t, k, i, size, vs, bs + more, d);
    DecStable(c, t.fields[k].typ, vs[k], bs, d, more);
    var r := Dec(c, t.fields[k].typ, vs[k], bs, d);
    if r.Ok? {
      FieldsStable(c, t, k + 1, i + 1, size, vs[k := r.value], r.rest, d, left, more);
    }
  }

  lemma {:induction false} PassStable(c: Decoder, t: Type, k: nat, i: nat, size: nat, vs: seq<Value>, bs: Bytes, d: nat,
                                      left: nat, more: Bytes)
    requires t.TStruct? && k < |vs| == |t.fields| && i + 1 + left == size && i != t.fields[k].order
    ensures Extends(DecFields(c, t, k, i, size, vs, bs, d), DecFields(c, t, k, i, size, vs, bs + more, d), more)
    decreases |bs|, t, 0, left + 1, 1
  {
    var next := i + 1;
    PassNext(c, t, k, i, next, size, vs, bs, d);
    PassNext(c, t, k, i, next, size, vs, bs + more, d);
    if i < t.fields[k].order {
      AfterPassStable(c, t, k, next, size, vs, bs, d, left, more);
    }
  }

  /** The struct cursor behind an item that is passed over. */
  ghost function AfterPass(c: Decoder, t: Type, k: nat, next: nat, size: nat, vs: seq<Value>, bs: Bytes,
                           d: nat): Res<Value>
    requires t.TStruct? && k < |vs| == |t.fields| && next <= size
  {
    var s := Skim(c.popSkip, bs);
    if s.Err? then Err else DecFields(c, t, k, next, size, vs, s.rest, d)
  }

  lemma {:induction false} PassNext(c: Decoder, t: Type, k: nat, i: nat, next: nat, size: nat, vs: seq<Value>,
                                    bs: Bytes, d: nat)
    requires t.TStruct? && k < |vs| == |t.fields| && next == i + 1 <= size && i != t.fields[k].order
    ensures DecFields(c, t, k, i, size, vs, bs, d) ==
            if i > t.fields[k].order then Err else AfterPass(c, t, k, next, size, vs, bs, d)
  {
    FieldsStep(c, t, k, i, size, vs, bs, d);
  }

  lemma {:induction false} AfterPassStable(c: Decoder, t: Type, k: nat, next: nat, size: nat, vs: seq<Value>, bs: Bytes,
                                           d: nat, left: nat, more: Bytes)
    requires t.TStruct? && k < |vs| == |t.fields| && next + left == size
    ensures Extends(AfterPass(c, t, k, next, size, vs, bs, d), AfterPass(c, t, k, next, size, vs, bs + more, d), more)
    decreases |bs|, t, 0, left + 1, 0
  {
    SkimStable(c.popSkip, bs, more);
    var s := Skim(c.popSkip, bs);
    if s.Ok? {
      FieldsStable(c, t, k, next, size, vs, s.rest, d, left, more);
    }
  }

  /** No decoder accepts a proper prefix of what was written, whatever the destination held. */
  lemma {:induction false} NoPrefixDecoded(c: Decoder, t: Type, v: Value, prev: Value, d: nat, cut: Bytes, more: Bytes)
    requires Holds(t, v) && ItemBytes(WireOf(t, v)) == cut + more && more != []
    ensures Dec(c, t, prev, cut, d) == Err
  {
    var bs := ItemBytes(WireOf(t, v));
    assert bs + [] == bs;
    RoundTrip.RoundTrip(c, t, v, d, prev, []);
    DecStable(c, t, prev, cut, d, more);
  }
}
