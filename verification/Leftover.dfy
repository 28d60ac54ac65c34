/** How far decoding gets: before whole items, no decoder reads past the item it was asked for. */
module Leftover {
  import opened Numeric
  import opened Headers
  import opened Wrappers
  import opened Wire
  import opened Skipping
  import opened Values
  import opened Decoding
  import opened Cursors

  // ----- bytes that are items -----

  /** The bytes are these items, all of them valid and at least n, with `tail` behind them. */
  ghost predicate Covers(ws: seq<Item>, bs: Bytes, n: nat, tail: Bytes) {
    |ws| >= n && bs == Concat(ws) + tail && AllValid(ws)
  }

  /** The bytes are at least n valid items with `tail` behind them. */
  ghost predicate Spans(bs: Bytes, n: nat, tail: Bytes) {
    exists ws: seq<Item> :: Covers(ws, bs, n, tail)
  }

  lemma {:induction false} SpansLess(bs: Bytes, n: nat, m: nat, tail: Bytes)
    requires Spans(bs, n, tail) && m <= n
    ensures Spans(bs, m, tail)
  {
    var ws :| Covers(ws, bs, n, tail);
    assert Covers(ws, bs, m, tail);
  }

  /** Bytes that are items and something more do not equal what is behind the items. */
  lemma {:induction false} SpansLonger(bs: Bytes, n: nat, tail: Bytes)
    requires Spans(bs, n, tail)
    ensures |bs| >= n + |tail|
  {
    var ws :| Covers(ws, bs, n, tail);
    ConcatLength(ws);
  }

  /** Items put in front. */
  lemma {:induction false} SpansMore(us: seq<Item>, bs: Bytes, n: nat, tail: Bytes)
    requires Spans(bs, n, tail) && AllValid(us)
    ensures Spans(Concat(us) + bs, |us| + n, tail)
  {
    var ws :| Covers(ws, bs, n, tail);
    ConcatAppend(us, ws);
    Regroup(Concat(us), Concat(ws), tail);
    assert Covers(us + ws, Concat(us) + bs, |us| + n, tail);
  }

  /** The first item and what is behind it. */
  lemma {:induction false} SpansFirst(bs: Bytes, n: nat, tail: Bytes) returns (w: Item, rest: Bytes)
    requires Spans(bs, n + 1, tail)
    ensures Valid(w) && bs == ItemBytes(w) + rest && Spans(rest, n, tail)
  {
    var ws :| Covers(ws, bs, n + 1, tail);
    w, rest := ws[0], Concat(ws[1..]) + tail;
    ConcatHead(ws, tail);
    assert Covers(ws[1..], rest, n, tail);
  }

  // ----- heads -----

  /** The items that belong to a head. */
  function Need(h: Head): nat {
    if h.th.IsArray() then h.n else 0
  }

  lemma {:induction false} HeadSpans(int32: bool, bs: Bytes, n: nat, tail: Bytes)
    requires Spans(bs, n + 1, tail)
    ensures var h := ReadHead(int32, bs); h.Ok? ==> Spans(h.rest, Need(h.value) + n, tail)
  {
    var w, rest := SpansFirst(bs, n, tail);
    FirstHead(int32, w, rest);
    BodySpans(w, rest, n, tail);
  }

  lemma {:induction false} FirstHead(int32: bool, w: Item, rest: Bytes)
    requires Valid(w)
    ensures var h := ReadHead(int32, ItemBytes(w) + rest); h.Ok? ==> h.value == HeadOf(w) && h.rest == BodyOf(w) + rest
  {
    HeadReads(w, int32, rest);
  }

  lemma {:induction false} BodySpans(w: Item, rest: Bytes, n: nat, tail: Bytes)
    requires Valid(w) && Spans(rest, n, tail)
    ensures Spans(BodyOf(w) + rest, Need(HeadOf(w)) + n, tail)
  {
    NeedIs(w);
    if w.WArr? {
      SpansMore(w.items, rest, n, tail);
    } else {
      assert [] + rest == rest;
    }
  }

  lemma {:induction false} NeedIs(w: Item)
    ensures Need(HeadOf(w)) == if w.WArr? then |w.items| else 0
  {
  }

  // ----- skipping -----

  /** The items a skip as written does not reach. */
  function UnreadItems(w: Item): seq<Item>
    decreases w, 0
  {
    if w.WArr? then UnreadItemsOf(w.items) else []
  }

  function UnreadItemsOf(ws: seq<Item>): seq<Item>
    decreases ws, 1
  {
    if ws == [] then []
    else if ws[0].WArr? then UnreadItems(ws[0]) + ws[1..]
    else UnreadItemsOf(ws[1..])
  }

  lemma {:induction false} UnreadAreItems(w: Item)
    requires Valid(w)
    ensures Concat(UnreadItems(w)) == Unread(w) && AllValid(UnreadItems(w))
    decreases w, 0
  {
    if w.WArr? {
      UnreadOfAreItems(w.items);
    }
  }

  lemma {:induction false} UnreadOfAreItems(ws: seq<Item>)
    requires AllValid(ws)
    ensures Concat(UnreadItemsOf(ws)) == UnreadOf(ws)
    ensures AllValid(UnreadItemsOf(ws))
    decreases ws, 1
  {
    if ws != [] {
      if ws[0].WArr? {
        UnreadAreItems(ws[0]);
        ConcatAppend(UnreadItems(ws[0]), ws[1..]);
      } else {
        UnreadOfAreItems(ws[1..]);
      }
    }
  }

  /** A skip leaves at least the items behind the first; one item more when it does not pass it completely. */
  lemma {:induction false} SkimLeaves(pop: bool, w: Item, rest: Bytes, n: nat, tail: Bytes)
    requires Valid(w) && Spans(rest, n, tail)
    ensures var s := Skim(pop, ItemBytes(w) + rest);
            s.Ok? && Spans(s.rest, n, tail) && (!Skippable(pop, w) ==> Spans(s.rest, n + 1, tail))
  {
    SkimItem(pop, w, rest);
    if pop {
      assert [] + rest == rest;
    } else {
      UnreadSpans(w, rest, n, n + 1, tail);
    }
  }

  /** What a skip as written does not reach of an item is items, and none only if its arrays nest last. */
  lemma {:induction false} UnreadSpans(w: Item, rest: Bytes, n: nat, more: nat, tail: Bytes)
    requires Valid(w) && Spans(rest, n, tail) && more == n + 1
    ensures Spans(Unread(w) + rest, n, tail) && (!LastNested(w) ==> Spans(Unread(w) + rest, more, tail))
  {
    var us := UnreadItems(w);
    var all := |us| + n;
    UnreadAreItems(w);
    SpansMore(us, rest, n, tail);
    SpansLess(Unread(w) + rest, all, n, tail);
    if !LastNested(w) {
      UnreadSome(w);
      SpansLess(Unread(w) + rest, all, more, tail);
    }
  }

  lemma {:induction false} UnreadSome(w: Item)
    requires Valid(w) && !LastNested(w)
    ensures UnreadItems(w) != []
  {
    UnreadAreItems(w);
    UnreadNothing(w);
  }

  lemma {:induction false} SkimSpans(pop: bool, bs: Bytes, n: nat, tail: Bytes)
    requires Spans(bs, n + 1, tail)
    ensures var s := Skim(pop, bs); s.Ok? && Spans(s.rest, n, tail)
  {
    var w, rest := SpansFirst(bs, n, tail);
    SkimLeaves(pop, w, rest, n, tail);
  }

  lemma {:induction false} SkipSpans(pop: bool, m: nat, bs: Bytes, n: nat, tail: Bytes)
    requires Spans(bs, m + n, tail)
    ensures var rest := SkipMany(pop, m, bs); rest.Some? && Spans(rest.value, n, tail)
    decreases m
  {
    if m > 0 {
      var left := m - 1 + n;
      assert left + 1 == m + n;
      SkimSpans(pop, bs, left, tail);
      SkipSpans(pop, m - 1, Skim(pop, bs).rest, n, tail);
    }
  }

  predicate AllSkippable(pop: bool, ws: seq<Item>) {
    forall i | 0 <= i < |ws| :: Skippable(pop, ws[i])
  }

  lemma {:induction false} SkippableFirst(pop: bool, ws: seq<Item>)
    requires ws != []
    ensures AllSkippable(pop, ws) <==> Skippable(pop, ws[0]) && AllSkippable(pop, ws[1..])
  {
    assert forall i | 0 < i < |ws| :: ws[i] == ws[1..][i - 1];
  }

  /** n skips pass n items exactly when each of the items can be skipped. */
  lemma {:induction false} SkipManyExact(pop: bool, ws: seq<Item>, n: nat, tail: Bytes)
    requires AllValid(ws) && n == |ws|
    ensures SkipMany(pop, n, Concat(ws) + tail) == Some(tail) <==> AllSkippable(pop, ws)
    decreases |ws|
  {
    if ws == [] {
      assert Concat(ws) + tail == tail;
    } else {
      var first, others := ws[0], ws[1..];
      var after := Concat(others) + tail;
      ConcatHead(ws, tail);
      SkippableFirst(pop, ws);
      if Skippable(pop, first) {
        SkipOne(pop, first, after);
        SkipManyExact(pop, others, n - 1, tail);
      } else {
        SkipsAstray(pop, first, others, n - 1, tail);
      }
    }
  }

  /** An item that is not passed completely leaves one item too many to the skips that follow. */
  lemma {:induction false} SkipsAstray(pop: bool, first: Item, others: seq<Item>, n: nat, tail: Bytes)
    requires Valid(first) && AllValid(others) && n == |others| && !Skippable(pop, first)
    ensures SkipMany(pop, n + 1, ItemBytes(first) + (Concat(others) + tail)) != Some(tail)
  {
    var bs, after := ItemBytes(first) + (Concat(others) + tail), Concat(others) + tail;
    TailSpans(others, tail);
    SkimLeaves(pop, first, after, n, tail);
    SkipSpans(pop, n, Skim(pop, bs).rest, 1, tail);
    SpansLonger(SkipMany(pop, n, Skim(pop, bs).rest).value, 1, tail);
  }

  /** The same of the items from the k-th on. */
  lemma {:induction false} SkipRestExact(pop: bool, ws: seq<Item>, k: nat, left: nat, tail: Bytes)
    requires AllValid(ws) && k <= |ws| && left == |ws| - k
    ensures SkipMany(pop, left, Concat(ws[k..]) + tail) == Some(tail) <==>
            forall i | k <= i < |ws| :: Skippable(pop, ws[i])
  {
    SkipManyExact(pop, ws[k..], left, tail);
    SkippableRest(pop, ws, k, ws[k..]);
  }

  lemma {:induction false} SkippableRest(pop: bool, ws: seq<Item>, k: nat, us: seq<Item>)
    requires k <= |ws| && us == ws[k..]
    ensures AllSkippable(pop, us) <==> forall i | k <= i < |ws| :: Skippable(pop, ws[i])
  {
    forall i | k <= i < |ws|
      ensures AllSkippable(pop, us) ==> Skippable(pop, ws[i])
    {
      assert us[i - k] == ws[i];
    }
  }

  lemma {:induction false} TailSpans(ws: seq<Item>, tail: Bytes)
    requires AllValid(ws)
    ensures Spans(Concat(ws) + tail, |ws|, tail)
  {
    assert Covers(ws, Concat(ws) + tail, |ws|, tail);
  }

  // ----- decoding -----

  /**
   Decoding from n + 1 items or more leaves n items or more and what is behind them, whatever the type, the
   destination and the decoder.
   */
  lemma {:induction false} DecLeaves(c: Decoder, t: Type, prev: Value, bs: Bytes, d: nat, n: nat, tail: Bytes)
    requires Spans(bs, n + 1, tail)
    ensures var r := Dec(c, t, prev, bs, d); r.Ok? ==> Spans(r.rest, n, tail)
    decreases |bs|, t, 3, 0
  {
    var h := ReadHead(c.events, bs);
    HeadSpans(c.events, bs, n, tail);
    if h.Ok? {
      HeadLeaves(c, t, prev, h.value, h.rest, d, n, tail);
    }
  }

  lemma {:induction false} HeadLeaves(c: Decoder, t: Type, prev: Value, h: Head, bs: Bytes, d: nat, n: nat, tail: Bytes)
    requires Spans(bs, Need(h) + n, tail)
    ensures var r := DecHead(c, t, prev, h, bs, d); r.Ok? ==> Spans(r.rest, n, tail)
    decreases |bs|, t, 2, 0
  {
    SpansLess(bs, Need(h) + n, n, tail);
    match t
    case TArray(e, m) => ArrayLeaves(c, t, Elements(e, m, prev), h, bs, d, n, tail);
    case TSlice(e) => SliceLeaves(c, t, prev, h, bs, d, n, tail);
    case TMap(_, _) => MapLeaves(c, t, if prev.VMap? then prev.entries else [], h, bs, d, n, tail);
    case TStruct(fs) =>
      if h.th.IsArray() {
        FieldsLeave(c, t, 0, 0, h.n, FieldValues(fs, prev), bs, d + 1, h.n, n, Need(h) + n, tail);
      }
    case TPtr(e) => HeadLeaves(c, e, if prev.VPtr? then prev.target else Zero(e), h, bs, d, n, tail);
    case _ => PlainLeaves(c, t, prev, h, bs, d);
  }

  lemma {:induction false} PlainLeaves(c: Decoder, t: Type, prev: Value, h: Head, bs: Bytes, d: nat)
    requires t.TInt? || t.TUint? || t.TBool? || t.TString? || t.TBigInt?
    ensures var r := DecHead(c, t, prev, h, bs, d); r.Ok? ==> r.rest == bs
  {
  }

  lemma {:induction false} ArrayLeaves(c: Decoder, t: Type, prevs: seq<Value>, h: Head, bs: Bytes, d: nat, n: nat,
                                       tail: Bytes)
    requires t.TArray? && |prevs| == t.len && Spans(bs, Need(h) + n, tail) && Spans(bs, n, tail)
    ensures var r := DecArray(c, t, prevs, h, bs, d); r.Ok? ==> Spans(r.rest, n, tail)
    decreases |bs|, t, 1, 0
  {
    if h.th.IsArray() {
      var m := Min(h.n, t.len);
      ItemsLeave(c, t, prevs, h, m, h.n - m, bs, d, d + 1, n, tail);
    } else if h.th.THSingleByte? || h.th.IsString() {
      FillLeaves(c, t.elem, prevs, h, bs, d, n, tail);
    }
  }

  lemma {:induction false} ItemsLeave(c: Decoder, t: Type, prevs: seq<Value>, h: Head, m: nat, more: nat, bs: Bytes,
                                      d: nat, inner: nat, n: nat, tail: Bytes)
    requires t.TArray? && |prevs| == t.len && h.th.IsArray() && m == Min(h.n, t.len) && more == h.n - m
    requires inner == d + 1
    requires Spans(bs, h.n + n, tail)
    ensures var r := DecArray(c, t, prevs, h, bs, d); r.Ok? ==> Spans(r.rest, n, tail)
    decreases |bs|, t, 0, 0
  {
    var left := more + n;
    ArrayItems(c, t, prevs, m, h, more, bs, d, inner);
    ElemsLeave(c, t.elem, prevs[..m], bs, inner, left, tail);
    FinishedLeaves(c, DecElems(c, t.elem, prevs[..m], bs, inner), more, prevs[m..], left, n, tail);
  }

  lemma {:induction false} FinishedLeaves(c: Decoder, r: Res<seq<Value>>, more: nat, others: seq<Value>, left: nat,
                                          n: nat, tail: Bytes)
    requires r.Ok? ==> Spans(r.rest, left, tail)
    requires left == more + n
    ensures var a := Finished(c, r, more, others); a.Ok? ==> Spans(a.rest, n, tail)
  {
    if r.Ok? {
      SkipSpans(c.popSkip, more, r.rest, n, tail);
      SpansLess(r.rest, left, n, tail);
    }
  }

  lemma {:induction false} SliceLeaves(c: Decoder, t: Type, prev: Value, h: Head, bs: Bytes, d: nat, n: nat,
                                       tail: Bytes)
    requires t.TSlice? && Spans(bs, Need(h) + n, tail) && Spans(bs, n, tail)
    ensures var r := DecSlice(c, t, prev, h, bs, d); r.Ok? ==> Spans(r.rest, n, tail)
    decreases |bs|, t, 1, 0
  {
    if h.th.IsArray() {
      ElemsLeave(c, t.elem, Resize(t.elem, prev, h.n), bs, d + 1, n, tail);
    } else if h.th.THSingleByte? || h.th.IsString() {
      FillLeaves(c, t.elem, Resize(t.elem, prev, |Text(h)|), h, bs, d, n, tail);
    }
  }

  lemma {:induction false} MapLeaves(c: Decoder, t: Type, es: seq<Entry>, h: Head, bs: Bytes, d: nat, n: nat,
                                     tail: Bytes)
    requires t.TMap? && Spans(bs, Need(h) + n, tail) && Spans(bs, n, tail)
    ensures var r := DecMap(c, t, es, h, bs, d); r.Ok? ==> Spans(r.rest, n, tail)
    decreases |bs|, t, 1, 0
  {
    if h.th.IsArray() && h.n % 2 == 0 {
      EntriesLeave(c, t, h.n / 2, es, bs, d + 1, n, tail);
    }
  }

  lemma {:induction false} ElemsLeave(c: Decoder, e: Type, prevs: seq<Value>, bs: Bytes, d: nat, n: nat, tail: Bytes)
    requires Spans(bs, |prevs| + n, tail)
    ensures var r := DecElems(c, e, prevs, bs, d); r.Ok? ==> Spans(r.rest, n, tail)
    decreases |bs|, e, 4, |prevs|
  {
    if prevs != [] {
      var others := prevs[1..];
      var left := |others| + n;
      DecLeaves(c, e, prevs[0], bs, d, left, tail);
      var r := Dec(c, e, prevs[0], bs, d);
      if r.Ok? {
        ElemsLeave(c, e, others, r.rest, d, n, tail);
      }
    }
  }

  lemma {:induction false} FillLeaves(c: Decoder, e: Type, prevs: seq<Value>, h: Head, bs: Bytes, d: nat, n: nat,
                                      tail: Bytes)
    requires Spans(bs, n, tail)
    ensures var r := Fill(c, e, prevs, h, bs, d); r.Ok? ==> Spans(r.rest, n, tail)
    decreases |bs|, e, 5, 0
  {
    var m := Min(|Text(h)|, |prevs|);
    if e != BYTE || (!c.events && h.th.THSingleByte?) {
      BytesLeave(c, e, prevs[..m], Text(h)[..m], bs, d + 1, n, tail);
    }
  }

  lemma {:induction false} BytesLeave(c: Decoder, e: Type, prevs: seq<Value>, buf: Bytes, bs: Bytes, d: nat, n: nat,
                                      tail: Bytes)
    requires |prevs| == |buf| && Spans(bs, n, tail)
    ensures var r := DecBytes(c, e, prevs, buf, bs, d); r.Ok? ==> Spans(r.rest, n, tail)
    decreases |bs|, e, 4, |prevs|
  {
    if prevs != [] {
      var h := Head(THSingleByte, buf[0], []);
      HeadLeaves(c, e, prevs[0], h, bs, d, n, tail);
      var r := DecHead(c, e, prevs[0], h, bs, d);
      if r.Ok? {
        BytesLeave(c, e, prevs[1..], buf[1..], r.rest, d, n, tail);
      }
    }
  }

  lemma {:induction false} EntriesLeave(c: Decoder, t: Type, m: nat, es: seq<Entry>, bs: Bytes, d: nat, n: nat,
                                        tail: Bytes)
    requires t.TMap? && Spans(bs, 2 * m + n, tail)
    ensures var r := DecEntries(c, t, m, es, bs, d); r.Ok? ==> Spans(r.rest, n, tail)
    decreases |bs|, t, 0, m, 1
  {
    if m == 0 {
      NoEntriesLeft(c, t, es, bs, d);
    } else {
      EntryLeaves(c, t, m, m - 1, es, bs, d, 2 * m - 2 + n, 2 * m - 1 + n, 2 * m + n, n, tail);
    }
  }

  lemma {:induction false} NoEntriesLeft(c: Decoder, t: Type, es: seq<Entry>, bs: Bytes, d: nat)
    requires t.TMap?
    ensures DecEntries(c, t, 0, es, bs, d) == Ok(es, bs)
  {
  }

  /** An entry and what is behind it. */
  lemma {:induction false} EntryLeaves(c: Decoder, t: Type, m: nat, others: nat, es: seq<Entry>, bs: Bytes, d: nat,
                                       left: nat, more: nat, sum: nat, n: nat, tail: Bytes)
    requires t.TMap? && m == others + 1 && left == 2 * others + n && more == left + 1 && sum == more + 1
    requires Spans(bs, sum, tail)
    ensures var r := DecEntries(c, t, m, es, bs, d); r.Ok? ==> Spans(r.rest, n, tail)
    decreases |bs|, t, 0, m, 0
  {
    EntryNext(c, t, m, others, es, bs, d);
    PartLeaves(c, t, t.key, bs, d, more, sum, tail);
    var k := Dec(c, t.key, Zero(t.key), bs, d);
    if k.Ok? {
      ValueLeaves(c, t, others, es, k.value, k.rest, d, left, more, n, tail);
    }
  }

  /** A key or value. */
  lemma {:induction false} PartLeaves(c: Decoder, t: Type, p: Type, bs: Bytes, d: nat, n: nat, sum: nat, tail: Bytes)
    requires t.TMap? && (p == t.key || p == t.val) && sum == n + 1 && Spans(bs, sum, tail)
    ensures var r := Dec(c, p, Zero(p), bs, d); r.Ok? ==> Spans(r.rest, n, tail)
    decreases |bs|, t, 0, 0
  {
    DecLeaves(c, p, Zero(p), bs, d, n, tail);
  }

  /** The value of an entry, and what is behind it. */
  lemma {:induction false} ValueLeaves(c: Decoder, t: Type, others: nat, es: seq<Entry>, key: Value, bs: Bytes, d: nat,
                                       left: nat, more: nat, n: nat, tail: Bytes)
    requires t.TMap? && left == 2 * others + n && more == left + 1 && Spans(bs, more, tail)
    ensures var r := AfterKey(c, t, others, es, key, bs, d); r.Ok? ==> Spans(r.rest, n, tail)
    decreases |bs|, t, 0, others + 1, 0
  {
    PartLeaves(c, t, t.val, bs, d, left, more, tail);
    var v := Dec(c, t.val, Zero(t.val), bs, d);
    if v.Ok? {
      EntriesLeave(c, t, others, Insert(es, key, v.value), v.rest, d, n, tail);
    }
  }

  lemma {:induction false} FieldsLeave(c: Decoder, t: Type, k: nat, i: nat, size: nat, vs: seq<Value>, bs: Bytes,
                                       d: nat, left: nat, n: nat, sum: nat, tail: Bytes)
    requires t.TStruct? && |vs| == |t.fields| && k <= |vs| && left == size - i && sum == left + n
    requires Spans(bs, sum, tail)
    ensures var r := DecFields(c, t, k, i, size, vs, bs, d); r.Ok? ==> Spans(r.rest, n, tail)
    decreases |bs|, t, 0, left, 2
  {
    if k < |vs| && i < size {
      FieldTurn(c, t, k, i, size, vs, bs, d, left - 1, left - 1 + n, n, sum, tail);
    } else {
      FieldsEndLeaves(c, t, k, i, size, vs, bs, d, left, n, sum, tail);
    }
  }

  /** One turn of the struct cursor, at a field's item or before it. */
  lemma {:induction false} FieldTurn(c: Decoder, t: Type, k: nat, i: nat, size: nat, vs: seq<Value>, bs: Bytes, d: nat,
                                     others: nat, m: nat, n: nat, sum: nat, tail: Bytes)
    requires t.TStruct? && k < |vs| == |t.fields| && others == size - i - 1 && m == others + n && sum == m + 1
    requires Spans(bs, sum, tail)
    ensures var r := DecFields(c, t, k, i, size, vs, bs, d); r.Ok? ==> Spans(r.rest, n, tail)
    decreases |bs|, t, 0, others + 1, 1
  {
    if i == t.fields[k].order {
      TakeLeaves(c, t, k, i, size, vs, bs, d, others, m, n, sum, tail);
    } else {
      PassLeaves(c, t, k, i, size, vs, bs, d, others, m, n, sum, tail);
    }
  }

  lemma {:induction false} TakeLeaves(c: Decoder, t: Type, k: nat, i: nat, size: nat, vs: seq<Value>, bs: Bytes, d: nat,
                                      others: nat, m: nat, n: nat, sum: nat, tail: Bytes)
    requires t.TStruct? && k < |vs| == |t.fields| && others == size - i - 1 && m == others + n && sum == m + 1
    requires i == t.fields[k].order && Spans(bs, sum, tail)
    ensures var r := DecFields(c, t, k, i, size, vs, bs, d); r.Ok? ==> Spans(r.rest, n, tail)
    decreases |bs|, t, 0, others + 1, 0
  {
    FieldsStep(c, t, k, i, size, vs, bs, d);
    FieldLeaves(c, t, k, k + 1, i + 1, size, vs, bs, d, others, m, n, sum, tail);
  }

  lemma {:induction false} PassLeaves(c: Decoder, t: Type, k: nat, i: nat, size: nat, vs: seq<Value>, bs: Bytes, d: nat,
                                      others: nat, m: nat, n: nat, sum: nat, tail: Bytes)
    requires t.TStruct? && k < |vs| == |t.fields| && others == size - i - 1 && m == others + n && sum == m + 1
    requires i != t.fields[k].order && Spans(bs, sum, tail)
    ensures var r := DecFields(c, t, k, i, size, vs, bs, d); r.Ok? ==> Spans(r.rest, n, tail)
    decreases |bs|, t, 0, others + 1, 0
  {
    FieldsStep(c, t, k, i, size, vs, bs, d);
    SkippedLeaves(c, t, k, i + 1, size, vs, bs, d, others, m, n, sum, tail);
  }

  lemma {:induction false} FieldsEndLeaves(c: Decoder, t: Type, k: nat, i: nat, size: nat, vs: seq<Value>, bs: Bytes,
                                           d: nat, left: nat, n: nat, sum: nat, tail: Bytes)
    requires t.TStruct? && k <= |vs| == |t.fields| && left == size - i && (k == |vs| || i == size)
    requires sum == left + n && Spans(bs, sum, tail)
    ensures var r := DecFields(c, t, k, i, size, vs, bs, d); r.Ok? ==> Spans(r.rest, n, tail)
  {
    FieldsDone(c, t, k, i, size, left, vs, bs, d);
    SpansLess(bs, sum, n, tail);
    SkipSpans(c.popSkip, left, bs, n, tail);
  }

  /** An item that is passed over and what is behind it. */
  lemma {:induction false} SkippedLeaves(c: Decoder, t: Type, k: nat, next: nat, size: nat, vs: seq<Value>, bs: Bytes,
                                         d: nat, others: nat, m: nat, n: nat, sum: nat, tail: Bytes)
    requires t.TStruct? && k < |vs| == |t.fields| && others == size - next && m == others + n
    requires sum == m + 1 && Spans(bs, sum, tail)
    ensures var s := Skim(c.popSkip, bs);
            s.Ok? && var r := DecFields(c, t, k, next, size, vs, s.rest, d); r.Ok? ==> Spans(r.rest, n, tail)
    decreases |bs|, t, 0, others, 0
  {
    SkimSpans(c.popSkip, bs, m, tail);
    FieldsLeave(c, t, k, next, size, vs, Skim(c.popSkip, bs).rest, d, others, n, m, tail);
  }

  /** A field and what is behind it. */
  lemma {:induction false} FieldLeaves(c: Decoder, t: Type, k: nat, after: nat, next: nat, size: nat, vs: seq<Value>,
                                       bs: Bytes, d: nat, others: nat, m: nat, n: nat, sum: nat, tail: Bytes)
    requires t.TStruct? && k < |vs| == |t.fields| && others == size - next && after == k + 1
    requires m == others + n && sum == m + 1 && Spans(bs, sum, tail)
    ensures var r := Dec(c, t.fields[k].typ, vs[k], bs, d);
            r.Ok? ==>
              var r' := DecFields(c, t, after, next, size, vs[k := r.value], r.rest, d);
              r'.Ok? ==> Spans(r'.rest, n, tail)
    decreases |bs|, t, 0, others, 0
  {
    DecLeaves(c, t.fields[k].typ, vs[k], bs, d, m, tail);
    var r := Dec(c, t.fields[k].typ, vs[k], bs, d);
    if r.Ok? {
      FieldsLeave(c, t, after, next, size, vs[k := r.value], r.rest, d, others, n, m, tail);
    }
  }
}
