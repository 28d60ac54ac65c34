/** Decoding a container from the middle: the elements, entries or fields before a position are done. */
module Cursors {
  import opened Numeric
  import opened Headers
  import opened Wrappers
  import opened Wire
  import opened Skipping
  import opened Values
  import opened Encoding
  import opened Decoding

  ghost function Joined(r: Res<seq<Value>>, front: seq<Value>, back: seq<Value>): Res<seq<Value>> {
    if r.Err? then Err else Ok(front + r.value + back, r.rest)
  }

  lemma {:induction false} JoinedStep(rs: Res<seq<Value>>, xs: seq<Value>, i: nat, m: nat, x: Value)
    requires i < m <= |xs|
    ensures var ys := xs[i := x];
            && ys[i + 1..m] == xs[i + 1..m]
            && Joined(if rs.Err? then Err else Ok([x] + rs.value, rs.rest), xs[..i], xs[m..]) ==
               Joined(rs, ys[..i + 1], ys[m..])
  {
    var ys := xs[i := x];
    assert ys[i + 1..m] == xs[i + 1..m] && ys[m..] == xs[m..] && ys[..i + 1] == xs[..i] + [x];
    if rs.Ok? {
      assert xs[..i] + ([x] + rs.value) + xs[m..] == ys[..i + 1] + rs.value + ys[m..];
    }
  }

  /** The elements when those before item i are as they are and those from it on are read. */
  ghost function ElemsTo(c: Decoder, e: Type, n: nat, xs: seq<Value>, i: nat, bs: Bytes, d: nat): Res<seq<Value>>
    requires i <= Min(n, |xs|)
  {
    var m := Min(n, |xs|);
    Joined(DecElems(c, e, xs[i..m], bs, d), xs[..i], xs[m..])
  }

  lemma {:induction false} ElemsStep(c: Decoder, e: Type, n: nat, xs: seq<Value>, i: nat, bs: Bytes, d: nat)
    requires i < Min(n, |xs|)
    ensures ElemsTo(c, e, n, xs, i, bs, d) ==
            var r := Dec(c, e, xs[i], bs, d);
            if r.Err? then Err else ElemsTo(c, e, n, xs[i := r.value], i + 1, r.rest, d)
  {
    var m := Min(n, |xs|);
    assert xs[i..m][1..] == xs[i + 1..m];
    var r := Dec(c, e, xs[i], bs, d);
    if r.Ok? {
      JoinedStep(DecElems(c, e, xs[i + 1..m], r.rest, d), xs, i, m, r.value);
    }
  }

  lemma {:induction false} ElemsLast(c: Decoder, e: Type, n: nat, xs: seq<Value>, i: nat, bs: Bytes, d: nat)
    requires i == Min(n, |xs|)
    ensures ElemsTo(c, e, n, xs, i, bs, d) == Ok(xs, bs)
  {
    assert DecElems(c, e, [], bs, d) == Ok([], bs);
    assert xs[..i] + [] + xs[i..] == xs;
  }

  /** The elements when those before i have their bytes and the bytes from i on are read. */
  ghost function BytesTo(c: Decoder, e: Type, buf: Bytes, xs: seq<Value>, i: nat, bs: Bytes, d: nat): Res<seq<Value>>
    requires i <= Min(|buf|, |xs|)
  {
    var m := Min(|buf|, |xs|);
    Joined(DecBytes(c, e, xs[i..m], buf[i..m], bs, d), xs[..i], xs[m..])
  }

  lemma {:induction false} BytesStep(c: Decoder, e: Type, buf: Bytes, xs: seq<Value>, i: nat, bs: Bytes, d: nat)
    requires i < Min(|buf|, |xs|)
    ensures BytesTo(c, e, buf, xs, i, bs, d) ==
            var r := DecHead(c, e, xs[i], Head(THSingleByte, buf[i], []), bs, d);
            if r.Err? then Err else BytesTo(c, e, buf, xs[i := r.value], i + 1, r.rest, d)
  {
    var m := Min(|buf|, |xs|);
    assert xs[i..m][1..] == xs[i + 1..m] && buf[i..m][1..] == buf[i + 1..m];
    var r := DecHead(c, e, xs[i], Head(THSingleByte, buf[i], []), bs, d);
    if r.Ok? {
      JoinedStep(DecBytes(c, e, xs[i + 1..m], buf[i + 1..m], r.rest, d), xs, i, m, r.value);
    }
  }

  lemma {:induction false} BytesLast(c: Decoder, e: Type, buf: Bytes, xs: seq<Value>, i: nat, bs: Bytes, d: nat)
    requires i == Min(|buf|, |xs|)
    ensures BytesTo(c, e, buf, xs, i, bs, d) == Ok(xs, bs)
  {
    BytesDone(c, e, bs, d);
    assert xs[..i] + [] + xs[i..] == xs;
  }

  lemma {:induction false} BytesDone(c: Decoder, e: Type, bs: Bytes, d: nat)
    ensures DecBytes(c, e, [], [], bs, d) == Ok([], bs)
  {
  }

  lemma {:induction false} ElemsFromStart(c: Decoder, e: Type, n: nat, vals: seq<Value>, bs: Bytes, d: nat)
    ensures ElemsTo(c, e, n, vals, 0, bs, d) ==
            var m := Min(n, |vals|);
            var r := DecElems(c, e, vals[..m], bs, d);
            if r.Err? then Err else Ok(r.value + vals[m..], r.rest)
  {
    var m := Min(n, |vals|);
    assert vals[0..m] == vals[..m];
    var r := DecElems(c, e, vals[..m], bs, d);
    if r.Ok? {
      assert vals[..0] + r.value + vals[m..] == r.value + vals[m..];
    }
  }

  lemma {:induction false} FillIsBytes(c: Decoder, e: Type, vals: seq<Value>, h: Head, bs: Bytes, d: nat)
    requires e != BYTE || (!c.events && h.th.THSingleByte?)
    ensures Fill(c, e, vals, h, bs, d) == BytesTo(c, e, Text(h), vals, 0, bs, d + 1)
  {
    var m, buf := Min(|Text(h)|, |vals|), Text(h);
    assert vals[0..m] == vals[..m] && buf[0..m] == buf[..m];
    var r := DecBytes(c, e, vals[..m], buf[..m], bs, d + 1);
    if r.Ok? {
      assert vals[..0] + r.value + vals[m..] == r.value + vals[m..];
    }
  }

  lemma {:induction false} EntryNext(c: Decoder, t: Type, n: nat, others: nat, es: seq<Entry>, bs: Bytes, d: nat)
    requires t.TMap? && n == others + 1
    ensures DecEntries(c, t, n, es, bs, d) ==
            var k := Dec(c, t.key, Zero(t.key), bs, d);
            if k.Err? then Err else AfterKey(c, t, others, es, k.value, k.rest, d)
  {
  }

  /** A value, put in with its key, and the entries behind it. */
  ghost function AfterKey(c: Decoder, t: Type, others: nat, es: seq<Entry>, key: Value, bs: Bytes,
                          d: nat): Res<seq<Entry>>
    requires t.TMap?
  {
    var v := Dec(c, t.val, Zero(t.val), bs, d);
    if v.Err? then Err else DecEntries(c, t, others, Insert(es, key, v.value), v.rest, d)
  }

  lemma {:induction false} EntriesFirst(c: Decoder, t: Type, n: nat, es: seq<Entry>, bs: Bytes, d: nat)
    requires t.TMap? && n > 0
    ensures DecEntries(c, t, n, es, bs, d) ==
            var k := Dec(c, t.key, Zero(t.key), bs, d);
            if k.Err? then Err else
            var v := Dec(c, t.val, Zero(t.val), k.rest, d);
            if v.Err? then Err else DecEntries(c, t, n - 1, Insert(es, k.value, v.value), v.rest, d)
  {
  }

  lemma {:induction false} EntriesStep(c: Decoder, t: Type, n: nat, es: seq<Entry>, bs: Bytes, d: nat)
    requires t.TMap? && n > 0
    ensures DecEntries(c, t, n, es, bs, d) ==
            var r := DecEntries(c, t, 1, es, bs, d);
            if r.Err? then Err else DecEntries(c, t, n - 1, r.value, r.rest, d)
  {
  }

  lemma {:induction false} EntryOnce(c: Decoder, t: Type, es: seq<Entry>, bs: Bytes, d: nat)
    requires t.TMap?
    ensures DecEntries(c, t, 1, es, bs, d) ==
            var k := Dec(c, t.key, Zero(t.key), bs, d);
            if k.Err? then Err else
            var v := Dec(c, t.val, Zero(t.val), k.rest, d);
            if v.Err? then Err else Ok(Insert(es, k.value, v.value), v.rest)
  {
  }

  /** An array header, for a struct. */
  lemma {:induction false} StructHead(c: Decoder, t: Type, prev: Value, h: Head, bs: Bytes, d: nat, inner: nat)
    requires t.TStruct? && h.th.IsArray() && (c.events || d <= MAX_NESTED) && inner == d + 1
    ensures DecHead(c, t, prev, h, bs, d) == DecFields(c, t, 0, 0, h.n, FieldValues(t.fields, prev), bs, inner)
  {
  }

  /** The end of a struct: fields that are left are zeroed, and the event decoder skips items that are left. */
  lemma {:induction false} FieldsDone(c: Decoder, t: Type, k: nat, i: nat, size: nat, left: nat, vs: seq<Value>,
                                      bs: Bytes, d: nat)
    requires t.TStruct? && k <= |vs| == |t.fields| && i + left == size && (k == |vs| || i == size)
    ensures DecFields(c, t, k, i, size, vs, bs, d) ==
            if !c.events && k < |vs| && d > MAX_NESTED then Err else
            var rest := if c.events then SkipMany(c.popSkip, left, bs) else Some(bs);
            if rest.None? then Err else Ok(VStruct(vs[..k] + Zeros(t.fields)[k..]), rest.value)
  {
  }

  lemma {:induction false} FieldsStep(c: Decoder, t: Type, k: nat, i: nat, size: nat, vs: seq<Value>, bs: Bytes, d: nat)
    requires t.TStruct? && k < |vs| == |t.fields| && i < size
    ensures DecFields(c, t, k, i, size, vs, bs, d) ==
            if i == t.fields[k].order then
              var r := Dec(c, t.fields[k].typ, vs[k], bs, d);
              if r.Err? then Err else DecFields(c, t, k + 1, i + 1, size, vs[k := r.value], r.rest, d)
            else
              var s := Skim(c.popSkip, bs);
              if i > t.fields[k].order || s.Err? then Err else DecFields(c, t, k, i + 1, size, vs, s.rest, d)
  {
  }

  /** What an array ends with once its elements are read: the event decoder skips the n surplus items. */
  ghost function Finished(c: Decoder, r: Res<seq<Value>>, n: nat, others: seq<Value>): Res<Value> {
    if r.Err? then Err else
    var rest := if c.events then SkipMany(c.popSkip, n, r.rest) else Some(r.rest);
    if rest.None? then Err else Ok(VArray(r.value + others), rest.value)
  }

  lemma {:induction false} ArrayItems(c: Decoder, t: Type, prevs: seq<Value>, k: nat, h: Head, left: nat, bs: Bytes,
                                      d: nat, inner: nat)
    requires t.TArray? && |prevs| == t.len && h.th.IsArray() && k == Min(h.n, t.len) && left == h.n - k
    requires inner == d + 1
    ensures DecArray(c, t, prevs, h, bs, d) ==
            Finished(c, DecElems(c, t.elem, prevs[..k], bs, inner), left, prevs[k..])
  {
  }
}
