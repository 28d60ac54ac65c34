/**
 What decoding a byte sequence into a destination of a type yields, for both decoders of the library.

 They read the same format by the same recursion on the type and differ only where Decoder.events is
 asked for: the recursive reader bounds the nesting depth, takes only the short number headers for
 integers, reads small negative big integers through int64, and leaves surplus items unread; the event
 decoder bounds long lengths by int32 and skips surplus items. Decoder.popSkip is false for the skip as
 written and true for one that pops a finished array instead of stopping.
 */
module Decoding {
  import opened Numeric
  import opened Headers
  import opened Wrappers
  import opened Wire
  import opened Skipping
  import opened Values
  import opened Encoding

  datatype Decoder = Decoder(events: bool, popSkip: bool)

  // ----- values without parts -----

  function DecInt(c: Decoder, w: Width, h: Head): Option<Value> {
    if h.th.THSingleByte? then Some(VInt(WrapInt(w, h.n)))
    else if h.th.THZeroValue? then Some(VInt(0))
    else if (if c.events then h.th.IsNumber() && |h.buf| <= 8 else h.th.THPosNumSingle? || h.th.THNegNumSingle?) then
      Some(VInt(WrapInt(w, BytesToInt64(h.buf, h.th.IsNegative()))))
    else None
  }

  function DecUint(c: Decoder, w: Width, h: Head): Option<Value> {
    if h.th.THSingleByte? then Some(VUint(WrapUint(w, h.n)))
    else if h.th.THZeroValue? then Some(VUint(0))
    else if (if c.events then h.th.IsPositive() && |h.buf| <= 8 else h.th.THPosNumSingle?) then
      Some(VUint(WrapUint(w, BytesToUint64(h.buf))))
    else None
  }

  function DecBool(h: Head): Option<Value> {
    if h.th.THZeroValue? then Some(VBool(false))
    else if h.th.THTrue? then Some(VBool(true))
    else None
  }

  function DecString(h: Head): Option<Value> {
    if h.th.THSingleByte? then Some(VString([h.n % 0x100]))
    else if h.th.THZeroValue? then Some(VString([]))
    else if h.th.IsString() then Some(VString(h.buf))
    else None
  }

  function Signed(negative: bool, magnitude: int): int {
    if negative then -magnitude else magnitude
  }

  function DecBigInt(c: Decoder, h: Head): Option<Value> {
    if h.th.THSingleByte? then Some(VBig(h.n))
    else if h.th.THZeroValue? then Some(VNil)
    else if !h.th.IsNumber() then None
    else if h.th.THNegNumSingle? && !c.events then Some(VBig(BytesToInt64(h.buf, true)))
    else if h.th.THPosNumSingle? && !c.events then Some(VBig(BytesToUint64(h.buf)))
    else Some(VBig(Signed(h.th.IsNegative(), ValueOf(h.buf))))
  }

  function Whole(v: Option<Value>, bs: Bytes): Res<Value> {
    if v.None? then Err else Ok(v.value, bs)
  }

  function Min(a: nat, b: nat): nat {
    if a < b then a else b
  }

  // ----- decoding by recursion on the type -----

  /** Decodes one item from bs into a destination of type t holding prev, at nesting depth d. */
  function Dec(c: Decoder, t: Type, prev: Value, bs: Bytes, d: nat): (r: Res<Value>)
    ensures r.Ok? ==> |r.rest| < |bs|
    decreases |bs|, t, 3, 0
  {
    var h := ReadHead(c.events, bs);
    if h.Err? then Err else DecHead(c, t, prev, h.value, h.rest, d)
  }

  /** Decodes the item whose head is h; bs is what follows the head. */
  function DecHead(c: Decoder, t: Type, prev: Value, h: Head, bs: Bytes, d: nat): (r: Res<Value>)
    ensures r.Ok? ==> |r.rest| <= |bs|
    decreases |bs|, t, 2, 0
  {
    if !c.events && d > MAX_NESTED then Err else
    match t
    case TInt(w) => Whole(DecInt(c, w, h), bs)
    case TUint(w) => Whole(DecUint(c, w, h), bs)
    case TBool => Whole(DecBool(h), bs)
    case TString => Whole(DecString(h), bs)
    case TBigInt => Whole(DecBigInt(c, h), bs)
    case TArray(e, n) => DecArray(c, t, Elements(e, n, prev), h, bs, d)
    case TSlice(_) => DecSlice(c, t, prev, h, bs, d)
    case TMap(_, _) => DecMap(c, t, if prev.VMap? then prev.entries else [], h, bs, d)
    case TStruct(fs) =>
      if h.th.THZeroValue? then Ok(Zero(t), bs)
      else if h.th.IsArray() then DecFields(c, t, 0, 0, h.n, FieldValues(fs, prev), bs, d + 1)
      else Err
    case TPtr(e) =>
      if h.th.THZeroValue? then Ok(VNil, bs) else
      var r := DecHead(c, e, if prev.VPtr? then prev.target else Zero(e), h, bs, d);
      if r.Err? then Err else Ok(VPtr(r.value), r.rest)
  }

  function DecArray(c: Decoder, t: Type, prevs: seq<Value>, h: Head, bs: Bytes, d: nat): (r: Res<Value>)
    requires t.TArray? && |prevs| == t.len
    ensures r.Ok? ==> |r.rest| <= |bs|
    decreases |bs|, t, 1, 0
  {
    if h.th.THZeroValue? then Ok(Zero(t), bs)
    else if h.th.IsArray() then
      var m := Min(h.n, t.len);
      var r := DecElems(c, t.elem, prevs[..m], bs, d + 1);
      if r.Err? then Err else
      var rest := if c.events then SkipMany(c.popSkip, h.n - m, r.rest) else Some(r.rest);
      if rest.None? then Err else Ok(VArray(r.value + prevs[m..]), rest.value)
    else if h.th.THSingleByte? || h.th.IsString() then
      var r := Fill(c, t.elem, prevs, h, bs, d);
      if r.Err? then Err else Ok(VArray(r.value), r.rest)
    else Err
  }

  function DecSlice(c: Decoder, t: Type, prev: Value, h: Head, bs: Bytes, d: nat): (r: Res<Value>)
    requires t.TSlice?
    ensures r.Ok? ==> |r.rest| <= |bs|
    decreases |bs|, t, 1, 0
  {
    if h.th.THZeroValue? then Ok(VNil, bs)
    else if h.th.THEmpty? then Ok(VSlice([], []), bs)
    else if h.th.IsArray() then
      var r := DecElems(c, t.elem, Resize(t.elem, prev, h.n), bs, d + 1);
      if r.Err? then Err else Ok(Refilled(prev, r.value), r.rest)
    else if h.th.THSingleByte? || h.th.IsString() then
      var r := Fill(c, t.elem, Resize(t.elem, prev, |Text(h)|), h, bs, d);
      if r.Err? then Err else Ok(Refilled(prev, r.value), r.rest)
    else Err
  }

  function DecMap(c: Decoder, t: Type, es: seq<Entry>, h: Head, bs: Bytes, d: nat): (r: Res<Value>)
    requires t.TMap?
    ensures r.Ok? ==> |r.rest| <= |bs|
    decreases |bs|, t, 1, 0
  {
    if h.th.THZeroValue? then Ok(VNil, bs)
    else if h.th.THEmpty? then Ok(VMap([]), bs)
    else if h.th.IsArray() && h.n % 2 == 0 then
      var r := DecEntries(c, t, h.n / 2, es, bs, d + 1);
      if r.Err? then Err else Ok(VMap(r.value), r.rest)
    else Err
  }

  /** Items read into consecutive elements. */
  function DecElems(c: Decoder, e: Type, prevs: seq<Value>, bs: Bytes, d: nat): (r: Res<seq<Value>>)
    ensures r.Ok? ==> |r.rest| <= |bs| && |r.value| == |prevs|
    decreases |bs|, e, 4, |prevs|
  {
    if prevs == [] then Ok([], bs) else
    var r := Dec(c, e, prevs[0], bs, d);
    if r.Err? then Err else
    var rs := DecElems(c, e, prevs[1..], r.rest, d);
    if rs.Err? then Err else Ok([r.value] + rs.value, rs.rest)
  }

  /** The bytes a string item or single byte stands for. */
  function Text(h: Head): Bytes {
    if h.th.THSingleByte? then [h.n % 0x100] else h.buf
  }

  /**
   A string read into the elements of an array or slice. Bytes are copied; elements of another type read
   each byte as a single-byte item. The recursive reader treats a lone byte the second way for bytes too.
   */
  function Fill(c: Decoder, e: Type, prevs: seq<Value>, h: Head, bs: Bytes, d: nat): (r: Res<seq<Value>>)
    ensures r.Ok? ==> |r.rest| <= |bs| && |r.value| == |prevs|
    decreases |bs|, e, 5, 0
  {
    var m := Min(|Text(h)|, |prevs|);
    if e == BYTE && (c.events || !h.th.THSingleByte?) then
      Ok(ByteValues(Text(h)[..m]) + prevs[m..], bs)
    else
      var r := DecBytes(c, e, prevs[..m], Text(h)[..m], bs, d + 1);
      if r.Err? then Err else Ok(r.value + prevs[m..], r.rest)
  }

  /** Bytes read into consecutive elements, each as a single-byte item. */
  function DecBytes(c: Decoder, e: Type, prevs: seq<Value>, buf: Bytes, bs: Bytes, d: nat): (r: Res<seq<Value>>)
    requires |prevs| == |buf|
    ensures r.Ok? ==> |r.rest| <= |bs| && |r.value| == |prevs|
    decreases |bs|, e, 4, |prevs|
  {
    if prevs == [] then Ok([], bs) else
    var r := DecHead(c, e, prevs[0], Head(THSingleByte, buf[0], []), bs, d);
    if r.Err? then Err else
    var rs := DecBytes(c, e, prevs[1..], buf[1..], r.rest, d);
    if rs.Err? then Err else Ok([r.value] + rs.value, rs.rest)
  }

  /** n keys each with its value, put into the entries es; keys and values start from zero. */
  function DecEntries(c: Decoder, t: Type, n: nat, es: seq<Entry>, bs: Bytes, d: nat): (r: Res<seq<Entry>>)
    requires t.TMap?
    ensures r.Ok? ==> |r.rest| <= |bs|
    decreases |bs|, t, 0, n
  {
    if n == 0 then Ok(es, bs) else
    var k := Dec(c, t.key, Zero(t.key), bs, d);
    if k.Err? then Err else
    var v := Dec(c, t.val, Zero(t.val), k.rest, d);
    if v.Err? then Err else
    DecEntries(c, t, n - 1, Insert(es, k.value, v.value), v.rest, d)
  }

  /**
   The struct cursor: item i of size is next, and k is the next field. Items before the field's order are
   skipped, fields beyond the items are zeroed.
   */
  function DecFields(c: Decoder, t: Type, k: nat, i: nat, size: nat, vs: seq<Value>, bs: Bytes, d: nat): (r: Res<Value>)
    requires t.TStruct? && |vs| == |t.fields| && k <= |vs| && i <= size
    ensures r.Ok? ==> |r.rest| <= |bs|
    decreases |bs|, t, 0, size - i
  {
    if k < |vs| && i < size then
      if i == t.fields[k].order then
        var r := Dec(c, t.fields[k].typ, vs[k], bs, d);
        if r.Err? then Err else DecFields(c, t, k + 1, i + 1, size, vs[k := r.value], r.rest, d)
      else if i < t.fields[k].order then
        var s := Skim(c.popSkip, bs);
        if s.Err? then Err else DecFields(c, t, k, i + 1, size, vs, s.rest, d)
      else Err
    else if !c.events && k < |vs| && d > MAX_NESTED then Err
    else
      var rest := if c.events then SkipMany(c.popSkip, size - i, bs) else Some(bs);
      if rest.None? then Err else Ok(VStruct(vs[..k] + Zeros(t.fields)[k..]), rest.value)
  }
}
