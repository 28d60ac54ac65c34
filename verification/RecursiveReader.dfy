/**
 The recursive reader. A destination is handed in by value and its new value is handed back; None is one
 of the errors.
 */
module RecursiveReader {
  import opened Numeric
  import opened Headers
  import opened Wrappers
  import opened Wire
  import opened Values
  import opened Encoding
  import opened Decoding
  import opened Schema
  import opened Cursors
  import opened Reader

  /** The decoder the recursive reader is, over this input. */
  ghost function Recursive(vr: ValueReader): Decoder {
    Decoder(false, vr.popSkip)
  }

  // ----- values without parts: the header is read, its length and value bytes are not -----

  /** The value bytes of a number or string header. */
  method ReadPayload(vr: ValueReader, th: Parsed, length: nat) returns (r: Option<Bytes>)
    requires vr.Valid() && HeaderTypeMap(th).b
    modifies vr
    ensures vr.Valid()
    ensures vr.Gave(r, var h := ReadTail(false, th, length, old(vr.Rest()));
                       if h.Err? then Err else Ok(h.value.buf, h.rest))
  {
    if HeaderTypeMap(th).t.VTMultiHeader? {
      r := vr.ReadMultiLengthBytes(length);
    } else {
      r := vr.ReadBytes(length);
    }
  }

  method ToInt(vr: ValueReader, th: Parsed, length: nat, w: Width) returns (r: Option<Value>)
    requires vr.Valid()
    modifies vr
    ensures vr.Valid()
    ensures var h := ReadTail(false, th, length, old(vr.Rest()));
            vr.Gave(r, if h.Err? then Err else Whole(DecInt(Recursive(vr), w, h.value), h.rest))
  {
    match th
    case THSingleByte => return Some(VInt(WrapInt(w, length)));
    case THZeroValue => return Some(VInt(0));
    case THPosNumSingle | THNegNumSingle =>
      var buf := ReadPayload(vr, th, length);
      if buf.None? {
        return None;
      }
      return Some(VInt(WrapInt(w, BytesToInt64(buf.value, th.THNegNumSingle?))));
    case _ => return None;
  }

  method ToUint(vr: ValueReader, th: Parsed, length: nat, w: Width) returns (r: Option<Value>)
    requires vr.Valid()
    modifies vr
    ensures vr.Valid()
    ensures var h := ReadTail(false, th, length, old(vr.Rest()));
            vr.Gave(r, if h.Err? then Err else Whole(DecUint(Recursive(vr), w, h.value), h.rest))
  {
    match th
    case THSingleByte => return Some(VUint(WrapUint(w, length)));
    case THZeroValue => return Some(VUint(0));
    case THPosNumSingle =>
      var buf := ReadPayload(vr, th, length);
      if buf.None? {
        return None;
      }
      return Some(VUint(WrapUint(w, BytesToUint64(buf.value))));
    case _ => return None;
  }

  method ToBool(vr: ValueReader, th: Parsed, length: nat) returns (r: Option<Value>)
    requires vr.Valid()
    modifies vr
    ensures vr.Valid()
    ensures var h := ReadTail(false, th, length, old(vr.Rest()));
            vr.Gave(r, if h.Err? then Err else Whole(DecBool(h.value), h.rest))
  {
    match th
    case THZeroValue => return Some(VBool(false));
    case THTrue => return Some(VBool(true));
    case _ => return None;
  }

  method ToText(vr: ValueReader, th: Parsed, length: nat) returns (r: Option<Value>)
    requires vr.Valid()
    modifies vr
    ensures vr.Valid()
    ensures var h := ReadTail(false, th, length, old(vr.Rest()));
            vr.Gave(r, if h.Err? then Err else Whole(DecString(h.value), h.rest))
  {
    match th
    case THSingleByte => return Some(VString([length % 0x100]));
    case THZeroValue => return Some(VString([]));
    case THStringSingle | THStringMulti =>
      var buf := ReadPayload(vr, th, length);
      if buf.None? {
        return None;
      }
      return Some(VString(buf.value));
    case _ => return None;
  }

  /** Short numbers go through 64 bits: negative ones through int64. */
  method ToSmallBigInt(vr: ValueReader, length: nat, isNegative: bool) returns (r: Option<Value>)
    requires vr.Valid()
    modifies vr
    ensures vr.Valid()
    ensures var buf := Wire.ReadBytes(length, old(vr.Rest()));
            vr.Gave(r, if buf.Err? then Err else
                       Ok(VBig(if isNegative then BytesToInt64(buf.value, true)
                               else BytesToUint64(buf.value)), buf.rest))
  {
    var buf := vr.ReadBytes(length);
    if buf.None? {
      return None;
    }
    if isNegative {
      return Some(VBig(BytesToInt64(buf.value, true)));
    } else {
      return Some(VBig(BytesToUint64(buf.value)));
    }
  }

  method ToBigBigInt(vr: ValueReader, length: nat, isNegative: bool) returns (r: Option<Value>)
    requires vr.Valid()
    modifies vr
    ensures vr.Valid()
    ensures var n := Wire.ReadMultiLength(length, old(vr.Rest()));
            var buf := if n.Err? then Err else Wire.ReadBytes(n.value, n.rest);
            vr.Gave(r, if buf.Err? then Err else Ok(VBig(Signed(isNegative, ValueOf(buf.value))), buf.rest))
  {
    var buf := vr.ReadMultiLengthBytes(length);
    if buf.None? {
      return None;
    }
    var i: int := ValueOf(buf.value);
    if isNegative {
      i := -i;
    }
    return Some(VBig(i));
  }

  /** A big integer whose header byte was read. */
  ghost function BigFrom(c: Decoder, th: Parsed, length: nat, bs: Bytes): Res<Value> {
    var h := ReadTail(c.events, th, length, bs);
    if h.Err? then Err else Whole(DecBigInt(c, h.value), h.rest)
  }

  lemma {:induction false} SmallBigFrom(c: Decoder, th: Parsed, length: nat, bs: Bytes)
    requires !c.events && (th.THPosNumSingle? || th.THNegNumSingle?)
    ensures var buf := Wire.ReadBytes(length, bs);
            BigFrom(c, th, length, bs) ==
            if buf.Err? then Err else
            Ok(VBig(if th.THNegNumSingle? then BytesToInt64(buf.value, true) else BytesToUint64(buf.value)), buf.rest)
  {
  }

  lemma {:induction false} LongBigFrom(c: Decoder, th: Parsed, length: nat, bs: Bytes)
    requires !c.events && (th.THPosBigInt? || th.THNegBigInt?)
    ensures var n := Wire.ReadMultiLength(length, bs);
            var buf := if n.Err? then Err else Wire.ReadBytes(n.value, n.rest);
            BigFrom(c, th, length, bs) ==
            if buf.Err? then Err else Ok(VBig(Signed(th.THNegBigInt?, ValueOf(buf.value))), buf.rest)
  {
  }

  method ToBigInt(vr: ValueReader, th: Parsed, length: nat) returns (r: Option<Value>)
    requires vr.Valid()
    modifies vr
    ensures vr.Valid() && vr.Gave(r, BigFrom(Recursive(vr), th, length, old(vr.Rest())))
  {
    ghost var before := vr.Rest();
    if th.THSingleByte? {
      r := Some(VBig(length));
    } else if th.THZeroValue? {
      r := Some(VNil);
    } else if th.THPosNumSingle? || th.THNegNumSingle? {
      SmallBigFrom(Recursive(vr), th, length, before);
      r := ToSmallBigInt(vr, length, th.THNegNumSingle?);
    } else if th.THPosBigInt? || th.THNegBigInt? {
      LongBigFrom(Recursive(vr), th, length, before);
      r := ToBigBigInt(vr, length, th.THNegBigInt?);
    } else {
      r := None;
    }
  }

  /** The readers of the kinds that have no parts. */
  method ToPlain(vr: ValueReader, th: Parsed, length: nat, t: Type, prev: Value,
                 nesting: nat) returns (r: Option<Value>)
    requires vr.Valid() && (t.TInt? || t.TUint? || t.TBool? || t.TString? || t.TBigInt?) && nesting <= MAX_NESTED
    modifies vr
    ensures vr.Valid() && vr.Gave(r, FromHeader(Recursive(vr), th, length, t, prev, old(vr.Rest()), nesting))
  {
    match t
    case TInt(w) => r := ToInt(vr, th, length, w);
    case TUint(w) => r := ToUint(vr, th, length, w);
    case TBool => r := ToBool(vr, th, length);
    case TString => r := ToText(vr, th, length);
    case TBigInt => r := ToBigInt(vr, th, length);
  }

  // ----- the recursion -----

  /** Decoding an item whose header byte was read already. */
  ghost function FromHeader(c: Decoder, th: Parsed, length: nat, t: Type, prev: Value, bs: Bytes, d: nat): Res<Value> {
    var h := ReadTail(c.events, th, length, bs);
    if h.Err? then Err else DecHead(c, t, prev, h.value, h.rest, d)
  }

  method ValueReader0(vr: ValueReader, t: Type, prev: Value, nesting: nat) returns (r: Option<Value>)
    requires vr.Valid()
    modifies vr
    ensures vr.Valid() && vr.Gave(r, Dec(Recursive(vr), t, prev, old(vr.Rest()), nesting))
    decreases |vr.Rest()|, t, 4
  {
    ghost var before := vr.Rest();
    var h := vr.ReadHeader();
    if h.None? {
      return None;
    }
    var (th, length) := h.value;
    SingleByteSmall(before);
    r := ValueReader1(th, length, vr, t, prev, nesting);
  }

  lemma {:induction false} SingleByteSmall(bs: Bytes)
    ensures var h := Wire.ReadHeader(bs); h.Ok? && h.value.0.THSingleByte? ==> h.value.1 < 0x80
  {
  }

  method ValueReader1(th: Parsed, length: nat, vr: ValueReader, t: Type, prev: Value, nesting: nat)
    returns (r: Option<Value>)
    requires vr.Valid() && (th.THSingleByte? ==> length < 0x100)
    modifies vr
    ensures vr.Valid() && vr.Gave(r, FromHeader(Recursive(vr), th, length, t, prev, old(vr.Rest()), nesting))
    decreases |vr.Rest()|, t, 3
  {
    if nesting > MAX_NESTED {
      return None;
    }
    match t
    case TArray(e, n) => r := ToArrays(th, length, vr, t, Elements(e, n, prev), nesting);
    case TSlice(_) => r := ToSlices(th, length, vr, t, prev, nesting);
    case TMap(_, _) => r := ToMaps(th, length, vr, t, if prev.VMap? then prev.entries else [], nesting);
    case TStruct(fs) => r := ToStructs(th, length, vr, t, FieldValues(fs, prev), nesting);
    case TPtr(_) => r := ToPointers(th, length, vr, t, prev, nesting);
    case _ => r := ToPlain(vr, th, length, t, prev, nesting);
  }

  method ToPointers(th: Parsed, length: nat, vr: ValueReader, t: Type, prev: Value, nesting: nat)
    returns (r: Option<Value>)
    requires vr.Valid() && (th.THSingleByte? ==> length < 0x100) && t.TPtr? && nesting <= MAX_NESTED
    modifies vr
    ensures vr.Valid() && vr.Gave(r, FromHeader(Recursive(vr), th, length, t, prev, old(vr.Rest()), nesting))
    decreases |vr.Rest()|, t, 2
  {
    ghost var before := vr.Rest();
    if th.THZeroValue? {
      ZeroFromHeader(Recursive(vr), t, prev, before, nesting);
      return Some(VNil);
    }
    PointerFromHeader(Recursive(vr), th, length, t, prev, before, nesting);
    var target := if prev.VPtr? then prev.target else Zero(t.elem);
    r := ValueReader1(th, length, vr, t.elem, target, nesting);
    if r.Some? {
      r := Some(VPtr(r.value));
    }
  }

  lemma {:induction false} ZeroFromHeader(c: Decoder, t: Type, prev: Value, bs: Bytes, d: nat)
    requires d <= MAX_NESTED
    ensures FromHeader(c, THZeroValue, 0, t, prev, bs, d) == Ok(Zero(t), bs)
  {
    ZeroHead(c, t, prev, Head(THZeroValue, 0, []), bs, d);
  }

  lemma {:induction false} PointerFromHeader(c: Decoder, th: Parsed, length: nat, t: Type, prev: Value, bs: Bytes,
                                             d: nat)
    requires t.TPtr? && !th.THZeroValue? && d <= MAX_NESTED
    ensures FromHeader(c, th, length, t, prev, bs, d) ==
            var r := FromHeader(c, th, length, t.elem, if prev.VPtr? then prev.target else Zero(t.elem), bs, d);
            if r.Err? then Err else Ok(VPtr(r.value), r.rest)
  {
  }

  /** The count of an array header. */
  method ReadCount(vr: ValueReader, th: Parsed, length: nat) returns (r: Option<nat>)
    requires vr.Valid()
    modifies vr
    ensures vr.Valid() && vr.Gave(r, ReadLength(th, length, old(vr.Rest())))
  {
    if HeaderTypeMap(th).t.VTMultiHeader? {
      r := vr.ReadMultiLength(length);
    } else {
      r := Some(length);
    }
  }

  ghost function ArrayFrom(c: Decoder, th: Parsed, length: nat, t: Type, vals: seq<Value>, bs: Bytes,
                           d: nat): Res<Value>
    requires t.TArray? && |vals| == t.len
  {
    var h := ReadTail(c.events, th, length, bs);
    if h.Err? then Err else DecArray(c, t, vals, h.value, h.rest, d)
  }

  method ToArrays(th: Parsed, length: nat, vr: ValueReader, t: Type, vals: seq<Value>, nesting: nat)
    returns (r: Option<Value>)
    requires vr.Valid() && (th.THSingleByte? ==> length < 0x100) && t.TArray? && |vals| == t.len
    modifies vr
    ensures vr.Valid() && vr.Gave(r, ArrayFrom(Recursive(vr), th, length, t, vals, old(vr.Rest()), nesting))
    decreases |vr.Rest()|, t, 2
  {
    ArrayOfParts(Recursive(vr), th, length, t, vals, vr.Rest(), nesting);
    if th.THZeroValue? {
      return Some(Zero(t));
    }
    if !th.THSingleByte? && !th.IsString() && !th.IsArray() {
      return None;
    }
    var n := ReadCount(vr, th, length);
    if n.None? {
      return None;
    }
    var xs := ToParts(th, n.value, vr, t.elem, vals, nesting);
    if xs.None? {
      return None;
    }
    return Some(VArray(xs.value));
  }

  lemma {:induction false} ArrayOfParts(c: Decoder, th: Parsed, length: nat, t: Type, vals: seq<Value>, bs: Bytes,
                                        d: nat)
    requires !c.events && t.TArray? && |vals| == t.len
    ensures ArrayFrom(c, th, length, t, vals, bs, d) ==
            if th.THZeroValue? then Ok(Zero(t), bs) else
            var n := ReadLength(th, length, bs);
            var r := if n.Err? then Err else Parts(c, th, n.value, t.elem, vals, n.rest, d);
            if r.Err? then Err else Ok(VArray(r.value), r.rest)
  {
    var n := ReadLength(th, length, bs);
    if n.Ok? && th.IsArray() {
      ElemsFromStart(c, t.elem, n.value, vals, n.rest, d + 1);
    }
  }

  /** The elements an array or slice gets, once the length bytes of a long header are read. */
  ghost function Parts(c: Decoder, th: Parsed, n: nat, e: Type, vals: seq<Value>, bs: Bytes, d: nat): Res<seq<Value>> {
    if th.THSingleByte? then Fill(c, e, vals, Head(th, n, []), bs, d)
    else if th.IsString() then
      var buf := Wire.ReadBytes(n, bs);
      if buf.Err? then Err else Fill(c, e, vals, Head(th, n, buf.value), buf.rest, d)
    else if th.IsArray() then ElemsTo(c, e, n, vals, 0, bs, d + 1)
    else Err
  }

  method ToParts(th: Parsed, n: nat, vr: ValueReader, e: Type, vals: seq<Value>, nesting: nat)
    returns (r: Option<seq<Value>>)
    requires vr.Valid() && (th.THSingleByte? || th.IsString() || th.IsArray()) && (th.THSingleByte? ==> n < 0x100)
    modifies vr
    ensures vr.Valid() && vr.Gave(r, Parts(Recursive(vr), th, n, e, vals, old(vr.Rest()), nesting))
    decreases |vr.Rest()|, e, 6
  {
    if th.THSingleByte? {
      r := SingleByteToArray0(n, vr, e, vals, nesting);
    } else if th.IsString() {
      var buf := vr.ReadBytes(n);
      if buf.None? {
        return None;
      }
      r := StringToArray(th, buf.value, vr, e, vals, nesting);
    } else {
      r := ToArray0(n, vr, e, vals, nesting);
    }
  }

  method SingleByteToArray0(length: nat, vr: ValueReader, e: Type, vals: seq<Value>, nesting: nat)
    returns (r: Option<seq<Value>>)
    requires vr.Valid() && length < 0x100
    modifies vr
    ensures vr.Valid()
    ensures vr.Gave(r, Fill(Recursive(vr), e, vals, Head(THSingleByte, length, []), old(vr.Rest()), nesting))
    decreases |vr.Rest()|, e, 5
  {
    FillOne(Recursive(vr), e, vals, length, vr.Rest(), nesting);
    if |vals| >= 1 {
      var x := ValueReader1(THSingleByte, length, vr, e, vals[0], nesting + 1);
      if x.None? {
        return None;
      }
      return Some(vals[0 := x.value]);
    }
    return Some(vals);
  }

  lemma {:induction false} FillOne(c: Decoder, e: Type, vals: seq<Value>, b: byte, bs: Bytes, d: nat)
    requires !c.events
    ensures Fill(c, e, vals, Head(THSingleByte, b, []), bs, d) ==
            if vals == [] then Ok(vals, bs) else
            var r := FromHeader(c, THSingleByte, b, e, vals[0], bs, d + 1);
            if r.Err? then Err else Ok(vals[0 := r.value], r.rest)
  {
    FillIsBytes(c, e, vals, Head(THSingleByte, b, []), bs, d);
    if vals == [] {
      BytesLast(c, e, [b], vals, 0, bs, d + 1);
    } else {
      BytesStep(c, e, [b], vals, 0, bs, d + 1);
      var r := FromHeader(c, THSingleByte, b, e, vals[0], bs, d + 1);
      if r.Ok? {
        BytesLast(c, e, [b], vals[0 := r.value], 1, r.rest, d + 1);
      }
    }
  }

  /** Bytes are copied; elements of another type read each byte as a single-byte item. */
  method StringToArray(ghost th: Parsed, buf: Bytes, vr: ValueReader, e: Type, vals: seq<Value>, nesting: nat)
    returns (r: Option<seq<Value>>)
    requires vr.Valid() && !th.THSingleByte?
    modifies vr
    ensures vr.Valid()
    ensures vr.Gave(r, Fill(Recursive(vr), e, vals, Head(th, |buf|, buf), old(vr.Rest()), nesting))
    decreases |vr.Rest()|, e, 5
  {
    if e == BYTE {
      var m := Min(|buf|, |vals|);
      return Some(ByteValues(buf[..m]) + vals[m..]);
    }
    FillIsBytes(Recursive(vr), e, vals, Head(th, |buf|, buf), vr.Rest(), nesting);
    r := BytesToArray(buf, vr, e, vals, nesting + 1);
  }

  /** The loop over the bytes. */
  method BytesToArray(buf: Bytes, vr: ValueReader, e: Type, vals: seq<Value>,
                      nesting: nat) returns (r: Option<seq<Value>>)
    requires vr.Valid()
    modifies vr
    ensures vr.Valid() && vr.Gave(r, BytesTo(Recursive(vr), e, buf, vals, 0, old(vr.Rest()), nesting))
    decreases |vr.Rest()|, e, 4
  {
    var xs := vals;
    ghost var whole := BytesTo(Recursive(vr), e, buf, vals, 0, vr.Rest(), nesting);
    var i := 0;
    while i < |xs| && i < |buf|
      invariant vr.Valid() && |vr.Rest()| <= |old(vr.Rest())|
      invariant i <= |xs| == |vals| && i <= |buf|
      invariant whole == BytesTo(Recursive(vr), e, buf, xs, i, vr.Rest(), nesting)
    {
      BytesStep(Recursive(vr), e, buf, xs, i, vr.Rest(), nesting);
      var x := ValueReader1(THSingleByte, buf[i], vr, e, xs[i], nesting);
      if x.None? {
        return None;
      }
      xs := xs[i := x.value];
      i := i + 1;
    }
    BytesLast(Recursive(vr), e, buf, xs, i, vr.Rest(), nesting);
    return Some(xs);
  }

  method ToArray0(length: nat, vr: ValueReader, e: Type, vals: seq<Value>, nesting: nat)
    returns (r: Option<seq<Value>>)
    requires vr.Valid()
    modifies vr
    ensures vr.Valid()
    ensures vr.Gave(r, ElemsTo(Recursive(vr), e, length, vals, 0, old(vr.Rest()), nesting + 1))
    decreases |vr.Rest()|, e, 5
  {
    var nesting := nesting + 1;
    var xs := vals;
    ghost var whole := ElemsTo(Recursive(vr), e, length, vals, 0, vr.Rest(), nesting);
    var i := 0;
    while i < length && i < |xs|
      invariant vr.Valid() && |vr.Rest()| <= |old(vr.Rest())|
      invariant i <= |xs| == |vals| && i <= length
      invariant whole == ElemsTo(Recursive(vr), e, length, xs, i, vr.Rest(), nesting)
    {
      ElemsStep(Recursive(vr), e, length, xs, i, vr.Rest(), nesting);
      var x := ValueReader0(vr, e, xs[i], nesting);
      if x.None? {
        return None;
      }
      xs := xs[i := x.value];
      i := i + 1;
    }
    ElemsLast(Recursive(vr), e, length, xs, i, vr.Rest(), nesting);
    return Some(xs);
  }

  ghost function SliceFrom(c: Decoder, th: Parsed, length: nat, t: Type, prev: Value, bs: Bytes, d: nat): Res<Value>
    requires t.TSlice?
  {
    var h := ReadTail(c.events, th, length, bs);
    if h.Err? then Err else DecSlice(c, t, prev, h.value, h.rest, d)
  }

  method ToSlices(th: Parsed, length: nat, vr: ValueReader, t: Type, prev: Value, nesting: nat)
    returns (r: Option<Value>)
    requires vr.Valid() && (th.THSingleByte? ==> length < 0x100) && t.TSlice?
    modifies vr
    ensures vr.Valid() && vr.Gave(r, SliceFrom(Recursive(vr), th, length, t, prev, old(vr.Rest()), nesting))
    decreases |vr.Rest()|, t, 2
  {
    SliceOfParts(Recursive(vr), th, length, t, prev, vr.Rest(), nesting);
    if th.THZeroValue? {
      return Some(VNil);
    }
    if th.THEmpty? {
      return Some(VSlice([], []));
    }
    if !th.THSingleByte? && !th.IsString() && !th.IsArray() {
      return None;
    }
    var n := ReadCount(vr, th, length);
    if n.None? {
      return None;
    }
    var resized := Resize(t.elem, prev, if th.THSingleByte? then 1 else n.value);
    var xs := ToParts(th, n.value, vr, t.elem, resized, nesting);
    if xs.None? {
      return None;
    }
    return Some(Refilled(prev, xs.value));
  }

  lemma {:induction false} SliceOfParts(c: Decoder, th: Parsed, length: nat, t: Type, prev: Value, bs: Bytes, d: nat)
    requires !c.events && t.TSlice?
    ensures SliceFrom(c, th, length, t, prev, bs, d) ==
            if th.THZeroValue? then Ok(VNil, bs)
            else if th.THEmpty? then Ok(VSlice([], []), bs) else
            var n := ReadLength(th, length, bs);
            var r := if n.Err? then Err else
                     Parts(c, th, n.value, t.elem,
                            Resize(t.elem, prev, if th.THSingleByte? then 1 else n.value), n.rest, d);
            if r.Err? then Err else Ok(Refilled(prev, r.value), r.rest)
  {
    var n := ReadLength(th, length, bs);
    if n.Ok? && th.IsArray() {
      var vals := Resize(t.elem, prev, n.value);
      assert vals[..n.value] == vals && vals[n.value..] == [];
      ElemsFromStart(c, t.elem, n.value, vals, n.rest, d + 1);
      var r := DecElems(c, t.elem, vals, n.rest, d + 1);
      assert r.Ok? ==> r.value + [] == r.value;
    }
  }

  ghost function MapFrom(c: Decoder, th: Parsed, length: nat, t: Type, es: seq<Entry>, bs: Bytes, d: nat): Res<Value>
    requires t.TMap?
  {
    var h := ReadTail(c.events, th, length, bs);
    if h.Err? then Err else DecMap(c, t, es, h.value, h.rest, d)
  }

  method ToMaps(th: Parsed, length: nat, vr: ValueReader, t: Type, es: seq<Entry>, nesting: nat)
    returns (r: Option<Value>)
    requires vr.Valid() && t.TMap?
    modifies vr
    ensures vr.Valid() && vr.Gave(r, MapFrom(Recursive(vr), th, length, t, es, old(vr.Rest()), nesting))
    decreases |vr.Rest()|, t, 2
  {
    if th.THZeroValue? {
      return Some(VNil);
    }
    if th.THEmpty? {
      return Some(VMap([]));
    }
    if !th.IsArray() {
      return None;
    }
    var n := ReadCount(vr, th, length);
    if n.None? || n.value % 2 != 0 {
      return None;
    }
    var entries := ToMap0(n.value, vr, t, es, nesting);
    if entries.None? {
      return None;
    }
    return Some(VMap(entries.value));
  }

  /** Keys and values alternate; both are made new for every entry. */
  method ToMap0(length: nat, vr: ValueReader, t: Type, es: seq<Entry>, nesting: nat) returns (r: Option<seq<Entry>>)
    requires vr.Valid() && t.TMap? && length % 2 == 0
    modifies vr
    ensures vr.Valid() && vr.Gave(r, DecEntries(Recursive(vr), t, length / 2, es, old(vr.Rest()), nesting + 1))
    decreases |vr.Rest()|, t, 1
  {
    var nesting := nesting + 1;
    var entries := es;
    ghost var whole := DecEntries(Recursive(vr), t, length / 2, es, vr.Rest(), nesting);
    var i := 0;
    ghost var left: nat := length / 2;
    while i < length
      invariant vr.Valid() && |vr.Rest()| <= |old(vr.Rest())|
      invariant i + 2 * left == length
      invariant whole == DecEntries(Recursive(vr), t, left, entries, vr.Rest(), nesting)
    {
      EntriesStep(Recursive(vr), t, left, entries, vr.Rest(), nesting);
      var more := ToEntry(vr, t, entries, nesting);
      if more.None? {
        return None;
      }
      entries := more.value;
      left := left - 1;
      i := i + 2;
    }
    return Some(entries);
  }

  /** One turn of the loop: a key and its value. */
  method ToEntry(vr: ValueReader, t: Type, es: seq<Entry>, nesting: nat) returns (r: Option<seq<Entry>>)
    requires vr.Valid() && t.TMap?
    modifies vr
    ensures vr.Valid() && vr.Gave(r, DecEntries(Recursive(vr), t, 1, es, old(vr.Rest()), nesting))
    decreases |vr.Rest()|, t, 0
  {
    EntryOnce(Recursive(vr), t, es, vr.Rest(), nesting);
    var key := ValueReader0(vr, t.key, Zero(t.key), nesting);
    if key.None? {
      return None;
    }
    var value := ValueReader0(vr, t.val, Zero(t.val), nesting);
    if value.None? {
      return None;
    }
    return Some(Insert(es, key.value, value.value));
  }

  ghost function StructFrom(c: Decoder, th: Parsed, length: nat, t: Type, vals: seq<Value>, bs: Bytes,
                            d: nat): Res<Value>
    requires t.TStruct? && |vals| == |t.fields|
  {
    var n := ReadLength(th, length, bs);
    if th.THZeroValue? then Ok(Zero(t), bs)
    else if !th.IsArray() || n.Err? then Err
    else DecFields(c, t, 0, 0, n.value, vals, n.rest, d + 1)
  }

  method ToStructs(th: Parsed, length: nat, vr: ValueReader, t: Type, vals: seq<Value>, nesting: nat)
    returns (r: Option<Value>)
    requires vr.Valid() && t.TStruct? && |vals| == |t.fields|
    modifies vr
    ensures vr.Valid() && vr.Gave(r, StructFrom(Recursive(vr), th, length, t, vals, old(vr.Rest()), nesting))
    decreases |vr.Rest()|, t, 2
  {
    if th.THZeroValue? {
      return Some(Zero(t));
    }
    if !th.IsArray() {
      return None;
    }
    var n := ReadCount(vr, th, length);
    if n.None? {
      return None;
    }
    r := ToStruct0(n.value, vr, t, vals, nesting);
  }

  /** Reads the fields that have items and zeroes the others. */
  method ToStruct0(length: nat, vr: ValueReader, t: Type, vals: seq<Value>, nesting: nat) returns (r: Option<Value>)
    requires vr.Valid() && t.TStruct? && |vals| == |t.fields|
    modifies vr
    ensures vr.Valid() && vr.Gave(r, DecFields(Recursive(vr), t, 0, 0, length, vals, old(vr.Rest()), nesting + 1))
    decreases |vr.Rest()|, t, 1
  {
    var ok, nextIndex, fields := ReadFields(length, vr, t, vals, nesting + 1);
    if !ok {
      return None;
    }
    r := ZeroFields(vr, t, nextIndex, fields, nesting + 1);
  }

  /** What a struct is when its fields from k on have no item. */
  ghost function FieldsDone(t: Type, k: nat, vs: seq<Value>, bs: Bytes, d: nat): Res<Value>
    requires t.TStruct? && k <= |vs| == |t.fields|
  {
    if k < |vs| && d > MAX_NESTED then Err else Ok(VStruct(vs[..k] + Zeros(t.fields)[k..]), bs)
  }

  /**
   Reads the item of each field's order and skips the items between. With strictly increasing orders the
   data index never passes the next field's order.
   */
  method ReadFields(length: nat, vr: ValueReader, t: Type, vals: seq<Value>, nesting: nat)
    returns (ok: bool, nextIndex: nat, fields: seq<Value>)
    requires vr.Valid() && t.TStruct? && |vals| == |t.fields|
    modifies vr
    ensures vr.Valid() && nextIndex <= |fields| == |t.fields| && (ok ==> |vr.Rest()| <= |old(vr.Rest())|)
    ensures DecFields(Recursive(vr), t, 0, 0, length, vals, old(vr.Rest()), nesting) ==
            if ok then FieldsDone(t, nextIndex, fields, vr.Rest(), nesting) else Err
    decreases |vr.Rest()|, t, 1, 0
  {
    ghost var whole := DecFields(Recursive(vr), t, 0, 0, length, vals, vr.Rest(), nesting);
    nextIndex, fields, ok := 0, vals, true;
    var i := 0;
    while ok && i < length && nextIndex < |fields|
      invariant vr.Valid() && (ok ==> |vr.Rest()| <= |old(vr.Rest())|)
      invariant i <= length && nextIndex <= |fields| == |vals|
      invariant ok && StrictlyIncreasing(Orders(t.fields)) ==> Cursor(t.fields, nextIndex, i)
      invariant whole ==
                if ok then DecFields(Recursive(vr), t, nextIndex, i, length, fields, vr.Rest(), nesting) else Err
      decreases ok, length - i
    {
      ok, nextIndex, fields := ToField(vr, t, nextIndex, i, length, fields, nesting);
      i := i + 1;
    }
    FieldsEnd(Recursive(vr), t, nextIndex, i, length, fields, vr.Rest(), nesting);
  }

  lemma {:induction false} FieldsEnd(c: Decoder, t: Type, k: nat, i: nat, size: nat, vs: seq<Value>, bs: Bytes, d: nat)
    requires !c.events && t.TStruct? && k <= |vs| == |t.fields| && i <= size
    ensures k == |vs| || i == size ==> DecFields(c, t, k, i, size, vs, bs, d) == FieldsDone(t, k, vs, bs, d)
  {
  }

  /** One turn of the loop: item i, when the next field is k. */
  method ToField(vr: ValueReader, t: Type, k: nat, i: nat, length: nat, vals: seq<Value>, nesting: nat)
    returns (ok: bool, next: nat, fields: seq<Value>)
    requires vr.Valid() && t.TStruct? && k < |vals| == |t.fields| && i < length
    requires StrictlyIncreasing(Orders(t.fields)) ==> Cursor(t.fields, k, i)
    modifies vr
    ensures vr.Valid() && next <= |fields| == |t.fields|
    ensures StrictlyIncreasing(Orders(t.fields)) && ok ==> Cursor(t.fields, next, i + 1)
    ensures ok ==> |vr.Rest()| <= |old(vr.Rest())|
    ensures DecFields(Recursive(vr), t, k, i, length, vals, old(vr.Rest()), nesting) ==
            if ok then DecFields(Recursive(vr), t, next, i + 1, length, fields, vr.Rest(), nesting) else Err
    decreases |vr.Rest()|, t, 0
  {
    next, fields := k, vals;
    FieldsStep(Recursive(vr), t, k, i, length, vals, vr.Rest(), nesting);
    var nextOrder := t.fields[k].order;
    if i == nextOrder {
      var x := ValueReader0(vr, t.fields[k].typ, vals[k], nesting);
      if x.None? {
        return false, next, fields;
      }
      if StrictlyIncreasing(Orders(t.fields)) {
        CursorNext(t.fields, k, i);
      }
      return true, k + 1, vals[k := x.value];
    } else if i < nextOrder {
      var _, skipped := vr.Skip();
      return skipped, next, fields;
    } else {
      assert !StrictlyIncreasing(Orders(t.fields));
      return false, next, fields;
    }
  }

  lemma {:induction false} ZeroedNext(fs: seq<Field>, k: nat, vals: seq<Value>, fields: seq<Value>, i: nat)
    requires k <= i < |fs| == |vals| == |fields| && fields[i] == Zero(fs[i].typ)
    requires fields[..i] == (vals[..k] + Zeros(fs)[k..])[..i]
    ensures fields[..i + 1] == (vals[..k] + Zeros(fs)[k..])[..i + 1]
  {
    var whole := vals[..k] + Zeros(fs)[k..];
    assert whole[i] == Zeros(fs)[i];
    assert fields[..i + 1] == fields[..i] + [fields[i]] && whole[..i + 1] == whole[..i] + [whole[i]];
  }

  /** Zeroes the fields from k on. */
  method ZeroFields(vr: ValueReader, t: Type, k: nat, vals: seq<Value>, nesting: nat) returns (r: Option<Value>)
    requires vr.Valid() && t.TStruct? && k <= |vals| == |t.fields|
    modifies vr
    ensures vr.Valid()
    ensures vr.Gave(r, FieldsDone(t, k, vals, old(vr.Rest()), nesting))
    decreases |vr.Rest()|, t, 0
  {
    var fields := vals;
    for i := k to |vals|
      invariant vr.Valid() && vr.Rest() == old(vr.Rest())
      invariant |fields| == |vals| && fields[..i] == (vals[..k] + Zeros(t.fields)[k..])[..i]
      invariant i > k ==> nesting <= MAX_NESTED
    {
      if nesting <= MAX_NESTED {
        ZeroFromHeader(Recursive(vr), t.fields[i].typ, fields[i], vr.Rest(), nesting);
      }
      var x := ValueReader1(THZeroValue, 0, vr, t.fields[i].typ, fields[i], nesting);
      if x.None? {
        return None;
      }
      fields := fields[i := x.value];
      ZeroedNext(t.fields, k, vals, fields, i);
    }
    assert fields == fields[..|vals|] == vals[..k] + Zeros(t.fields)[k..];
    return Some(VStruct(fields));
  }
}
