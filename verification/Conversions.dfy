/** What items of any kind become in a destination of another: which are taken, and what numbers turn into. */
module Conversions {
  import opened Numeric
  import opened Headers
  import opened Wrappers
  import opened Wire
  import opened Values
  import opened Encoding
  import opened Decoding
  import opened Cursors
  import opened RoundTrip

  // ----- numbers -----

  /** The number an item stands for. */
  function NumberOf(w: Item): Option<int> {
    match w
    case WByte(b) => Some(b)
    case WZero => Some(0)
    case WNum(negative, bs) => Some(Signed(negative, ValueOf(bs)))
    case _ => None
  }

  /** At most eight bytes of digits. */
  predicate Short(w: Item) {
    w.WNum? ==> |w.bs| <= 8
  }

  /** k times the number of values of the kind. */
  function Times(k: int, w: Width): int {
    k * Modulus(w)
  }

  /** The same number up to a multiple of the number of values of the kind. */
  ghost predicate Congruent(w: Width, x: int, n: int) {
    exists k: int :: x == n + Times(k, w)
  }

  lemma {:induction false} DivisionIs(y: int, m: nat)
    requires m > 0
    ensures y == y / m * m + y % m
  {
  }

  lemma {:induction false} RemainderCongruent(w: Width, y: int)
    ensures Congruent(w, y % Modulus(w), y)
  {
    var k := y / Modulus(w);
    DivisionIs(y, Modulus(w));
    TimesNegated(k, w);
    assert y % Modulus(w) == y + Times(-k, w);
  }

  lemma {:induction false} TimesNegated(k: int, w: Width)
    ensures Times(-k, w) == -Times(k, w)
  {
  }

  lemma {:induction false} TimesSum(j: int, k: int, w: Width)
    ensures Times(j + k, w) == Times(j, w) + Times(k, w)
  {
  }

  lemma {:induction false} WrapIntCongruent(w: Width, i: int)
    ensures Congruent(w, WrapInt(w, i), i)
  {
    var half := Modulus(w) / 2;
    RemainderCongruent(w, i + half);
    var k :| (i + half) % Modulus(w) == i + half + Times(k, w);
    assert WrapInt(w, i) == i + Times(k, w);
  }

  /** How many times the values of the kind go into those of 64 bits. */
  lemma {:induction false} WholeTimes(w: Width) returns (q: int)
    ensures Times(q, w) == TWO_TO_THE_64
  {
    match w
    case W8 => q := 0x100_0000_0000_0000;
    case W16 => q := 0x1_0000_0000_0000;
    case W32 => q := 0x1_0000_0000;
    case W64 => q := 1;
  }

  /** 2^64 more does not matter. */
  lemma {:induction false} CongruentShift(w: Width, x: int, n: int)
    requires Congruent(w, x, n)
    ensures Congruent(w, x, n + TWO_TO_THE_64)
  {
    var k :| x == n + Times(k, w);
    var q := WholeTimes(w);
    TimesSum(k, -q, w);
    TimesNegated(q, w);
    assert x == n + TWO_TO_THE_64 + Times(k - q, w);
  }

  /** The number as int64 sees it: the sign of one below -2^63 is lost. */
  function AsInt64(n: int): int {
    if n < -TWO_TO_THE_63 then -n else n
  }

  lemma {:induction false} Int64Value(negative: bool, bs: Bytes)
    requires |bs| <= 8
    ensures var v, n := BytesToInt64(bs, negative), AsInt64(Signed(negative, ValueOf(bs)));
            v == n || v == n - TWO_TO_THE_64
  {
    EightBytesBound(bs);
    WrapInt64(ValueOf(bs));
  }

  /** Any number into a signed kind: in range, and the number up to a multiple of the kind's size. */
  lemma {:induction false} IntOfNumber(w: Width, negative: bool, bs: Bytes)
    requires |bs| <= 8
    ensures var x := WrapInt(w, BytesToInt64(bs, negative));
            InIntRange(w, x) && Congruent(w, x, AsInt64(Signed(negative, ValueOf(bs))))
  {
    var v := BytesToInt64(bs, negative);
    Int64Value(negative, bs);
    WrapIntCongruent(w, v);
    CongruentShift(w, WrapInt(w, v), v);
  }

  /** The outcome of decoding a whole item. */
  function Decoded(c: Decoder, t: Type, w: Item, prev: Value, d: nat, tail: Bytes): Res<Value> {
    Dec(c, t, prev, ItemBytes(w) + tail, d)
  }

  /** The item can be begun: its length is accepted, and the depth. */
  predicate Begins(c: Decoder, w: Item, d: nat) {
    Valid(w) && LengthOk(c, w) && (c.events || d <= MAX_NESTED)
  }

  lemma {:induction false} PlainDecodes(c: Decoder, t: Type, w: Item, prev: Value, d: nat, tail: Bytes)
    requires Begins(c, w, d) && !w.WArr?
    ensures Decoded(c, t, w, prev, d, tail) == DecHead(c, t, prev, HeadOf(w), tail, d)
  {
    assert [] + tail == tail;
    FromHead(c, t, w, d, prev, tail);
  }

  /**
   Any item into a signed kind: numbers of up to eight bytes are taken, narrowed to the kind; nothing else is.
   */
  lemma {:induction false} IntoInt(c: Decoder, w: Width, item: Item, prev: Value, d: nat, tail: Bytes)
    requires Begins(c, item, d)
    ensures var r := Decoded(c, TInt(w), item, prev, d, tail);
            && (r.Ok? <==> NumberOf(item).Some? && Short(item))
            && (r.Ok? ==> r.rest == tail && r.value.VInt? && InIntRange(w, r.value.i) &&
                          Congruent(w, r.value.i, AsInt64(NumberOf(item).value)))
  {
    if item.WArr? {
      ArrayRefused(c, TInt(w), item, prev, d, tail);
    } else {
      PlainDecodes(c, TInt(w), item, prev, d, tail);
      IntOfItem(c, w, item);
    }
  }

  lemma {:induction false} IntOfItem(c: Decoder, w: Width, item: Item)
    requires Valid(item) && !item.WArr?
    ensures var x := DecInt(c, w, HeadOf(item));
            && (x.Some? <==> NumberOf(item).Some? && Short(item))
            && (x.Some? ==> x.value.VInt? && InIntRange(w, x.value.i) &&
                            Congruent(w, x.value.i, AsInt64(NumberOf(item).value)))
  {
    if item.WNum? {
      NumberHead(c, w, item.negative, item.bs);
      if |item.bs| <= 8 {
        IntOfNumber(w, item.negative, item.bs);
      }
    } else {
      IntOfByte(c, w, item);
    }
  }

  lemma {:induction false} IntOfByte(c: Decoder, w: Width, item: Item)
    requires Valid(item) && !item.WArr? && !item.WNum?
    ensures var x := DecInt(c, w, HeadOf(item));
            && (x.Some? <==> NumberOf(item).Some?)
            && (x.Some? ==> x.value == VInt(NumberOf(item).value) && 0 <= NumberOf(item).value < 0x80 &&
                            InIntRange(w, x.value.i) && Congruent(w, x.value.i, NumberOf(item).value))
  {
    if item.WByte? {
      SmallInt(w, item.b);
    } else if item.WZero? {
      SmallInt(w, 0);
    }
  }

  lemma {:induction false} NumberHead(c: Decoder, w: Width, negative: bool, bs: Bytes)
    requires bs != []
    ensures DecInt(c, w, HeadOf(WNum(negative, bs))) ==
            if |bs| <= 8 then Some(VInt(WrapInt(w, BytesToInt64(bs, negative)))) else None
  {
  }

  lemma {:induction false} SmallInt(w: Width, b: nat)
    requires b < 0x80
    ensures InIntRange(w, b) && WrapInt(w, b) == b && Congruent(w, b, b)
  {
    assert b == b + Times(0, w);
  }

  lemma {:induction false} ArrayRefused(c: Decoder, t: Type, w: Item, prev: Value, d: nat, tail: Bytes)
    requires Begins(c, w, d) && w.WArr? && (t.TInt? || t.TUint? || t.TBool? || t.TString? || t.TBigInt?)
    ensures Decoded(c, t, w, prev, d, tail) == Err
  {
    FromHead(c, t, w, d, prev, tail);
    HeadRefusesArray(c, t, w, prev, BodyOf(w) + tail, d);
  }

  /** Any item into an unsigned kind: the same for numbers without a sign; negative numbers are refused. */
  lemma {:induction false} IntoUint(c: Decoder, w: Width, item: Item, prev: Value, d: nat, tail: Bytes)
    requires Begins(c, item, d)
    ensures var r := Decoded(c, TUint(w), item, prev, d, tail);
            && (r.Ok? <==> NumberOf(item).Some? && Short(item) && !(item.WNum? && item.negative))
            && (r.Ok? ==> r.rest == tail && r.value.VUint? && r.value.u < Modulus(w) &&
                          Congruent(w, r.value.u, NumberOf(item).value))
  {
    if item.WArr? {
      ArrayRefused(c, TUint(w), item, prev, d, tail);
    } else {
      PlainDecodes(c, TUint(w), item, prev, d, tail);
      UintOfItem(c, w, item);
    }
  }

  lemma {:induction false} UintOfItem(c: Decoder, w: Width, item: Item)
    requires Valid(item) && !item.WArr?
    ensures var x := DecUint(c, w, HeadOf(item));
            && (x.Some? <==> NumberOf(item).Some? && Short(item) && !(item.WNum? && item.negative))
            && (x.Some? ==> x.value.VUint? && x.value.u < Modulus(w) && Congruent(w, x.value.u, NumberOf(item).value))
  {
    if item.WNum? {
      UnsignedHead(c, w, item.negative, item.bs);
      RemainderCongruent(w, ValueOf(item.bs));
    } else if item.WByte? {
      SmallUint(w, item.b);
    } else if item.WZero? {
      SmallUint(w, 0);
    }
  }

  lemma {:induction false} UnsignedHead(c: Decoder, w: Width, negative: bool, bs: Bytes)
    requires bs != []
    ensures DecUint(c, w, HeadOf(WNum(negative, bs))) ==
            if !negative && |bs| <= 8 then Some(VUint(WrapUint(w, ValueOf(bs)))) else None
  {
  }

  lemma {:induction false} SmallUint(w: Width, b: nat)
    requires b < 0x80
    ensures b < Modulus(w) && WrapUint(w, b) == b && Congruent(w, b, b)
  {
    assert b == b + Times(0, w);
  }

  /**
   Any item into a big integer: every number is taken as it is, except that the recursive reader changes short
   ones below -2^63; Zero gives nil, and nothing else is taken.
   */
  lemma {:induction false} IntoBig(c: Decoder, item: Item, prev: Value, d: nat, tail: Bytes)
    requires Begins(c, item, d)
    ensures Decoded(c, TBigInt, item, prev, d, tail) ==
            if item == WZero then Ok(VNil, tail)
            else if NumberOf(item).None? then Err
            else
              var n := NumberOf(item).value;
              Ok(VBig(if !c.events && Short(item) && n < -TWO_TO_THE_63 then -n - TWO_TO_THE_64 else n), tail)
  {
    if item.WArr? {
      ArrayRefused(c, TBigInt, item, prev, d, tail);
    } else {
      PlainDecodes(c, TBigInt, item, prev, d, tail);
      BigOfItem(c, item);
    }
  }

  lemma {:induction false} BigOfItem(c: Decoder, item: Item)
    requires Valid(item) && !item.WArr?
    ensures DecBigInt(c, HeadOf(item)) ==
            if item == WZero then Some(VNil)
            else if NumberOf(item).None? then None
            else
              var n := NumberOf(item).value;
              Some(VBig(if !c.events && Short(item) && n < -TWO_TO_THE_63 then -n - TWO_TO_THE_64 else n))
  {
    if item.WNum? {
      BigHead(c, item.negative, item.bs);
    }
  }

  lemma {:induction false} BigHead(c: Decoder, negative: bool, bs: Bytes)
    requires bs != []
    ensures var n := Signed(negative, ValueOf(bs));
            DecBigInt(c, HeadOf(WNum(negative, bs))) ==
            Some(VBig(if !c.events && |bs| <= 8 && n < -TWO_TO_THE_63 then -n - TWO_TO_THE_64 else n))
  {
    if |bs| <= 8 {
      ShortBig(negative, bs);
    }
  }

  lemma {:induction false} ShortBig(negative: bool, bs: Bytes)
    requires |bs| <= 8
    ensures BytesToUint64(bs) == ValueOf(bs)
    ensures var n: int := ValueOf(bs); BytesToInt64(bs, true) == if n > TWO_TO_THE_63 then n - TWO_TO_THE_64 else -n
  {
    EightBytesBound(bs);
    WrapInt64(ValueOf(bs));
  }

  /** Every uint64, into an unsigned kind of any width. */
  lemma {:induction false} UintNarrowed(c: Decoder, w: Width, u: nat, prev: Value, d: nat, tail: Bytes)
    requires u < TWO_TO_THE_64 && (c.events || d <= MAX_NESTED)
    ensures var r := Decoded(c, TUint(w), WireOf(TUint(W64), VUint(u)), prev, d, tail);
            r.Ok? && r.rest == tail && r.value.VUint? && r.value.u < Modulus(w) && Congruent(w, r.value.u, u)
  {
    NumberIs(false, u);
    IntoUint(c, w, NumberItem(false, u), prev, d, tail);
  }

  /** Every int64, into a signed kind of any width. */
  lemma {:induction false} IntNarrowed(c: Decoder, w: Width, i: int, prev: Value, d: nat, tail: Bytes)
    requires InIntRange(W64, i) && (c.events || d <= MAX_NESTED)
    ensures var r := Decoded(c, TInt(w), WireOf(TInt(W64), VInt(i)), prev, d, tail);
            r.Ok? && r.rest == tail && r.value.VInt? && InIntRange(w, r.value.i) && Congruent(w, r.value.i, i)
  {
    NumberIs(i < 0, Abs(i));
    IntoInt(c, w, NumberItem(i < 0, Abs(i)), prev, d, tail);
  }

  lemma {:induction false} NumberIs(negative: bool, u: nat)
    requires u < TWO_TO_THE_64
    ensures var w := NumberItem(negative, u);
            && Valid(w) && HeadOf(w).n <= MAX_INT32 && Short(w) && NumberOf(w) == Some(Signed(negative, u))
            && (w.WNum? ==> w.negative == negative)
  {
    NumberFits(u);
    ValueOfUintBytes(u);
  }

  /**
   A number of up to eight bytes under a long header, which no writer makes: the event decoder takes it as under
   a short one, the recursive reader refuses it for ints and uints.
   */
  lemma {:induction false} LongForm(c: Decoder, w: Width, negative: bool, bs: Bytes)
    requires |bs| <= 8
    ensures var long, short := Head(Sign(negative).Multi(), |bs|, bs), Head(Sign(negative).Single(), |bs|, bs);
            && DecInt(c, w, long) == (if c.events then DecInt(c, w, short) else None)
            && DecUint(c, w, long) == (if c.events then DecUint(c, w, short) else None)
            && DecBigInt(c, long) == Some(VBig(Signed(negative, ValueOf(bs))))
  {
  }

  // ----- bools and strings -----

  lemma {:induction false} IntoBool(c: Decoder, item: Item, prev: Value, d: nat, tail: Bytes)
    requires Begins(c, item, d)
    ensures Decoded(c, TBool, item, prev, d, tail) ==
            if item == WZero then Ok(VBool(false), tail) else if item == WTrue then Ok(VBool(true), tail) else Err
  {
    if item.WArr? {
      ArrayRefused(c, TBool, item, prev, d, tail);
    } else {
      PlainDecodes(c, TBool, item, prev, d, tail);
    }
  }

  /** The bytes an item stands for. */
  function TextOf(w: Item): Option<Bytes> {
    match w
    case WByte(b) => Some([b])
    case WZero => Some([])
    case WStr(bs) => Some(bs)
    case _ => None
  }

  lemma {:induction false} IntoString(c: Decoder, item: Item, prev: Value, d: nat, tail: Bytes)
    requires Begins(c, item, d)
    ensures Decoded(c, TString, item, prev, d, tail) ==
            if TextOf(item).Some? then Ok(VString(TextOf(item).value), tail) else Err
  {
    if item.WArr? {
      ArrayRefused(c, TString, item, prev, d, tail);
    } else {
      PlainDecodes(c, TString, item, prev, d, tail);
    }
  }

  // ----- types with parts -----

  /** The items a type with parts can take. */
  predicate Takes(t: Type, w: Item) {
    match t
    case TArray(_, _) => w.WZero? || w.WArr? || w.WStr? || w.WByte?
    case TSlice(_) => w.WZero? || w.WEmpty? || w.WArr? || w.WStr? || w.WByte?
    case TMap(_, _) => w.WZero? || w.WEmpty? || (w.WArr? && |w.items| % 2 == 0)
    case TStruct(_) => w.WZero? || w.WArr?
    case TPtr(e) => w.WZero? || Takes(e, w)
    case TInt(_) => NumberOf(w).Some? && Short(w)
    case TUint(_) => NumberOf(w).Some? && Short(w) && !(w.WNum? && w.negative)
    case TBool => w.WZero? || w.WTrue?
    case TString => TextOf(w).Some?
    case TBigInt => NumberOf(w).Some?
  }

  /** Every other item is refused. */
  lemma {:induction false} Refuses(c: Decoder, t: Type, w: Item, prev: Value, d: nat, tail: Bytes)
    requires Begins(c, w, d) && !Takes(t, w)
    ensures Decoded(c, t, w, prev, d, tail) == Err
  {
    FromHead(c, t, w, d, prev, tail);
    HeadRefuses(c, t, w, prev, BodyOf(w) + tail, d);
  }

  lemma {:induction false} HeadRefuses(c: Decoder, t: Type, w: Item, prev: Value, bs: Bytes, d: nat)
    requires !Takes(t, w)
    ensures DecHead(c, t, prev, HeadOf(w), bs, d) == Err
    decreases t
  {
    if t.TPtr? {
      HeadRefuses(c, t.elem, w, OldTarget(t.elem, prev), bs, d);
    } else if w.WArr? {
      HeadRefusesArray(c, t, w, prev, bs, d);
    } else if t.TArray? || t.TSlice? || t.TMap? || t.TStruct? {
      PartsRefuse(c, t, w, prev, bs, d);
    } else {
      PlainRefuses(c, t, w, prev, bs, d);
    }
  }

  lemma {:induction false} PartsRefuse(c: Decoder, t: Type, w: Item, prev: Value, bs: Bytes, d: nat)
    requires !Takes(t, w) && !w.WArr? && (t.TArray? || t.TSlice? || t.TMap? || t.TStruct?)
    ensures DecHead(c, t, prev, HeadOf(w), bs, d) == Err
  {
  }

  lemma {:induction false} PlainRefuses(c: Decoder, t: Type, w: Item, prev: Value, bs: Bytes, d: nat)
    requires !Takes(t, w) && !w.WArr? && (t.TInt? || t.TUint? || t.TBool? || t.TString? || t.TBigInt?)
    ensures DecHead(c, t, prev, HeadOf(w), bs, d) == Err
  {
  }

  lemma {:induction false} HeadRefusesArray(c: Decoder, t: Type, w: Item, prev: Value, bs: Bytes, d: nat)
    requires !Takes(t, w) && w.WArr? && !t.TPtr?
    ensures DecHead(c, t, prev, HeadOf(w), bs, d) == Err
  {
  }

  // ----- strings into numbers -----

  predicate IsNumeric(e: Type) {
    e.TInt? || (e.TUint? && e != BYTE)
  }

  /** The value is the number b in this kind. */
  ghost predicate Holding(e: Type, v: Value, b: nat) {
    if e.TInt? then v.VInt? && InIntRange(e.w, v.i) && Congruent(e.w, v.i, b)
    else e.TUint? && v.VUint? && v.u < Modulus(e.w) && Congruent(e.w, v.u, b)
  }

  ghost predicate AllHolding(e: Type, vs: seq<Value>, bs: Bytes) {
    |vs| == |bs| && forall i | 0 <= i < |vs| :: Holding(e, vs[i], bs[i])
  }

  lemma {:induction false} ByteInto(c: Decoder, e: Type, b: byte, prev: Value, bs: Bytes, d: nat)
    requires IsNumeric(e)
    ensures var r := DecHead(c, e, prev, Head(THSingleByte, b, []), bs, d);
            if c.events || d <= MAX_NESTED then r.Ok? && r.rest == bs && Holding(e, r.value, b) else r == Err
  {
    if e.TInt? {
      WrapIntCongruent(e.w, b);
    } else {
      RemainderCongruent(e.w, b);
    }
  }

  lemma {:induction false} BytesInto(c: Decoder, e: Type, prevs: seq<Value>, buf: Bytes, bs: Bytes, d: nat)
    requires IsNumeric(e) && |prevs| == |buf|
    ensures var r := DecBytes(c, e, prevs, buf, bs, d);
            if c.events || d <= MAX_NESTED || buf == [] then r.Ok? && r.rest == bs && AllHolding(e, r.value, buf)
            else r == Err
    decreases |buf|
  {
    if buf != [] {
      ByteInto(c, e, buf[0], prevs[0], bs, d);
      BytesInto(c, e, prevs[1..], buf[1..], bs, d);
    } else {
      BytesDone(c, e, bs, d);
    }
  }

  /** A string, or a lone byte, into a slice of numbers: each byte is a number, one level deeper. */
  lemma {:induction false} TextIntoSlice(c: Decoder, e: Type, w: Item, prev: Value, d: nat, tail: Bytes)
    requires IsNumeric(e) && Begins(c, w, d) && (w.WStr? || w.WByte?)
    ensures var r, s := Decoded(c, TSlice(e), w, prev, d, tail), TextOf(w).value;
            if c.events || d < MAX_NESTED then
              r.Ok? && r.rest == tail && r.value.VSlice? && AllHolding(e, r.value.elems, s)
            else r == Err
  {
    var s := TextOf(w).value;
    TextHead(w);
    PlainDecodes(c, TSlice(e), w, prev, d, tail);
    SliceFromFill(c, TSlice(e), HeadOf(w), d, prev, tail);
    FillInto(c, e, Resize(e, prev, |s|), HeadOf(w), s, tail, d, d + 1);
  }

  lemma {:induction false} TextHead(w: Item)
    requires Valid(w) && (w.WStr? || w.WByte?)
    ensures var h := HeadOf(w); (h.th.THSingleByte? || h.th.IsString()) && Text(h) == TextOf(w).value != []
  {
  }

  lemma {:induction false} FillInto(c: Decoder, e: Type, prevs: seq<Value>, h: Head, s: Bytes, bs: Bytes, d: nat,
                                    inner: nat)
    requires IsNumeric(e) && Text(h) == s != [] && |prevs| == |s| && inner == d + 1
    ensures var r := Fill(c, e, prevs, h, bs, d);
            if c.events || d < MAX_NESTED then r.Ok? && r.rest == bs && AllHolding(e, r.value, s) else r == Err
  {
    BytesInto(c, e, prevs, s, bs, inner);
    FillIs(c, e, prevs, h, bs, d, inner);
  }

  lemma {:induction false} FillIs(c: Decoder, e: Type, prevs: seq<Value>, h: Head, bs: Bytes, d: nat, inner: nat)
    requires e != BYTE && |prevs| == |Text(h)| && inner == d + 1
    ensures Fill(c, e, prevs, h, bs, d) == DecBytes(c, e, prevs, Text(h), bs, inner)
  {
    assert prevs[..|prevs|] == prevs && prevs[|prevs|..] == [] && Text(h)[..|prevs|] == Text(h);
    var r := DecBytes(c, e, prevs, Text(h), bs, inner);
    assert r.Ok? ==> r.value + [] == r.value;
  }

  /**
   The same into an array: as many bytes as fit, the other elements as they were; bytes that do not fit are
   dropped.
   */
  lemma {:induction false} TextIntoArray(c: Decoder, e: Type, w: Item, prevs: seq<Value>, d: nat, tail: Bytes)
    requires IsNumeric(e) && Begins(c, w, d) && (w.WStr? || w.WByte?)
    ensures var r, s := Decoded(c, TArray(e, |prevs|), w, VArray(prevs), d, tail), TextOf(w).value;
            var k := Min(|s|, |prevs|);
            if c.events || d < MAX_NESTED || prevs == [] then
              r.Ok? && r.rest == tail && r.value.VArray? && Filled(e, r.value.elems, s[..k], prevs)
            else r == Err
  {
    var t := TArray(e, |prevs|);
    TextHead(w);
    PlainDecodes(c, t, w, VArray(prevs), d, tail);
    ArrayFromFill(c, t, HeadOf(w), d, prevs, tail);
    FillPart(c, e, prevs, HeadOf(w), TextOf(w).value, tail, d, d + 1);
  }

  /** Elements that hold the bytes s, with the rest of prevs behind them. */
  ghost predicate Filled(e: Type, xs: seq<Value>, s: Bytes, prevs: seq<Value>) {
    |s| <= |prevs| == |xs| && AllHolding(e, xs[..|s|], s) && xs[|s|..] == prevs[|s|..]
  }

  lemma {:induction false} FillPart(c: Decoder, e: Type, prevs: seq<Value>, h: Head, s: Bytes, bs: Bytes, d: nat,
                                    inner: nat)
    requires IsNumeric(e) && Text(h) == s != [] && inner == d + 1
    ensures var r, k := Fill(c, e, prevs, h, bs, d), Min(|s|, |prevs|);
            if c.events || d < MAX_NESTED || prevs == [] then r.Ok? && r.rest == bs && Filled(e, r.value, s[..k], prevs)
            else r == Err
  {
    var k := Min(|s|, |prevs|);
    BytesInto(c, e, prevs[..k], s[..k], bs, inner);
    var r := DecBytes(c, e, prevs[..k], s[..k], bs, inner);
    if r.Ok? {
      assert (r.value + prevs[k..])[..k] == r.value && (r.value + prevs[k..])[k..] == prevs[k..];
    }
  }
}
