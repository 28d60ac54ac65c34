/** Decoding what the encoder wrote: exactly when it succeeds, and exactly what it gives back. */
module RoundTrip {
  import opened Numeric
  import opened Headers
  import opened Wrappers
  import opened Wire
  import opened Skipping
  import opened Values
  import opened Layout
  import opened Encoding
  import opened Decoding
  import opened Schema
  import opened Cursors

  // ----- what comes back -----

  /**
   The value a decoder gives back for a written one. A pointer to something written as a Zero item comes
   back nil, spare capacity is not written, and the recursive reader mistakes big integers in the gap.
   */
  function Restored(c: Decoder, t: Type, v: Value): Value
    decreases t, 1
  {
    match (t, v)
    case (TBigInt, VBig(i)) => VBig(if !c.events && InBigGap(i) then -i - TWO_TO_THE_64 else i)
    case (TArray(e, _), VArray(vs)) => VArray(RestoredAll(c, e, vs))
    case (TSlice(e), VSlice(vs, _)) => VSlice(RestoredAll(c, e, vs), [])
    case (TMap(_, _), VMap(es)) => VMap(RestoredEntries(c, t, es))
    case (TStruct(fs), VStruct(vs)) => if |fs| == |vs| then VStruct(RestoredFields(c, t, vs)) else v
    case (TPtr(e), VPtr(x)) => if WireOf(e, x) == WZero then VNil else VPtr(Restored(c, e, x))
    case _ => v
  }

  function RestoredAll(c: Decoder, e: Type, vs: seq<Value>): (xs: seq<Value>)
    ensures |xs| == |vs|
    decreases e, 2
  {
    seq(|vs|, i requires 0 <= i < |vs| => Restored(c, e, vs[i]))
  }

  function RestoredEntries(c: Decoder, t: Type, es: seq<Entry>): (rs: seq<Entry>)
    requires t.TMap?
    ensures |rs| == |es|
    decreases t, 0
  {
    seq(|es|, i requires 0 <= i < |es| => Entry(Restored(c, t.key, es[i].key), Restored(c, t.val, es[i].value)))
  }

  function RestoredFields(c: Decoder, t: Type, vs: seq<Value>): (xs: seq<Value>)
    requires t.TStruct? && |t.fields| == |vs|
    ensures |xs| == |vs|
    decreases t, 0
  {
    seq(|vs|, i requires 0 <= i < |vs| => Restored(c, t.fields[i].typ, vs[i]))
  }

  /**
   The value a destination that held prev ends with. Elements, fields and targets land where they were, and
   the entries of a map are added to those it had, except that an empty map is made new.
   */
  function Landed(c: Decoder, t: Type, v: Value, prev: Value): Value
    decreases t, 3
  {
    match (t, v)
    case (TArray(e, _), VArray(vs)) => VArray(LandedAll(c, e, vs, Elements(e, |vs|, prev)))
    case (TSlice(e), VSlice(vs, _)) => VSlice(LandedAll(c, e, vs, Resize(e, prev, |vs|)), [])
    case (TMap(_, _), VMap(es)) => VMap(if es == [] then [] else InsertAll(OldEntries(prev), RestoredEntries(c, t, es)))
    case (TStruct(fs), VStruct(vs)) =>
      if |fs| == |vs| then VStruct(LandedFields(c, t, vs, FieldValues(fs, prev))) else v
    case (TPtr(e), VPtr(x)) => if WireOf(e, x) == WZero then VNil else VPtr(Landed(c, e, x, OldTarget(e, prev)))
    case _ => Restored(c, t, v)
  }

  function LandedAll(c: Decoder, e: Type, vs: seq<Value>, prevs: seq<Value>): (xs: seq<Value>)
    requires |prevs| == |vs|
    ensures |xs| == |vs|
    decreases e, 4
  {
    seq(|vs|, i requires 0 <= i < |vs| => Landed(c, e, vs[i], prevs[i]))
  }

  function LandedFields(c: Decoder, t: Type, vs: seq<Value>, prevs: seq<Value>): (xs: seq<Value>)
    requires t.TStruct? && |t.fields| == |vs| == |prevs|
    ensures |xs| == |vs|
    decreases t, 0
  {
    seq(|vs|, i requires 0 <= i < |vs| => Landed(c, t.fields[i].typ, vs[i], prevs[i]))
  }

  /** The entries of a map destination. */
  function OldEntries(prev: Value): seq<Entry> {
    if prev.VMap? then prev.entries else []
  }

  /** The target of a pointer destination, made new for a nil pointer. */
  function OldTarget(e: Type, prev: Value): Value {
    if prev.VPtr? then prev.target else Zero(e)
  }

  /** No map in a destination has entries. */
  predicate NoEntries(v: Value)
    decreases v
  {
    match v
    case VMap(es) => es == []
    case VArray(es) => forall i | 0 <= i < |es| :: NoEntries(es[i])
    case VSlice(es, sp) => (forall i | 0 <= i < |es| :: NoEntries(es[i]))
      && (forall i | 0 <= i < |sp| :: NoEntries(sp[i]))
    case VStruct(fs) => forall i | 0 <= i < |fs| :: NoEntries(fs[i])
    case VPtr(x) => NoEntries(x)
    case _ => true
  }

  lemma {:induction false} ZeroNoEntries(t: Type)
    ensures NoEntries(Zero(t))
  {
    match t
    case TArray(e, _) => ZeroNoEntries(e);
    case TStruct(fs) =>
      forall i | 0 <= i < |fs|
        ensures NoEntries(Zero(fs[i].typ))
      {
        ZeroNoEntries(fs[i].typ);
      }
    case _ =>
  }

  lemma {:induction false} PartsNoEntries(e: Type, prev: Value, n: nat)
    requires NoEntries(prev)
    ensures forall i | 0 <= i < n :: NoEntries(Elements(e, n, prev)[i]) && NoEntries(Resize(e, prev, n)[i])
    ensures NoEntries(OldTarget(e, prev)) && OldEntries(prev) == []
  {
    ZeroNoEntries(e);
  }

  lemma {:induction false} FieldsNoEntries(fs: seq<Field>, prev: Value)
    requires NoEntries(prev)
    ensures forall i | 0 <= i < |fs| :: NoEntries(FieldValues(fs, prev)[i])
  {
    ZeroNoEntries(TStruct(fs));
  }

  /** A destination whose maps have no entries ends with the restored value, whatever else it held. */
  lemma {:induction false} LandedFresh(c: Decoder, t: Type, v: Value, prev: Value)
    requires Holds(t, v) && NoEntries(prev)
    ensures Landed(c, t, v, prev) == Restored(c, t, v)
    decreases t, 1
  {
    HoldsParts(t, v);
    if v.VArray? || v.VSlice? {
      PartsNoEntries(t.elem, prev, |v.elems|);
      AllLandedFresh(c, t.elem, v.elems,
                     if v.VArray? then Elements(t.elem, |v.elems|, prev) else Resize(t.elem, prev, |v.elems|));
    } else if v.VMap? {
      RestoredDistinct(c, t, v.entries);
      InsertAllFresh(RestoredEntries(c, t, v.entries));
      assert v.entries == [] ==> RestoredEntries(c, t, v.entries) == [];
    } else if v.VStruct? {
      FieldsNoEntries(t.fields, prev);
      FieldsLandedFresh(c, t, v.fields, FieldValues(t.fields, prev));
    } else if v.VPtr? {
      PartsNoEntries(t.elem, prev, 0);
      LandedFresh(c, t.elem, v.target, OldTarget(t.elem, prev));
    }
  }

  lemma {:induction false} AllLandedFresh(c: Decoder, e: Type, vs: seq<Value>, prevs: seq<Value>)
    requires |prevs| == |vs| && forall i | 0 <= i < |vs| :: Holds(e, vs[i]) && NoEntries(prevs[i])
    ensures LandedAll(c, e, vs, prevs) == RestoredAll(c, e, vs)
    decreases e, 2
  {
    forall i | 0 <= i < |vs|
      ensures Landed(c, e, vs[i], prevs[i]) == Restored(c, e, vs[i])
    {
      LandedFresh(c, e, vs[i], prevs[i]);
    }
  }

  lemma {:induction false} FieldsLandedFresh(c: Decoder, t: Type, vs: seq<Value>, prevs: seq<Value>)
    requires t.TStruct? && HoldsFields(t, vs) && |prevs| == |vs| && forall i | 0 <= i < |vs| :: NoEntries(prevs[i])
    ensures LandedFields(c, t, vs, prevs) == RestoredFields(c, t, vs)
    decreases t, 0
  {
    forall i | 0 <= i < |vs|
      ensures Landed(c, t.fields[i].typ, vs[i], prevs[i]) == Restored(c, t.fields[i].typ, vs[i])
    {
      LandedFresh(c, t.fields[i].typ, vs[i], prevs[i]);
    }
  }

  /** Zero stays zero, whatever the destination held. */
  lemma {:induction false} LandedZero(c: Decoder, t: Type, prev: Value)
    ensures Landed(c, t, Zero(t), prev) == Zero(t)
    decreases t
  {
    if t.TArray? {
      var zs, prevs := Zero(t).elems, Elements(t.elem, t.len, prev);
      forall i | 0 <= i < t.len
        ensures Landed(c, t.elem, zs[i], prevs[i]) == zs[i]
      {
        LandedZero(c, t.elem, prevs[i]);
      }
      assert LandedAll(c, t.elem, zs, prevs) == zs;
    } else if t.TStruct? {
      var zs, prevs := Zero(t).fields, FieldValues(t.fields, prev);
      forall i | 0 <= i < |t.fields|
        ensures Landed(c, t.fields[i].typ, zs[i], prevs[i]) == zs[i]
      {
        LandedZero(c, t.fields[i].typ, prevs[i]);
      }
      assert LandedFields(c, t, zs, prevs) == zs;
    }
  }

  /** The event decoder refuses a length or count beyond int32. */
  predicate LengthOk(c: Decoder, w: Item) {
    c.events ==> HeadOf(w).n <= MAX_INT32
  }

  /** One byte below 128 is written bare, and the recursive reader reads it one level deeper. */
  predicate LoneByteOk(c: Decoder, vs: seq<Value>, d: nat) {
    |vs| == 1 && vs[0].VUint? && vs[0].u <= 127 ==> c.events || d < MAX_NESTED
  }

  /**
   The value can be read back: no long length is beyond the event decoder's int32, no zero-length byte
   array is reached, and the recursive reader meets nothing beyond the nesting limit, where a lone byte of
   a byte array or slice counts as one level deeper than the array.
   */
  predicate Readable(c: Decoder, t: Type, v: Value, d: nat)
    decreases t, 1
  {
    LengthOk(c, WireOf(t, v)) && Reads(c, t, v, d)
  }

  /** The value can be read back once its own head was accepted. */
  predicate Reads(c: Decoder, t: Type, v: Value, d: nat)
    decreases t, 0
  {
    (c.events || d <= MAX_NESTED) &&
    match (t, v)
    case (TArray(e, _), VArray(vs)) =>
      if e == BYTE then vs != [] && LoneByteOk(c, vs, d) else forall i | 0 <= i < |vs| :: Readable(c, e, vs[i], d + 1)
    case (TSlice(e), VSlice(vs, _)) =>
      if e == BYTE then LoneByteOk(c, vs, d) else forall i | 0 <= i < |vs| :: Readable(c, e, vs[i], d + 1)
    case (TMap(k, e), VMap(es)) =>
      forall i | 0 <= i < |es| :: Readable(c, k, es[i].key, d + 1) && Readable(c, e, es[i].value, d + 1)
    case (TStruct(fs), VStruct(vs)) =>
      |fs| == |vs| ==> forall i | 0 <= i < Kept(fs, vs) :: Readable(c, fs[i].typ, vs[i], d + 1)
    case (TPtr(e), VPtr(x)) => WireOf(e, x) == WZero || Reads(c, e, x, d)
    case _ => true
  }

  lemma {:induction false} RestoredZero(c: Decoder, t: Type)
    ensures Restored(c, t, Zero(t)) == Zero(t)
  {
    match t
    case TArray(e, n) =>
      RestoredZero(c, e);
      assert RestoredAll(c, e, Zero(t).elems) == Zero(t).elems;
    case TStruct(fs) =>
      forall i | 0 <= i < |fs|
        ensures Restored(c, fs[i].typ, Zero(fs[i].typ)) == Zero(fs[i].typ)
      {
        RestoredZero(c, fs[i].typ);
      }
      assert RestoredFields(c, t, Zero(t).fields) == Zero(t).fields;
    case _ =>
  }

  /** Map keys come back as they were. */
  lemma {:induction false} RestoredKey(c: Decoder, t: Type, v: Value)
    requires Comparable(t) && HasType(t, v)
    ensures Restored(c, t, v) == v
  {
    if v.VArray? {
      forall i | 0 <= i < |v.elems|
        ensures Restored(c, t.elem, v.elems[i]) == v.elems[i]
      {
        RestoredKey(c, t.elem, v.elems[i]);
      }
      assert RestoredAll(c, t.elem, v.elems) == v.elems;
    } else if v.VStruct? {
      forall i | 0 <= i < |v.fields|
        ensures Restored(c, t.fields[i].typ, v.fields[i]) == v.fields[i]
      {
        RestoredKey(c, t.fields[i].typ, v.fields[i]);
      }
      assert RestoredFields(c, t, v.fields) == v.fields;
    }
  }

  // ----- values without parts -----

  lemma {:induction false} MagnitudeIs(i: int)
    requires InIntRange(W64, i)
    ensures Magnitude(i) == Abs(i)
  {
    if i < 0 {
      WrapInt64(-i);
    }
  }

  lemma {:induction false} IntBack(c: Decoder, w: Width, i: int)
    requires InIntRange(w, i)
    ensures DecInt(c, w, HeadOf(NumberItem(i < 0, Abs(i)))) == Some(VInt(i))
  {
    assert InIntRange(W64, i);
    IntRestored(i);
    MagnitudeIs(i);
  }

  lemma {:induction false} UintBack(c: Decoder, w: Width, u: nat)
    requires u < Modulus(w)
    ensures DecUint(c, w, HeadOf(NumberItem(false, u))) == Some(VUint(u))
  {
    assert u < TWO_TO_THE_64;
    UintRestored(u);
  }

  lemma {:induction false} BigBack(c: Decoder, i: int)
    ensures DecBigInt(c, HeadOf(NumberItem(i < 0, Abs(i)))) ==
            Some(VBig(if !c.events && InBigGap(i) then -i - TWO_TO_THE_64 else i))
  {
    var u := Abs(i);
    ValueOfUintBytes(u);
    if |UintBytes(u)| <= 8 {
      if i < 0 {
        SmallNegativeBig(i);
      }
    } else if InBigGap(i) {
      UintRestored(u);
    }
  }

  lemma {:induction false} StringBack(s: Bytes)
    requires s != []
    ensures DecString(HeadOf(BytesItem(s))) == Some(VString(s))
  {
    if |s| == 1 {
      assert s == [s[0]];
    }
  }

  // ----- byte arrays and slices -----

  lemma {:induction false} FillBack(c: Decoder, vs: seq<Value>, prevs: seq<Value>, bs: Bytes, d: nat)
    requires vs != [] && AllHaveType(BYTE, vs) && |prevs| == |vs|
    requires c.events || d <= MAX_NESTED
    ensures var h := HeadOf(BytesItem(BytesOf(vs)));
            && |Text(h)| == |vs| && (h.th.THSingleByte? || h.th.IsString())
            && Fill(c, BYTE, prevs, h, bs, d) == if LoneByteOk(c, vs, d) then Ok(vs, bs) else Err
  {
    var buf := BytesOf(vs);
    var h := HeadOf(BytesItem(buf));
    BytesOfElements(vs);
    assert Text(h) == buf;
    assert buf[..|buf|] == buf && prevs[..|buf|] == prevs && prevs[|buf|..] == [];
    assert vs[0] == ByteValues(buf)[0] == VUint(buf[0]);
    if h.th.THSingleByte? && !c.events {
      LoneByteBack(c, prevs, buf, bs, d + 1);
      assert [vs[0]] == vs && vs + [] == vs;
    } else {
      assert ByteValues(buf) + [] == vs;
    }
  }

  lemma {:induction false} LoneByteBack(c: Decoder, prevs: seq<Value>, buf: Bytes, bs: Bytes, d: nat)
    requires |prevs| == |buf| == 1 && !c.events
    ensures DecBytes(c, BYTE, prevs, buf, bs, d) == if d <= MAX_NESTED then Ok([VUint(buf[0])], bs) else Err
  {
    var r := DecHead(c, BYTE, prevs[0], Head(THSingleByte, buf[0], []), bs, d);
    assert r == if d <= MAX_NESTED then Ok(VUint(buf[0]), bs) else Err;
    assert DecBytes(c, BYTE, prevs[1..], buf[1..], bs, d) == Ok([], bs);
    assert [VUint(buf[0])] + [] == [VUint(buf[0])];
  }

  // ----- the induction on the type -----

  /** The outcome of decoding a written value, given that its head was accepted. */
  function Outcome(c: Decoder, t: Type, v: Value, d: nat, prev: Value, tail: Bytes): Res<Value> {
    if Reads(c, t, v, d) then Ok(Landed(c, t, v, prev), tail) else Err
  }

  /** From the outcome behind an item's head to the outcome for the whole item. */
  lemma {:induction false} FromHead(c: Decoder, t: Type, w: Item, d: nat, prev: Value, tail: Bytes)
    requires Valid(w)
    ensures Dec(c, t, prev, ItemBytes(w) + tail, d) ==
            if LengthOk(c, w) then DecHead(c, t, prev, HeadOf(w), BodyOf(w) + tail, d) else Err
  {
    HeadReads(w, c.events, tail);
  }

  /**
   The round trip. For every value of a well-formed type, at every depth, into every destination and whatever
   bytes follow: decoding what the encoder writes succeeds if and only if the value is Readable, and then gives
   its Landed form and consumes exactly what was written. In a destination whose maps have no entries that is
   the Restored form, by LandedFresh.
   */
  lemma {:induction false} RoundTrip(c: Decoder, t: Type, v: Value, d: nat, prev: Value, tail: Bytes)
    requires Holds(t, v)
    ensures Dec(c, t, prev, ItemBytes(WireOf(t, v)) + tail, d) ==
            if Readable(c, t, v, d) then Ok(Landed(c, t, v, prev), tail) else Err
    decreases t, 4, 0
  {
    WireValid(t, v);
    FromHead(c, t, WireOf(t, v), d, prev, tail);
    HeadBack(c, t, v, d, prev, tail);
  }

  lemma {:induction false} HeadBack(c: Decoder, t: Type, v: Value, d: nat, prev: Value, tail: Bytes)
    requires Holds(t, v)
    ensures var w := WireOf(t, v);
            DecHead(c, t, prev, HeadOf(w), BodyOf(w) + tail, d) == Outcome(c, t, v, d, prev, tail)
    decreases t, 3, 0
  {
    if c.events || d <= MAX_NESTED {
      if WireOf(t, v) == WZero {
        ZeroBack(c, t, v, d, prev, tail);
      } else {
        if v.VArray? {
          ArrayBack(c, t, v, d, prev, tail);
        } else if v.VSlice? {
          SliceBack(c, t, v, d, prev, tail);
        } else if v.VMap? {
          MapBack(c, t, v, d, prev, tail);
        } else if v.VStruct? {
          StructBack(c, t, v, d, prev, tail);
        } else if v.VPtr? {
          PtrBack(c, t, v, d, prev, tail);
        } else {
          PlainBack(c, t, v, d, prev, tail);
        }
      }
    }
  }

  /** What is written as a Zero item comes back as zero. */
  lemma {:induction false} ZeroBack(c: Decoder, t: Type, v: Value, d: nat, prev: Value, tail: Bytes)
    requires Holds(t, v) && WireOf(t, v) == WZero && (c.events || d <= MAX_NESTED)
    ensures DecHead(c, t, prev, HeadOf(WZero), BodyOf(WZero) + tail, d) == Outcome(c, t, v, d, prev, tail)
  {
    assert [] + tail == tail;
    ZeroHead(c, t, prev, HeadOf(WZero), tail, d);
    ZeroIsLanded(c, t, v, d, prev);
  }

  lemma {:induction false} ZeroIsLanded(c: Decoder, t: Type, v: Value, d: nat, prev: Value)
    requires Holds(t, v) && WireOf(t, v) == WZero && (c.events || d <= MAX_NESTED)
    ensures Reads(c, t, v, d) && Landed(c, t, v, prev) == Zero(t)
  {
    if v.VArray? {
      NoElemsLand(c, t, v, d, prev);
    } else if v.VStruct? {
      NoFieldsLand(c, t, v, d, prev);
    } else {
      PlainZeroLands(c, t, v, d, prev);
    }
  }

  lemma {:induction false} PlainZeroLands(c: Decoder, t: Type, v: Value, d: nat, prev: Value)
    requires HasType(t, v) && !v.VArray? && !v.VStruct? && WireOf(t, v) == WZero && (c.events || d <= MAX_NESTED)
    ensures Reads(c, t, v, d) && Landed(c, t, v, prev) == Zero(t)
  {
  }

  lemma {:induction false} NoFieldsLand(c: Decoder, t: Type, v: Value, d: nat, prev: Value)
    requires HasType(t, v) && v.VStruct? && WireOf(t, v) == WZero && (c.events || d <= MAX_NESTED)
    ensures Reads(c, t, v, d) && Landed(c, t, v, prev) == Zero(t)
  {
    assert t.fields == [] && v.fields == [];
    assert LandedFields(c, t, v.fields, FieldValues(t.fields, prev)) == [] == Zero(t).fields;
  }

  lemma {:induction false} NoElemsLand(c: Decoder, t: Type, v: Value, d: nat, prev: Value)
    requires HasType(t, v) && v.VArray? && WireOf(t, v) == WZero && (c.events || d <= MAX_NESTED)
    ensures Reads(c, t, v, d) && Landed(c, t, v, prev) == Zero(t)
  {
    assert t.elem != BYTE && v.elems == [];
    assert LandedAll(c, t.elem, v.elems, Elements(t.elem, 0, prev)) == [] == Zero(t).elems;
  }

  lemma {:induction false} PlainBack(c: Decoder, t: Type, v: Value, d: nat, prev: Value, tail: Bytes)
    requires HasType(t, v) && WireOf(t, v) != WZero && (c.events || d <= MAX_NESTED)
    requires t.TInt? || t.TUint? || t.TBool? || t.TString? || t.TBigInt?
    ensures var w := WireOf(t, v);
            DecHead(c, t, prev, HeadOf(w), BodyOf(w) + tail, d) == Outcome(c, t, v, d, prev, tail)
  {
    assert [] + tail == tail;
    if v.VInt? {
      IntBack(c, t.w, v.i);
    } else if v.VUint? {
      UintBack(c, t.w, v.u);
    } else if v.VString? {
      StringBack(v.s);
    } else if v.VBig? {
      BigBack(c, v.i);
    }
  }

  lemma {:induction false} PtrBack(c: Decoder, t: Type, v: Value, d: nat, prev: Value, tail: Bytes)
    requires t.TPtr? && v.VPtr? && Holds(t, v) && WireOf(t, v) != WZero && (c.events || d <= MAX_NESTED)
    ensures var w := WireOf(t, v);
            DecHead(c, t, prev, HeadOf(w), BodyOf(w) + tail, d) == Outcome(c, t, v, d, prev, tail)
    decreases t, 2, 0
  {
    HeadBack(c, t.elem, v.target, d, OldTarget(t.elem, prev), tail);
    PtrFromTarget(c, t, v.target, d, prev, tail);
  }

  lemma {:induction false} PtrFromTarget(c: Decoder, t: Type, x: Value, d: nat, prev: Value, tail: Bytes)
    requires t.TPtr? && WireOf(t.elem, x) != WZero && (c.events || d <= MAX_NESTED)
    requires var w := WireOf(t.elem, x);
             DecHead(c, t.elem, OldTarget(t.elem, prev), HeadOf(w), BodyOf(w) + tail, d) ==
             Outcome(c, t.elem, x, d, OldTarget(t.elem, prev), tail)
    ensures var w := WireOf(t.elem, x);
            DecHead(c, t, prev, HeadOf(w), BodyOf(w) + tail, d) == Outcome(c, t, VPtr(x), d, prev, tail)
  {
    HeadNotZero(WireOf(t.elem, x));
  }

  lemma {:induction false} HeadNotZero(w: Item)
    requires w != WZero
    ensures !HeadOf(w).th.THZeroValue?
  {
  }

  lemma {:induction false} ArrayBack(c: Decoder, t: Type, v: Value, d: nat, prev: Value, tail: Bytes)
    requires t.TArray? && v.VArray? && Holds(t, v) && WireOf(t, v) != WZero && (c.events || d <= MAX_NESTED)
    ensures var w := WireOf(t, v);
            DecHead(c, t, prev, HeadOf(w), BodyOf(w) + tail, d) == Outcome(c, t, v, d, prev, tail)
    decreases t, 2, 0
  {
    if t.elem == BYTE {
      assert AllHaveType(BYTE, v.elems);
      ByteArrayBack(c, t, v.elems, d, prev, tail);
    } else {
      ElemsBack(c, t.elem, v.elems, d + 1, Elements(t.elem, t.len, prev), tail);
      ArrayFromElems(c, t, v, d, prev, tail);
    }
  }

  lemma {:induction false} ByteArrayBack(c: Decoder, t: Type, vs: seq<Value>, d: nat, prev: Value, tail: Bytes)
    requires t.TArray? && t.elem == BYTE && AllHaveType(BYTE, vs) && t.len == |vs| && (c.events || d <= MAX_NESTED)
    ensures var w := BytesItem(BytesOf(vs));
            DecArray(c, t, Elements(t.elem, t.len, prev), HeadOf(w), BodyOf(w) + tail, d) ==
            Outcome(c, t, VArray(vs), d, prev, tail)
  {
    var prevs := Elements(t.elem, t.len, prev);
    BytesLand(c, vs, prevs);
    ByteArrayOutcome(c, t, vs, d, prev, tail);
    if vs != [] {
      assert [] + tail == tail;
      FillBack(c, vs, prevs, tail, d);
      ArrayFromFill(c, t, HeadOf(BytesItem(BytesOf(vs))), d, prevs, tail);
    }
  }

  /** What is expected of a byte array. */
  lemma {:induction false} ByteArrayOutcome(c: Decoder, t: Type, vs: seq<Value>, d: nat, prev: Value, tail: Bytes)
    requires t.TArray? && t.elem == BYTE && AllHaveType(BYTE, vs) && t.len == |vs| && (c.events || d <= MAX_NESTED)
    ensures Outcome(c, t, VArray(vs), d, prev, tail) ==
            if vs != [] && LoneByteOk(c, vs, d) then Ok(VArray(vs), tail) else Err
  {
    BytesLand(c, vs, Elements(t.elem, t.len, prev));
  }

  lemma {:induction false} BytesLand(c: Decoder, vs: seq<Value>, prevs: seq<Value>)
    requires AllHaveType(BYTE, vs) && |prevs| == |vs|
    ensures !BytesItem(BytesOf(vs)).WArr? && (vs == [] ==> BytesItem(BytesOf(vs)) == WEmpty)
    ensures LandedAll(c, BYTE, vs, prevs) == vs
  {
    forall i | 0 <= i < |vs|
      ensures Landed(c, BYTE, vs[i], prevs[i]) == vs[i]
    {
      assert HasType(BYTE, vs[i]);
    }
  }

  lemma {:induction false} ArrayFromFill(c: Decoder, t: Type, h: Head, d: nat, prevs: seq<Value>, bs: Bytes)
    requires t.TArray? && |prevs| == t.len && (h.th.THSingleByte? || h.th.IsString())
    ensures var r := Fill(c, t.elem, prevs, h, bs, d);
            DecArray(c, t, prevs, h, bs, d) == if r.Ok? then Ok(VArray(r.value), r.rest) else Err
  {
  }

  lemma {:induction false} ArrayFromElems(c: Decoder, t: Type, v: Value, d: nat, prev: Value, tail: Bytes)
    requires t.TArray? && t.elem != BYTE && v.VArray? && |v.elems| == t.len > 0 && (c.events || d <= MAX_NESTED)
    requires var prevs := Elements(t.elem, t.len, prev);
             DecElems(c, t.elem, prevs, Concat(ElemItems(t.elem, v.elems)) + tail, d + 1) ==
             if AllReadable(c, t.elem, v.elems, d + 1) then Ok(LandedAll(c, t.elem, v.elems, prevs), tail) else Err
    ensures var w := WireOf(t, v);
            DecArray(c, t, Elements(t.elem, t.len, prev), HeadOf(w), BodyOf(w) + tail, d) ==
            Outcome(c, t, v, d, prev, tail)
  {
    var ws := ElemItems(t.elem, v.elems);
    ArrayOfItems(c, t, HeadOf(WArr(ws)), Elements(t.elem, t.len, prev), Concat(ws) + tail, d, d + 1);
  }

  /** An array header announcing as many items as there are elements. */
  lemma {:induction false} ArrayOfItems(c: Decoder, t: Type, h: Head, prevs: seq<Value>, bs: Bytes, d: nat, inner: nat)
    requires t.TArray? && h.th.IsArray() && h.n == t.len == |prevs| && inner == d + 1
    ensures DecArray(c, t, prevs, h, bs, d) ==
            var r := DecElems(c, t.elem, prevs, bs, inner);
            if r.Err? then Err else Ok(VArray(r.value), r.rest)
  {
    assert prevs[..t.len] == prevs && prevs[t.len..] == [];
    var r := DecElems(c, t.elem, prevs, bs, inner);
    if r.Ok? {
      assert r.value + [] == r.value && SkipMany(c.popSkip, 0, r.rest) == Some(r.rest);
    }
  }

  lemma {:induction false} SliceBack(c: Decoder, t: Type, v: Value, d: nat, prev: Value, tail: Bytes)
    requires t.TSlice? && v.VSlice? && Holds(t, v) && (c.events || d <= MAX_NESTED)
    ensures var w := WireOf(t, v);
            DecHead(c, t, prev, HeadOf(w), BodyOf(w) + tail, d) == Outcome(c, t, v, d, prev, tail)
    decreases t, 2, 0
  {
    if t.elem == BYTE {
      assert AllHaveType(BYTE, v.elems);
      ByteSliceBack(c, t, v, d, prev, tail);
    } else if v.elems == [] {
      EmptySliceBack(c, t, v, d, prev, tail);
    } else {
      ElemsBack(c, t.elem, v.elems, d + 1, Resize(t.elem, prev, |v.elems|), tail);
      SliceFromElems(c, t, v, d, prev, tail);
    }
  }

  lemma {:induction false} EmptySliceBack(c: Decoder, t: Type, v: Value, d: nat, prev: Value, tail: Bytes)
    requires t.TSlice? && v.VSlice? && v.elems == [] && (c.events || d <= MAX_NESTED)
    ensures WireOf(t, v) == WEmpty
    ensures DecHead(c, t, prev, HeadOf(WEmpty), BodyOf(WEmpty) + tail, d) == Outcome(c, t, v, d, prev, tail)
  {
    assert [] + tail == tail;
    assert BytesOf(v.elems) == [] && LandedAll(c, t.elem, v.elems, Resize(t.elem, prev, 0)) == [];
  }

  lemma {:induction false} ByteSliceBack(c: Decoder, t: Type, v: Value, d: nat, prev: Value, tail: Bytes)
    requires t.TSlice? && t.elem == BYTE && v.VSlice? && AllHaveType(BYTE, v.elems) && (c.events || d <= MAX_NESTED)
    ensures var w := WireOf(t, v);
            DecHead(c, t, prev, HeadOf(w), BodyOf(w) + tail, d) == Outcome(c, t, v, d, prev, tail)
  {
    BytesWire(t, v);
    if v.elems == [] {
      EmptySliceBack(c, t, v, d, prev, tail);
    } else {
      BytesFilled(c, t, v.elems, d, prev, tail);
      ByteSliceOutcome(c, t, v, d, prev, tail);
    }
  }

  lemma {:induction false} BytesWire(t: Type, v: Value)
    requires t.TSlice? && t.elem == BYTE && v.VSlice?
    ensures WireOf(t, v) == BytesItem(BytesOf(v.elems))
  {
  }

  /** What is expected of a byte slice. */
  lemma {:induction false} ByteSliceOutcome(c: Decoder, t: Type, v: Value, d: nat, prev: Value, tail: Bytes)
    requires t.TSlice? && t.elem == BYTE && v.VSlice? && AllHaveType(BYTE, v.elems) && (c.events || d <= MAX_NESTED)
    ensures Outcome(c, t, v, d, prev, tail) == if LoneByteOk(c, v.elems, d) then Ok(VSlice(v.elems, []), tail) else Err
  {
    BytesLand(c, v.elems, Resize(BYTE, prev, |v.elems|));
  }

  lemma {:induction false} BytesFilled(c: Decoder, t: Type, vs: seq<Value>, d: nat, prev: Value, tail: Bytes)
    requires t.TSlice? && t.elem == BYTE && vs != [] && AllHaveType(BYTE, vs) && (c.events || d <= MAX_NESTED)
    ensures var w := BytesItem(BytesOf(vs));
            DecHead(c, t, prev, HeadOf(w), BodyOf(w) + tail, d) ==
            if LoneByteOk(c, vs, d) then Ok(VSlice(vs, []), tail) else Err
  {
    assert [] + tail == tail;
    FillBack(c, vs, Resize(BYTE, prev, |vs|), tail, d);
    SliceFromFill(c, t, HeadOf(BytesItem(BytesOf(vs))), d, prev, tail);
  }

  lemma {:induction false} SliceFromFill(c: Decoder, t: Type, h: Head, d: nat, prev: Value, bs: Bytes)
    requires t.TSlice? && (h.th.THSingleByte? || h.th.IsString()) && Text(h) != [] && (c.events || d <= MAX_NESTED)
    ensures var r := Fill(c, t.elem, Resize(t.elem, prev, |Text(h)|), h, bs, d);
            DecHead(c, t, prev, h, bs, d) == if r.Ok? then Ok(VSlice(r.value, []), r.rest) else Err
  {
  }

  lemma {:induction false} SliceFromElems(c: Decoder, t: Type, v: Value, d: nat, prev: Value, tail: Bytes)
    requires t.TSlice? && t.elem != BYTE && v.VSlice? && v.elems != [] && (c.events || d <= MAX_NESTED)
    requires DecElems(c, t.elem, Resize(t.elem, prev, |v.elems|), Concat(ElemItems(t.elem, v.elems)) + tail, d + 1) ==
             if AllReadable(c, t.elem, v.elems, d + 1) then
               Ok(LandedAll(c, t.elem, v.elems, Resize(t.elem, prev, |v.elems|)), tail)
             else Err
    ensures var w := WireOf(t, v);
            DecHead(c, t, prev, HeadOf(w), BodyOf(w) + tail, d) == Outcome(c, t, v, d, prev, tail)
  {
    var ws, inner := ElemItems(t.elem, v.elems), d + 1;
    SliceWire(t, v);
    SliceOfItems(c, t, HeadOf(WArr(ws)), prev, Concat(ws) + tail, d, inner);
    SliceOutcome(c, t, v, d, inner, prev, tail);
  }

  lemma {:induction false} SliceWire(t: Type, v: Value)
    requires t.TSlice? && t.elem != BYTE && v.VSlice? && v.elems != []
    ensures WireOf(t, v) == WArr(ElemItems(t.elem, v.elems))
  {
  }

  /** What is expected of a slice. */
  lemma {:induction false} SliceOutcome(c: Decoder, t: Type, v: Value, d: nat, inner: nat, prev: Value, tail: Bytes)
    requires t.TSlice? && t.elem != BYTE && v.VSlice? && (c.events || d <= MAX_NESTED) && inner == d + 1
    ensures Outcome(c, t, v, d, prev, tail) ==
            if AllReadable(c, t.elem, v.elems, inner) then
              Ok(VSlice(LandedAll(c, t.elem, v.elems, Resize(t.elem, prev, |v.elems|)), []), tail)
            else Err
  {
  }

  /** An array header, for a slice. */
  lemma {:induction false} SliceOfItems(c: Decoder, t: Type, h: Head, prev: Value, bs: Bytes, d: nat, inner: nat)
    requires t.TSlice? && h.th.IsArray() && h.n > 0 && inner == d + 1 && (c.events || d <= MAX_NESTED)
    ensures DecHead(c, t, prev, h, bs, d) ==
            var r := DecElems(c, t.elem, Resize(t.elem, prev, h.n), bs, inner);
            if r.Err? then Err else Ok(VSlice(r.value, []), r.rest)
  {
  }

  predicate AllReadable(c: Decoder, e: Type, vs: seq<Value>, d: nat) {
    forall i | 0 <= i < |vs| :: Readable(c, e, vs[i], d)
  }

  lemma {:induction false} ElemsBack(c: Decoder, e: Type, vs: seq<Value>, d: nat, prevs: seq<Value>, tail: Bytes)
    requires |prevs| == |vs|
    requires forall i | 0 <= i < |vs| :: Holds(e, vs[i])
    ensures DecElems(c, e, prevs, Concat(ElemItems(e, vs)) + tail, d) ==
            if AllReadable(c, e, vs, d) then Ok(LandedAll(c, e, vs, prevs), tail) else Err
    decreases e, 5, |vs|
  {
    if vs == [] {
      assert Concat(ElemItems(e, vs)) + tail == tail;
    } else {
      RoundTrip(c, e, vs[0], d, prevs[0], Concat(ElemItems(e, vs[1..])) + tail);
      ElemsBack(c, e, vs[1..], d, prevs[1..], tail);
      ElemsFirst(c, e, vs, prevs, tail);
      ReadableFirst(c, e, vs, d);
    }
  }

  lemma {:induction false} ElemsFirst(c: Decoder, e: Type, vs: seq<Value>, prevs: seq<Value>, tail: Bytes)
    requires vs != [] && |prevs| == |vs|
    ensures Concat(ElemItems(e, vs)) + tail == ItemBytes(WireOf(e, vs[0])) + (Concat(ElemItems(e, vs[1..])) + tail)
    ensures LandedAll(c, e, vs, prevs) == [Landed(c, e, vs[0], prevs[0])] + LandedAll(c, e, vs[1..], prevs[1..])
  {
    var ws := ElemItems(e, vs);
    assert ws[1..] == ElemItems(e, vs[1..]);
    ConcatHead(ws, tail);
  }

  lemma {:induction false} ReadableFirst(c: Decoder, e: Type, vs: seq<Value>, d: nat)
    requires vs != []
    ensures AllReadable(c, e, vs, d) <==> Readable(c, e, vs[0], d) && AllReadable(c, e, vs[1..], d)
  {
    var rest := vs[1..];
    if AllReadable(c, e, vs, d) {
      forall i | 0 <= i < |rest|
        ensures Readable(c, e, rest[i], d)
      {
        assert rest[i] == vs[i + 1];
      }
    }
    if AllReadable(c, e, rest, d) && Readable(c, e, vs[0], d) {
      forall i | 0 <= i < |vs|
        ensures Readable(c, e, vs[i], d)
      {
        assert i > 0 ==> vs[i] == rest[i - 1];
      }
    }
  }

  // ----- maps -----

  predicate EntryReadable(c: Decoder, t: Type, e: Entry, d: nat)
    requires t.TMap?
  {
    Readable(c, t.key, e.key, d) && Readable(c, t.val, e.value, d)
  }

  predicate EntriesReadable(c: Decoder, t: Type, es: seq<Entry>, d: nat)
    requires t.TMap?
  {
    forall i | 0 <= i < |es| :: EntryReadable(c, t, es[i], d)
  }

  lemma {:induction false} EntriesReadableFirst(c: Decoder, t: Type, es: seq<Entry>, d: nat)
    requires t.TMap? && es != []
    ensures EntriesReadable(c, t, es, d) <==> EntryReadable(c, t, es[0], d) && EntriesReadable(c, t, es[1..], d)
  {
    assert forall i | 1 <= i < |es| :: es[i] == es[1..][i - 1];
  }

  lemma {:induction false} MapBack(c: Decoder, t: Type, v: Value, d: nat, prev: Value, tail: Bytes)
    requires t.TMap? && v.VMap? && Holds(t, v) && (c.events || d <= MAX_NESTED)
    ensures var w := WireOf(t, v);
            DecHead(c, t, prev, HeadOf(w), BodyOf(w) + tail, d) == Outcome(c, t, v, d, prev, tail)
    decreases t, 2, 0
  {
    HoldsParts(t, v);
    if v.entries == [] {
      EmptyMapBack(c, t, d, prev, tail);
    } else {
      EntriesBack(c, t, v.entries, OldEntries(prev), d + 1, tail);
      MapFromEntries(c, t, v.entries, d, prev, tail);
    }
  }

  lemma {:induction false} RestoredDistinct(c: Decoder, t: Type, es: seq<Entry>)
    requires t.TMap? && HoldsEntries(t, es)
    ensures var rs := RestoredEntries(c, t, es);
            DistinctKeys(rs) && forall i | 0 <= i < |es| :: rs[i].key == es[i].key
  {
    forall i | 0 <= i < |es|
      ensures RestoredEntries(c, t, es)[i].key == es[i].key
    {
      RestoredKey(c, t.key, es[i].key);
    }
  }

  lemma {:induction false} EmptyMapBack(c: Decoder, t: Type, d: nat, prev: Value, tail: Bytes)
    requires t.TMap? && (c.events || d <= MAX_NESTED)
    ensures WireOf(t, VMap([])) == WEmpty
    ensures DecHead(c, t, prev, HeadOf(WEmpty), BodyOf(WEmpty) + tail, d) == Outcome(c, t, VMap([]), d, prev, tail)
  {
    assert [] + tail == tail;
  }

  lemma {:induction false} MapFromEntries(c: Decoder, t: Type, es: seq<Entry>, d: nat, prev: Value, tail: Bytes)
    requires t.TMap? && es != [] && (c.events || d <= MAX_NESTED)
    requires var acc := OldEntries(prev);
             DecEntries(c, t, |es|, acc, Concat(EntryItems(t, es)) + tail, d + 1) ==
             if EntriesReadable(c, t, es, d + 1) then Ok(InsertAll(acc, RestoredEntries(c, t, es)), tail) else Err
    ensures var w := WireOf(t, VMap(es));
            DecHead(c, t, prev, HeadOf(w), BodyOf(w) + tail, d) == Outcome(c, t, VMap(es), d, prev, tail)
  {
    MapHead(c, t, prev, |es|, HeadOf(WArr(EntryItems(t, es))), Concat(EntryItems(t, es)) + tail, d);
    MapReads(c, t, es, d);
  }

  /** An array header of an even count, for a map. */
  lemma {:induction false} MapHead(c: Decoder, t: Type, prev: Value, n: nat, h: Head, bs: Bytes, d: nat)
    requires t.TMap? && h.th.IsArray() && h.n == 2 * n && (c.events || d <= MAX_NESTED)
    ensures DecHead(c, t, prev, h, bs, d) ==
            var r := DecEntries(c, t, n, OldEntries(prev), bs, d + 1);
            if r.Err? then Err else Ok(VMap(r.value), r.rest)
  {
    assert h.n / 2 == n && h.n % 2 == 0;
  }

  lemma {:induction false} MapReads(c: Decoder, t: Type, es: seq<Entry>, d: nat)
    requires t.TMap? && es != [] && (c.events || d <= MAX_NESTED)
    ensures WireOf(t, VMap(es)) == WArr(EntryItems(t, es))
    ensures Reads(c, t, VMap(es), d) <==> EntriesReadable(c, t, es, d + 1)
  {
  }

  /** The entries acc with a decoded entry put in. */
  function WithEntry(c: Decoder, t: Type, acc: seq<Entry>, e: Entry): seq<Entry>
    requires t.TMap?
  {
    Insert(acc, Restored(c, t.key, e.key), Restored(c, t.val, e.value))
  }

  /** The entries of a map, put into a map that may have entries already. */
  lemma {:induction false} EntriesBack(c: Decoder, t: Type, es: seq<Entry>, acc: seq<Entry>, d: nat, tail: Bytes)
    requires t.TMap? && forall i | 0 <= i < |es| :: Holds(t.key, es[i].key) && Holds(t.val, es[i].value)
    ensures DecEntries(c, t, |es|, acc, Concat(EntryItems(t, es)) + tail, d) ==
            if EntriesReadable(c, t, es, d) then Ok(InsertAll(acc, RestoredEntries(c, t, es)), tail) else Err
    decreases t, 1, |es|
  {
    if es == [] {
      NoEntriesBack(c, t, acc, d, tail);
    } else {
      EntryBack(c, t, es, acc, d, tail);
      EntriesReadableFirst(c, t, es, d);
      EntriesBack(c, t, es[1..], WithEntry(c, t, acc, es[0]), d, tail);
      RestoredFirst(c, t, es, acc);
    }
  }

  lemma {:induction false} NoEntriesBack(c: Decoder, t: Type, acc: seq<Entry>, d: nat, tail: Bytes)
    requires t.TMap?
    ensures DecEntries(c, t, 0, acc, Concat(EntryItems(t, [])) + tail, d) == Ok(acc, tail)
    ensures RestoredEntries(c, t, []) == []
  {
    assert [] + tail == tail;
  }

  lemma {:induction false} RestoredFirst(c: Decoder, t: Type, es: seq<Entry>, acc: seq<Entry>)
    requires t.TMap? && es != []
    ensures InsertAll(acc, RestoredEntries(c, t, es)) ==
            InsertAll(WithEntry(c, t, acc, es[0]), RestoredEntries(c, t, es[1..]))
  {
    assert RestoredEntries(c, t, es)[1..] == RestoredEntries(c, t, es[1..]);
  }

  /** The first entry of a map. */
  lemma {:induction false} EntryBack(c: Decoder, t: Type, es: seq<Entry>, acc: seq<Entry>, d: nat, tail: Bytes)
    requires t.TMap? && es != [] && Holds(t.key, es[0].key) && Holds(t.val, es[0].value)
    ensures DecEntries(c, t, |es|, acc, Concat(EntryItems(t, es)) + tail, d) ==
            if EntryReadable(c, t, es[0], d) then
              DecEntries(c, t, |es[1..]|, WithEntry(c, t, acc, es[0]), Concat(EntryItems(t, es[1..])) + tail, d)
            else Err
    decreases t, 0, 0
  {
    var rest := Concat(EntryItems(t, es[1..])) + tail;
    ZeroNoEntries(t.key);
    ZeroNoEntries(t.val);
    LandedFresh(c, t.key, es[0].key, Zero(t.key));
    LandedFresh(c, t.val, es[0].value, Zero(t.val));
    RoundTrip(c, t.key, es[0].key, d, Zero(t.key), ItemBytes(WireOf(t.val, es[0].value)) + rest);
    RoundTrip(c, t.val, es[0].value, d, Zero(t.val), rest);
    EntryHead(t, es, tail);
    EntriesFirst(c, t, |es|, acc, Concat(EntryItems(t, es)) + tail, d);
  }

  /** The items of the first entry come first. */
  lemma {:induction false} EntryHead(t: Type, es: seq<Entry>, tail: Bytes)
    requires t.TMap? && es != []
    ensures Concat(EntryItems(t, es)) + tail ==
            ItemBytes(WireOf(t.key, es[0].key)) +
            (ItemBytes(WireOf(t.val, es[0].value)) + (Concat(EntryItems(t, es[1..])) + tail))
  {
    ConcatTwo(WireOf(t.key, es[0].key), WireOf(t.val, es[0].value), EntryItems(t, es[1..]), tail);
  }

  lemma {:induction false} ConcatTwo(k: Item, v: Item, ws: seq<Item>, tail: Bytes)
    ensures Concat([k, v] + ws) + tail == ItemBytes(k) + (ItemBytes(v) + (Concat(ws) + tail))
  {
    ConcatHead([k, v] + ws, tail);
    assert ([k, v] + ws)[1..] == [v] + ws;
    ConcatHead([v] + ws, tail);
    assert ([v] + ws)[1..] == ws;
  }

  // ----- structs -----

  function FieldOks(c: Decoder, fs: seq<Field>, vs: seq<Value>, d: nat): (oks: seq<bool>)
    requires |fs| == |vs|
    ensures |oks| == |fs|
  {
    seq(|fs|, k requires 0 <= k < |fs| => k < Kept(fs, vs) ==> Readable(c, fs[k].typ, vs[k], d))
  }

  lemma {:induction false} StructBack(c: Decoder, t: Type, v: Value, d: nat, prev: Value, tail: Bytes)
    requires t.TStruct? && v.VStruct? && Holds(t, v) && WireOf(t, v) != WZero && (c.events || d <= MAX_NESTED)
    ensures var w := WireOf(t, v);
            DecHead(c, t, prev, HeadOf(w), BodyOf(w) + tail, d) == Outcome(c, t, v, d, prev, tail)
    decreases t, 2, 0
  {
    var vs := v.fields;
    HoldsParts(t, v);
    var ws := OwnItems(t, vs);
    var prevs := FieldValues(t.fields, prev);
    var oks, xs := FieldOks(c, t.fields, vs, d + 1), LandedFields(c, t, vs, prevs);
    forall m | 0 <= m < |vs|
      ensures OutcomeAt(c, t.fields[m], ws, d + 1, prevs[m], oks[m], xs[m])
    {
      FieldBack(c, t, vs, prevs, m, d + 1);
    }
    OwnItemsSkip(c, t, vs);
    OwnLength(t, vs);
    StructRuns(c, t, ws, oks, xs, prev, HeadOf(WArr(ws)), d, tail);
    OwnOutcome(c, t, vs, d, prev, tail);
  }

  lemma {:induction false} FieldBack(c: Decoder, t: Type, vs: seq<Value>, prevs: seq<Value>, m: nat, d: nat)
    requires t.TStruct? && HoldsFields(t, vs) && |prevs| == |vs| && m < |vs|
    ensures OutcomeAt(c, t.fields[m], OwnItems(t, vs), d, prevs[m], FieldOks(c, t.fields, vs, d)[m],
                      LandedFields(c, t, vs, prevs)[m])
    decreases t, 0, 0
  {
    var f := t.fields[m];
    if m < Kept(t.fields, vs) {
      FieldItemAt(t, vs, Kept(t.fields, vs), m);
      DecodesBack(c, f.typ, vs[m], d, prevs[m]);
    } else {
      FieldDropped(t, vs, m);
      LandedZero(c, f.typ, prevs[m]);
    }
  }

  lemma {:induction false} DecodesBack(c: Decoder, t: Type, v: Value, d: nat, prev: Value)
    requires Holds(t, v)
    ensures Decodes(c, t, WireOf(t, v), d, prev, Readable(c, t, v, d), Landed(c, t, v, prev))
    decreases t, 5, 0
  {
    forall tail: Bytes
      ensures DecodesAt(c, t, WireOf(t, v), d, prev, Readable(c, t, v, d), Landed(c, t, v, prev), tail)
    {
      RoundTrip(c, t, v, d, prev, tail);
    }
  }

  /** A dropped field is zero, and its order is beyond the items. */
  lemma {:induction false} FieldDropped(t: Type, vs: seq<Value>, m: nat)
    requires t.TStruct? && HoldsFields(t, vs) && Kept(t.fields, vs) <= m < |vs|
    ensures vs[m] == Zero(t.fields[m].typ) && t.fields[m].order >= |OwnItems(t, vs)|
  {
    var fs, k := t.fields, Kept(t.fields, vs);
    KeptExact(fs, vs);
    FieldItemsLength(t, vs, k);
    assert Orders(fs)[k - 1] < Orders(fs)[m];
  }

  /** A struct's own data has only Zero items besides the fields', and no more items than its fields reach. */
  lemma {:induction false} OwnItemsSkip(c: Decoder, t: Type, vs: seq<Value>)
    requires t.TStruct? && HoldsFields(t, vs) && vs != []
    ensures SkipsFine(c, t.fields, OwnItems(t, vs)) && Consumed(t.fields, |OwnItems(t, vs)|) == |OwnItems(t, vs)|
  {
    var fs, ws := t.fields, OwnItems(t, vs);
    OwnLength(t, vs);
    forall j | 0 <= j < |ws| && Unclaimed(fs, j)
      ensures Skippable(c.popSkip, ws[j])
    {
      HoleAt(t, vs, Kept(fs, vs), j);
    }
  }

  lemma {:induction false} OwnLength(t: Type, vs: seq<Value>)
    requires t.TStruct? && HoldsFields(t, vs) && vs != []
    ensures var ws := OwnItems(t, vs);
            0 < |ws| && AllValid(ws) && Consumed(t.fields, |ws|) == |ws|
  {
    var k := Kept(t.fields, vs);
    KeptExact(t.fields, vs);
    FieldsValid(t, vs, k);
    FieldItemsLength(t, vs, k);
    AllConsumed(t.fields, k);
  }

  /** The items of the first k fields end at or before the last field's order. */
  lemma {:induction false} AllConsumed(fs: seq<Field>, k: nat)
    requires StrictlyIncreasing(Orders(fs)) && 0 < k <= |fs|
    ensures Consumed(fs, OrderBefore(fs, k) + 1) == OrderBefore(fs, k) + 1
  {
    assert k < |fs| ==> Orders(fs)[k - 1] < Orders(fs)[|fs| - 1];
  }

  lemma {:induction false} OwnOutcome(c: Decoder, t: Type, vs: seq<Value>, d: nat, prev: Value, tail: Bytes)
    requires t.TStruct? && HoldsFields(t, vs) && vs != [] && (c.events || d <= MAX_NESTED)
    ensures StructOutcome(c, t.fields, OwnItems(t, vs), d + 1, FieldOks(c, t.fields, vs, d + 1),
                          LandedFields(c, t, vs, FieldValues(t.fields, prev)), tail) ==
            Outcome(c, t, VStruct(vs), d, prev, tail)
  {
    var ws := OwnItems(t, vs);
    OwnRest(t, vs, tail);
    FieldOksAll(c, t, vs, d);
    LandedStruct(c, t, vs, prev);
    OwnCanZero(c, t, vs, d, d + 1, |ws|);
  }

  /** A struct's own items are all consumed. */
  lemma {:induction false} OwnRest(t: Type, vs: seq<Value>, tail: Bytes)
    requires t.TStruct? && HoldsFields(t, vs) && vs != []
    ensures var ws := OwnItems(t, vs); Concat(ws[Consumed(t.fields, |ws|)..]) + tail == tail
  {
    var ws := OwnItems(t, vs);
    OwnLength(t, vs);
    assert ws[|ws|..] == [] && [] + tail == tail;
  }

  lemma {:induction false} LandedStruct(c: Decoder, t: Type, vs: seq<Value>, prev: Value)
    requires t.TStruct? && |t.fields| == |vs|
    ensures Landed(c, t, VStruct(vs), prev) == VStruct(LandedFields(c, t, vs, FieldValues(t.fields, prev)))
  {
  }

  /** Where the first field can be read, fields can be zeroed. */
  lemma {:induction false} OwnCanZero(c: Decoder, t: Type, vs: seq<Value>, d: nat, inner: nat, size: nat)
    requires t.TStruct? && HoldsFields(t, vs) && vs != [] && inner == d + 1
    ensures Reads(c, t, VStruct(vs), d) ==> CanZero(c, t.fields, size, inner)
  {
    KeptExact(t.fields, vs);
    FirstReadable(c, t.fields[0].typ, vs[0], inner);
  }

  lemma {:induction false} FirstReadable(c: Decoder, t: Type, v: Value, d: nat)
    ensures Readable(c, t, v, d) ==> c.events || d <= MAX_NESTED
  {
    assert Readable(c, t, v, d) ==> Reads(c, t, v, d);
  }

  /** All fields that were written can be read. */
  lemma {:induction false} FieldOksAll(c: Decoder, t: Type, vs: seq<Value>, d: nat)
    requires t.TStruct? && |t.fields| == |vs| && (c.events || d <= MAX_NESTED)
    ensures AllTrue(FieldOks(c, t.fields, vs, d + 1)) <==> Reads(c, t, VStruct(vs), d)
  {
    var fs, k := t.fields, Kept(t.fields, vs);
    var oks := FieldOks(c, fs, vs, d + 1);
    if AllTrue(oks) {
      forall m | 0 <= m < k
        ensures Readable(c, fs[m].typ, vs[m], d + 1)
      {
        assert oks[m];
      }
    } else {
      var m :| 0 <= m < |fs| && !oks[m];
      assert m < k && !Readable(c, fs[m].typ, vs[m], d + 1);
    }
  }

  // ----- types without maps -----

  predicate MapFree(t: Type) {
    match t
    case TMap(_, _) => false
    case TArray(e, _) => MapFree(e)
    case TSlice(e) => MapFree(e)
    case TStruct(fs) => forall i | 0 <= i < |fs| :: MapFree(fs[i].typ)
    case TPtr(e) => MapFree(e)
    case _ => true
  }

  lemma {:induction false} MapFreeNoEntries(t: Type, v: Value)
    requires MapFree(t) && HasType(t, v)
    ensures NoEntries(v)
    decreases t, 0
  {
    if v.VArray? || v.VSlice? {
      ElemsNoEntries(t.elem, v.elems);
      if v.VSlice? {
        ElemsNoEntries(t.elem, v.spare);
      }
    } else if v.VStruct? {
      forall i | 0 <= i < |v.fields|
        ensures NoEntries(v.fields[i])
      {
        MapFreeNoEntries(t.fields[i].typ, v.fields[i]);
      }
    } else if v.VPtr? {
      MapFreeNoEntries(t.elem, v.target);
    }
  }

  lemma {:induction false} ElemsNoEntries(e: Type, vs: seq<Value>)
    requires MapFree(e) && AllHaveType(e, vs)
    ensures forall i | 0 <= i < |vs| :: NoEntries(vs[i])
    decreases e, 1
  {
    forall i | 0 <= i < |vs|
      ensures NoEntries(vs[i])
    {
      MapFreeNoEntries(e, vs[i]);
    }
  }

  /** Without maps in the type, what is read back does not depend on what the destination held. */
  lemma {:induction false} MapFreeBack(c: Decoder, t: Type, v: Value, d: nat, prev: Value, tail: Bytes)
    requires Holds(t, v) && MapFree(t) && HasType(t, prev)
    ensures Dec(c, t, prev, ItemBytes(WireOf(t, v)) + tail, d) ==
            if Readable(c, t, v, d) then Ok(Restored(c, t, v), tail) else Err
  {
    MapFreeNoEntries(t, prev);
    LandedFresh(c, t, v, prev);
    RoundTrip(c, t, v, d, prev, tail);
  }
}
