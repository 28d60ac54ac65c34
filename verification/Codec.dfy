/** The entry points of both decoders, and the way from a value to its bytes and back. */
module Codec {
  import opened Numeric
  import opened Wrappers
  import opened Wire
  import opened Values
  import opened Encoding
  import opened Decoding
  import opened RoundTrip
  import opened Reader
  import RecursiveReader
  import EventDecoder

  /** Decodes one value from a reader that may be read on from. */
  method DecodeV1(vr: ValueReader, t: Type, prev: Value) returns (r: Option<Value>)
    requires vr.Valid()
    modifies vr
    ensures vr.Valid() && vr.Gave(r, Dec(Decoder(false, vr.popSkip), t, prev, old(vr.Rest()), 0))
  {
    r := RecursiveReader.ValueReader0(vr, t, prev, 0);
  }

  method DecodeV2(vr: ValueReader, t: Type, prev: Value) returns (r: Option<Value>)
    requires vr.Valid()
    modifies vr
    ensures vr.Valid() && vr.Gave(r, Dec(Decoder(true, vr.popSkip), t, prev, old(vr.Rest()), 0))
  {
    r := EventDecoder.Decode(vr, t, prev);
  }

  /** Decodes one value from a buffer; bytes behind it are ignored. */
  method Unmarshal(buf: Bytes, t: Type, prev: Value) returns (r: Option<Value>)
    ensures var spec := Dec(Decoder(false, false), t, prev, buf, 0);
            r == if spec.Ok? then Some(spec.value) else None
  {
    var vr := new ValueReader(buf, false);
    r := DecodeV1(vr, t, prev);
  }

  /** Values written one after the other, each with its type. */
  datatype Typed = Typed(typ: Type, value: Value)

  function Stream(vs: seq<Typed>): Bytes {
    if vs == [] then [] else ItemBytes(WireOf(vs[0].typ, vs[0].value)) + Stream(vs[1..])
  }

  /** Reads values of the given types from the same reader, into fresh destinations. */
  function DecStream(c: Decoder, ts: seq<Type>, bs: Bytes): Res<seq<Value>>
    decreases |ts|
  {
    if ts == [] then Ok([], bs) else
    var r := Dec(c, ts[0], Zero(ts[0]), bs, 0);
    if r.Err? then Err else
    var rs := DecStream(c, ts[1..], r.rest);
    if rs.Err? then Err else Ok([r.value] + rs.value, rs.rest)
  }

  function TypesOf(vs: seq<Typed>): seq<Type> {
    seq(|vs|, i requires 0 <= i < |vs| => vs[i].typ)
  }

  function AllRestored(c: Decoder, vs: seq<Typed>): seq<Value> {
    seq(|vs|, i requires 0 <= i < |vs| => Restored(c, vs[i].typ, vs[i].value))
  }

  /** Values written one after the other are read back one after the other, with one reader. */
  lemma {:induction false} StreamBack(c: Decoder, vs: seq<Typed>, tail: Bytes)
    requires forall i | 0 <= i < |vs| :: Holds(vs[i].typ, vs[i].value) && Readable(c, vs[i].typ, vs[i].value, 0)
    ensures DecStream(c, TypesOf(vs), Stream(vs) + tail) == Ok(AllRestored(c, vs), tail)
    decreases |vs|
  {
    if vs == [] {
      assert Stream(vs) + tail == tail && TypesOf(vs) == [] && AllRestored(c, vs) == [];
    } else {
      FreshBack(c, vs[0].typ, vs[0].value, Stream(vs[1..]) + tail);
      StreamBack(c, vs[1..], tail);
      StreamFirst(c, vs, tail);
    }
  }

  /** A value read into a fresh destination. */
  lemma {:induction false} FreshBack(c: Decoder, t: Type, v: Value, behind: Bytes)
    requires Holds(t, v)
    ensures Dec(c, t, Zero(t), ItemBytes(WireOf(t, v)) + behind, 0) ==
            if Readable(c, t, v, 0) then Ok(Restored(c, t, v), behind) else Err
  {
    ZeroNoEntries(t);
    LandedFresh(c, t, v, Zero(t));
    RoundTrip.RoundTrip(c, t, v, 0, Zero(t), behind);
  }

  lemma {:induction false} StreamFirst(c: Decoder, vs: seq<Typed>, tail: Bytes)
    requires vs != []
    ensures Stream(vs) + tail == ItemBytes(WireOf(vs[0].typ, vs[0].value)) + (Stream(vs[1..]) + tail)
    ensures TypesOf(vs)[0] == vs[0].typ && TypesOf(vs)[1..] == TypesOf(vs[1..])
    ensures AllRestored(c, vs) == [Restored(c, vs[0].typ, vs[0].value)] + AllRestored(c, vs[1..])
  {
    Regroup(ItemBytes(WireOf(vs[0].typ, vs[0].value)), Stream(vs[1..]), tail);
    TypesFirst(vs);
    AllRestoredFirst(c, vs);
  }

  lemma {:induction false} TypesFirst(vs: seq<Typed>)
    requires vs != []
    ensures TypesOf(vs)[0] == vs[0].typ && TypesOf(vs)[1..] == TypesOf(vs[1..])
  {
  }

  lemma {:induction false} AllRestoredFirst(c: Decoder, vs: seq<Typed>)
    requires vs != []
    ensures AllRestored(c, vs) == [Restored(c, vs[0].typ, vs[0].value)] + AllRestored(c, vs[1..])
  {
  }
}
