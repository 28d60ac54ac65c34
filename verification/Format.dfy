/** The format at literal inputs: its header bytes, limits, and the bytes of small values. */
module Format {
  import opened Numeric
  import opened Headers
  import opened Wrappers
  import opened Wire
  import opened Skipping
  import opened Values
  import opened Encoding
  import opened Decoding
  import opened RoundTrip
  import opened Conversions
  import opened Stability

  // ----- numbers and headers -----

  /** Bytes are big-endian: what stands before counts 256 times as much per byte behind it. */
  lemma {:induction false} BigEndian(a: Bytes, b: Bytes)
    ensures ValueOf(a + b) == ValueOf(a) * Pow256(|b|) + ValueOf(b)
    decreases |b|
  {
    if b == [] {
      assert a + b == a;
    } else {
      var init, last := b[..|b| - 1], b[|b| - 1];
      assert (a + b)[..|a + b| - 1] == a + init;
      BigEndian(a, init);
    }
  }

  lemma {:induction false} TwoBytes()
    ensures UintBytes(0x0102) == [1, 2] && UintBytes(0xFFFF) == [0xFF, 0xFF] && UintBytes(0x1_0000) == [1, 0, 0]
    ensures ValueOf([1, 2]) == 0x0102
  {
    ValueOfUintBytes(0x0102);
  }

  /** The header bytes of every family, at the shortest and longest one-byte lengths and the first long ones. */
  lemma {:induction false} HeaderBytes()
    ensures ArrayHeader(1) == [0x91] && ArrayHeader(15) == [0x9F] && ArrayHeader(16) == [0x90]
    ensures ArrayHeader(17) == [0x89, 17]
    ensures StringHeader(1) == [0xC1] && StringHeader(31) == [0xDF] && StringHeader(32) == [0xC0]
    ensures StringHeader(33) == [0xE1, 33] && StringHeader(0x100) == [0xE2, 1, 0]
    ensures NumericHeader(false, 1) == [0xA1] && NumericHeader(false, 7) == [0xA7] && NumericHeader(false, 8) == [0xA0]
    ensures NumericHeader(true, 1) == [0xA9] && NumericHeader(true, 7) == [0xAF] && NumericHeader(true, 8) == [0xA8]
    ensures NumericHeader(false, 9) == [0xB1, 9] && NumericHeader(true, 9) == [0xB9, 9]
  {
    Low(8, 7);
    Low(16, 15);
    Low(32, 31);
    TwoBytes();
  }

  lemma {:induction false} Low(n: nat, w: byte)
    requires n == w + 1
    ensures LowBits(n, w) == 0
  {
    assert LowBits(n, w) == LowBits(0, w);
  }

  /** What every byte is as a header, by its high bits. */
  lemma {:induction false} HeaderOfByte(b: byte)
    ensures ParseHeader(b) ==
            if b < 0x80 then Some((THSingleByte, b))
            else if b == 0x80 then Some((THZeroValue, 0))
            else if b == 0x81 then Some((THTrue, 0))
            else if b == 0x82 then Some((THEmpty, 0))
            else if b < 0x88 then None
            else if b < 0x90 then Some((THArrayMulti, if b == 0x88 then 8 else b - 0x88))
            else if b < 0xA0 then Some((THArraySingle, if b == 0x90 then 16 else b - 0x90))
            else if b < 0xA8 then Some((THPosNumSingle, if b == 0xA0 then 8 else b - 0xA0))
            else if b < 0xB0 then Some((THNegNumSingle, if b == 0xA8 then 8 else b - 0xA8))
            else if b < 0xB8 then Some((THPosBigInt, if b == 0xB0 then 8 else b - 0xB0))
            else if b < 0xC0 then Some((THNegBigInt, if b == 0xB8 then 8 else b - 0xB8))
            else if b < 0xE0 then Some((THStringSingle, if b == 0xC0 then 32 else b - 0xC0))
            else if b < 0xE8 then Some((THStringMulti, if b == 0xE0 then 8 else b - 0xE0))
            else if b < 0xF0 then Some((THVersionSingle, if b == 0xE8 then 8 else b - 0xE8))
            else Some((THVersion, b - 0xF0))
  {
  }

  /** The bytes of some numbers: one byte below 128, then sign and magnitude. */
  lemma {:induction false} NumberBytes(w: Width)
    ensures ItemBytes(WireOf(TInt(w), VInt(100))) == [100] && ItemBytes(WireOf(TInt(w), VInt(-1))) == [0xA9, 1]
    ensures ItemBytes(WireOf(TInt(W64), VInt(128))) == [0xA1, 128]
    ensures ItemBytes(WireOf(TUint(W64), VUint(0x0102))) == [0xA2, 1, 2]
  {
    DigitBytes(true, 1, [1]);
    DigitBytes(false, 128, [128]);
    DigitBytes(false, 0x0102, [1, 2]);
    TwoBytes();
    ShortHeaders();
  }

  lemma {:induction false} DigitBytes(negative: bool, u: nat, bs: Bytes)
    requires (negative || u > 127) && UintBytes(u) == bs
    ensures ItemBytes(NumberItem(negative, u)) == NumericHeader(negative, |bs|) + bs
  {
  }

  /** The bytes of the values without digits. */
  lemma {:induction false} MarkBytes()
    ensures ItemBytes(WireOf(TBool, VBool(true))) == [0x81] && ItemBytes(WireOf(TBool, VBool(false))) == [0x80]
    ensures ItemBytes(WireOf(TSlice(TBool), VSlice([], []))) == [0x82]
    ensures ItemBytes(WireOf(TSlice(TBool), VNil)) == [0x80]
    ensures ItemBytes(WireOf(TBigInt, VNil)) == [0x80] && ItemBytes(WireOf(TString, VString([]))) == [0x80]
  {
  }

  lemma {:induction false} TextBytes()
    ensures ItemBytes(WireOf(TString, VString([65]))) == [65]
    ensures ItemBytes(WireOf(TString, VString([65, 66]))) == [0xC2, 65, 66]
    ensures ItemBytes(WireOf(TString, VString([200]))) == [0xC1, 200]
  {
    ShortHeaders();
  }

  lemma {:induction false} ShortHeaders()
    ensures NumericHeader(false, 1) == [0xA1] && NumericHeader(true, 1) == [0xA9] && NumericHeader(false, 2) == [0xA2]
    ensures StringHeader(1) == [0xC1] && StringHeader(2) == [0xC2]
  {
  }

  // ----- limits -----

  /** A bool within n slices. */
  function NestedType(n: nat): Type {
    if n == 0 then TBool else TSlice(NestedType(n - 1))
  }

  function NestedValue(n: nat): Value {
    if n == 0 then VBool(true) else VSlice([NestedValue(n - 1)], [])
  }

  lemma {:induction false} NestedHolds(n: nat)
    ensures Holds(NestedType(n), NestedValue(n))
  {
    if n > 0 {
      NestedHolds(n - 1);
    }
  }

  lemma {:induction false} NestedNotByte(n: nat)
    ensures NestedType(n) != BYTE
  {
  }

  lemma {:induction false} NestedWritable(n: nat, d: nat)
    ensures Writable(NestedType(n), NestedValue(n), d) <==> n + d <= 100
  {
    if n > 0 {
      var m, inner := n - 1, d + 1;
      NestedNotByte(m);
      NestedWritable(m, inner);
      OneWritable(NestedType(m), NestedValue(m), d, inner);
    }
  }

  lemma {:induction false} OneWritable(e: Type, v: Value, d: nat, inner: nat)
    requires e != BYTE && inner == d + 1
    ensures Writable(TSlice(e), VSlice([v], []), d) <==> d < 100 && Writable(e, v, inner)
  {
    assert [v][0] == v;
  }

  lemma {:induction false} NestedReadable(c: Decoder, n: nat, d: nat)
    ensures Readable(c, NestedType(n), NestedValue(n), d) <==> c.events || n + d <= 100
  {
    if n > 0 {
      var m, inner := n - 1, d + 1;
      NestedNotByte(m);
      NestedReadable(c, m, inner);
      OneReadable(c, NestedType(m), NestedValue(m), d, inner);
    }
  }

  lemma {:induction false} OneReadable(c: Decoder, e: Type, v: Value, d: nat, inner: nat)
    requires e != BYTE && inner == d + 1
    ensures Readable(c, TSlice(e), VSlice([v], []), d) <==> (c.events || d <= 100) && Readable(c, e, v, inner)
  {
    assert [v][0] == v;
  }

  /**
   A hundred nested slices are written and read back; a hundred and one are refused by the writer, and their
   data by the recursive reader but not by the event decoder.
   */
  lemma {:induction false} NestingLimit(c: Decoder, n: nat, prev: Value, tail: Bytes)
    ensures Writable(NestedType(n), NestedValue(n), 0) <==> n <= 100
    ensures Dec(c, NestedType(n), prev, ItemBytes(WireOf(NestedType(n), NestedValue(n))) + tail, 0).Ok? <==>
            c.events || n <= 100
  {
    NestedHolds(n);
    NestedWritable(n, 0);
    NestedReadable(c, n, 0);
    RoundTrip.RoundTrip(c, NestedType(n), NestedValue(n), 0, prev, tail);
  }

  /** n zero bytes. */
  function ZeroBytes(n: nat): Bytes {
    seq(n, _ => 0)
  }

  /** The event decoder reads strings of up to 2^31 - 1 bytes, the recursive reader longer ones too. */
  lemma {:induction false} LengthLimit(c: Decoder, n: nat, prev: Value, tail: Bytes)
    requires 1 < n < TWO_TO_THE_63
    ensures var v := VString(ZeroBytes(n));
            Dec(c, TString, prev, ItemBytes(WireOf(TString, v)) + tail, 0) ==
            if c.events && n >= 0x8000_0000 then Err else Ok(v, tail)
  {
    RoundTrip.RoundTrip(c, TString, VString(ZeroBytes(n)), 0, prev, tail);
  }

  // ----- narrowing and cut data -----

  /** 300 into eight bits is 44. */
  lemma {:induction false} NarrowedUint(c: Decoder, prev: Value, tail: Bytes)
    ensures Decoded(c, TUint(W8), WireOf(TUint(W16), VUint(300)), prev, 0, tail) == Ok(VUint(44), tail)
  {
    UintNarrowed(c, W8, 300, prev, 0, tail);
    var u := Decoded(c, TUint(W8), NumberItem(false, 300), prev, 0, tail).value.u;
    var k :| u == 300 + Times(k, W8);
    assert Times(k, W8) == k * 0x100;
  }

  /** -300 into eight bits is -44. */
  lemma {:induction false} NarrowedInt(c: Decoder, prev: Value, tail: Bytes)
    ensures Decoded(c, TInt(W8), WireOf(TInt(W16), VInt(-300)), prev, 0, tail) == Ok(VInt(-44), tail)
  {
    IntNarrowed(c, W8, -300, prev, 0, tail);
    var i := Decoded(c, TInt(W8), NumberItem(true, 300), prev, 0, tail).value.i;
    var k :| i == -300 + Times(k, W8);
    assert Times(k, W8) == k * 0x100;
  }

  /** 2^63 as an int64 is -2^63. */
  lemma {:induction false} AboveInt64(c: Decoder, prev: Value, tail: Bytes)
    ensures Decoded(c, TInt(W64), WireOf(TBigInt, VBig(TWO_TO_THE_63)), prev, 0, tail) == Ok(VInt(-TWO_TO_THE_63), tail)
  {
    Int64Becomes(c, false, TWO_TO_THE_63, -TWO_TO_THE_63, prev, tail);
  }

  /** -2^63 - 1 as an int64 is -2^63 + 1: the sign is lost and the rest wraps. */
  lemma {:induction false} BelowInt64(c: Decoder, prev: Value, tail: Bytes)
    ensures Decoded(c, TInt(W64), WireOf(TBigInt, VBig(-TWO_TO_THE_63 - 1)), prev, 0, tail) ==
            Ok(VInt(-TWO_TO_THE_63 + 1), tail)
  {
    Int64Becomes(c, true, TWO_TO_THE_63 + 1, -TWO_TO_THE_63 + 1, prev, tail);
  }

  lemma {:induction false} Int64Becomes(c: Decoder, negative: bool, u: nat, i: int, prev: Value, tail: Bytes)
    requires TWO_TO_THE_63 + (if negative then 1 else 0) <= u < TWO_TO_THE_64 && i == u - TWO_TO_THE_64
    ensures Decoded(c, TInt(W64), NumberItem(negative, u), prev, 0, tail) == Ok(VInt(i), tail)
  {
    var item := NumberItem(negative, u);
    NumberIs(negative, u);
    IntoInt(c, W64, item, prev, 0, tail);
    OnlyInt64(Decoded(c, TInt(W64), item, prev, 0, tail).value.i, u, i);
  }

  lemma {:induction false} OnlyInt64(x: int, n: int, i: int)
    requires InIntRange(W64, x) && Congruent(W64, x, n) && InIntRange(W64, i) && i == n - TWO_TO_THE_64
    ensures x == i
  {
    var k :| x == n + Times(k, W64);
    assert Times(k, W64) == k * 0x1_0000_0000_0000_0000;
  }

  /** A string of five bytes cut after two is neither skipped nor decoded. */
  lemma {:induction false} CutString(c: Decoder, prev: Value)
    ensures Skim(c.popSkip, [0xC5, 1, 2]) == Err && Dec(c, TString, prev, [0xC5, 1, 2], 0) == Err
  {
    var s := [1, 2, 3, 4, 5];
    var bs := ItemBytes(WStr(s));
    assert StringHeader(5) == [0xC5];
    assert bs == [0xC5, 1, 2] + [3, 4, 5];
    NoPrefixSkipped(c.popSkip, WStr(s), [0xC5, 1, 2], [3, 4, 5]);
    NoPrefixDecoded(c, TString, VString(s), prev, 0, [0xC5, 1, 2], [3, 4, 5]);
  }

  // ----- long headers that announce nothing -----

  /** A long header of one length byte, which is zero, with something behind it. */
  lemma {:induction false} NothingAnnounced(int32: bool, f: Family, rest: Bytes)
    ensures var r := ReadHead(int32, [HeaderTypeMap(f.Multi()).c + 1, 0] + rest);
            if rest != [] && f == Arrays then r == Ok(Head(THArrayMulti, 0, []), rest) else r == Err
  {
    var bs := [HeaderTypeMap(f.Multi()).c + 1, 0] + rest;
    LongHeader(f, bs[0]);
    assert bs[1..] == [0] + rest && ([0] + rest)[..1] == [0] && ([0] + rest)[1..] == rest;
    OneByte(0);
  }

  lemma {:induction false} LongHeader(f: Family, b: byte)
    requires b == HeaderTypeMap(f.Multi()).c + 1
    ensures ParseHeader(b) == Some((f.Multi(), 1))
  {
  }

  /** An array of no items into a slice: a nil slice stays nil, another is emptied. */
  lemma {:induction false} NoElements(c: Decoder, prev: Value, rest: Bytes)
    requires rest != []
    ensures Dec(c, TSlice(TBool), prev, [0x89, 0] + rest, 0) == Ok(if prev.VSlice? then VSlice([], []) else VNil, rest)
  {
    NothingAnnounced(c.events, Arrays, rest);
    var h := Head(THArrayMulti, 0, []);
    assert Resize(TBool, prev, h.n) == [] && DecElems(c, TBool, [], rest, 1) == Ok([], rest);
    assert DecSlice(c, TSlice(TBool), prev, h, rest, 0) == Ok(Refilled(prev, []), rest);
  }

  /** An array of no items into a map: the entries stay as they are. */
  lemma {:induction false} NoEntriesThere(c: Decoder, prev: Value, rest: Bytes)
    requires rest != []
    ensures Dec(c, TMap(TBool, TBool), prev, [0x89, 0] + rest, 0) ==
            Ok(VMap(if prev.VMap? then prev.entries else []), rest)
  {
    NothingAnnounced(c.events, Arrays, rest);
    MapHead(c, TMap(TBool, TBool), prev, 0, Head(THArrayMulti, 0, []), rest, 0);
  }
}
