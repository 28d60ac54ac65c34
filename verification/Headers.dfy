/**
 The header table of the format, header parsing, and the header makers.

 Every mask of the table is the complement of its wildcard mask and a wildcard is one below a power
 of two, so masking with either is remainder arithmetic: TableShape states this of the table,
 LowBitsIsRemainder of LowBits, and MaskIsRemainder of eight-bit words.
 */
module Headers {
  import opened Numeric
  import opened Wrappers

  datatype TypeHeader =
    | THSingleByte | THZeroValue | THTrue | THEmpty
    | THArraySingle | THArrayMulti
    | THPosNumSingle | THNegNumSingle | THPosBigInt | THNegBigInt
    | THStringSingle | THStringMulti
    | THVersion | THVersionSingle
    | THInvalid
  {
    predicate IsArray() { THArraySingle? || THArrayMulti? }
    predicate IsString() { THStringSingle? || THStringMulti? }
    predicate IsNumber() { IsPositive() || IsNegative() }
    predicate IsPositive() { THPosNumSingle? || THPosBigInt? }
    predicate IsNegative() { THNegNumSingle? || THNegBigInt? }
  }

  /** The headers a byte can parse to. */
  type Parsed = th: TypeHeader | th != THInvalid witness THZeroValue

  /** `b & w` for a wildcard mask w, one below a power of two. */
  function LowBits(b: nat, w: byte): (r: nat)
    ensures r <= w
    ensures b <= w ==> r == b
  {
    if b <= w then b else LowBits(b - w - 1, w)
  }

  lemma {:induction false} LowBitsIsRemainder(b: nat, w: byte)
    requires w in {0x00, 0x07, 0x0F, 0x1F, 0x7F}
    ensures LowBits(b, w) == b % (w + 1)
  {
    if b > w {
      LowBitsIsRemainder(b - w - 1, w);
      RemainderStep(b, w);
    }
  }

  lemma {:induction false} RemainderStep(b: nat, w: byte)
    requires w in {0x00, 0x07, 0x0F, 0x1F, 0x7F} && w < b
    ensures (b - w - 1) % (w + 1) == b % (w + 1)
  {
    if w == 0x07 {
      assert (b - 8) % 8 == b % 8;
    } else if w == 0x0F {
      assert (b - 16) % 16 == b % 16;
    } else if w == 0x1F {
      assert (b - 32) % 32 == b % 32;
    } else if w == 0x7F {
      assert (b - 128) % 128 == b % 128;
    } else {
      assert (b - 1) % 1 == b % 1;
    }
  }

  datatype ValueKind = VTByte | VTSingleHeader | VTMultiHeader

  /** A row of the table: code, mask, wildcard mask, kind, followed by value bytes, nested. */
  datatype THValue = THValue(c: byte, m: byte, w: byte, t: ValueKind, b: bool, x: bool)
  {
    predicate Match(b: byte) {
      b - LowBits(b, w) == c
    }

    /** The number in a matching header byte; a length of zero stands for one above the wildcard. */
    function Length(b: byte): nat {
      var l := LowBits(b, w);
      if l == 0 && !t.VTByte? then w + 1 else l
    }

    function WithNumber(b: nat): (r: int)
      ensures c <= r <= c + w
    {
      c + LowBits(b, w)
    }
  }

  function HeaderTypeMap(th: TypeHeader): THValue
    requires th != THInvalid
  {
    match th
    case THSingleByte => THValue(0x00, 0x80, 0x7F, VTByte, false, false)
    case THZeroValue => THValue(0x80, 0xFF, 0x00, VTByte, false, false)
    case THTrue => THValue(0x81, 0xFF, 0x00, VTByte, false, false)
    case THEmpty => THValue(0x82, 0xFF, 0x00, VTByte, false, false)
    case THArraySingle => THValue(0x90, 0xF0, 0x0F, VTSingleHeader, false, true)
    case THArrayMulti => THValue(0x88, 0xF8, 0x07, VTMultiHeader, false, true)
    case THPosNumSingle => THValue(0xA0, 0xF8, 0x07, VTSingleHeader, true, false)
    case THNegNumSingle => THValue(0xA8, 0xF8, 0x07, VTSingleHeader, true, false)
    case THPosBigInt => THValue(0xB0, 0xF8, 0x07, VTMultiHeader, true, false)
    case THNegBigInt => THValue(0xB8, 0xF8, 0x07, VTMultiHeader, true, false)
    case THStringSingle => THValue(0xC0, 0xE0, 0x1F, VTSingleHeader, true, false)
    case THStringMulti => THValue(0xE0, 0xF8, 0x07, VTMultiHeader, true, false)
    case THVersion => THValue(0xF0, 0xF0, 0x0F, VTByte, false, false)
    case THVersionSingle => THValue(0xE8, 0xF8, 0x07, VTSingleHeader, false, false)
  }

  /** The masks of the table, so that `&` with them is the remainder arithmetic of Match and WithNumber. */
  lemma {:induction false} TableShape(th: TypeHeader)
    requires th != THInvalid
    ensures var r := HeaderTypeMap(th);
            r.m == 0xFF - r.w && r.c % (r.w + 1) == 0 && r.w in {0x00, 0x07, 0x0F, 0x1F, 0x7F}
  {
  }

  lemma {:induction false} NoLowBits(th: TypeHeader)
    requires th != THInvalid
    ensures LowBits(HeaderTypeMap(th).c, HeaderTypeMap(th).w) == 0
  {
    TableShape(th);
    var r := HeaderTypeMap(th);
    LowBitsIsRemainder(r.c, r.w);
  }

  /** On eight-bit words, masking with a wildcard or its complement is taking or dropping the remainder. */
  lemma {:induction false} MaskIsRemainder(b: bv8)
    ensures b & 0x7F == b % 0x80 && b & 0x80 == b - b % 0x80
    ensures b & 0x1F == b % 0x20 && b & 0xE0 == b - b % 0x20
    ensures b & 0x0F == b % 0x10 && b & 0xF0 == b - b % 0x10
    ensures b & 0x07 == b % 0x08 && b & 0xF8 == b - b % 0x08
  {
  }

  /** The table of the format's specification, by ranges of the header byte. */
  function ParseHeader(b: byte): Option<(TypeHeader, nat)> {
    if b < 0x80 then Some((THSingleByte, b))
    else if b == 0x80 then Some((THZeroValue, 0))
    else if b == 0x81 then Some((THTrue, 0))
    else if b == 0x82 then Some((THEmpty, 0))
    else if b < 0x88 then None
    else if b < 0x90 then Some((THArrayMulti, Count(b - 0x88, 8)))
    else if b < 0xA0 then Some((THArraySingle, Count(b - 0x90, 16)))
    else if b < 0xA8 then Some((THPosNumSingle, Count(b - 0xA0, 8)))
    else if b < 0xB0 then Some((THNegNumSingle, Count(b - 0xA8, 8)))
    else if b < 0xB8 then Some((THPosBigInt, Count(b - 0xB0, 8)))
    else if b < 0xC0 then Some((THNegBigInt, Count(b - 0xB8, 8)))
    else if b < 0xE0 then Some((THStringSingle, Count(b - 0xC0, 32)))
    else if b < 0xE8 then Some((THStringMulti, Count(b - 0xE0, 8)))
    else if b < 0xF0 then Some((THVersionSingle, Count(b - 0xE8, 8)))
    else Some((THVersion, b - 0xF0))
  }

  /** The low bits of a header hold a length from 1 to `most`; zero stands for `most`. */
  function Count(bits: nat, most: nat): nat {
    if bits == 0 then most else bits
  }

  /** Dropping the low bits gives a multiple of the modulus exactly from there to the next multiple. */
  lemma {:induction false} LowBitsRange(b: nat, w: byte, c: nat)
    requires LowBits(c, w) == 0
    ensures b - LowBits(b, w) == c <==> c <= b <= c + w
    decreases b
  {
    if b > w && c > w {
      LowBitsRange(b - w - 1, w, c - w - 1);
    } else if b > w {
      LowBitsBelow(b, w);
    }
  }

  lemma {:induction false} LowBitsBelow(b: nat, w: byte)
    requires b > w
    ensures b - LowBits(b, w) > w
  {
    if b - w - 1 > w {
      LowBitsBelow(b - w - 1, w);
    }
  }

  /** At most one row of the table matches a byte, and it is the row ParseHeader names. */
  lemma {:induction false} MatchIsParse(th: TypeHeader, b: byte)
    requires th != THInvalid
    ensures HeaderTypeMap(th).Match(b) <==> ParseHeader(b).Some? && ParseHeader(b).value.0 == th
  {
    NoLowBits(th);
    LowBitsRange(b, HeaderTypeMap(th).w, HeaderTypeMap(th).c);
    CodeRange(th, b);
  }

  /** The range of header bytes of each row. */
  lemma {:induction false} CodeRange(th: TypeHeader, b: byte)
    requires th != THInvalid
    ensures var r := HeaderTypeMap(th);
            r.c <= b <= r.c + r.w <==> ParseHeader(b).Some? && ParseHeader(b).value.0 == th
  {
  }

  lemma {:induction false} RangeParses(th: TypeHeader, b: byte, l: nat)
    requires th != THInvalid
    requires b == HeaderTypeMap(th).c + l && l <= HeaderTypeMap(th).w
    ensures ParseHeader(b) == Some((th, if l == 0 && !HeaderTypeMap(th).t.VTByte? then HeaderTypeMap(th).w + 1 else l))
  {
    match th
    case THSingleByte =>
    case THZeroValue =>
    case THTrue =>
    case THEmpty =>
    case THArraySingle =>
    case THArrayMulti =>
    case THPosNumSingle =>
    case THNegNumSingle =>
    case THPosBigInt =>
    case THNegBigInt =>
    case THStringSingle =>
    case THStringMulti =>
    case THVersion =>
    case THVersionSingle =>
  }

  lemma {:induction false} MatchLength(th: TypeHeader, b: byte)
    requires th != THInvalid && HeaderTypeMap(th).Match(b)
    ensures ParseHeader(b) == Some((th, HeaderTypeMap(th).Length(b)))
  {
    TableShape(th);
    RangeParses(th, b, LowBits(b, HeaderTypeMap(th).w));
  }

  /**
   Walks the table in whatever order the map yields its rows and answers from the first match; the
   answer is the same for every order.
   */
  method ParseRTLHeader(b: byte, order: seq<TypeHeader>) returns (r: Option<(TypeHeader, nat)>)
    requires THInvalid !in order && forall th | th != THInvalid :: th in order
    ensures r == ParseHeader(b)
  {
    for i := 0 to |order|
      invariant ParseHeader(b).Some? ==> ParseHeader(b).value.0 !in order[..i]
    {
      var th := order[i];
      MatchIsParse(th, b);
      var thv := HeaderTypeMap(th);
      if thv.Match(b) {
        MatchLength(th, b);
        var l := LowBits(b, thv.w);
        if !thv.t.VTByte? && l == 0 {
          l := thv.w + 1;
        }
        return Some((th, l));
      }
    }
    assert order[..|order|] == order;
    ParseNeverInvalid(b);
    return None;
  }

  lemma {:induction false} ParseNeverInvalid(b: byte)
    ensures ParseHeader(b).Some? ==> ParseHeader(b).value.0 != THInvalid
  {
  }

  // ----- header makers -----

  /** The families of length headers, each with a one-byte form for small lengths and a long form. */
  datatype Family = Arrays | Strings | Positives | Negatives
  {
    function Single(): TypeHeader {
      match this
      case Arrays => THArraySingle
      case Strings => THStringSingle
      case Positives => THPosNumSingle
      case Negatives => THNegNumSingle
    }

    function Multi(): TypeHeader {
      match this
      case Arrays => THArrayMulti
      case Strings => THStringMulti
      case Positives => THPosBigInt
      case Negatives => THNegBigInt
    }

    /** The largest length of the one-byte form. */
    function Most(): nat {
      match this
      case Arrays => 16
      case Strings => 32
      case Positives => 8
      case Negatives => 8
    }

    /** The header a length is written with. */
    function Of(n: nat): TypeHeader {
      if n <= Most() then Single() else Multi()
    }
  }

  /** A length header: one byte up to `most` elements, otherwise the long form's byte and the length in big endian. */
  function LengthHeader(f: Family, n: nat): Bytes
  {
    if n <= f.Most() then [HeaderTypeMap(f.Single()).WithNumber(n)]
    else [HeaderTypeMap(f.Multi()).WithNumber(|UintBytes(n)|)] + UintBytes(n)
  }

  function ArrayHeader(n: nat): Bytes {
    LengthHeader(Arrays, n)
  }

  function StringHeader(n: nat): Bytes {
    LengthHeader(Strings, n)
  }

  function Sign(negative: bool): Family {
    if negative then Negatives else Positives
  }

  function NumericHeader(negative: bool, n: nat): Bytes {
    LengthHeader(Sign(negative), n)
  }

  /** The part of the three buffer makers after their length guard. */
  method LengthBuf(f: Family, length: nat, buf: array<byte>) returns (n: nat, ok: bool)
    requires 0 < length < TWO_TO_THE_64 && buf.Length > 0
    modifies buf
    ensures ok == (|LengthHeader(f, length)| <= buf.Length)
    ensures ok ==> n == |LengthHeader(f, length)| <= 9 && buf[..n] == LengthHeader(f, length)
    ensures forall j | n <= j < buf.Length :: buf[j] == old(buf[j])
  {
    if length <= f.Most() {
      buf[0] := HeaderTypeMap(f.Single()).WithNumber(length);
      assert buf[..1] == [buf[0]];
      return 1, true;
    }
    var l;
    l, ok := WriteUint(buf, 1, length);
    if !ok {
      return 0, false;
    }
    ghost var body := buf[1..1 + l];
    buf[0] := HeaderTypeMap(f.Multi()).WithNumber(l);
    assert buf[..l + 1] == [buf[0]] + body;
    return l + 1, true;
  }

  method StringBuf(length: int, buf: array<byte>) returns (n: nat, ok: bool)
    requires length < TWO_TO_THE_63 && buf.Length > 0
    modifies buf
    ensures length <= 0 ==> n == 0 && ok && buf[..] == old(buf[..])
    ensures length > 0 ==> ok == (|StringHeader(length)| <= buf.Length)
    ensures length > 0 && ok ==> n == |StringHeader(length)| <= 9 && buf[..n] == StringHeader(length)
    ensures forall j | n <= j < buf.Length :: buf[j] == old(buf[j])
  {
    if length <= 0 {
      return 0, true;
    }
    n, ok := LengthBuf(Strings, length, buf);
  }

  method NumericBuf(negative: bool, length: int, buf: array<byte>) returns (n: nat, ok: bool)
    requires length < TWO_TO_THE_63 && buf.Length > 0
    modifies buf
    ensures length <= 0 ==> n == 0 && ok && buf[..] == old(buf[..])
    ensures length > 0 ==> ok == (|NumericHeader(negative, length)| <= buf.Length)
    ensures length > 0 && ok ==>
              n == |NumericHeader(negative, length)| <= 9 && buf[..n] == NumericHeader(negative, length)
    ensures forall j | n <= j < buf.Length :: buf[j] == old(buf[j])
  {
    if length <= 0 {
      return 0, true;
    }
    n, ok := LengthBuf(Sign(negative), length, buf);
  }

  method ArrayBuf(length: int, buf: array<byte>) returns (n: nat, ok: bool)
    requires length < TWO_TO_THE_63 && buf.Length > 0
    modifies buf
    ensures length <= 0 ==> n == 0 && ok && buf[..] == old(buf[..])
    ensures length > 0 ==> ok == (|ArrayHeader(length)| <= buf.Length)
    ensures length > 0 && ok ==> n == |ArrayHeader(length)| <= 9 && buf[..n] == ArrayHeader(length)
    ensures forall j | n <= j < buf.Length :: buf[j] == old(buf[j])
  {
    if length <= 0 {
      return 0, true;
    }
    n, ok := LengthBuf(Arrays, length, buf);
  }

  lemma {:induction false} HeaderFits(f: Family, n: nat)
    requires n < TWO_TO_THE_64
    ensures |LengthHeader(f, n)| <= 9
  {
    PowersOf256();
    UintBytesFit(n, 8);
  }

  /** The allocating forms: no bytes for a length that is not positive, the whole header otherwise. */
  method MakeHeader(f: Family, length: int) returns (h: Bytes)
    requires length < TWO_TO_THE_63
    ensures h == if length <= 0 then [] else LengthHeader(f, length)
  {
    if length <= 0 {
      return [];
    }
    var r := new byte[9];
    HeaderFits(f, length);
    var l, ok := LengthBuf(f, length, r);
    return r[..l];
  }

  /** Long headers are those with a length beyond the one-byte form; all but arrays are followed by value bytes. */
  lemma {:induction false} OfShape(f: Family, n: nat)
    ensures HeaderTypeMap(f.Of(n)).t.VTMultiHeader? <==> n > f.Most()
    ensures HeaderTypeMap(f.Of(n)).b <==> f != Arrays
  {
  }

  lemma {:induction false} SingleParses(th: TypeHeader, n: nat)
    requires th != THInvalid && HeaderTypeMap(th).t.VTSingleHeader?
    requires 0 < n <= HeaderTypeMap(th).w + 1
    ensures ParseHeader(HeaderTypeMap(th).WithNumber(n)) == Some((th, n))
  {
    match th
    case THArraySingle =>
    case THPosNumSingle =>
    case THNegNumSingle =>
    case THStringSingle =>
    case THVersionSingle =>
  }

  lemma {:induction false} MultiParses(th: TypeHeader, l: nat)
    requires th != THInvalid && HeaderTypeMap(th).t.VTMultiHeader?
    requires 0 < l <= 8
    ensures ParseHeader(HeaderTypeMap(th).WithNumber(l)) == Some((th, l))
  {
    match th
    case THArrayMulti =>
    case THPosBigInt =>
    case THNegBigInt =>
    case THStringMulti =>
  }

  /**
   A length header parses back to the same family: the one-byte form to the length itself, the long
   form to the number of length bytes, which stand for the length and are the fewest that do.
   */
  lemma {:induction false} LengthHeaderParses(f: Family, n: nat)
    requires 0 < n < TWO_TO_THE_64
    ensures var h := LengthHeader(f, n);
            && 0 < |h| <= 9
            && (|h| == 1 ==> ParseHeader(h[0]) == Some((f.Single(), n)))
            && (|h| > 1 ==> ParseHeader(h[0]) == Some((f.Multi(), |h| - 1)) && ValueOf(h[1..]) == n)
    ensures forall l: Bytes | |LengthHeader(f, n)| > 1 && l != [] && ValueOf(l) == n ::
              |LengthHeader(f, n)| <= 1 + |l|
  {
    HeaderFits(f, n);
    if n <= f.Most() {
      ShortHeaderParses(f, n);
    } else {
      var u := UintBytes(n);
      LongHeaderParses(f, n, HeaderTypeMap(f.Multi()).WithNumber(|u|), u);
      LengthShortest(n);
    }
  }

  lemma {:induction false} ShortHeaderParses(f: Family, n: nat)
    requires 0 < n <= f.Most()
    ensures |LengthHeader(f, n)| == 1 && ParseHeader(LengthHeader(f, n)[0]) == Some((f.Single(), n))
  {
    SingleParses(f.Single(), n);
  }

  lemma {:induction false} LongHeaderParses(f: Family, n: nat, b: byte, u: Bytes)
    requires u == UintBytes(n) && |u| <= 8 && b == HeaderTypeMap(f.Multi()).WithNumber(|u|)
    ensures var h := [b] + u; ParseHeader(h[0]) == Some((f.Multi(), |h| - 1)) && ValueOf(h[1..]) == n
  {
    MultiParses(f.Multi(), |u|);
    ValueOfUintBytes(n);
    assert ([b] + u)[1..] == u;
  }

  lemma {:induction false} LengthShortest(n: nat)
    ensures forall l: Bytes | l != [] && ValueOf(l) == n :: |UintBytes(n)| <= |l|
  {
    forall l: Bytes | l != [] && ValueOf(l) == n
      ensures |UintBytes(n)| <= |l|
    {
      UintBytesShortest(n, l);
    }
  }
}
