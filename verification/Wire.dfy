/**
 The wire format: the items an encoding consists of, their bytes, and reading an item's header with
 what directly follows it.
 */
module Wire {
  import opened Numeric
  import opened Headers
  import opened Wrappers

  datatype Item =
    | WByte(b: byte)
    | WZero
    | WTrue
    | WEmpty
    | WNum(negative: bool, bs: Bytes)
    | WStr(bs: Bytes)
    | WArr(items: seq<Item>)

  /** The items that have bytes of their own: lengths are positive Go ints and single bytes are below 128. */
  predicate Valid(w: Item) {
    match w
    case WByte(b) => b < 0x80
    case WNum(_, bs) => 0 < |bs| < TWO_TO_THE_63
    case WStr(bs) => 0 < |bs| < TWO_TO_THE_63
    case WArr(items) => 0 < |items| < TWO_TO_THE_63 && forall i | 0 <= i < |items| :: Valid(items[i])
    case _ => true
  }

  predicate AllValid(ws: seq<Item>) {
    forall i | 0 <= i < |ws| :: Valid(ws[i])
  }

  function ItemBytes(w: Item): (bs: Bytes)
    ensures |bs| > 0
    decreases w, 0
  {
    match w
    case WByte(b) => [b]
    case WZero => [0x80]
    case WTrue => [0x81]
    case WEmpty => [0x82]
    case WNum(negative, bs) => NumericHeader(negative, |bs|) + bs
    case WStr(bs) => StringHeader(|bs|) + bs
    case WArr(items) => ArrayHeader(|items|) + Concat(items)
  }

  function Concat(ws: seq<Item>): (bs: Bytes)
    decreases ws, 1
  {
    if ws == [] then [] else ItemBytes(ws[0]) + Concat(ws[1..])
  }

  /** Every item takes at least one byte, so an announced count never exceeds the bytes that follow. */
  lemma {:induction false} ConcatLength(ws: seq<Item>)
    ensures |Concat(ws)| >= |ws|
  {
    if ws != [] {
      ConcatLength(ws[1..]);
    }
  }

  lemma {:induction false} ConcatHead(ws: seq<Item>, tail: Bytes)
    requires ws != []
    ensures Concat(ws) + tail == ItemBytes(ws[0]) + (Concat(ws[1..]) + tail)
  {
    Regroup(ItemBytes(ws[0]), Concat(ws[1..]), tail);
  }

  lemma {:induction false} ConcatAppend(us: seq<Item>, ws: seq<Item>)
    ensures Concat(us + ws) == Concat(us) + Concat(ws)
  {
    if us == [] {
      assert us + ws == ws;
    } else {
      ConcatAppend(us[1..], ws);
      assert (us + ws)[0] == us[0] && (us + ws)[1..] == us[1..] + ws;
      Regroup(ItemBytes(us[0]), Concat(us[1..]), Concat(ws));
    }
  }

  // ----- reading -----

  const MAX_INT32 := 0x7FFF_FFFF

  /** A header byte. */
  function ReadHeader(bs: Bytes): (r: Res<(TypeHeader, nat)>)
    ensures r.Ok? ==> |r.rest| + 1 == |bs| && r.value.0 != THInvalid
  {
    if bs == [] then Err else
    match ParseHeader(bs[0])
    case None => Err
    case Some(p) => ParseNeverInvalid(bs[0]); Ok(p, bs[1..])
  }

  /** A length of l bytes; it must not exceed the bytes left after it, of which there must be some. */
  function ReadMultiLength(l: nat, bs: Bytes): (r: Res<nat>)
    ensures r.Ok? ==> |r.rest| <= |bs| && r.value <= |r.rest|
  {
    if l == 0 || l > |bs| then Err else
    var n := BytesToUint64(bs[..l]);
    var rest := bs[l..];
    if |rest| == 0 || n > |rest| then Err else Ok(n, rest)
  }

  /** n bytes; asking for none is an error. */
  function ReadBytes(n: nat, bs: Bytes): (r: Res<Bytes>)
    ensures r.Ok? ==> |r.rest| <= |bs| && |r.value| == n
  {
    if n == 0 || n > |bs| then Err else Ok(bs[..n], bs[n..])
  }

  /** The length that goes with a header: the one in it, or the one in the bytes of a long header. */
  function ReadLength(th: Parsed, l: nat, bs: Bytes): (r: Res<nat>)
    ensures r.Ok? ==> |r.rest| <= |bs|
  {
    if HeaderTypeMap(th).t.VTMultiHeader? then ReadMultiLength(l, bs) else Ok(l, bs)
  }

  /** A header byte together with the length bytes of a long header. */
  function ReadSize(bs: Bytes): (r: Res<(TypeHeader, nat)>)
    ensures r.Ok? ==> |r.rest| < |bs| && r.value.0 != THInvalid
  {
    var h := ReadHeader(bs);
    if h.Err? then Err else
    var n := ReadLength(h.value.0, h.value.1, h.rest);
    if n.Err? then Err else Ok((h.value.0, n.value), n.rest)
  }

  /** What is known once an item's header is read: its length or count or byte value, and its value bytes. */
  datatype Head = Head(th: TypeHeader, n: nat, buf: Bytes)

  /**
   What follows a header byte: the length bytes of a long header, and the value bytes. Only the event
   decoder bounds the length of a long header by int32.
   */
  function ReadTail(int32: bool, th: Parsed, l: nat, bs: Bytes): (r: Res<Head>)
    ensures r.Ok? ==> |r.rest| <= |bs| && r.value.th == th
  {
    var n := ReadLength(th, l, bs);
    if n.Err? then Err
    else if int32 && HeaderTypeMap(th).t.VTMultiHeader? && n.value > MAX_INT32 then Err
    else if !HeaderTypeMap(th).b then Ok(Head(th, n.value, []), n.rest)
    else
      var buf := ReadBytes(n.value, n.rest);
      if buf.Err? then Err else Ok(Head(th, n.value, buf.value), buf.rest)
  }

  /** An item's header and value bytes. */
  function ReadHead(int32: bool, bs: Bytes): (r: Res<Head>)
    ensures r.Ok? ==> |r.rest| < |bs| && r.value.th != THInvalid
  {
    var h := ReadHeader(bs);
    if h.Err? then Err else ReadTail(int32, h.value.0, h.value.1, h.rest)
  }

  function HeadOf(w: Item): Head {
    match w
    case WByte(b) => Head(THSingleByte, b, [])
    case WZero => Head(THZeroValue, 0, [])
    case WTrue => Head(THTrue, 0, [])
    case WEmpty => Head(THEmpty, 0, [])
    case WNum(negative, bs) => Head(Sign(negative).Of(|bs|), |bs|, bs)
    case WStr(bs) => Head(Strings.Of(|bs|), |bs|, bs)
    case WArr(items) => Head(Arrays.Of(|items|), |items|, [])
  }

  /** The bytes of an item that come after its head. */
  function BodyOf(w: Item): Bytes {
    if w.WArr? then Concat(w.items) else []
  }

  /** Reading the header the maker made for n, when at least n bytes follow it. */
  lemma {:induction false} SizeReads(f: Family, n: nat, tail: Bytes)
    requires 0 < n < TWO_TO_THE_63 && n <= |tail|
    ensures ReadSize(LengthHeader(f, n) + tail) == Ok((f.Of(n), n), tail)
  {
    var h := LengthHeader(f, n);
    LengthHeaderParses(f, n);
    SizeOfHeader(f, n, h, tail);
  }

  lemma {:induction false} SizeOfHeader(f: Family, n: nat, h: Bytes, tail: Bytes)
    requires 0 < n <= |tail| && 0 < |h| <= 9
    requires if n <= f.Most() then |h| == 1 && ParseHeader(h[0]) == Some((f.Single(), n))
             else |h| > 1 && ParseHeader(h[0]) == Some((f.Multi(), |h| - 1)) && ValueOf(h[1..]) == n
    ensures ReadSize(h + tail) == Ok((f.Of(n), n), tail)
  {
    var bs, l := h + tail, h[1..];
    OfShape(f, n);
    FirstByte(h, tail);
    if n > f.Most() {
      Halves(l, tail);
      MultiLengthReads(l, n, tail);
    } else {
      assert l == [] && [] + tail == tail;
    }
  }

  /**
   The guard on a long length: a header is refused exactly when it is a long one that announces more than
   follows it.
   */
  lemma {:induction false} CountGuard(f: Family, n: nat, rest: Bytes)
    requires 0 < n < TWO_TO_THE_63
    ensures ReadSize(LengthHeader(f, n) + rest).Ok? <==> n <= f.Most() || n <= |rest|
  {
    var h := LengthHeader(f, n);
    LengthHeaderParses(f, n);
    if n <= f.Most() {
      ShortSize(f, n, h, rest);
    } else {
      LongSize(f, n, h, rest);
    }
  }

  lemma {:induction false} ShortSize(f: Family, n: nat, h: Bytes, rest: Bytes)
    requires |h| == 1 && ParseHeader(h[0]) == Some((f.Single(), n))
    ensures ReadSize(h + rest).Ok?
  {
    OfShape(f, 1);
    FirstByte(h, rest);
  }

  lemma {:induction false} LongSize(f: Family, n: nat, h: Bytes, rest: Bytes)
    requires 1 < |h| <= 9 && ParseHeader(h[0]) == Some((f.Multi(), |h| - 1)) && ValueOf(h[1..]) == n > 0
    ensures ReadSize(h + rest).Ok? <==> n <= |rest|
  {
    var l := h[1..];
    FirstByte(h, rest);
    Halves(l, rest);
    OfShape(f, f.Most() + 1);
  }

  lemma {:induction false} FirstByte(h: Bytes, tail: Bytes)
    requires h != []
    ensures (h + tail)[0] == h[0] && (h + tail)[1..] == h[1..] + tail
  {
  }

  lemma {:induction false} MultiLengthReads(l: Bytes, n: nat, tail: Bytes)
    requires 0 < |l| <= 8 && ValueOf(l) == n && 0 < n <= |tail|
    ensures ReadMultiLength(|l|, l + tail) == Ok(n, tail)
  {
    Halves(l, tail);
  }

  /** Reading an item of one byte. */
  lemma {:induction false} ByteReads(w: Item, int32: bool, tail: Bytes)
    requires Valid(w) && (w.WByte? || w.WZero? || w.WTrue? || w.WEmpty?)
    ensures ReadSize(ItemBytes(w) + tail) == Ok((HeadOf(w).th, HeadOf(w).n), tail)
    ensures ReadHead(int32, ItemBytes(w) + tail) == Ok(HeadOf(w), tail)
  {
    assert (ItemBytes(w) + tail)[1..] == tail;
  }

  /** Reading a length header followed by its value bytes. */
  lemma {:induction false} PayloadReads(f: Family, int32: bool, buf: Bytes, tail: Bytes)
    requires f != Arrays && 0 < |buf| < TWO_TO_THE_63
    ensures var bs := LengthHeader(f, |buf|) + buf + tail;
            && ReadSize(bs) == Ok((f.Of(|buf|), |buf|), buf + tail)
            && ReadHead(int32, bs) ==
               if int32 && |buf| > MAX_INT32 then Err else Ok(Head(f.Of(|buf|), |buf|, buf), tail)
  {
    Regroup(LengthHeader(f, |buf|), buf, tail);
    SizeReads(f, |buf|, buf + tail);
    Halves(buf, tail);
    OfShape(f, |buf|);
    HeadFromSize(LengthHeader(f, |buf|) + (buf + tail), int32);
  }

  /** Reading a head is reading its header with the length, and then the value bytes if there are any. */
  lemma {:induction false} HeadFromSize(bs: Bytes, int32: bool)
    ensures var size := ReadSize(bs);
            ReadHead(int32, bs) ==
            if size.Err? || (int32 && HeaderTypeMap(size.value.0).t.VTMultiHeader? && size.value.1 > MAX_INT32) then Err
            else if !HeaderTypeMap(size.value.0).b then Ok(Head(size.value.0, size.value.1, []), size.rest)
            else
              var buf := ReadBytes(size.value.1, size.rest);
              if buf.Err? then Err else Ok(Head(size.value.0, size.value.1, buf.value), buf.rest)
  {
  }

  /** Reading an array's header, when the bytes after it are at least its count. */
  lemma {:induction false} ArrayReads(n: nat, body: Bytes, int32: bool, tail: Bytes)
    requires 0 < n < TWO_TO_THE_63 && n <= |body|
    ensures var bs := ArrayHeader(n) + body + tail;
            && ReadSize(bs) == Ok((Arrays.Of(n), n), body + tail)
            && ReadHead(int32, bs) ==
               if int32 && n > MAX_INT32 then Err else Ok(Head(Arrays.Of(n), n, []), body + tail)
  {
    Regroup(ArrayHeader(n), body, tail);
    SizeReads(Arrays, n, body + tail);
    OfShape(Arrays, n);
    HeadFromSize(ArrayHeader(n) + (body + tail), int32);
  }

  /**
   Reading the head of any item, whatever follows it: the multi-length guard rejects none, and only
   the event decoder's int32 bound can.
   */
  lemma {:induction false} HeadReads(w: Item, int32: bool, tail: Bytes)
    requires Valid(w)
    ensures ReadHead(int32, ItemBytes(w) + tail) ==
            if int32 && HeadOf(w).n > MAX_INT32 then Err else Ok(HeadOf(w), BodyOf(w) + tail)
    ensures ReadSize(ItemBytes(w) + tail) == Ok((HeadOf(w).th, HeadOf(w).n), HeadOf(w).buf + (BodyOf(w) + tail))
  {
    assert [] + tail == tail;
    match w
    case WNum(negative, buf) => PayloadReads(Sign(negative), int32, buf, tail);
    case WStr(buf) => PayloadReads(Strings, int32, buf, tail);
    case WArr(items) =>
      ConcatLength(items);
      ArrayReads(|items|, Concat(items), int32, tail);
      assert [] + (Concat(items) + tail) == Concat(items) + tail;
    case _ => ByteReads(w, int32, tail);
  }

  // ----- encodings are self-delimiting -----

  lemma {:induction false} HeadDetermines(w1: Item, w2: Item)
    requires HeadOf(w1) == HeadOf(w2)
    ensures w1.WArr? == w2.WArr?
    ensures if w1.WArr? then |w1.items| == |w2.items| else w1 == w2
  {
    match w1
    case WNum(negative, _) => assert w2.WNum? && w2.negative == negative;
    case _ =>
  }

  /** Two items whose bytes begin the same byte sequence are the same item. */
  lemma {:induction false} ItemUnique(w1: Item, r1: Bytes, w2: Item, r2: Bytes)
    requires Valid(w1) && Valid(w2)
    requires ItemBytes(w1) + r1 == ItemBytes(w2) + r2
    ensures w1 == w2 && r1 == r2
    decreases w1, 0
  {
    HeadReads(w1, false, r1);
    HeadReads(w2, false, r2);
    HeadDetermines(w1, w2);
    assert BodyOf(w1) + r1 == BodyOf(w2) + r2;
    if w1.WArr? {
      ItemsUnique(w1.items, r1, w2.items, r2);
    } else {
      assert r1 == [] + r1 && r2 == [] + r2;
    }
  }

  /** A concatenation of a known number of items splits back in only one way. */
  lemma {:induction false} ItemsUnique(ws1: seq<Item>, r1: Bytes, ws2: seq<Item>, r2: Bytes)
    requires |ws1| == |ws2|
    requires forall i | 0 <= i < |ws1| :: Valid(ws1[i]) && Valid(ws2[i])
    requires Concat(ws1) + r1 == Concat(ws2) + r2
    ensures ws1 == ws2 && r1 == r2
    decreases ws1, 1
  {
    if ws1 == [] {
      assert r1 == Concat(ws1) + r1 && r2 == Concat(ws2) + r2;
    } else {
      ConcatHead(ws1, r1);
      ConcatHead(ws2, r2);
      ItemUnique(ws1[0], Concat(ws1[1..]) + r1, ws2[0], Concat(ws2[1..]) + r2);
      ItemsUnique(ws1[1..], r1, ws2[1..], r2);
      assert ws1 == [ws1[0]] + ws1[1..] && ws2 == [ws2[0]] + ws2[1..];
    }
  }

  /** No encoding of an item is a proper prefix of another. */
  lemma {:induction false} PrefixFree(w1: Item, w2: Item)
    requires Valid(w1) && Valid(w2)
    requires ItemBytes(w1) <= ItemBytes(w2)
    ensures w1 == w2
  {
    var b1, b2 := ItemBytes(w1), ItemBytes(w2);
    assert b2 == b1 + b2[|b1|..] && b2 == b2 + [];
    ItemUnique(w1, b2[|b1|..], w2, []);
  }

  /** Any concatenation of items splits back into the same items, their number included. */
  lemma {:induction false} ConcatUnique(ws1: seq<Item>, ws2: seq<Item>)
    requires forall i | 0 <= i < |ws1| :: Valid(ws1[i])
    requires forall i | 0 <= i < |ws2| :: Valid(ws2[i])
    requires Concat(ws1) == Concat(ws2)
    ensures ws1 == ws2
  {
    ConcatLength(ws1);
    ConcatLength(ws2);
    if ws1 != [] && ws2 != [] {
      ItemUnique(ws1[0], Concat(ws1[1..]), ws2[0], Concat(ws2[1..]));
      ConcatUnique(ws1[1..], ws2[1..]);
      assert ws1 == [ws1[0]] + ws1[1..] && ws2 == [ws2[0]] + ws2[1..];
    }
  }
}
