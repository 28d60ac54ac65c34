/** Inputs at which the code does less than it is meant to do. The general statements are in other modules. */
module Instances {
  import opened Numeric
  import opened Wrappers
  import opened Wire
  import opened Skipping
  import opened Values
  import opened Encoding
  import opened Decoding
  import opened Cursors
  import opened Schema
  import opened RoundTrip
  import opened Migration

  /** The decoders as written. */
  const RECURSIVE := Decoder(false, false)
  const EVENTS := Decoder(true, false)

  /** Decodes what was written for a value. */
  function Reread(c: Decoder, t: Type, v: Value, prev: Value, tail: Bytes): Res<Value> {
    Dec(c, t, prev, ItemBytes(WireOf(t, v)) + tail, 0)
  }

  lemma {:induction false} Rereads(c: Decoder, t: Type, v: Value, prev: Value, tail: Bytes)
    requires Holds(t, v)
    ensures Reread(c, t, v, prev, tail) == if Readable(c, t, v, 0) then Ok(Landed(c, t, v, prev), tail) else Err
  {
    RoundTrip.RoundTrip(c, t, v, 0, prev, tail);
  }

  // ----- the skip as written -----

  /** An array whose first item is an array. */
  const SPLIT_ARRAY := WArr([WArr([WTrue]), WTrue])

  /** The skip stops behind the inner array and leaves the True behind it. */
  lemma {:induction false} SkipStopsEarly(tail: Bytes)
    ensures Skim(false, ItemBytes(SPLIT_ARRAY) + tail) == Ok(true, [0x81] + tail)
    ensures Skim(true, ItemBytes(SPLIT_ARRAY) + tail) == Ok(true, tail)
  {
    SkimItem(false, SPLIT_ARRAY, tail);
    SkimItem(true, SPLIT_ARRAY, tail);
    OneItem(WTrue);
    assert UnreadOf([WTrue]) == [];
    assert [WArr([WTrue]), WTrue][1..] == [WTrue];
    assert [] + [0x81] == [0x81] && [] + tail == tail;
  }

  lemma {:induction false} OneItem(w: Item)
    ensures Concat([w]) == ItemBytes(w)
  {
    assert Concat([w]) == ItemBytes(w) + Concat([]);
  }

  /** A struct of one field, read from items of which the others can be skipped. */
  lemma {:induction false} OneField(c: Decoder, f: Field, ws: seq<Item>, x: Value, prev: Value, tail: Bytes)
    requires f.order < |ws| < 10 && AllValid(ws) && SkipsFine(c, [f], ws)
    requires Decodes(c, f.typ, ws[f.order], 1, FieldValues([f], prev)[0], true, x)
    ensures Dec(c, TStruct([f]), prev, ItemBytes(WArr(ws)) + tail, 0) ==
            Ok(VStruct([x]), if c.events then tail else Concat(ws[f.order + 1..]) + tail)
  {
    var w := WArr(ws);
    FromHead(c, TStruct([f]), w, 0, prev, tail);
    OneRuns(c, f, ws, x, prev, HeadOf(w), tail);
  }

  lemma {:induction false} OneRuns(c: Decoder, f: Field, ws: seq<Item>, x: Value, prev: Value, h: Head, tail: Bytes)
    requires f.order < |ws| && AllValid(ws) && SkipsFine(c, [f], ws) && h.th.IsArray() && h.n == |ws|
    requires Decodes(c, f.typ, ws[f.order], 1, FieldValues([f], prev)[0], true, x)
    ensures DecHead(c, TStruct([f]), prev, h, Concat(ws) + tail, 0) ==
            Ok(VStruct([x]), if c.events then tail else Concat(ws[f.order + 1..]) + tail)
  {
    OneOutcome(c, f, ws, x, FieldValues([f], prev));
    StructRuns(c, TStruct([f]), ws, [true], [x], prev, h, 0, tail);
    OneValue(c, f, ws, x, tail);
  }

  lemma {:induction false} OneValue(c: Decoder, f: Field, ws: seq<Item>, x: Value, tail: Bytes)
    requires f.order < |ws|
    ensures StructOutcome(c, [f], ws, 1, [true], [x], tail) ==
            Ok(VStruct([x]), if c.events then tail else Concat(ws[f.order + 1..]) + tail)
  {
  }

  lemma {:induction false} OneOutcome(c: Decoder, f: Field, ws: seq<Item>, x: Value, prevs: seq<Value>)
    requires f.order < |ws| && |prevs| == 1 && Decodes(c, f.typ, ws[f.order], 1, prevs[0], true, x)
    ensures FieldOutcomes(c, [f], ws, 1, prevs, [true], [x])
  {
    assert OutcomeAt(c, f, ws, 1, prevs[0], true, x);
  }

  const SECOND := Field(1, 0, BYTE)

  /** A struct with such an array for an unknown first field: the field behind it is read from the array's rest. */
  lemma {:induction false} FieldBehindSkip(events: bool, prev: Value, tail: Bytes)
    ensures var bs := ItemBytes(WArr([SPLIT_ARRAY, WByte(5)])) + tail;
            && Dec(Decoder(events, false), TStruct([SECOND]), prev, bs, 0) == Err
            && Dec(Decoder(events, true), TStruct([SECOND]), prev, bs, 0) == Ok(VStruct([VUint(5)]), tail)
  {
    AsWritten(Decoder(events, false), prev, tail);
    WithPop(Decoder(events, true), prev, tail);
  }

  lemma {:induction false} AsWritten(c: Decoder, prev: Value, tail: Bytes)
    requires !c.popSkip
    ensures Dec(c, TStruct([SECOND]), prev, ItemBytes(WArr([SPLIT_ARRAY, WByte(5)])) + tail, 0) == Err
  {
    var ws := [SPLIT_ARRAY, WByte(5)];
    FromHead(c, TStruct([SECOND]), WArr(ws), 0, prev, tail);
    SkippedThenTrue(c, FieldValues([SECOND], prev), tail);
    StructHead(c, TStruct([SECOND]), prev, HeadOf(WArr(ws)), Concat(ws) + tail, 0, 1);
  }

  lemma {:induction false} SkippedThenTrue(c: Decoder, prevs: seq<Value>, tail: Bytes)
    requires !c.popSkip && |prevs| == 1
    ensures DecFields(c, TStruct([SECOND]), 0, 0, 2, prevs, Concat([SPLIT_ARRAY, WByte(5)]) + tail, 1) == Err
  {
    var ws := [SPLIT_ARRAY, WByte(5)];
    var behind := Concat(ws[1..]) + tail;
    ConcatHead(ws, tail);
    SkipStopsEarly(behind);
    TrueForByte(c, prevs, behind);
    FieldsStep(c, TStruct([SECOND]), 0, 0, 2, prevs, Concat(ws) + tail, 1);
  }

  lemma {:induction false} TrueForByte(c: Decoder, prevs: seq<Value>, behind: Bytes)
    requires |prevs| == 1
    ensures DecFields(c, TStruct([SECOND]), 0, 1, 2, prevs, [0x81] + behind, 1) == Err
  {
    FieldsStep(c, TStruct([SECOND]), 0, 1, 2, prevs, [0x81] + behind, 1);
    HeadReads(WTrue, c.events, behind);
  }

  lemma {:induction false} WithPop(c: Decoder, prev: Value, tail: Bytes)
    requires c.popSkip
    ensures Dec(c, TStruct([SECOND]), prev, ItemBytes(WArr([SPLIT_ARRAY, WByte(5)])) + tail, 0) ==
            Ok(VStruct([VUint(5)]), tail)
  {
    var ws := [SPLIT_ARRAY, WByte(5)];
    DecodesBack(c, BYTE, VUint(5), 1, FieldValues([SECOND], prev)[0]);
    assert AllValid(ws) && SkipsFine(c, [SECOND], ws);
    OneField(c, SECOND, ws, VUint(5), prev, tail);
    assert ws[2..] == [] && [] + tail == tail;
  }

  // ----- surplus items -----

  const FIRST := Field(0, 0, TBool)

  /** The item of a second field, which the target does not have, is left unread by the recursive reader. */
  lemma {:induction false} SurplusField(prev: Value, tail: Bytes)
    ensures var bs := ItemBytes(WArr([WTrue, WTrue])) + tail;
            && Dec(RECURSIVE, TStruct([FIRST]), prev, bs, 0) == Ok(VStruct([VBool(true)]), [0x81] + tail)
            && Dec(EVENTS, TStruct([FIRST]), prev, bs, 0) == Ok(VStruct([VBool(true)]), tail)
  {
    OneOfTwo(RECURSIVE, prev, tail);
    OneOfTwo(EVENTS, prev, tail);
    OneItem(WTrue);
  }

  lemma {:induction false} OneOfTwo(c: Decoder, prev: Value, tail: Bytes)
    ensures Dec(c, TStruct([FIRST]), prev, ItemBytes(WArr([WTrue, WTrue])) + tail, 0) ==
            Ok(VStruct([VBool(true)]), if c.events then tail else Concat([WTrue]) + tail)
  {
    var ws := [WTrue, WTrue];
    DecodesBack(c, TBool, VBool(true), 1, FieldValues([FIRST], prev)[0]);
    OneField(c, FIRST, ws, VBool(true), prev, tail);
    assert ws[1..] == [WTrue];
  }

  function Trues(n: nat): seq<Value> {
    seq(n, _ => VBool(true))
  }

  /** Elements that are true, read into an array of bools of another length. */
  lemma {:induction false} TruesArrive(c: Decoder, n: nat, m: nat, prevs: seq<Value>, prev: Value, tail: Bytes)
    requires 0 < n < 10 && prevs == Elements(TBool, m, prev)
    ensures var k := Min(n, m);
            Dec(c, TArray(TBool, m), prev, ItemBytes(WireOf(TArray(TBool, n), VArray(Trues(n)))) + tail, 0) ==
            Ok(VArray(Trues(k) + prevs[k..]), if c.events then tail else Concat(ElemItems(TBool, Trues(n))[k..]) + tail)
  {
    var vs, k := Trues(n), Min(n, m);
    TruesRead(c, n);
    ArrayMigrates(c, TArray(TBool, m), vs, prev, 0, tail);
    assert LandedAll(c, TBool, vs[..k], prevs[..k]) == Trues(k);
  }

  lemma {:induction false} TruesRead(c: Decoder, n: nat)
    requires n < 10
    ensures Holds(TArray(TBool, n), VArray(Trues(n)))
    ensures forall k | 0 <= k <= n :: SurplusSkips(c, TBool, Trues(n), k) && AllReadable(c, TBool, Trues(n)[..k], 1)
  {
  }

  /** A second element is left unread in the same way. */
  lemma {:induction false} SurplusElement(prev: Value, tail: Bytes)
    ensures var bs := ItemBytes(WireOf(TArray(TBool, 2), VArray(Trues(2)))) + tail;
            && Dec(RECURSIVE, TArray(TBool, 1), prev, bs, 0) == Ok(VArray(Trues(1)), [0x81] + tail)
            && Dec(EVENTS, TArray(TBool, 1), prev, bs, 0) == Ok(VArray(Trues(1)), tail)
  {
    var prevs := Elements(TBool, 1, prev);
    TruesArrive(RECURSIVE, 2, 1, prevs, prev, tail);
    TruesArrive(EVENTS, 2, 1, prevs, prev, tail);
    OneItem(WTrue);
    assert ElemItems(TBool, Trues(2))[1..] == [WTrue];
    assert Trues(1) + prevs[1..] == Trues(1);
  }

  // ----- what the destination held -----

  /** An element beyond the data keeps its old value. */
  lemma {:induction false} OldElementKept(c: Decoder, tail: Bytes)
    ensures Dec(c, TArray(TBool, 2), VArray([VBool(false), VBool(true)]),
                ItemBytes(WireOf(TArray(TBool, 1), VArray(Trues(1)))) + tail, 0) ==
            Ok(VArray([VBool(true), VBool(true)]), tail)
  {
    var prevs := [VBool(false), VBool(true)];
    TruesArrive(c, 1, 2, prevs, VArray(prevs), tail);
    assert ElemItems(TBool, Trues(1))[1..] == [] && [] + tail == tail;
    assert Trues(1) + prevs[1..] == [VBool(true), VBool(true)];
  }

  const SET := TMap(TBool, TBool)
  const KEPT := Entry(VBool(false), VBool(true))
  const READ := Entry(VBool(true), VBool(true))

  /** A key that is not in the data stays in the map, but not when the data is an empty map. */
  lemma {:induction false} OldKeyKept(c: Decoder, tail: Bytes)
    ensures Reread(c, SET, VMap([READ]), VMap([KEPT]), tail) == Ok(VMap([KEPT, READ]), tail)
    ensures Reread(c, SET, VMap([]), VMap([KEPT]), tail) == Ok(VMap([]), tail)
  {
    SetHolds();
    EmptySetLands(c);
    SetLands(c);
    SetReads(c, 0);
    Rereads(c, SET, VMap([READ]), VMap([KEPT]), tail);
    Rereads(c, SET, VMap([]), VMap([KEPT]), tail);
  }

  lemma {:induction false} SetHolds()
    ensures Holds(SET, VMap([READ])) && Holds(SET, VMap([]))
  {
    assert [READ][0] == READ;
  }

  const NEW := VMap([READ])
  const OLD := VMap([KEPT])
  const BOTH := VMap([KEPT, READ])

  /** Maps within a slice, its capacity included, an array, a struct and behind a pointer keep old keys too. */
  lemma {:induction false} OldKeysKeptInside(c: Decoder, tail: Bytes)
    ensures Reread(c, TSlice(SET), VSlice([NEW], []), VSlice([OLD], []), tail) == Ok(VSlice([BOTH], []), tail)
    ensures Reread(c, TSlice(SET), VSlice([NEW], []), VSlice([], [OLD]), tail) == Ok(VSlice([BOTH], []), tail)
    ensures Reread(c, TArray(SET, 1), VArray([NEW]), VArray([OLD]), tail) == Ok(VArray([BOTH]), tail)
    ensures Reread(c, OneFieldType(SET), VStruct([NEW]), VStruct([OLD]), tail) == Ok(VStruct([BOTH]), tail)
    ensures Reread(c, TPtr(SET), VPtr(NEW), VPtr(OLD), tail) == Ok(VPtr(BOTH), tail)
  {
    SetHolds();
    SetReads(c, 0);
    SetReads(c, 1);
    SetLands(c);
    Inside(c, SET, NEW, OLD, BOTH, tail);
  }

  /** A value that lands as y in p does so inside anything that holds p. */
  lemma {:induction false} Inside(c: Decoder, e: Type, x: Value, p: Value, y: Value, tail: Bytes)
    requires e != BYTE && Holds(e, x) && Readable(c, e, x, 0) && Readable(c, e, x, 1) && Landed(c, e, x, p) == y
    requires WireOf(e, x) != WZero
    ensures Reread(c, TSlice(e), VSlice([x], []), VSlice([p], []), tail) == Ok(VSlice([y], []), tail)
    ensures Reread(c, TSlice(e), VSlice([x], []), VSlice([], [p]), tail) == Ok(VSlice([y], []), tail)
    ensures Reread(c, TArray(e, 1), VArray([x]), VArray([p]), tail) == Ok(VArray([y]), tail)
    ensures Reread(c, OneFieldType(e), VStruct([x]), VStruct([p]), tail) == Ok(VStruct([y]), tail)
    ensures Reread(c, TPtr(e), VPtr(x), VPtr(p), tail) == Ok(VPtr(y), tail)
  {
    InSlice(c, e, x, p, y, VSlice([p], []), tail);
    InSlice(c, e, x, p, y, VSlice([], [p]), tail);
    InArray(c, e, x, p, y, tail);
    InStruct(c, e, x, p, y, tail);
    InPointer(c, e, x, p, y, tail);
  }

  /** A value that lands as y in p does so as the one element of a slice. */
  lemma {:induction false} InSlice(c: Decoder, e: Type, x: Value, p: Value, y: Value, prev: Value, tail: Bytes)
    requires e != BYTE && Holds(e, x) && Readable(c, e, x, 1) && Landed(c, e, x, p) == y
    requires prev.VSlice? && prev.elems + prev.spare == [p]
    ensures Reread(c, TSlice(e), VSlice([x], []), prev, tail) == Ok(VSlice([y], []), tail)
  {
    SliceHolds(e, x);
    SingletonReads(c, e, x, 0, 1);
    SliceLands(c, e, x, p, prev);
    Rereads(c, TSlice(e), VSlice([x], []), prev, tail);
  }

  lemma {:induction false} SliceHolds(e: Type, x: Value)
    requires Holds(e, x)
    ensures Holds(TSlice(e), VSlice([x], [])) && Holds(TArray(e, 1), VArray([x]))
  {
    assert [x][0] == x;
  }

  lemma {:induction false} SliceLands(c: Decoder, e: Type, x: Value, p: Value, prev: Value)
    requires prev.VSlice? && prev.elems + prev.spare == [p]
    ensures Landed(c, TSlice(e), VSlice([x], []), prev) == VSlice([Landed(c, e, x, p)], [])
  {
    assert Resize(e, prev, 1) == [p];
    assert LandedAll(c, e, [x], [p]) == [Landed(c, e, x, p)];
  }

  lemma {:induction false} InArray(c: Decoder, e: Type, x: Value, p: Value, y: Value, tail: Bytes)
    requires e != BYTE && Holds(e, x) && Readable(c, e, x, 1) && Landed(c, e, x, p) == y
    ensures Reread(c, TArray(e, 1), VArray([x]), VArray([p]), tail) == Ok(VArray([y]), tail)
  {
    SliceHolds(e, x);
    ArrayReads(c, e, x);
    assert LandedAll(c, e, [x], [p]) == [y];
    Rereads(c, TArray(e, 1), VArray([x]), VArray([p]), tail);
  }

  lemma {:induction false} ArrayReads(c: Decoder, e: Type, x: Value)
    requires e != BYTE && Readable(c, e, x, 1)
    ensures Readable(c, TArray(e, 1), VArray([x]), 0)
  {
    assert [x][0] == x;
  }

  /** The struct type with one field. */
  function OneFieldType(e: Type): Type {
    TStruct([Field(0, 0, e)])
  }

  lemma {:induction false} InStruct(c: Decoder, e: Type, x: Value, p: Value, y: Value, tail: Bytes)
    requires Holds(e, x) && Readable(c, e, x, 1) && Landed(c, e, x, p) == y
    ensures Reread(c, OneFieldType(e), VStruct([x]), VStruct([p]), tail) == Ok(VStruct([y]), tail)
  {
    FieldHolds(e, x);
    FieldReads(c, e, x);
    assert LandedFields(c, OneFieldType(e), [x], [p]) == [y];
    Rereads(c, OneFieldType(e), VStruct([x]), VStruct([p]), tail);
  }

  lemma {:induction false} FieldHolds(e: Type, x: Value)
    requires Holds(e, x)
    ensures Holds(OneFieldType(e), VStruct([x]))
  {
    assert [x][0] == x;
  }

  lemma {:induction false} FieldReads(c: Decoder, e: Type, x: Value)
    requires Readable(c, e, x, 1)
    ensures Readable(c, OneFieldType(e), VStruct([x]), 0)
  {
    assert [x][0] == x;
    assert FieldItems(OneFieldType(e), [x], 0) == [];
  }

  lemma {:induction false} InPointer(c: Decoder, e: Type, x: Value, p: Value, y: Value, tail: Bytes)
    requires Holds(e, x) && Readable(c, e, x, 0) && Landed(c, e, x, p) == y && WireOf(e, x) != WZero
    ensures Reread(c, TPtr(e), VPtr(x), VPtr(p), tail) == Ok(VPtr(y), tail)
  {
    TargetLands(c, e, x, p);
    Rereads(c, TPtr(e), VPtr(x), VPtr(p), tail);
  }

  lemma {:induction false} TargetLands(c: Decoder, e: Type, x: Value, p: Value)
    requires Holds(e, x) && Readable(c, e, x, 0) && WireOf(e, x) != WZero
    ensures Holds(TPtr(e), VPtr(x)) && Readable(c, TPtr(e), VPtr(x), 0)
    ensures Landed(c, TPtr(e), VPtr(x), VPtr(p)) == VPtr(Landed(c, e, x, p))
  {
  }

  lemma {:induction false} EmptySetLands(c: Decoder)
    ensures Landed(c, SET, VMap([]), VMap([KEPT])) == VMap([]) && Readable(c, SET, VMap([]), 0)
  {
  }

  lemma {:induction false} SetLands(c: Decoder)
    ensures Landed(c, SET, VMap([READ]), VMap([KEPT])) == VMap([KEPT, READ])
  {
    assert RestoredEntries(c, SET, [READ]) == [READ];
    InsertAllNew([KEPT], [READ]);
    assert [KEPT] + [READ] == [KEPT, READ];
  }

  lemma {:induction false} SetReads(c: Decoder, d: nat)
    requires d < 100
    ensures Readable(c, SET, VMap([READ]), d)
  {
    var ws := EntryItems(SET, [READ]);
    assert |ws| == 2;
    assert EntryReadable(c, SET, READ, d + 1);
  }

  // ----- what is written but not read back -----

  /** A byte array of length zero. */
  lemma {:induction false} NoBytes(c: Decoder, prev: Value, tail: Bytes)
    ensures Writable(TArray(BYTE, 0), VArray([]), 0)
    ensures Reread(c, TArray(BYTE, 0), VArray([]), prev, tail) == Err
  {
    Rereads(c, TArray(BYTE, 0), VArray([]), prev, tail);
  }

  /** A string of 2^31 bytes. */
  lemma {:induction false} LongString(prev: Value, tail: Bytes)
    ensures var v := VString(seq(0x8000_0000, _ => 0));
            && Reread(RECURSIVE, TString, v, prev, tail) == Ok(v, tail)
            && Reread(EVENTS, TString, v, prev, tail) == Err
  {
    var v := VString(seq(0x8000_0000, _ => 0));
    Rereads(RECURSIVE, TString, v, prev, tail);
    Rereads(EVENTS, TString, v, prev, tail);
  }

  /** -2^63 - 1 comes back from the recursive reader as -2^63 + 1. */
  lemma {:induction false} GapBigInt(prev: Value, tail: Bytes)
    ensures var i := -TWO_TO_THE_63 - 1;
            && Reread(RECURSIVE, TBigInt, VBig(i), prev, tail) == Ok(VBig(-TWO_TO_THE_63 + 1), tail)
            && Reread(EVENTS, TBigInt, VBig(i), prev, tail) == Ok(VBig(i), tail)
  {
    var i := -TWO_TO_THE_63 - 1;
    NumberFits(Abs(i));
    Rereads(RECURSIVE, TBigInt, VBig(i), prev, tail);
    Rereads(EVENTS, TBigInt, VBig(i), prev, tail);
  }

  /** A byte slice within n slices. */
  function DeepType(n: nat): Type {
    if n == 0 then TSlice(BYTE) else TSlice(DeepType(n - 1))
  }

  function DeepValue(n: nat): Value {
    VSlice([if n == 0 then VUint(1) else DeepValue(n - 1)], [])
  }

  lemma {:induction false} DeepHolds(n: nat)
    ensures Holds(DeepType(n), DeepValue(n))
  {
    if n > 0 {
      DeepHolds(n - 1);
    }
  }

  lemma {:induction false} DeepNotByte(n: nat)
    ensures DeepType(n) != BYTE
  {
  }

  lemma {:induction false} DeepWritable(n: nat, d: nat)
    ensures Writable(DeepType(n), DeepValue(n), d) <==> n + d <= MAX_NESTED
  {
    if n > 0 {
      var m, inner := n - 1, d + 1;
      DeepNotByte(m);
      DeepWritable(m, inner);
      SingletonWritable(DeepType(m), DeepValue(m), d, inner);
    }
  }

  lemma {:induction false} SingletonWritable(e: Type, v: Value, d: nat, inner: nat)
    requires e != BYTE && inner == d + 1
    ensures Writable(TSlice(e), VSlice([v], []), d) <==> d < MAX_NESTED && Writable(e, v, inner)
  {
    assert [v][0] == v;
  }

  lemma {:induction false} DeepReadable(c: Decoder, n: nat, d: nat)
    ensures Readable(c, DeepType(n), DeepValue(n), d) <==> c.events || n + d < MAX_NESTED
  {
    if n > 0 {
      var m, inner := n - 1, d + 1;
      DeepNotByte(m);
      DeepReadable(c, m, inner);
      SingletonReads(c, DeepType(m), DeepValue(m), d, inner);
    } else {
      LoneByteReads(c, d);
    }
  }

  lemma {:induction false} LoneByteReads(c: Decoder, d: nat)
    ensures Readable(c, TSlice(BYTE), VSlice([VUint(1)], []), d) <==> c.events || d < MAX_NESTED
  {
    assert BytesOf([VUint(1)]) == [1];
  }

  lemma {:induction false} SingletonReads(c: Decoder, e: Type, v: Value, d: nat, inner: nat)
    requires e != BYTE && inner == d + 1
    ensures Readable(c, TSlice(e), VSlice([v], []), d) <==> (c.events || d <= MAX_NESTED) && Readable(c, e, v, inner)
  {
    assert [v][0] == v;
  }

  /** A lone byte at depth 100 is written, and read back by the event decoder only. */
  lemma {:induction false} DeepByte(prev: Value, tail: Bytes)
    ensures var t, v := DeepType(100), DeepValue(100);
            && Writable(t, v, 0)
            && Reread(RECURSIVE, t, v, prev, tail) == Err
            && Reread(EVENTS, t, v, prev, tail).Ok?
  {
    var t, v := DeepType(MAX_NESTED), DeepValue(MAX_NESTED);
    DeepHolds(MAX_NESTED);
    DeepWritable(MAX_NESTED, 0);
    DeepReadable(RECURSIVE, MAX_NESTED, 0);
    DeepReadable(EVENTS, MAX_NESTED, 0);
    Rereads(RECURSIVE, t, v, prev, tail);
    Rereads(EVENTS, t, v, prev, tail);
  }

  // ----- pointers -----

  /** A pointer to something written as Zero comes back nil. */
  lemma {:induction false} PointerToZero(c: Decoder, prev: Value, tail: Bytes)
    ensures Reread(c, TPtr(TBool), VPtr(VBool(false)), prev, tail) == Ok(VNil, tail)
  {
    PointerReads(c);
    Rereads(c, TPtr(TBool), VPtr(VBool(false)), prev, tail);
  }

  lemma {:induction false} PointerReads(c: Decoder)
    ensures Holds(TPtr(TBool), VPtr(VBool(false))) && Readable(c, TPtr(TBool), VPtr(VBool(false)), 0)
  {
    assert Reads(c, TBool, VBool(false), 0);
  }
}
