/** The writer functions: they append a value's encoding to a byte sink. */
module Writers {
  import opened Numeric
  import opened Headers
  import opened Wire
  import opened Values
  import opened Layout
  import opened Encoding

  /** Where encoded bytes go. */
  class Sink {
    var out: Bytes

    constructor ()
      ensures out == []
    {
      out := [];
    }

    method Write(bs: Bytes) returns (n: nat)
      modifies this
      ensures out == old(out) + bs && n == |bs|
    {
      out := out + bs;
      return |bs|;
    }
  }

  const ZERO_VALUES: Bytes := [0x80]
  const TRUE_BOOLS: Bytes := [0x81]
  const EMPTY_VALUES: Bytes := [0x82]

  /** A byte string that is not nil. */
  method BytesWriter(w: Sink, bs: Bytes) returns (n: nat)
    requires |bs| < TWO_TO_THE_63
    modifies w
    ensures w.out == old(w.out) + ItemBytes(BytesItem(bs)) && n == |ItemBytes(BytesItem(bs))|
  {
    if |bs| == 0 {
      n := w.Write(EMPTY_VALUES);
      return;
    }
    if |bs| == 1 && bs[0] <= 127 {
      n := w.Write(bs);
      assert bs == [bs[0]];
      return;
    }
    n := WriteHeaded(w, Strings, bs);
  }

  /** A length header and the bytes it announces. */
  method WriteHeaded(w: Sink, f: Family, bs: Bytes) returns (n: nat)
    requires 0 < |bs| < TWO_TO_THE_63
    modifies w
    ensures w.out == old(w.out) + (LengthHeader(f, |bs|) + bs) && n == |LengthHeader(f, |bs|) + bs|
  {
    var h := MakeHeader(f, |bs|);
    n := w.Write(h);
    var m := w.Write(bs);
    assert old(w.out) + h + bs == old(w.out) + (h + bs);
    return n + m;
  }

  /** A number of at most 64 bits by sign and magnitude. */
  method SmallNumberWriter(w: Sink, isNegative: bool, i: nat) returns (n: nat)
    requires i < TWO_TO_THE_64
    modifies w
    ensures w.out == old(w.out) + ItemBytes(NumberItem(isNegative, i)) && n == |ItemBytes(NumberItem(isNegative, i))|
  {
    if !isNegative && i <= 127 {
      n := w.Write([i]);
      return;
    }
    NumberFits(i);
    var buf := new byte[9];
    var l, ok := WriteUint(buf, 1, i);
    ghost var digits := buf[1..1 + l];
    var lh, headed := NumericBuf(isNegative, l, buf);
    assert |NumericHeader(isNegative, l)| == 1;
    assert buf[..l + lh] == buf[..lh] + digits;
    n := w.Write(buf[..l + lh]);
  }

  /** The negation wraps: MinInt64 stays itself, and its uint64 is its magnitude. */
  method IntWriter(w: Sink, i: int) returns (n: nat)
    requires InIntRange(W64, i)
    modifies w
    ensures w.out == old(w.out) + ItemBytes(NumberItem(i < 0, Abs(i))) && n == |ItemBytes(NumberItem(i < 0, Abs(i)))|
  {
    var u := i;
    var isNegative := false;
    if u < 0 {
      isNegative := true;
      WrapInt64(-u);
      u := WrapInt(W64, -u);
    }
    assert ToUint64(u) == Abs(i);
    n := SmallNumberWriter(w, isNegative, ToUint64(u));
  }

  /** A big integer that is not nil: one byte below 128, sign and magnitude otherwise. */
  method WriteBigInt(w: Sink, i: int) returns (n: nat)
    requires |UintBytes(Abs(i))| < TWO_TO_THE_63
    modifies w
    ensures w.out == old(w.out) + ItemBytes(NumberItem(i < 0, Abs(i))) && n == |ItemBytes(NumberItem(i < 0, Abs(i)))|
  {
    if !(i < 0) && i < 128 {
      n := w.Write([i]);
      return;
    }
    var b := UintBytes(Abs(i));
    n := WriteHeaded(w, Sign(i < 0), b);
  }

  /** A number, bool, string or big integer, or a nil pointer, slice or map. */
  method PlainWriter(w: Sink, t: Type, v: Value) returns (n: nat)
    requires HasType(t, v) && Sized(t, v) && !v.VArray? && !v.VSlice? && !v.VMap? && !v.VStruct? && !v.VPtr?
    modifies w
    ensures w.out == old(w.out) + ItemBytes(WireOf(t, v)) && n == |ItemBytes(WireOf(t, v))|
  {
    if v.VBig? {
      n := WriteBigInt(w, v.i);
    } else if v.VInt? {
      n := IntWriter(w, v.i);
    } else if v.VUint? {
      n := SmallNumberWriter(w, false, v.u);
    } else if v.VString? && v.s != [] {
      n := BytesWriter(w, v.s);
    } else if v.VBool? && v.b {
      n := w.Write(TRUE_BOOLS);
    } else {
      n := w.Write(ZERO_VALUES);
    }
  }

  /** Writes a value: it succeeds exactly within the nesting limit, and then appends the value's item. */
  method ValueWriter0(w: Sink, t: Type, v: Value, nesting: nat) returns (n: nat, ok: bool)
    requires Holds(t, v)
    modifies w
    ensures ok == Writable(t, v, nesting)
    ensures ok ==> w.out == old(w.out) + ItemBytes(WireOf(t, v)) && n == |ItemBytes(WireOf(t, v))|
    decreases t, 3
  {
    if nesting > MAX_NESTED {
      return 0, false;
    }
    HoldsParts(t, v);
    ok := true;
    if v.VArray? {
      SequenceWritable(t, v, nesting);
      if t.elem == BYTE {
        n := BytesWriter(w, BytesOf(v.elems));
      } else {
        n, ok := ArrayWriter0(w, false, t.elem, v.elems, nesting);
      }
    } else if v.VSlice? {
      SequenceWritable(t, v, nesting);
      if t.elem == BYTE {
        n := BytesWriter(w, BytesOf(v.elems));
      } else {
        n, ok := ArrayWriter0(w, true, t.elem, v.elems, nesting);
      }
    } else if v.VMap? {
      MapWritable(t, v.entries, nesting);
      n, ok := MapWriter0(w, t, v.entries, nesting);
    } else if v.VStruct? {
      StructWritable(t, v.fields, nesting);
      StructItem(t, v.fields);
      n, ok := StructWriter0(w, t, v.fields, nesting);
    } else if v.VPtr? {
      n, ok := ValueWriter0(w, t.elem, v.target, nesting);
    } else {
      n := PlainWriter(w, t, v);
    }
  }

  lemma {:induction false} SequenceWritable(t: Type, v: Value, d: nat)
    requires ((t.TArray? && v.VArray?) || (t.TSlice? && v.VSlice?)) && d <= MAX_NESTED
    ensures Writable(t, v, d) <==>
            t.elem == BYTE || v.elems == [] || (d < MAX_NESTED && ElemsWritable(t.elem, v.elems, |v.elems|, d + 1))
  {
    ElemsWritableAll(t.elem, v.elems, |v.elems|, d + 1);
  }

  lemma {:induction false} MapWritable(t: Type, es: seq<Entry>, d: nat)
    requires t.TMap? && d <= MAX_NESTED
    ensures Writable(t, VMap(es), d) <==> es == [] || (d < MAX_NESTED && EntriesWritable(t, es, |es|, d + 1))
  {
    EntriesWritableAll(t, es, |es|, d + 1);
  }

  lemma {:induction false} StructWritable(t: Type, vs: seq<Value>, d: nat)
    requires t.TStruct? && |t.fields| == |vs| && d <= MAX_NESTED
    ensures Writable(t, VStruct(vs), d) <==>
            vs == [] || (d < MAX_NESTED && FieldsWritable(t.fields, vs, Kept(t.fields, vs), d + 1))
  {
    FieldsWritableAll(t.fields, vs, Kept(t.fields, vs), d + 1);
  }

  method WriteArrayHead(w: Sink, length: nat) returns (n: nat)
    requires 0 < length < TWO_TO_THE_63
    modifies w
    ensures w.out == old(w.out) + ArrayHeader(length) && n == |ArrayHeader(length)|
  {
    var h := MakeHeader(Arrays, length);
    n := w.Write(h);
  }

  lemma {:induction false} ArrayBytes(ws: seq<Item>)
    ensures ItemBytes(WArr(ws)) == ArrayHeader(|ws|) + Concat(ws)
  {
    var w := WArr(ws);
    assert w.items == ws;
  }

  /** An array's header and then its items are its bytes. */
  lemma {:induction false} ArrayAppended(out: Bytes, ws: seq<Item>)
    ensures out + ArrayHeader(|ws|) + Concat(ws) == out + ItemBytes(WArr(ws))
    ensures |ArrayHeader(|ws|)| + |Concat(ws)| == |ItemBytes(WArr(ws))|
  {
    Regroup(out, ArrayHeader(|ws|), Concat(ws));
    ArrayBytes(ws);
  }

  /** The elements of an array, or of a slice that is not nil; bytes are written as strings instead. */
  method ArrayWriter0(w: Sink, isSlice: bool, e: Type, vs: seq<Value>, nesting: nat) returns (n: nat, ok: bool)
    requires |vs| < TWO_TO_THE_63 && forall i | 0 <= i < |vs| :: Holds(e, vs[i])
    modifies w
    ensures ok == (vs == [] || (nesting < MAX_NESTED && ElemsWritable(e, vs, |vs|, nesting + 1)))
    ensures ok ==> var item := if vs != [] then WArr(ElemItems(e, vs)) else if isSlice then WEmpty else WZero;
                   w.out == old(w.out) + ItemBytes(item) && n == |ItemBytes(item)|
    decreases e, 5
  {
    if |vs| <= 0 {
      if isSlice {
        n := w.Write(EMPTY_VALUES);
      } else {
        n := w.Write(ZERO_VALUES);
      }
      return n, true;
    }
    if nesting >= MAX_NESTED {
      return 0, false;
    }
    n := WriteArrayHead(w, |vs|);
    ArrayAppended(old(w.out), ElemItems(e, vs));
    var m;
    m, ok := WriteElems(w, e, vs, nesting + 1);
    n := n + m;
  }

  /** The first k elements stay within the nesting limit. */
  predicate ElemsWritable(e: Type, vs: seq<Value>, k: nat, d: nat)
    requires k <= |vs|
  {
    k == 0 || (ElemsWritable(e, vs, k - 1, d) && Writable(e, vs[k - 1], d))
  }

  lemma {:induction false} ElemsWritableAll(e: Type, vs: seq<Value>, n: nat, d: nat)
    requires n <= |vs|
    ensures ElemsWritable(e, vs, n, d) <==> forall i | 0 <= i < n :: Writable(e, vs[i], d)
  {
    if n > 0 {
      ElemsWritableAll(e, vs, n - 1, d);
    }
  }

  lemma {:induction false} ElemsWritablePrefix(e: Type, vs: seq<Value>, k: nat, n: nat, d: nat)
    requires k <= n <= |vs|
    ensures ElemsWritable(e, vs, n, d) ==> ElemsWritable(e, vs, k, d)
  {
    if k < n {
      ElemsWritablePrefix(e, vs, k, n - 1, d);
    }
  }

  /** The loop over the elements. */
  method WriteElems(w: Sink, e: Type, vs: seq<Value>, nesting: nat) returns (n: nat, ok: bool)
    requires forall i | 0 <= i < |vs| :: Holds(e, vs[i])
    modifies w
    ensures ok == ElemsWritable(e, vs, |vs|, nesting)
    ensures ok ==> w.out == old(w.out) + Concat(ElemItems(e, vs)) && n == |Concat(ElemItems(e, vs))|
    decreases e, 4, 1
  {
    n, ok := 0, true;
    ghost var ws := ElemItems(e, vs);
    var i := 0;
    while ok && i < |vs|
      invariant i <= |vs|
      invariant ok ==> w.out == old(w.out) + Concat(ws[..i]) && n == |Concat(ws[..i])|
      invariant ok == ElemsWritable(e, vs, i, nesting)
    {
      var next := i + 1;
      n, ok := WriteNextElem(w, old(w.out), ws, e, vs, i, next, n, nesting);
      i := next;
    }
    assert ok ==> i == |vs|;
    ElemsWritablePrefix(e, vs, i, |vs|, nesting);
    assert ws[..|vs|] == ws;
  }

  /** One turn of the loop: element i behind those before it. */
  method WriteNextElem(w: Sink, ghost out: Bytes, ghost ws: seq<Item>, e: Type, vs: seq<Value>, i: nat, ghost next: nat,
                       written: nat, nesting: nat)
    returns (n: nat, ok: bool)
    requires next == i + 1 && i < |vs| && (forall i | 0 <= i < |vs| :: Holds(e, vs[i])) && ws == ElemItems(e, vs)
    requires w.out == out + Concat(ws[..i]) && written == |Concat(ws[..i])|
    modifies w
    ensures ElemsWritable(e, vs, next, nesting) == (ElemsWritable(e, vs, i, nesting) && ok)
    ensures ok ==> w.out == out + Concat(ws[..next]) && n == |Concat(ws[..next])|
    decreases e, 4, 0
  {
    n, ok := ValueWriter0(w, e, vs[i], nesting);
    n := written + n;
    ConcatNext(out, ws, i);
  }

  lemma {:induction false} ConcatNext(out: Bytes, ws: seq<Item>, i: nat)
    requires i < |ws|
    ensures out + Concat(ws[..i + 1]) == out + Concat(ws[..i]) + ItemBytes(ws[i])
    ensures |Concat(ws[..i + 1])| == |Concat(ws[..i])| + |ItemBytes(ws[i])|
  {
    assert ws[..i + 1] == ws[..i] + [ws[i]];
    ConcatAppend(ws[..i], [ws[i]]);
    assert Concat([ws[i]]) == ItemBytes(ws[i]) + Concat([]);
  }

  /** The entries of a map that is not nil, in the order the map yields its keys. */
  method MapWriter0(w: Sink, t: Type, es: seq<Entry>, nesting: nat) returns (n: nat, ok: bool)
    requires t.TMap? && 2 * |es| < TWO_TO_THE_63
    requires forall i | 0 <= i < |es| :: Holds(t.key, es[i].key) && Holds(t.val, es[i].value)
    modifies w
    ensures ok == (es == [] || (nesting < MAX_NESTED && EntriesWritable(t, es, |es|, nesting + 1)))
    ensures ok ==> var item := if es != [] then WArr(EntryItems(t, es)) else WEmpty;
                   w.out == old(w.out) + ItemBytes(item) && n == |ItemBytes(item)|
    decreases t, 2
  {
    if |es| == 0 {
      n := w.Write(EMPTY_VALUES);
      return n, true;
    }
    if nesting >= MAX_NESTED {
      return 0, false;
    }
    var length := |es|;
    length := length * 2;
    n, ok := WriteMap(w, t, es, length, nesting + 1);
  }

  /** The count and the entries. */
  method WriteMap(w: Sink, t: Type, es: seq<Entry>, length: nat, nesting: nat) returns (n: nat, ok: bool)
    requires t.TMap? && 0 < length < TWO_TO_THE_63 && length == 2 * |es|
    requires forall i | 0 <= i < |es| :: Holds(t.key, es[i].key) && Holds(t.val, es[i].value)
    modifies w
    ensures ok == EntriesWritable(t, es, |es|, nesting)
    ensures ok ==> w.out == old(w.out) + ItemBytes(WArr(EntryItems(t, es))) && n == |ItemBytes(WArr(EntryItems(t, es)))|
    decreases t, 2, 0
  {
    ArrayAppended(old(w.out), EntryItems(t, es));
    n := WriteArrayHead(w, length);
    var m;
    m, ok := WriteEntries(w, t, es, nesting);
    n := n + m;
  }

  /** The first k entries stay within the nesting limit. */
  predicate EntriesWritable(t: Type, es: seq<Entry>, k: nat, d: nat)
    requires t.TMap? && k <= |es|
  {
    k == 0 || (EntriesWritable(t, es, k - 1, d) &&
               Writable(t.key, es[k - 1].key, d) && Writable(t.val, es[k - 1].value, d))
  }

  lemma {:induction false} EntriesWritableAll(t: Type, es: seq<Entry>, n: nat, d: nat)
    requires t.TMap? && n <= |es|
    ensures EntriesWritable(t, es, n, d) <==>
            forall i | 0 <= i < n :: Writable(t.key, es[i].key, d) && Writable(t.val, es[i].value, d)
  {
    if n > 0 {
      EntriesWritableAll(t, es, n - 1, d);
    }
  }

  lemma {:induction false} EntriesWritablePrefix(t: Type, es: seq<Entry>, k: nat, n: nat, d: nat)
    requires t.TMap? && k <= n <= |es|
    ensures EntriesWritable(t, es, n, d) ==> EntriesWritable(t, es, k, d)
  {
    if k < n {
      EntriesWritablePrefix(t, es, k, n - 1, d);
    }
  }

  /** The loop over the keys, each followed by its value. */
  method WriteEntries(w: Sink, t: Type, es: seq<Entry>, nesting: nat) returns (n: nat, ok: bool)
    requires t.TMap? && forall i | 0 <= i < |es| :: Holds(t.key, es[i].key) && Holds(t.val, es[i].value)
    modifies w
    ensures ok == EntriesWritable(t, es, |es|, nesting)
    ensures ok ==> w.out == old(w.out) + Concat(EntryItems(t, es)) && n == |Concat(EntryItems(t, es))|
    decreases t, 1
  {
    n, ok := 0, true;
    var i := 0;
    assert es[..0] == [];
    while ok && i < |es|
      invariant i <= |es|
      invariant ok ==> w.out == old(w.out) + Concat(EntryItems(t, es[..i])) && n == |Concat(EntryItems(t, es[..i]))|
      invariant ok == EntriesWritable(t, es, i, nesting)
    {
      var next := i + 1;
      n, ok := WriteNextEntry(w, old(w.out), t, es, i, next, n, nesting);
      i := next;
    }
    assert ok ==> i == |es|;
    EntriesWritablePrefix(t, es, i, |es|, nesting);
    assert es[..|es|] == es;
  }

  /** One turn of the loop: entry i behind those before it. */
  method WriteNextEntry(w: Sink, ghost out: Bytes, t: Type, es: seq<Entry>, i: nat, ghost next: nat, written: nat,
                        nesting: nat)
    returns (n: nat, ok: bool)
    requires next == i + 1
    requires t.TMap? && i < |es| && forall i | 0 <= i < |es| :: Holds(t.key, es[i].key) && Holds(t.val, es[i].value)
    requires w.out == out + Concat(EntryItems(t, es[..i])) && written == |Concat(EntryItems(t, es[..i]))|
    modifies w
    ensures EntriesWritable(t, es, next, nesting) == (EntriesWritable(t, es, i, nesting) && ok)
    ensures ok ==> w.out == out + Concat(EntryItems(t, es[..next])) && n == |Concat(EntryItems(t, es[..next]))|
    decreases t, 0, 1
  {
    n, ok := WriteEntry(w, t, es[i], nesting);
    n := written + n;
    EntryNext(out, t, es, i);
  }

  method WriteEntry(w: Sink, t: Type, e: Entry, nesting: nat) returns (n: nat, ok: bool)
    requires t.TMap? && Holds(t.key, e.key) && Holds(t.val, e.value)
    modifies w
    ensures ok == (Writable(t.key, e.key, nesting) && Writable(t.val, e.value, nesting))
    ensures ok ==> w.out == old(w.out) + ItemBytes(WireOf(t.key, e.key)) + ItemBytes(WireOf(t.val, e.value))
    ensures ok ==> n == |ItemBytes(WireOf(t.key, e.key))| + |ItemBytes(WireOf(t.val, e.value))|
    decreases t, 0, 0
  {
    n, ok := ValueWriter0(w, t.key, e.key, nesting);
    if !ok {
      return n, false;
    }
    var m;
    m, ok := ValueWriter0(w, t.val, e.value, nesting);
    n := n + m;
  }

  lemma {:induction false} EntryNext(out: Bytes, t: Type, es: seq<Entry>, i: nat)
    requires t.TMap? && i < |es|
    ensures var k, v := ItemBytes(WireOf(t.key, es[i].key)), ItemBytes(WireOf(t.val, es[i].value));
            && out + Concat(EntryItems(t, es[..i + 1])) == out + Concat(EntryItems(t, es[..i])) + k + v
            && |Concat(EntryItems(t, es[..i + 1]))| == |Concat(EntryItems(t, es[..i]))| + |k| + |v|
  {
    assert es[..i + 1] == es[..i] + [es[i]];
    EntryItemsAppend(t, es[..i], es[i]);
    ConcatPair(out, EntryItems(t, es[..i]), WireOf(t.key, es[i].key), WireOf(t.val, es[i].value));
  }

  lemma {:induction false} ConcatPair(out: Bytes, ws: seq<Item>, k: Item, v: Item)
    ensures out + Concat(ws + [k, v]) == out + Concat(ws) + ItemBytes(k) + ItemBytes(v)
    ensures |Concat(ws + [k, v])| == |Concat(ws)| + |ItemBytes(k)| + |ItemBytes(v)|
  {
    ConcatAppend(ws, [k, v]);
    ConcatOfTwo(k, v);
    Regroup(out, Concat(ws), ItemBytes(k) + ItemBytes(v));
    Regroup(out + Concat(ws), ItemBytes(k), ItemBytes(v));
  }

  lemma {:induction false} ConcatOfTwo(k: Item, v: Item)
    ensures Concat([k, v]) == ItemBytes(k) + ItemBytes(v)
  {
    assert [k, v][1..] == [v] && [v][1..] == [];
    assert ItemBytes(v) + Concat([]) == ItemBytes(v);
  }

  /** A Zero item for every order no field has. */
  method ZerosPlacehold(w: Sink, count: nat) returns (n: nat)
    modifies w
    ensures w.out == old(w.out) + Concat(Holes(count)) && n == |Concat(Holes(count))|
  {
    for i := 0 to count
      invariant w.out == old(w.out) + Concat(Holes(i)) && |Concat(Holes(i))| == i
    {
      var _ := w.Write(ZERO_VALUES);
      assert Holes(i + 1)[..i] == Holes(i) && Holes(i + 1)[..i + 1] == Holes(i + 1);
      ConcatNext(old(w.out), Holes(i + 1), i);
    }
    return count;
  }

  /** The fields a struct value keeps, announced by one above the last order among them. */
  method StructWriter0(w: Sink, t: Type, vs: seq<Value>, nesting: nat) returns (n: nat, ok: bool)
    requires t.TStruct? && |t.fields| == |vs| && NonDecreasing(Versions(t.fields))
    requires forall i | 0 <= i < |vs| :: Holds(t.fields[i].typ, vs[i]) && t.fields[i].order + 1 < TWO_TO_THE_63
    modifies w
    ensures ok == (vs == [] || (nesting < MAX_NESTED && FieldsWritable(t.fields, vs, Kept(t.fields, vs), nesting + 1)))
    ensures ok ==> w.out == old(w.out) + StructBytes(t, vs) && n == |StructBytes(t, vs)|
    decreases t, 2
  {
    if |t.fields| <= 0 {
      n := w.Write(ZERO_VALUES);
      return n, true;
    }
    if nesting >= MAX_NESTED {
      return 0, false;
    }
    var fnum, kept := VersionedFields(t.fields, vs);
    n, ok := WriteStruct(w, t, vs, fnum, kept, nesting + 1);
  }

  /**
   What is written for a struct, whatever its orders: a header that announces one above the last order kept, and
   the items of the kept fields. By Encoding.RepeatsWritten there are more items than announced when an order is
   repeated.
   */
  function StructBytes(t: Type, vs: seq<Value>): Bytes
    requires t.TStruct? && |t.fields| == |vs|
  {
    if vs == [] then ZERO_VALUES
    else ArrayHeader(OrderBefore(t.fields, Kept(t.fields, vs)) + 1) + Concat(OwnItems(t, vs))
  }

  lemma {:induction false} StructBytesAre(t: Type, vs: seq<Value>, kept: nat)
    requires t.TStruct? && |t.fields| == |vs| && kept == Kept(t.fields, vs) && kept > 0
    ensures StructBytes(t, vs) == ArrayHeader(t.fields[kept - 1].order + 1) + Concat(FieldItems(t, vs, kept))
  {
  }

  /** With strictly increasing orders that is the struct's item. */
  lemma {:induction false} StructItem(t: Type, vs: seq<Value>)
    requires t.TStruct? && HoldsFields(t, vs)
    ensures StructBytes(t, vs) == ItemBytes(WireOf(t, VStruct(vs)))
  {
    if vs != [] {
      FieldItemsLength(t, vs, Kept(t.fields, vs));
      StructWire(t, vs);
      ArrayBytes(OwnItems(t, vs));
    }
  }

  /** The announced number and the kept fields. */
  method WriteStruct(w: Sink, t: Type, vs: seq<Value>, fnum: nat, kept: nat, nesting: nat) returns (n: nat, ok: bool)
    requires t.TStruct? && |t.fields| == |vs| && kept == Kept(t.fields, vs) && kept > 0
    requires fnum == t.fields[kept - 1].order + 1 < TWO_TO_THE_63
    requires forall i | 0 <= i < |vs| :: Holds(t.fields[i].typ, vs[i])
    modifies w
    ensures ok == FieldsWritable(t.fields, vs, kept, nesting)
    ensures ok ==> w.out == old(w.out) + StructBytes(t, vs) && n == |StructBytes(t, vs)|
    decreases t, 2, 0
  {
    Regroup(old(w.out), ArrayHeader(fnum), Concat(FieldItems(t, vs, kept)));
    StructBytesAre(t, vs, kept);
    n := WriteArrayHead(w, fnum);
    var m;
    m, ok := WriteFields(w, t, vs, kept, nesting);
    n := n + m;
  }

  /** The first k fields stay within the nesting limit. */
  predicate FieldsWritable(fs: seq<Field>, vs: seq<Value>, k: nat, d: nat)
    requires k <= |fs| == |vs|
  {
    k == 0 || (FieldsWritable(fs, vs, k - 1, d) && Writable(fs[k - 1].typ, vs[k - 1], d))
  }

  lemma {:induction false} FieldsWritableAll(fs: seq<Field>, vs: seq<Value>, n: nat, d: nat)
    requires n <= |fs| == |vs|
    ensures FieldsWritable(fs, vs, n, d) <==> forall i | 0 <= i < n :: Writable(fs[i].typ, vs[i], d)
  {
    if n > 0 {
      FieldsWritableAll(fs, vs, n - 1, d);
    }
  }

  lemma {:induction false} FieldsWritablePrefix(fs: seq<Field>, vs: seq<Value>, k: nat, n: nat, d: nat)
    requires k <= n <= |fs| == |vs|
    ensures FieldsWritable(fs, vs, n, d) ==> FieldsWritable(fs, vs, k, d)
  {
    if k < n {
      FieldsWritablePrefix(fs, vs, k, n - 1, d);
    }
  }

  /** The loop over the first `kept` fields; orders that no field has get Zero items. */
  method WriteFields(w: Sink, t: Type, vs: seq<Value>, kept: nat, nesting: nat) returns (n: nat, ok: bool)
    requires t.TStruct? && |t.fields| == |vs| && kept <= |vs|
    requires forall i | 0 <= i < |vs| :: Holds(t.fields[i].typ, vs[i])
    modifies w
    ensures ok == FieldsWritable(t.fields, vs, kept, nesting)
    ensures ok ==> w.out == old(w.out) + Concat(FieldItems(t, vs, kept)) && n == |Concat(FieldItems(t, vs, kept))|
    decreases t, 1
  {
    n, ok := 0, true;
    var order: int := -1;
    var k := 0;
    while ok && k < kept
      invariant k <= kept
      invariant ok ==> order == OrderBefore(t.fields, k)
      invariant ok ==> w.out == old(w.out) + Concat(FieldItems(t, vs, k)) && n == |Concat(FieldItems(t, vs, k))|
      invariant ok == FieldsWritable(t.fields, vs, k, nesting)
    {
      var next := k + 1;
      n, ok := WriteNext(w, old(w.out), t, vs, k, next, order, n, nesting);
      order := t.fields[k].order;
      k := next;
    }
    assert ok ==> k == kept;
    FieldsWritablePrefix(t.fields, vs, k, kept, nesting);
  }

  /** One turn of the loop: field k behind the first k fields. */
  method WriteNext(w: Sink, ghost out: Bytes, t: Type, vs: seq<Value>, k: nat, ghost next: nat, order: int,
                   written: nat, nesting: nat)
    returns (n: nat, ok: bool)
    requires next == k + 1
    requires t.TStruct? && k < |vs| == |t.fields| && forall i | 0 <= i < |vs| :: Holds(t.fields[i].typ, vs[i])
    requires order == OrderBefore(t.fields, k) && written == |Concat(FieldItems(t, vs, k))|
    requires w.out == out + Concat(FieldItems(t, vs, k))
    modifies w
    ensures OrderBefore(t.fields, next) == t.fields[k].order
    ensures FieldsWritable(t.fields, vs, next, nesting) == (FieldsWritable(t.fields, vs, k, nesting) && ok)
    ensures ok ==> w.out == out + Concat(FieldItems(t, vs, next)) && n == |Concat(FieldItems(t, vs, next))|
    decreases t, 0
  {
    n, ok := WriteField(w, t.fields[k], order, vs[k], nesting);
    n := written + n;
    FieldNext(out, t, vs, k);
  }

  /** Zero items for the orders skipped, if any. */
  method WriteHoles(w: Sink, count: int) returns (n: nat)
    modifies w
    ensures w.out == old(w.out) + Concat(Holes(count)) && n == |Concat(Holes(count))|
  {
    n := 0;
    if count > 0 {
      n := ZerosPlacehold(w, count);
    }
  }

  /** Zero items for the orders skipped since the last field, then the field. */
  method WriteField(w: Sink, f: Field, order: int, v: Value, nesting: nat) returns (n: nat, ok: bool)
    requires Holds(f.typ, v) && order >= -1
    modifies w
    ensures ok == Writable(f.typ, v, nesting)
    ensures ok ==> w.out == old(w.out) + Concat(Holes(f.order - order - 1)) + ItemBytes(WireOf(f.typ, v))
    ensures ok ==> n == |Concat(Holes(f.order - order - 1))| + |ItemBytes(WireOf(f.typ, v))|
    decreases f.typ, 4
  {
    n := WriteHoles(w, f.order - order - 1);
    var m;
    m, ok := ValueWriter0(w, f.typ, v, nesting);
    n := n + m;
  }

  lemma {:induction false} FieldNext(out: Bytes, t: Type, vs: seq<Value>, k: nat)
    requires t.TStruct? && |t.fields| == |vs| && k < |vs|
    ensures var f := t.fields[k];
            var holes := Holes(f.order - OrderBefore(t.fields, k) - 1);
            && out + Concat(FieldItems(t, vs, k + 1)) ==
               out + Concat(FieldItems(t, vs, k)) + Concat(holes) + ItemBytes(WireOf(f.typ, vs[k]))
            && |Concat(FieldItems(t, vs, k + 1))| ==
               |Concat(FieldItems(t, vs, k))| + |Concat(holes)| + |ItemBytes(WireOf(f.typ, vs[k]))|
  {
    var f := t.fields[k];
    ConcatThree(out, FieldItems(t, vs, k), Holes(f.order - OrderBefore(t.fields, k) - 1), WireOf(f.typ, vs[k]));
  }

  lemma {:induction false} ConcatThree(out: Bytes, us: seq<Item>, hs: seq<Item>, w: Item)
    ensures out + Concat(us + hs + [w]) == out + Concat(us) + Concat(hs) + ItemBytes(w)
    ensures |Concat(us + hs + [w])| == |Concat(us)| + |Concat(hs)| + |ItemBytes(w)|
  {
    ConcatAppend(us, hs);
    ConcatAppend(us + hs, [w]);
    assert Concat([w]) == ItemBytes(w) + Concat([]);
  }

  /** Encodes a whole value; None is the nesting error. */
  method Marshal(t: Type, v: Value) returns (bs: Bytes, ok: bool)
    requires Holds(t, v)
    ensures ok == Writable(t, v, 0)
    ensures ok ==> bs == ItemBytes(WireOf(t, v))
  {
    var w := new Sink();
    var n;
    n, ok := ValueWriter0(w, t, v, 0);
    return w.out, ok;
  }
}
