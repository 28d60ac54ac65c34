/** The typed encoder: the item a value is written as, and the writer functions that write its bytes. */
module Encoding {
  import opened Numeric
  import opened Wire
  import opened Values
  import opened Layout

  /** Values deeper than this are refused. */
  const MAX_NESTED := 100

  // ----- what is written -----

  function BytesItem(bs: Bytes): Item {
    if bs == [] then WEmpty
    else if |bs| == 1 && bs[0] <= 127 then WByte(bs[0])
    else WStr(bs)
  }

  function NumberItem(negative: bool, magnitude: nat): Item {
    if !negative && magnitude <= 127 then WByte(magnitude) else WNum(negative, UintBytes(magnitude))
  }

  /** The item a value of type t is written as. */
  function WireOf(t: Type, v: Value): Item
    decreases t, 1
  {
    match (t, v)
    case (TInt(_), VInt(i)) => NumberItem(i < 0, Abs(i))
    case (TUint(_), VUint(u)) => NumberItem(false, u)
    case (TBool, VBool(b)) => if b then WTrue else WZero
    case (TString, VString(s)) => if s == [] then WZero else BytesItem(s)
    case (TBigInt, VBig(i)) => NumberItem(i < 0, Abs(i))
    case (TArray(e, _), VArray(vs)) =>
      if e == BYTE then BytesItem(BytesOf(vs)) else if vs == [] then WZero else WArr(ElemItems(e, vs))
    case (TSlice(e), VSlice(vs, _)) =>
      if e == BYTE then BytesItem(BytesOf(vs)) else if vs == [] then WEmpty else WArr(ElemItems(e, vs))
    case (TMap(_, _), VMap(es)) => if es == [] then WEmpty else WArr(EntryItems(t, es))
    case (TStruct(fs), VStruct(vs)) =>
      if fs == [] || |fs| != |vs| then WZero else WArr(FieldItems(t, vs, Kept(fs, vs)))
    case (TPtr(e), VPtr(x)) => WireOf(e, x)
    case _ => WZero
  }

  function Abs(i: int): nat {
    if i < 0 then -i else i
  }

  function ElemItems(e: Type, vs: seq<Value>): (ws: seq<Item>)
    ensures |ws| == |vs|
    decreases e, 2
  {
    seq(|vs|, i requires 0 <= i < |vs| => WireOf(e, vs[i]))
  }

  /** Keys and values alternate. */
  function EntryItems(t: Type, es: seq<Entry>): (ws: seq<Item>)
    requires t.TMap?
    ensures |ws| == 2 * |es|
    decreases t, 0, |es|
  {
    if es == [] then []
    else [WireOf(t.key, es[0].key), WireOf(t.val, es[0].value)] + EntryItems(t, es[1..])
  }

  lemma {:induction false} EntryItemsAt(t: Type, es: seq<Entry>, i: nat)
    requires t.TMap? && i < |es|
    ensures EntryItems(t, es)[2 * i] == WireOf(t.key, es[i].key)
    ensures EntryItems(t, es)[2 * i + 1] == WireOf(t.val, es[i].value)
    decreases i
  {
    if i > 0 {
      EntryItemsAt(t, es[1..], i - 1);
    }
  }

  lemma {:induction false} EntryItemsAppend(t: Type, es: seq<Entry>, e: Entry)
    requires t.TMap?
    ensures EntryItems(t, es + [e]) == EntryItems(t, es) + [WireOf(t.key, e.key), WireOf(t.val, e.value)]
    decreases |es|
  {
    if es == [] {
      assert es + [e] == [e] && EntryItems(t, [e][1..]) == [];
    } else {
      EntryItemsAppend(t, es[1..], e);
      assert (es + [e])[1..] == es[1..] + [e];
    }
  }

  function Holes(n: int): seq<Item> {
    if n <= 0 then [] else seq(n, _ => WZero)
  }

  /** The order of the field before field k, -1 for the first. */
  function OrderBefore(fs: seq<Field>, k: nat): int
    requires k <= |fs|
  {
    if k == 0 then -1 else fs[k - 1].order
  }

  /** The items of the first k fields, with Zero items for the orders that are skipped. */
  function FieldItems(t: Type, vs: seq<Value>, k: nat): (ws: seq<Item>)
    requires t.TStruct? && |t.fields| == |vs| && k <= |vs|
    decreases t, 0, k
  {
    if k == 0 then [] else
    var f := t.fields[k - 1];
    FieldItems(t, vs, k - 1) + Holes(f.order - OrderBefore(t.fields, k - 1) - 1) + [WireOf(f.typ, vs[k - 1])]
  }

  lemma {:induction false} FieldItemsStep(t: Type, vs: seq<Value>, k: nat)
    requires t.TStruct? && |t.fields| == |vs| && k < |vs| && StrictlyIncreasing(Orders(t.fields))
    requires |FieldItems(t, vs, k)| == OrderBefore(t.fields, k) + 1
    ensures var before, ws := FieldItems(t, vs, k), FieldItems(t, vs, k + 1);
            && |ws| == t.fields[k].order + 1 && |before| < |ws|
            && ws[..|before|] == before
            && (forall j | |before| <= j < |ws| - 1 :: ws[j] == WZero)
            && ws[|ws| - 1] == WireOf(t.fields[k].typ, vs[k])
  {
    assert k > 0 ==> Orders(t.fields)[k - 1] < Orders(t.fields)[k];
  }

  lemma {:induction false} FieldItemsLength(t: Type, vs: seq<Value>, k: nat)
    requires t.TStruct? && |t.fields| == |vs| && k <= |vs| && StrictlyIncreasing(Orders(t.fields))
    ensures |FieldItems(t, vs, k)| == OrderBefore(t.fields, k) + 1
  {
    if k > 0 {
      FieldItemsLength(t, vs, k - 1);
      FieldItemsStep(t, vs, k - 1);
    }
  }

  lemma {:induction false} FieldItemAt(t: Type, vs: seq<Value>, k: nat, i: nat)
    requires t.TStruct? && |t.fields| == |vs| && i < k <= |vs| && StrictlyIncreasing(Orders(t.fields))
    ensures t.fields[i].order < |FieldItems(t, vs, k)|
    ensures FieldItems(t, vs, k)[t.fields[i].order] == WireOf(t.fields[i].typ, vs[i])
  {
    FieldItemsLength(t, vs, k - 1);
    FieldItemsStep(t, vs, k - 1);
    if i < k - 1 {
      FieldItemAt(t, vs, k - 1, i);
      var o := t.fields[i].order;
      assert FieldItems(t, vs, k)[..|FieldItems(t, vs, k - 1)|][o] == FieldItems(t, vs, k)[o];
    }
  }

  lemma {:induction false} HoleAt(t: Type, vs: seq<Value>, k: nat, j: nat)
    requires t.TStruct? && |t.fields| == |vs| && k <= |vs| && StrictlyIncreasing(Orders(t.fields))
    requires j < |FieldItems(t, vs, k)| && forall i | 0 <= i < k :: t.fields[i].order != j
    ensures FieldItems(t, vs, k)[j] == WZero
  {
    FieldItemsLength(t, vs, k - 1);
    FieldItemsStep(t, vs, k - 1);
    assert t.fields[k - 1].order != j;
    var before := FieldItems(t, vs, k - 1);
    if j < |before| {
      HoleAt(t, vs, k - 1, j);
      assert FieldItems(t, vs, k)[..|before|][j] == FieldItems(t, vs, k)[j];
    }
  }

  /**
   The writer emits exactly as many items as it announces: every field at the position of its order,
   Zero everywhere else.
   */
  lemma {:induction false} FieldItemsAt(t: Type, vs: seq<Value>, k: nat)
    requires t.TStruct? && |t.fields| == |vs| && k <= |vs| && StrictlyIncreasing(Orders(t.fields))
    ensures |FieldItems(t, vs, k)| == OrderBefore(t.fields, k) + 1
    ensures forall i | 0 <= i < k :: t.fields[i].order < |FieldItems(t, vs, k)| &&
                                     FieldItems(t, vs, k)[t.fields[i].order] == WireOf(t.fields[i].typ, vs[i])
    ensures forall j | 0 <= j < |FieldItems(t, vs, k)| && (forall i | 0 <= i < k :: t.fields[i].order != j) ::
              FieldItems(t, vs, k)[j] == WZero
  {
    FieldItemsLength(t, vs, k);
    forall i | 0 <= i < k
      ensures t.fields[i].order < |FieldItems(t, vs, k)|
      ensures FieldItems(t, vs, k)[t.fields[i].order] == WireOf(t.fields[i].typ, vs[i])
    {
      FieldItemAt(t, vs, k, i);
    }
    forall j | 0 <= j < |FieldItems(t, vs, k)| && (forall i | 0 <= i < k :: t.fields[i].order != j)
      ensures FieldItems(t, vs, k)[j] == WZero
    {
      HoleAt(t, vs, k, j);
    }
  }

  /** How many of the first k fields have the order of the field before. */
  function Repeats(fs: seq<Field>, k: nat): nat
    requires k <= |fs|
  {
    if k == 0 then 0 else Repeats(fs, k - 1) + if fs[k - 1].order == OrderBefore(fs, k - 1) then 1 else 0
  }

  /**
   What a struct writes beyond the number it announces, one above its last order: one item for every field
   that repeats an order. Nothing more is written if and only if the orders strictly increase.
   */
  lemma {:induction false} RepeatsWritten(t: Type, vs: seq<Value>, k: nat)
    requires t.TStruct? && |t.fields| == |vs| && k <= |vs| && NonDecreasing(Orders(t.fields))
    ensures |FieldItems(t, vs, k)| == OrderBefore(t.fields, k) + 1 + Repeats(t.fields, k)
    ensures Repeats(t.fields, k) == 0 <==> StrictlyIncreasing(Orders(t.fields)[..k])
  {
    if k > 0 {
      RepeatsWritten(t, vs, k - 1);
      OrdersStep(t.fields, k);
    }
  }

  lemma {:induction false} OrdersStep(fs: seq<Field>, k: nat)
    requires 0 < k <= |fs| && NonDecreasing(Orders(fs))
    ensures OrderBefore(fs, k - 1) <= fs[k - 1].order
    ensures StrictlyIncreasing(Orders(fs)[..k]) <==>
            StrictlyIncreasing(Orders(fs)[..k - 1]) && OrderBefore(fs, k - 1) < fs[k - 1].order
  {
    var os, init := Orders(fs)[..k], Orders(fs)[..k - 1];
    assert init == os[..k - 1];
    if k > 1 {
      assert Orders(fs)[k - 2] <= Orders(fs)[k - 1];
      assert os[k - 2] == fs[k - 2].order && os[k - 1] == fs[k - 1].order;
      forall i | 0 <= i < k - 2
        ensures os[i] <= os[k - 2]
      {
        assert Orders(fs)[i] <= Orders(fs)[k - 2];
      }
    }
  }

  // ----- when writing succeeds -----

  /** The lengths a Go program can hold: all below 2^63, keys and values of a map counted together. */
  predicate Sized(t: Type, v: Value)
    decreases t
  {
    match (t, v)
    case (TString, VString(s)) => |s| < TWO_TO_THE_63
    case (TBigInt, VBig(i)) => |UintBytes(Abs(i))| < TWO_TO_THE_63
    case (TArray(e, _), VArray(vs)) => |vs| < TWO_TO_THE_63 && forall i | 0 <= i < |vs| :: Sized(e, vs[i])
    case (TSlice(e), VSlice(vs, _)) => |vs| < TWO_TO_THE_63 && forall i | 0 <= i < |vs| :: Sized(e, vs[i])
    case (TMap(k, e), VMap(es)) =>
      2 * |es| < TWO_TO_THE_63 && forall i | 0 <= i < |es| :: Sized(k, es[i].key) && Sized(e, es[i].value)
    case (TStruct(fs), VStruct(vs)) => |fs| == |vs| && forall i | 0 <= i < |vs| :: Sized(fs[i].typ, vs[i])
    case (TPtr(e), VPtr(x)) => Sized(e, x)
    case _ => true
  }

  /** Nesting depth d and what is below it stay within the limit. */
  predicate Writable(t: Type, v: Value, d: nat)
    decreases t
  {
    d <= MAX_NESTED &&
    match (t, v)
    case (TArray(e, _), VArray(vs)) =>
      e == BYTE || vs == [] || (d < MAX_NESTED && forall i | 0 <= i < |vs| :: Writable(e, vs[i], d + 1))
    case (TSlice(e), VSlice(vs, _)) =>
      e == BYTE || vs == [] || (d < MAX_NESTED && forall i | 0 <= i < |vs| :: Writable(e, vs[i], d + 1))
    case (TMap(k, e), VMap(es)) =>
      es == [] || (d < MAX_NESTED && forall i | 0 <= i < |es| ::
                     Writable(k, es[i].key, d + 1) && Writable(e, es[i].value, d + 1))
    case (TStruct(fs), VStruct(vs)) =>
      fs == [] || |fs| != |vs| ||
      (d < MAX_NESTED && forall i | 0 <= i < Kept(fs, vs) :: Writable(fs[i].typ, vs[i], d + 1))
    case (TPtr(e), VPtr(x)) => Writable(e, x, d)
    case _ => true
  }

  /** A value of a well-formed type that a Go program can hold. */
  ghost predicate Holds(t: Type, v: Value) {
    HasType(t, v) && Sized(t, v) && WellFormed(t)
  }

  /** The entries of a map value that a Go program can hold. */
  ghost predicate HoldsEntries(t: Type, es: seq<Entry>)
    requires t.TMap?
  {
    && Comparable(t.key) && DistinctKeys(es)
    && forall i | 0 <= i < |es| :: Holds(t.key, es[i].key) && Holds(t.val, es[i].value)
  }

  /** The fields of a struct value that a Go program can hold. */
  ghost predicate HoldsFields(t: Type, vs: seq<Value>)
    requires t.TStruct?
  {
    WellFormed(t) && |t.fields| == |vs| && forall i | 0 <= i < |vs| :: Holds(t.fields[i].typ, vs[i])
  }

  /** The items a struct value is written as. */
  function OwnItems(t: Type, vs: seq<Value>): seq<Item>
    requires t.TStruct? && |t.fields| == |vs|
  {
    FieldItems(t, vs, Kept(t.fields, vs))
  }

  lemma {:induction false} StructWire(t: Type, vs: seq<Value>)
    requires t.TStruct? && |t.fields| == |vs| && vs != []
    ensures WireOf(t, VStruct(vs)) == WArr(OwnItems(t, vs))
  {
  }

  /** The parts of a value that a Go program can hold are such values. */
  lemma {:induction false} HoldsParts(t: Type, v: Value)
    ensures Holds(t, v) && (v.VArray? || v.VSlice?) ==>
              (if v.VArray? then t.TArray? else t.TSlice?) && |v.elems| < TWO_TO_THE_63 &&
              forall i | 0 <= i < |v.elems| :: Holds(t.elem, v.elems[i])
    ensures Holds(t, v) && v.VMap? ==> t.TMap? && 2 * |v.entries| < TWO_TO_THE_63 && HoldsEntries(t, v.entries)
    ensures Holds(t, v) && v.VStruct? ==> t.TStruct? && HoldsFields(t, v.fields)
    ensures Holds(t, v) && v.VPtr? ==> t.TPtr? && Holds(t.elem, v.target)
  {
  }

  /** Everything written is a valid item. */
  lemma {:induction false} WireValid(t: Type, v: Value)
    requires Holds(t, v)
    ensures Valid(WireOf(t, v))
    decreases t, 1
  {
    HoldsParts(t, v);
    if v.VInt? {
      NumberFits(Abs(v.i));
    } else if v.VUint? {
      NumberFits(v.u);
    } else if v.VArray? || v.VSlice? {
      if t.elem != BYTE {
        ElemsValid(t.elem, v.elems);
      }
    } else if v.VMap? {
      EntriesValid(t, v.entries);
    } else if v.VStruct? {
      if v.fields != [] {
        KeptExact(t.fields, v.fields);
        FieldsValid(t, v.fields, Kept(t.fields, v.fields));
      }
    } else if v.VPtr? {
      WireValid(t.elem, v.target);
    }
  }

  lemma {:induction false} NumberFits(u: nat)
    requires u < TWO_TO_THE_64
    ensures |UintBytes(u)| <= 8
  {
    PowersOf256();
    UintBytesFit(u, 8);
  }

  lemma {:induction false} ElemsValid(e: Type, vs: seq<Value>)
    requires forall i | 0 <= i < |vs| :: Holds(e, vs[i])
    ensures forall i | 0 <= i < |vs| :: Valid(ElemItems(e, vs)[i])
    decreases e, 2
  {
    forall i | 0 <= i < |vs|
      ensures Valid(ElemItems(e, vs)[i])
    {
      WireValid(e, vs[i]);
    }
  }

  lemma {:induction false} EntriesValid(t: Type, es: seq<Entry>)
    requires t.TMap? && forall i | 0 <= i < |es| :: Holds(t.key, es[i].key) && Holds(t.val, es[i].value)
    ensures forall i | 0 <= i < |EntryItems(t, es)| :: Valid(EntryItems(t, es)[i])
    decreases t, 0, |es|
  {
    if es != [] {
      WireValid(t.key, es[0].key);
      WireValid(t.val, es[0].value);
      EntriesValid(t, es[1..]);
    }
  }

  lemma {:induction false} FieldsValid(t: Type, vs: seq<Value>, k: nat)
    requires t.TStruct? && WellFormed(t) && |t.fields| == |vs| && k <= |vs|
    requires forall i | 0 <= i < |vs| :: Holds(t.fields[i].typ, vs[i])
    ensures |FieldItems(t, vs, k)| < TWO_TO_THE_63 && (k > 0 ==> |FieldItems(t, vs, k)| > 0)
    ensures forall j | 0 <= j < |FieldItems(t, vs, k)| :: Valid(FieldItems(t, vs, k)[j])
    decreases t, 0
  {
    FieldItemsAt(t, vs, k);
    forall j | 0 <= j < |FieldItems(t, vs, k)|
      ensures Valid(FieldItems(t, vs, k)[j])
    {
      if i :| 0 <= i < k && t.fields[i].order == j {
        WireValid(t.fields[i].typ, vs[i]);
      }
    }
  }
}
