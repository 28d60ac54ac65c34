/** Go types and values of the fragment the codec handles, standing in for `reflect.Type` and `reflect.Value`. */
module Values {
  import opened Numeric

  datatype Type =
    | TInt(w: Width)
    | TUint(w: Width)
    | TBool
    | TString
    | TBigInt                             // *big.Int
    | TArray(elem: Type, len: nat)
    | TSlice(elem: Type)
    | TMap(key: Type, val: Type)
    | TStruct(fields: seq<Field>)         // in the order structFields yields them
    | TPtr(elem: Type)

  /** A struct field: its position on the wire, the version that introduced it, and its type. */
  datatype Field = Field(order: nat, version: nat, typ: Type)

  datatype Value =
    | VInt(i: int)
    | VUint(u: nat)
    | VBool(b: bool)
    | VString(s: Bytes)
    | VBig(i: int)
    | VNil                                // nil pointer, slice, map or *big.Int
    | VArray(elems: seq<Value>)
    | VSlice(elems: seq<Value>, spare: seq<Value>)  // spare: the elements between length and capacity
    | VMap(entries: seq<Entry>)           // in the order in which the map yields its keys
    | VStruct(fields: seq<Value>)
    | VPtr(target: Value)

  datatype Entry = Entry(key: Value, value: Value)

  const BYTE := TUint(W8)

  predicate DistinctKeys(es: seq<Entry>) {
    forall i, j | 0 <= i < j < |es| :: es[i].key != es[j].key
  }

  ghost predicate HasType(t: Type, v: Value)
    decreases t
  {
    match t
    case TInt(w) => v.VInt? && InIntRange(w, v.i)
    case TUint(w) => v.VUint? && v.u < Modulus(w)
    case TBool => v.VBool?
    case TString => v.VString?
    case TBigInt => v.VNil? || v.VBig?
    case TArray(e, n) => v.VArray? && |v.elems| == n && forall i | 0 <= i < n :: HasType(e, v.elems[i])
    case TSlice(e) =>
      v.VNil? || (v.VSlice? && (forall i | 0 <= i < |v.elems| :: HasType(e, v.elems[i]))
                            && (forall i | 0 <= i < |v.spare| :: HasType(e, v.spare[i])))
    case TMap(k, e) =>
      v.VNil? || (v.VMap? && DistinctKeys(v.entries) && forall i | 0 <= i < |v.entries| ::
                    HasType(k, v.entries[i].key) && HasType(e, v.entries[i].value))
    case TStruct(fs) => v.VStruct? && |v.fields| == |fs| && forall i | 0 <= i < |fs| :: HasType(fs[i].typ, v.fields[i])
    case TPtr(e) => v.VNil? || (v.VPtr? && HasType(e, v.target))
  }

  ghost predicate AllHaveType(t: Type, vs: seq<Value>) {
    forall i | 0 <= i < |vs| :: HasType(t, vs[i])
  }

  ghost predicate EntriesHaveType(t: Type, es: seq<Entry>)
    requires t.TMap?
  {
    forall i | 0 <= i < |es| :: HasType(t.key, es[i].key) && HasType(t.val, es[i].value)
  }

  ghost predicate FieldsHaveType(fs: seq<Field>, vs: seq<Value>) {
    |fs| == |vs| && forall i | 0 <= i < |fs| :: HasType(fs[i].typ, vs[i])
  }

  /** The zero value of a type (`reflect.Zero`). */
  function Zero(t: Type): Value {
    match t
    case TInt(_) => VInt(0)
    case TUint(_) => VUint(0)
    case TBool => VBool(false)
    case TString => VString([])
    case TArray(e, n) => VArray(seq(n, _ => Zero(e)))
    case TStruct(fs) => VStruct(seq(|fs|, i requires 0 <= i < |fs| => Zero(fs[i].typ)))
    case _ => VNil
  }

  lemma {:induction false} ZeroHasType(t: Type)
    ensures HasType(t, Zero(t))
  {
    match t
    case TArray(e, n) => ZeroHasType(e);
    case TStruct(fs) =>
      forall i | 0 <= i < |fs|
        ensures HasType(fs[i].typ, Zero(fs[i].typ))
      {
        ZeroHasType(fs[i].typ);
      }
    case _ =>
  }

  /** The zeroed fields of a struct. */
  function Zeros(fs: seq<Field>): (vs: seq<Value>)
    ensures |vs| == |fs|
  {
    seq(|fs|, i requires 0 <= i < |fs| => Zero(fs[i].typ))
  }

  // ----- struct layout -----

  predicate StrictlyIncreasing(s: seq<nat>) {
    forall i, j | 0 <= i < j < |s| :: s[i] < s[j]
  }

  predicate NonDecreasing(s: seq<nat>) {
    forall i, j | 0 <= i < j < |s| :: s[i] <= s[j]
  }

  function Orders(fs: seq<Field>): seq<nat> {
    seq(|fs|, i requires 0 <= i < |fs| => fs[i].order)
  }

  function Versions(fs: seq<Field>): seq<nat> {
    seq(|fs|, i requires 0 <= i < |fs| => fs[i].version)
  }

  /** Every struct has strictly increasing orders that fit a Go int and versions that never decrease. */
  ghost predicate WellFormed(t: Type) {
    match t
    case TArray(e, n) => n < TWO_TO_THE_63 && WellFormed(e)
    case TSlice(e) => WellFormed(e)
    case TMap(k, e) => Comparable(k) && WellFormed(k) && WellFormed(e)
    case TStruct(fs) =>
      && StrictlyIncreasing(Orders(fs)) && NonDecreasing(Versions(fs))
      && forall i | 0 <= i < |fs| :: fs[i].order + 1 < TWO_TO_THE_63 && WellFormed(fs[i].typ)
    case TPtr(e) => WellFormed(e)
    case _ => true
  }

  /** Map keys compared by content: numbers, bools, strings, and arrays and structs of them. */
  predicate Comparable(t: Type) {
    match t
    case TArray(e, _) => Comparable(e)
    case TStruct(fs) => forall i | 0 <= i < |fs| :: Comparable(fs[i].typ)
    case TBigInt => false
    case TSlice(_) => false
    case TMap(_, _) => false
    case TPtr(_) => false
    case _ => true
  }

  // ----- operations of package reflect -----

  /** The elements of a slice after `checkSlice0`: reused up to its capacity, newly made beyond it. */
  function Resize(e: Type, prev: Value, n: nat): (vs: seq<Value>)
    ensures |vs| == n
  {
    var whole := if prev.VSlice? then prev.elems + prev.spare else [];
    if n > |whole| then seq(n, _ => Zero(e)) else whole[..n]
  }

  /** A slice value holding these elements; a nil slice resized to no elements is still nil. */
  function Refilled(prev: Value, vs: seq<Value>): Value {
    if vs == [] && !prev.VSlice? then VNil else VSlice(vs, [])
  }

  lemma {:induction false} ResizeHasType(e: Type, prev: Value, n: nat)
    requires HasType(TSlice(e), prev)
    ensures AllHaveType(e, Resize(e, prev, n))
  {
    ZeroHasType(e);
  }

  /** `SetMapIndex`: a key already present gets the new value. */
  function Insert(es: seq<Entry>, key: Value, value: Value): (r: seq<Entry>)
    ensures DistinctKeys(es) ==> DistinctKeys(r)
    ensures forall i | 0 <= i < |r| :: r[i].key == key || exists j | 0 <= j < |es| :: r[i].key == es[j].key
  {
    if es == [] then [Entry(key, value)]
    else if es[0].key == key then [Entry(es[0].key, value)] + es[1..]
    else [es[0]] + Insert(es[1..], key, value)
  }

  lemma {:induction false} InsertHasType(t: Type, es: seq<Entry>, key: Value, value: Value)
    requires t.TMap? && EntriesHaveType(t, es) && HasType(t.key, key) && HasType(t.val, value)
    ensures EntriesHaveType(t, Insert(es, key, value))
  {
    if es != [] && es[0].key != key {
      InsertHasType(t, es[1..], key, value);
    }
  }

  /** Inserting a key that is not there appends the entry. */
  lemma {:induction false} InsertNew(es: seq<Entry>, key: Value, value: Value)
    requires forall i | 0 <= i < |es| :: es[i].key != key
    ensures Insert(es, key, value) == es + [Entry(key, value)]
  {
    if es != [] {
      InsertNew(es[1..], key, value);
      assert es == [es[0]] + es[1..];
    }
  }

  /** Entries put in one after the other. */
  function InsertAll(acc: seq<Entry>, es: seq<Entry>): seq<Entry>
    decreases |es|
  {
    if es == [] then acc else InsertAll(Insert(acc, es[0].key, es[0].value), es[1..])
  }

  lemma {:induction false} InsertAllNew(acc: seq<Entry>, es: seq<Entry>)
    requires DistinctKeys(acc + es)
    ensures InsertAll(acc, es) == acc + es
    decreases |es|
  {
    if es == [] {
      assert acc + es == acc;
    } else {
      var e := es[0];
      assert (acc + es)[|acc|] == e && forall i | 0 <= i < |acc| :: (acc + es)[i] == acc[i];
      InsertNew(acc, e.key, e.value);
      assert acc + [e] + es[1..] == acc + es;
      InsertAllNew(acc + [e], es[1..]);
    }
  }

  lemma {:induction false} InsertAllFresh(es: seq<Entry>)
    requires DistinctKeys(es)
    ensures InsertAll([], es) == es
  {
    assert [] + es == es;
    InsertAllNew([], es);
  }

  /** The contents of a map, whatever the order of its entries. */
  function AsMap(es: seq<Entry>): map<Value, Value> {
    if es == [] then map[] else map[es[0].key := es[0].value] + AsMap(es[1..])
  }

  // ----- bytes as elements -----

  /** The elements of a byte array or slice holding these bytes. */
  function ByteValues(bs: Bytes): (vs: seq<Value>)
    ensures |vs| == |bs|
  {
    seq(|bs|, i requires 0 <= i < |bs| => VUint(bs[i]))
  }

  lemma {:induction false} BytesHaveType(bs: Bytes)
    ensures AllHaveType(BYTE, ByteValues(bs))
  {
    assert Modulus(W8) == 0x100;
  }

  /** The bytes of a byte array or slice with these elements. */
  function BytesOf(vs: seq<Value>): (bs: Bytes)
    ensures |bs| == |vs|
  {
    seq(|vs|, i requires 0 <= i < |vs| => if vs[i].VUint? then vs[i].u % 0x100 else 0)
  }

  lemma {:induction false} BytesOfElements(vs: seq<Value>)
    requires AllHaveType(BYTE, vs)
    ensures ByteValues(BytesOf(vs)) == vs
  {
    assert forall i | 0 <= i < |vs| :: HasType(BYTE, vs[i]) ==> vs[i].VUint? && vs[i].u < Modulus(W8);
  }

  /** The elements of an array destination. */
  function Elements(e: Type, n: nat, prev: Value): (vs: seq<Value>)
    ensures |vs| == n
  {
    if prev.VArray? && |prev.elems| == n then prev.elems else seq(n, _ => Zero(e))
  }

  /** The fields of a struct destination. */
  function FieldValues(fs: seq<Field>, prev: Value): (vs: seq<Value>)
    ensures |vs| == |fs|
  {
    if prev.VStruct? && |prev.fields| == |fs| then prev.fields else Zeros(fs)
  }
}
