/** Struct layout: ordering the fields by their tags, and the fields a value's version keeps. */
module Layout {
  import opened Wrappers
  import opened Values

  // ----- structFields -----

  /** A declared field: exported, tagged `rtl:"-"`, and its numeric rtlorder and rtlversion tags. */
  datatype RawField = RawField(exported: bool, ignored: bool, order: Option<int>, version: Option<int>)

  /** A field of the layout; -1 stands for a missing tag until it is filled in. */
  datatype FieldName = FieldName(index: nat, order: int, version: int)

  /** The sort key: order first, then the position of the declaration. */
  predicate Before(a: FieldName, b: FieldName) {
    a.order < b.order || (a.order == b.order && a.index < b.index)
  }

  predicate SortedFields(fs: seq<FieldName>) {
    forall i, j | 0 <= i < j < |fs| :: Before(fs[i], fs[j])
  }

  /** Inserts into a sorted sequence; repeated, it is the stable sort of the standard library. */
  function InsertField(f: FieldName, fs: seq<FieldName>): seq<FieldName> {
    if fs == [] || Before(f, fs[0]) then [f] + fs else [fs[0]] + InsertField(f, fs[1..])
  }

  function SortFields(fs: seq<FieldName>): seq<FieldName> {
    if fs == [] then [] else InsertField(fs[|fs| - 1], SortFields(fs[..|fs| - 1]))
  }

  predicate DistinctIndices(fs: seq<FieldName>) {
    forall i, j | 0 <= i < j < |fs| :: fs[i].index != fs[j].index
  }

  lemma {:induction false} InsertKeepsMembers(f: FieldName, fs: seq<FieldName>)
    ensures multiset(InsertField(f, fs)) == multiset{f} + multiset(fs)
  {
    if fs == [] || Before(f, fs[0]) {
      assert multiset([f] + fs) == multiset{f} + multiset(fs);
    } else {
      InsertKeepsMembers(f, fs[1..]);
      assert fs == [fs[0]] + fs[1..];
    }
  }

  lemma {:induction false} InsertMember(f: FieldName, fs: seq<FieldName>, j: nat)
    requires j < |InsertField(f, fs)|
    ensures InsertField(f, fs)[j] == f || InsertField(f, fs)[j] in fs
  {
    var r := InsertField(f, fs);
    InsertKeepsMembers(f, fs);
    assert r[j] in multiset(r);
  }

  lemma {:induction false} InsertKeepsSorted(f: FieldName, fs: seq<FieldName>)
    requires SortedFields(fs) && forall i | 0 <= i < |fs| :: fs[i].index != f.index
    ensures SortedFields(InsertField(f, fs))
  {
    if fs != [] && !Before(f, fs[0]) {
      var rest := InsertField(f, fs[1..]);
      InsertKeepsSorted(f, fs[1..]);
      forall j | 0 <= j < |rest|
        ensures Before(fs[0], rest[j])
      {
        InsertMember(f, fs[1..], j);
      }
      FirstKeepsSorted(fs[0], rest);
    } else if fs != [] {
      forall j | 0 <= j < |fs|
        ensures Before(f, fs[j])
      {
        assert j > 0 ==> Before(fs[0], fs[j]);
      }
      FirstKeepsSorted(f, fs);
    }
  }

  lemma {:induction false} FirstKeepsSorted(f: FieldName, fs: seq<FieldName>)
    requires SortedFields(fs) && forall j | 0 <= j < |fs| :: Before(f, fs[j])
    ensures SortedFields([f] + fs)
  {
    var r := [f] + fs;
    forall i, j | 0 <= i < j < |r|
      ensures Before(r[i], r[j])
    {
      assert r[j] == fs[j - 1] && (i > 0 ==> r[i] == fs[i - 1]);
    }
  }

  /** SortFields sorts, and keeps exactly the given fields. */
  lemma {:induction false} SortSorts(fs: seq<FieldName>)
    requires DistinctIndices(fs)
    ensures SortedFields(SortFields(fs))
    ensures multiset(SortFields(fs)) == multiset(fs)
  {
    if fs != [] {
      var init := fs[..|fs| - 1];
      SortSorts(init);
      assert fs == init + [fs[|fs| - 1]];
      forall i | 0 <= i < |SortFields(init)|
        ensures SortFields(init)[i].index != fs[|fs| - 1].index
      {
        assert SortFields(init)[i] in multiset(init);
        assert SortFields(init)[i] in init;
      }
      InsertKeepsSorted(fs[|fs| - 1], SortFields(init));
      InsertKeepsMembers(fs[|fs| - 1], SortFields(init));
    }
  }

  /** The fields taken part in before sorting, or None for a negative tag. */
  function Collected(raw: seq<RawField>): (r: Option<seq<FieldName>>)
    ensures r.Some? ==> DistinctIndices(r.value) && forall i | 0 <= i < |r.value| :: r.value[i].index < |raw|
  {
    if raw == [] then Some([]) else
    var init := Collected(raw[..|raw| - 1]);
    var f := raw[|raw| - 1];
    if init.None? then None
    else if !f.exported || f.ignored then init
    else if (f.order.Some? && f.order.value < 0) || (f.version.Some? && f.version.value < 0) then None
    else Some(init.value + [FieldName(|raw| - 1, TagOr(f.order), TagOr(f.version))])
  }

  function TagOr(tag: Option<int>): int {
    if tag.Some? then tag.value else -1
  }

  /** The order a sorted field ends up with: its tag, or its position when it has none. */
  function FilledOrder(fs: seq<FieldName>, i: nat): int
    requires i < |fs|
  {
    if fs[i].order < 0 then i else fs[i].order
  }

  /** The version a sorted field ends up with: its tag, or that of the field before it. */
  function FilledVersion(fs: seq<FieldName>, i: nat): (v: int)
    requires i < |fs|
    ensures v >= 0
  {
    if fs[i].version >= 0 then fs[i].version else if i == 0 then 0 else FilledVersion(fs, i - 1)
  }

  predicate OrderFits(fs: seq<FieldName>, i: nat)
    requires i < |fs|
  {
    fs[i].order >= 0 ==> fs[i].order >= i
  }

  predicate VersionFits(fs: seq<FieldName>, i: nat)
    requires i < |fs|
  {
    i > 0 && fs[i].version >= 0 ==> fs[i].version >= FilledVersion(fs, i - 1)
  }

  predicate Fits(fs: seq<FieldName>) {
    forall i | 0 <= i < |fs| :: OrderFits(fs, i) && VersionFits(fs, i)
  }

  function Filled(fs: seq<FieldName>): (r: seq<FieldName>)
    ensures |r| == |fs|
  {
    seq(|fs|, i requires 0 <= i < |fs| => FieldName(fs[i].index, FilledOrder(fs, i), FilledVersion(fs, i)))
  }

  /** Lays out a struct; None is one of the panics. The number is one above the last order. */
  method StructFields(raw: seq<RawField>) returns (r: Option<(int, seq<FieldName>)>)
    ensures r.Some? <==> Collected(raw).Some? && Fits(SortedRaw(raw))
    ensures r.Some? ==>
              var fs := LaidOutFields(raw);
              r.value == (if fs == [] then 0 else fs[|fs| - 1].order + 1, fs)
  {
    var fields: seq<FieldName> := [];
    for i := 0 to |raw|
      invariant Collected(raw[..i]) == Some(fields)
    {
      assert raw[..i + 1][..i] == raw[..i];
      var f := raw[i];
      if f.exported {
        if !f.ignored {
          var order := -1;
          if f.order.Some? {
            if f.order.value < 0 {
              CollectedPrefix(raw, i + 1);
              return None;
            }
            order := f.order.value;
          }
          var version := -1;
          if f.version.Some? {
            if f.version.value < 0 {
              CollectedPrefix(raw, i + 1);
              return None;
            }
            version := f.version.value;
          }
          fields := fields + [FieldName(i, order, version)];
        }
      }
    }
    assert raw[..|raw|] == raw;
    var filled := FillTags(SortFields(fields));
    if filled.None? {
      return None;
    }
    fields := filled.value;
    return Some((if |fields| > 0 then fields[|fields| - 1].order + 1 else 0, fields));
  }

  /** The loop over the sorted fields: gives each its order and version; None is one of the panics. */
  method FillTags(sorted: seq<FieldName>) returns (r: Option<seq<FieldName>>)
    ensures r == if Fits(sorted) then Some(Filled(sorted)) else None
  {
    var fields := sorted;
    for i := 0 to |sorted|
      invariant |fields| == |sorted| && fields[i..] == sorted[i..]
      invariant fields[..i] == Filled(sorted)[..i]
      invariant forall j | 0 <= j < i :: OrderFits(sorted, j) && VersionFits(sorted, j)
    {
      assert fields[i] == sorted[i];
      assert i > 0 ==> fields[i - 1] == Filled(sorted)[i - 1];
      var f := fields[i];
      if f.order < 0 {
        f := f.(order := i);
      } else if f.order < i {
        assert !OrderFits(sorted, i);
        return None;
      }
      if f.version < 0 {
        f := f.(version := if i == 0 then 0 else fields[i - 1].version);
      } else if i > 0 && f.version < fields[i - 1].version {
        assert !VersionFits(sorted, i);
        return None;
      }
      fields := fields[i := f];
    }
    assert fields == Filled(sorted);
    return Some(fields);
  }

  lemma {:induction false} CollectedPrefix(raw: seq<RawField>, n: nat)
    requires n <= |raw| && Collected(raw[..n]).None?
    ensures Collected(raw).None?
    decreases |raw|
  {
    if n < |raw| {
      assert raw[..|raw| - 1][..n] == raw[..n];
      CollectedPrefix(raw[..|raw| - 1], n);
    } else {
      assert raw[..n] == raw;
    }
  }

  predicate DistinctTags(fs: seq<FieldName>) {
    forall i, j | 0 <= i < j < |fs| && fs[i].order >= 0 && fs[j].order >= 0 :: fs[i].order != fs[j].order
  }

  function Untagged(fs: seq<FieldName>): (n: nat)
    ensures n <= |fs|
  {
    if fs == [] then 0 else (if fs[0].order < 0 then 1 else 0) + Untagged(fs[1..])
  }

  /** In a sorted sequence the untagged fields come first. */
  lemma {:induction false} UntaggedFirst(fs: seq<FieldName>)
    requires SortedFields(fs)
    ensures forall i | 0 <= i < |fs| :: fs[i].order < 0 <==> i < Untagged(fs)
  {
    if fs != [] {
      var rest := fs[1..];
      UntaggedFirst(rest);
      forall i | 0 <= i < |fs|
        ensures fs[i].order < 0 <==> i < Untagged(fs)
      {
        assert i > 0 ==> Before(fs[0], fs[i]) && fs[i] == rest[i - 1];
        assert rest != [] ==> Before(fs[0], fs[1]) && fs[1] == rest[0];
      }
    }
  }

  /**
   With pairwise distinct tags, the order check passes exactly when the least tag is at least the number
   of untagged fields.
   */
  lemma {:induction false} OrdersPass(fs: seq<FieldName>)
    requires SortedFields(fs) && DistinctTags(fs)
    ensures (forall i | 0 <= i < |fs| :: OrderFits(fs, i)) <==>
            forall i | 0 <= i < |fs| && fs[i].order >= 0 :: fs[i].order >= Untagged(fs)
  {
    var u := Untagged(fs);
    UntaggedFirst(fs);
    if forall i | 0 <= i < |fs| :: OrderFits(fs, i) {
      forall i | 0 <= i < |fs| && fs[i].order >= 0
        ensures fs[i].order >= u
      {
        assert OrderFits(fs, i);
      }
    }
    if forall i | 0 <= i < |fs| && fs[i].order >= 0 :: fs[i].order >= u {
      forall i | 0 <= i < |fs|
        ensures OrderFits(fs, i)
      {
        if fs[i].order >= 0 {
          TagsSpread(fs, u, i);
        }
      }
    }
  }

  lemma {:induction false} TagsSpread(fs: seq<FieldName>, u: nat, i: nat)
    requires SortedFields(fs) && DistinctTags(fs) && u <= i < |fs|
    requires fs[u].order >= u
    ensures fs[i].order >= i
  {
    if u < i {
      TagsSpread(fs, u, i - 1);
      assert Before(fs[i - 1], fs[i]);
    }
  }

  /**
   What a successful layout promises: versions never decrease, a field's order is at least its position,
   and orders are strictly increasing exactly when no two tags are equal.
   */
  lemma {:induction false} LayoutOrders(fs: seq<FieldName>)
    requires SortedFields(fs) && Fits(fs)
    ensures forall i | 0 <= i < |fs| :: FilledOrder(fs, i) >= i
    ensures forall i, j | 0 <= i < j < |fs| :: FilledVersion(fs, i) <= FilledVersion(fs, j)
    ensures (forall i, j | 0 <= i < j < |fs| :: FilledOrder(fs, i) < FilledOrder(fs, j)) <==> DistinctTags(fs)
  {
    UntaggedFirst(fs);
    forall i | 0 <= i < |fs|
      ensures FilledOrder(fs, i) >= i
    {
      assert OrderFits(fs, i);
    }
    forall i, j | 0 <= i < j < |fs|
      ensures FilledVersion(fs, i) <= FilledVersion(fs, j)
    {
      VersionsGrow(fs, i, j);
    }
    forall i, j | 0 <= i < j < |fs|
      ensures FilledOrder(fs, i) < FilledOrder(fs, j) <==>
              !(fs[i].order >= 0 && fs[j].order >= 0 && fs[i].order == fs[j].order)
    {
      assert Before(fs[i], fs[j]) && OrderFits(fs, j);
    }
  }

  lemma {:induction false} VersionsGrow(fs: seq<FieldName>, i: nat, j: nat)
    requires i <= j < |fs| && forall k | 0 <= k < |fs| :: VersionFits(fs, k)
    ensures FilledVersion(fs, i) <= FilledVersion(fs, j)
  {
    if i < j {
      VersionsGrow(fs, i, j - 1);
      assert VersionFits(fs, j);
    }
  }

  // ----- from the declarations to the layout -----

  predicate TakesPart(f: RawField) {
    f.exported && !f.ignored
  }

  /** No two fields that take part have the same order tag. */
  predicate DistinctRawTags(raw: seq<RawField>) {
    forall i, j | 0 <= i < j < |raw| :: !SameTag(raw[i], raw[j])
  }

  predicate SameTag(f: RawField, g: RawField) {
    TakesPart(f) && TakesPart(g) && f.order.Some? && f.order == g.order
  }

  /** How many fields take part without an order tag. */
  function UntaggedRaw(raw: seq<RawField>): nat {
    if raw == [] then 0 else
    var f := raw[|raw| - 1];
    UntaggedRaw(raw[..|raw| - 1]) + if TakesPart(f) && f.order.None? then 1 else 0
  }

  function NameOf(raw: seq<RawField>, i: nat): FieldName
    requires i < |raw|
  {
    FieldName(i, TagOr(raw[i].order), TagOr(raw[i].version))
  }

  /** The entry of a declared field that takes part. */
  predicate IsName(raw: seq<RawField>, f: FieldName) {
    f.index < |raw| && TakesPart(raw[f.index]) && f == NameOf(raw, f.index)
  }

  ghost predicate Collects(raw: seq<RawField>, fs: seq<FieldName>) {
    forall f :: f in fs <==> IsName(raw, f)
  }

  /** No order tag of a field that takes part is negative. */
  predicate TagsValid(raw: seq<RawField>) {
    forall i | 0 <= i < |raw| && TakesPart(raw[i]) && raw[i].order.Some? :: raw[i].order.value >= 0
  }

  lemma {:induction false} CollectedIs(raw: seq<RawField>)
    requires Collected(raw).Some?
    ensures Collects(raw, Collected(raw).value) && TagsValid(raw)
    ensures Untagged(Collected(raw).value) == UntaggedRaw(raw)
    decreases |raw|
  {
    if raw != [] {
      var init := raw[..|raw| - 1];
      CollectedIs(init);
      CollectsLast(raw, Collected(init).value);
      UntaggedAppend(Collected(init).value, NameOf(raw, |raw| - 1));
    }
  }

  /** The last declaration adds its entry if it takes part, and nothing otherwise. */
  lemma {:induction false} CollectsLast(raw: seq<RawField>, fs: seq<FieldName>)
    requires raw != [] && Collects(raw[..|raw| - 1], fs)
    ensures var n := |raw| - 1;
            if TakesPart(raw[n]) then Collects(raw, fs + [NameOf(raw, n)]) else Collects(raw, fs)
  {
    var n := |raw| - 1;
    forall f: FieldName
      ensures IsName(raw, f) <==> IsName(raw[..n], f) || (TakesPart(raw[n]) && f == NameOf(raw, n))
    {
    }
  }

  lemma {:induction false} UntaggedAppend(fs: seq<FieldName>, f: FieldName)
    ensures Untagged(fs + [f]) == Untagged(fs) + if f.order < 0 then 1 else 0
    decreases |fs|
  {
    if fs == [] {
      assert fs + [f] == [f];
    } else {
      UntaggedAppend(fs[1..], f);
      assert (fs + [f])[1..] == fs[1..] + [f];
    }
  }

  lemma {:induction false} InsertCounts(f: FieldName, fs: seq<FieldName>)
    ensures Untagged(InsertField(f, fs)) == Untagged(fs) + if f.order < 0 then 1 else 0
  {
    if fs == [] || Before(f, fs[0]) {
      assert ([f] + fs)[1..] == fs;
    } else {
      InsertCounts(f, fs[1..]);
      assert ([fs[0]] + InsertField(f, fs[1..]))[1..] == InsertField(f, fs[1..]);
    }
  }

  lemma {:induction false} SortCounts(fs: seq<FieldName>)
    ensures Untagged(SortFields(fs)) == Untagged(fs)
  {
    if fs != [] {
      var init, last := fs[..|fs| - 1], fs[|fs| - 1];
      SortCounts(init);
      InsertCounts(last, SortFields(init));
      UntaggedAppend(init, last);
      assert init + [last] == fs;
    }
  }

  /** The declared fields in the order of the layout. */
  function SortedRaw(raw: seq<RawField>): seq<FieldName>
    requires Collected(raw).Some?
  {
    SortFields(Collected(raw).value)
  }

  lemma {:induction false} SortedRawIs(raw: seq<RawField>)
    requires Collected(raw).Some?
    ensures SortedFields(SortedRaw(raw)) && Collects(raw, SortedRaw(raw)) && TagsValid(raw)
    ensures Untagged(SortedRaw(raw)) == UntaggedRaw(raw)
  {
    var fs, sorted := Collected(raw).value, SortedRaw(raw);
    CollectedIs(raw);
    SortSorts(fs);
    SortCounts(fs);
    forall f
      ensures f in sorted <==> f in fs
    {
      assert f in multiset(sorted) <==> f in multiset(fs);
    }
  }

  /** Where a declared field that takes part is in the layout. */
  lemma {:induction false} PlaceOf(raw: seq<RawField>, fs: seq<FieldName>, i: nat) returns (k: nat)
    requires Collects(raw, fs) && i < |raw| && TakesPart(raw[i])
    ensures k < |fs| && fs[k] == NameOf(raw, i)
  {
    assert IsName(raw, NameOf(raw, i));
    k :| 0 <= k < |fs| && fs[k] == NameOf(raw, i);
  }

  lemma {:induction false} NameAt(raw: seq<RawField>, fs: seq<FieldName>, k: nat)
    requires Collects(raw, fs) && k < |fs|
    ensures IsName(raw, fs[k])
  {
    assert fs[k] in fs;
  }

  /** The tags of the layout are distinct exactly when the declared ones are. */
  lemma {:induction false} TagsAreRaw(raw: seq<RawField>, fs: seq<FieldName>)
    requires SortedFields(fs) && Collects(raw, fs) && TagsValid(raw)
    ensures DistinctTags(fs) <==> DistinctRawTags(raw)
  {
    if DistinctTags(fs) {
      forall i, j | 0 <= i < j < |raw|
        ensures !SameTag(raw[i], raw[j])
      {
        if TakesPart(raw[i]) && TakesPart(raw[j]) {
          var k := PlaceOf(raw, fs, i);
          var m := PlaceOf(raw, fs, j);
          assert k < m || m < k;
        }
      }
    } else {
      var k, m :| 0 <= k < m < |fs| && fs[k].order >= 0 && fs[m].order >= 0 && fs[k].order == fs[m].order;
      NameAt(raw, fs, k);
      NameAt(raw, fs, m);
      assert Before(fs[k], fs[m]);
      assert SameTag(raw[fs[k].index], raw[fs[m].index]);
    }
  }

  /**
   With pairwise distinct tags, the orders of the declared fields are accepted exactly when the least tag is
   at least the number of fields without one.
   */
  lemma {:induction false} OrdersAccepted(raw: seq<RawField>)
    requires Collected(raw).Some? && DistinctRawTags(raw)
    ensures (forall i | 0 <= i < |SortedRaw(raw)| :: OrderFits(SortedRaw(raw), i)) <==>
            forall i | 0 <= i < |raw| && TakesPart(raw[i]) && raw[i].order.Some? ::
              raw[i].order.value >= UntaggedRaw(raw)
  {
    var fs := SortedRaw(raw);
    SortedRawIs(raw);
    TagsAreRaw(raw, fs);
    OrdersPass(fs);
    TagsAtLeast(raw, fs, UntaggedRaw(raw));
  }

  lemma {:induction false} TagsAtLeast(raw: seq<RawField>, fs: seq<FieldName>, u: nat)
    requires Collects(raw, fs) && TagsValid(raw)
    ensures (forall k | 0 <= k < |fs| && fs[k].order >= 0 :: fs[k].order >= u) <==>
            forall i | 0 <= i < |raw| && TakesPart(raw[i]) && raw[i].order.Some? :: raw[i].order.value >= u
  {
    if forall k | 0 <= k < |fs| && fs[k].order >= 0 :: fs[k].order >= u {
      forall i | 0 <= i < |raw| && TakesPart(raw[i]) && raw[i].order.Some?
        ensures raw[i].order.value >= u
      {
        var k := PlaceOf(raw, fs, i);
      }
    }
    if forall i | 0 <= i < |raw| && TakesPart(raw[i]) && raw[i].order.Some? :: raw[i].order.value >= u {
      forall k | 0 <= k < |fs| && fs[k].order >= 0
        ensures fs[k].order >= u
      {
        NameAt(raw, fs, k);
      }
    }
  }

  /** The fields of the struct type that a layout describes; ts are the types of the declared fields. */
  function FieldsOf(fs: seq<FieldName>, ts: seq<Type>): (r: seq<Field>)
    requires forall i | 0 <= i < |fs| :: fs[i].index < |ts| && fs[i].order >= 0 && fs[i].version >= 0
    ensures |r| == |fs|
  {
    seq(|fs|, i requires 0 <= i < |fs| => Field(fs[i].order, fs[i].version, ts[fs[i].index]))
  }

  /** What structFields returns when it does not panic. */
  function LaidOutFields(raw: seq<RawField>): seq<FieldName>
    requires Collected(raw).Some?
  {
    Filled(SortedRaw(raw))
  }

  /**
   A layout that is accepted holds each declared field that takes part, once; versions never decrease; and the
   orders of the struct type strictly increase if and only if no two order tags are equal.
   */
  lemma {:induction false} LaidOut(raw: seq<RawField>, ts: seq<Type>)
    requires Collected(raw).Some? && Fits(SortedRaw(raw)) && |ts| == |raw|
    ensures var fs := LaidOutFields(raw);
            && Each(raw, fs) && (forall k | 0 <= k < |fs| :: fs[k].order >= k && fs[k].version >= 0)
            && NonDecreasing(Versions(FieldsOf(fs, ts)))
            && (StrictlyIncreasing(Orders(FieldsOf(fs, ts))) <==> DistinctRawTags(raw))
  {
    var sorted := SortedRaw(raw);
    SortedRawIs(raw);
    TagsAreRaw(raw, sorted);
    HoldsEach(raw, sorted);
    SortedLaidOut(raw, sorted, ts);
  }

  lemma {:induction false} SortedLaidOut(raw: seq<RawField>, sorted: seq<FieldName>, ts: seq<Type>)
    requires SortedFields(sorted) && Fits(sorted) && Each(raw, sorted) && |ts| == |raw|
    requires DistinctTags(sorted) <==> DistinctRawTags(raw)
    ensures var fs := Filled(sorted);
            && Each(raw, fs) && (forall k | 0 <= k < |fs| :: fs[k].order >= k && fs[k].version >= 0)
            && NonDecreasing(Versions(FieldsOf(fs, ts)))
            && (StrictlyIncreasing(Orders(FieldsOf(fs, ts))) <==> DistinctRawTags(raw))
  {
    LayoutOrders(sorted);
    SameIndices(raw, sorted);
    OrdersAre(sorted, ts);
    VersionsAre(sorted, ts);
  }

  lemma {:induction false} SameIndices(raw: seq<RawField>, sorted: seq<FieldName>)
    requires Each(raw, sorted)
    ensures Each(raw, Filled(sorted))
  {
    var fs := Filled(sorted);
    forall i | 0 <= i < |raw|
      ensures TakesPart(raw[i]) <==> exists k :: 0 <= k < |fs| && fs[k].index == i
    {
      if TakesPart(raw[i]) {
        var k :| 0 <= k < |sorted| && sorted[k].index == i;
        assert fs[k].index == i;
      }
      if k :| 0 <= k < |fs| && fs[k].index == i {
        assert sorted[k].index == i;
      }
    }
  }

  /** Each declared field that takes part is there once. */
  ghost predicate Each(raw: seq<RawField>, fs: seq<FieldName>) {
    && (forall i | 0 <= i < |raw| :: TakesPart(raw[i]) <==> exists k :: 0 <= k < |fs| && fs[k].index == i)
    && (forall k | 0 <= k < |fs| :: fs[k].index < |raw|)
    && (forall k, m | 0 <= k < m < |fs| :: fs[k].index != fs[m].index)
  }

  lemma {:induction false} HoldsEach(raw: seq<RawField>, fs: seq<FieldName>)
    requires SortedFields(fs) && Collects(raw, fs)
    ensures Each(raw, fs)
  {
    forall k | 0 <= k < |fs|
      ensures IsName(raw, fs[k])
    {
      NameAt(raw, fs, k);
    }
    forall k, m | 0 <= k < m < |fs|
      ensures fs[k].index != fs[m].index
    {
      assert Before(fs[k], fs[m]);
    }
    forall i | 0 <= i < |raw| && TakesPart(raw[i])
      ensures exists k :: 0 <= k < |fs| && fs[k].index == i
    {
      var k := PlaceOf(raw, fs, i);
    }
  }

  lemma {:induction false} OrdersAre(fs: seq<FieldName>, ts: seq<Type>)
    requires forall i | 0 <= i < |fs| :: fs[i].index < |ts| && FilledOrder(fs, i) >= 0
    ensures StrictlyIncreasing(Orders(FieldsOf(Filled(fs), ts))) <==>
            forall i, j | 0 <= i < j < |fs| :: FilledOrder(fs, i) < FilledOrder(fs, j)
  {
    var os := Orders(FieldsOf(Filled(fs), ts));
    forall i, j | 0 <= i < j < |fs|
      ensures os[i] < os[j] <==> FilledOrder(fs, i) < FilledOrder(fs, j)
    {
    }
  }

  lemma {:induction false} VersionsAre(fs: seq<FieldName>, ts: seq<Type>)
    requires Fits(fs) && forall i | 0 <= i < |fs| :: fs[i].index < |ts| && FilledOrder(fs, i) >= 0
    ensures NonDecreasing(Versions(FieldsOf(Filled(fs), ts)))
  {
    var vs := Versions(FieldsOf(Filled(fs), ts));
    forall i, j | 0 <= i < j < |vs|
      ensures vs[i] <= vs[j]
    {
      VersionsGrow(fs, i, j);
      assert vs[i] == FilledVersion(fs, i) && vs[j] == FilledVersion(fs, j);
    }
  }

  // ----- what becomes of the tags -----

  /** A negative tag of a field that takes part. */
  predicate NegativeTag(f: RawField) {
    TakesPart(f) && ((f.order.Some? && f.order.value < 0) || (f.version.Some? && f.version.value < 0))
  }

  predicate NoNegativeTags(raw: seq<RawField>) {
    forall i | 0 <= i < |raw| :: !NegativeTag(raw[i])
  }

  /** The declarations are refused before sorting exactly when a field that takes part has a negative tag. */
  lemma {:induction false} CollectedExact(raw: seq<RawField>)
    ensures Collected(raw).Some? <==> NoNegativeTags(raw)
    decreases |raw|
  {
    if raw != [] {
      var init, last := raw[..|raw| - 1], raw[|raw| - 1];
      CollectedExact(init);
      assert NoNegativeTags(raw) <==> NoNegativeTags(init) && !NegativeTag(last) by {
        assert forall i | 0 <= i < |init| :: raw[i] == init[i];
      }
    }
  }

  /** A laid out field has its own tags, or its position and the version of the field before it. */
  predicate TagsFilled(raw: seq<RawField>, fs: seq<FieldName>, k: nat)
    requires k < |fs| && fs[k].index < |raw|
  {
    var f := raw[fs[k].index];
    && fs[k].order == (if f.order.Some? then f.order.value else k)
    && fs[k].version == (if f.version.Some? then f.version.value else if k == 0 then 0 else fs[k - 1].version)
  }

  /** Fields without an order tag come first, as declared; then the others by their tags. */
  predicate InTagOrder(raw: seq<RawField>, fs: seq<FieldName>, k: nat, m: nat)
    requires k < m < |fs| && fs[k].index < |raw| && fs[m].index < |raw|
  {
    var f, g := raw[fs[k].index], raw[fs[m].index];
    if f.order.None? then g.order.None? ==> fs[k].index < fs[m].index
    else g.order.Some? && (f.order.value < g.order.value || (f.order == g.order && fs[k].index < fs[m].index))
  }

  /** The layout carries the declared tags: each field's order and version, and where it stands. */
  lemma {:induction false} TagsKept(raw: seq<RawField>)
    requires Collected(raw).Some?
    ensures var fs := LaidOutFields(raw);
            && (forall k | 0 <= k < |fs| :: fs[k].index < |raw| && TagsFilled(raw, fs, k))
            && (forall k, m | 0 <= k < m < |fs| :: InTagOrder(raw, fs, k, m))
  {
    var fs, sorted := LaidOutFields(raw), SortedRaw(raw);
    SortedRawIs(raw);
    CollectedExact(raw);
    forall k | 0 <= k < |fs|
      ensures fs[k].index == sorted[k].index < |raw| && TagsFilled(raw, fs, k)
    {
      NamesHaveTags(raw, sorted, k);
    }
    forall k, m | 0 <= k < m < |fs|
      ensures InTagOrder(raw, fs, k, m)
    {
      NamesHaveTags(raw, sorted, k);
      NamesHaveTags(raw, sorted, m);
      assert Before(sorted[k], sorted[m]);
    }
  }

  /** Order tags are at least the position of their field. */
  predicate OrderTagsFit(raw: seq<RawField>, fs: seq<FieldName>) {
    forall k | 0 <= k < |fs| && fs[k].index < |raw| && raw[fs[k].index].order.Some? :: raw[fs[k].index].order.value >= k
  }

  /** Version tags never decrease from one field of the layout to a later one. */
  predicate VersionTagsFit(raw: seq<RawField>, fs: seq<FieldName>) {
    forall k, m | 0 <= k < m < |fs| && fs[k].index < |raw| && fs[m].index < |raw| ::
      VersionsInOrder(raw[fs[k].index], raw[fs[m].index])
  }

  predicate VersionsInOrder(f: RawField, g: RawField) {
    f.version.Some? && g.version.Some? ==> f.version.value <= g.version.value
  }

  /** The same of two fields of the layout, where -1 stands for a missing tag. */
  predicate InVersionOrder(f: FieldName, g: FieldName) {
    f.version >= 0 && g.version >= 0 ==> f.version <= g.version
  }

  /** A version that is filled in is the tag of an earlier field, or zero. */
  lemma {:induction false} FilledFrom(fs: seq<FieldName>, i: nat) returns (j: nat)
    requires i < |fs|
    ensures j <= i && FilledVersion(fs, i) == if fs[j].version >= 0 then fs[j].version else 0
  {
    j := i;
    if fs[i].version < 0 && i > 0 {
      j := FilledFrom(fs, i - 1);
    }
  }

  /** The version check passes exactly when the version tags never decrease along the layout. */
  lemma {:induction false} VersionsFit(fs: seq<FieldName>)
    ensures (forall i | 0 <= i < |fs| :: VersionFits(fs, i)) <==>
            forall k, m | 0 <= k < m < |fs| :: InVersionOrder(fs[k], fs[m])
  {
    if forall i | 0 <= i < |fs| :: VersionFits(fs, i) {
      forall k, m | 0 <= k < m < |fs|
        ensures InVersionOrder(fs[k], fs[m])
      {
        VersionsGrow(fs, k, m);
      }
    }
    if forall k, m | 0 <= k < m < |fs| :: InVersionOrder(fs[k], fs[m]) {
      forall i | 0 < i < |fs|
        ensures VersionFits(fs, i)
      {
        var j := FilledFrom(fs, i - 1);
        assert InVersionOrder(fs[j], fs[i]);
      }
    }
  }

  lemma {:induction false} NamesHaveTags(raw: seq<RawField>, fs: seq<FieldName>, k: nat)
    requires Collects(raw, fs) && NoNegativeTags(raw) && k < |fs|
    ensures fs[k].index < |raw|
    ensures var f := raw[fs[k].index];
            && (if f.order.Some? then fs[k].order == f.order.value >= 0 else fs[k].order == -1)
            && (if f.version.Some? then fs[k].version == f.version.value >= 0 else fs[k].version == -1)
  {
    NameAt(raw, fs, k);
    assert !NegativeTag(raw[fs[k].index]);
  }

  /** The sorted fields are accepted exactly when their declared tags fit. */
  lemma {:induction false} TagsAccepted(raw: seq<RawField>)
    requires Collected(raw).Some?
    ensures var fs := SortedRaw(raw); Fits(fs) <==> OrderTagsFit(raw, fs) && VersionTagsFit(raw, fs)
  {
    var fs := SortedRaw(raw);
    SortedRawIs(raw);
    CollectedExact(raw);
    VersionsFit(fs);
    OrderTagsAre(raw, fs);
    VersionTagsAre(raw, fs);
  }

  lemma {:induction false} OrderTagsAre(raw: seq<RawField>, fs: seq<FieldName>)
    requires Collects(raw, fs) && NoNegativeTags(raw)
    ensures OrderTagsFit(raw, fs) <==> forall i | 0 <= i < |fs| :: OrderFits(fs, i)
  {
    forall k | 0 <= k < |fs|
      ensures fs[k].index < |raw|
      ensures OrderFits(fs, k) <==> (raw[fs[k].index].order.Some? ==> raw[fs[k].index].order.value >= k)
    {
      NamesHaveTags(raw, fs, k);
    }
  }

  lemma {:induction false} VersionTagsAre(raw: seq<RawField>, fs: seq<FieldName>)
    requires Collects(raw, fs) && NoNegativeTags(raw)
    ensures VersionTagsFit(raw, fs) <==> forall k, m | 0 <= k < m < |fs| :: InVersionOrder(fs[k], fs[m])
  {
    forall k, m | 0 <= k < m < |fs|
      ensures fs[k].index < |raw| && fs[m].index < |raw|
      ensures VersionsInOrder(raw[fs[k].index], raw[fs[m].index]) <==> InVersionOrder(fs[k], fs[m])
    {
      NamesHaveTags(raw, fs, k);
      NamesHaveTags(raw, fs, m);
    }
  }

  /** A declared field with only an order tag. */
  function Tagged(order: int): RawField {
    RawField(true, false, Some(order), None)
  }

  /** Two declared fields with the same order tag are laid out: the check only compares a tag with its position. */
  lemma {:induction false} DuplicateTagsPass()
    ensures var raw := [Tagged(5), Tagged(5)];
            && Collected(raw).Some? && Fits(SortedRaw(raw))
            && LaidOutFields(raw) == [FieldName(0, 5, 0), FieldName(1, 5, 0)]
  {
    var f, g := FieldName(0, 5, -1), FieldName(1, 5, -1);
    BothCollected();
    TwoSorted(f, g);
    assert Filled([f, g]) == [FieldName(0, 5, 0), FieldName(1, 5, 0)];
  }

  lemma {:induction false} BothCollected()
    ensures Collected([Tagged(5), Tagged(5)]) == Some([FieldName(0, 5, -1), FieldName(1, 5, -1)])
  {
    var one, both := [Tagged(5)], [Tagged(5), Tagged(5)];
    var f, g := FieldName(0, 5, -1), FieldName(1, 5, -1);
    CollectedNext([], one, f, [], [f]);
    CollectedNext(one, both, g, [f], [f, g]);
  }

  lemma {:induction false} CollectedNext(init: seq<RawField>, raw: seq<RawField>, f: FieldName, fs: seq<FieldName>,
                                         fs': seq<FieldName>)
    requires raw == init + [Tagged(5)] && f == FieldName(|init|, 5, -1) && Collected(init) == Some(fs)
    requires fs' == fs + [f]
    ensures Collected(raw) == Some(fs')
  {
    assert raw[..|raw| - 1] == init;
  }

  lemma {:induction false} TwoSorted(f: FieldName, g: FieldName)
    requires Before(f, g)
    ensures SortFields([f, g]) == [f, g]
  {
    assert [f, g][..1] == [f] && [f][..0] == [];
    assert InsertField(f, []) == [f] + [] == [f];
    assert SortFields([f]) == [f];
    assert InsertField(g, [f]) == [f] + InsertField(g, [f][1..]) == [f, g];
  }

  // ----- versionedFields -----

  /** The highest version among the first n fields that are not zero, or the first field's version if higher. */
  function TopVersion(fs: seq<Field>, vs: seq<Value>, n: nat): (top: nat)
    requires 0 < |fs| == |vs| && n <= |fs|
    ensures top >= fs[0].version
  {
    if n == 0 then fs[0].version else
    var top := TopVersion(fs, vs, n - 1);
    if vs[n - 1] != Zero(fs[n - 1].typ) && fs[n - 1].version > top then fs[n - 1].version else top
  }

  /** One above the last of the first n positions whose version is at most `top`. */
  function CountUpTo(fs: seq<Field>, top: nat, n: nat): (r: nat)
    requires n <= |fs|
    ensures r <= n
  {
    if n == 0 || fs[n - 1].version <= top then n else CountUpTo(fs, top, n - 1)
  }

  lemma {:induction false} CountUpToExact(fs: seq<Field>, top: nat, n: nat)
    requires n <= |fs|
    ensures var r := CountUpTo(fs, top, n);
            (forall i | r <= i < n :: fs[i].version > top) && (r > 0 ==> fs[r - 1].version <= top)
  {
    if n > 0 && fs[n - 1].version > top {
      CountUpToExact(fs, top, n - 1);
    }
  }

  /** How many fields, from the first on, are written for these values. */
  function Kept(fs: seq<Field>, vs: seq<Value>): (n: nat)
    requires |fs| == |vs|
    ensures n <= |fs|
  {
    if fs == [] then 0 else CountUpTo(fs, TopVersion(fs, vs, |fs|), |fs|)
  }

  lemma {:induction false} TopVersionBound(fs: seq<Field>, vs: seq<Value>, n: nat)
    requires 0 < |fs| == |vs| && n <= |fs|
    ensures forall i | 0 <= i < n && vs[i] != Zero(fs[i].typ) :: fs[i].version <= TopVersion(fs, vs, n)
  {
    if n > 0 {
      TopVersionBound(fs, vs, n - 1);
    }
  }

  /**
   Kept is exact and loses nothing: a field is kept exactly when its version is at most the top version,
   the first field always is, and every dropped field is zero.
   */
  lemma {:induction false} KeptExact(fs: seq<Field>, vs: seq<Value>)
    requires 0 < |fs| == |vs| && NonDecreasing(Versions(fs))
    ensures forall i | 0 <= i < |fs| :: i < Kept(fs, vs) <==> fs[i].version <= TopVersion(fs, vs, |fs|)
    ensures Kept(fs, vs) > 0
    ensures forall i | Kept(fs, vs) <= i < |fs| :: vs[i] == Zero(fs[i].typ)
  {
    TopVersionBound(fs, vs, |fs|);
    CountUpToExact(fs, TopVersion(fs, vs, |fs|), |fs|);
    var n := Kept(fs, vs);
    forall i | 0 <= i < n
      ensures fs[i].version <= TopVersion(fs, vs, |fs|)
    {
      assert Versions(fs)[i] <= Versions(fs)[n - 1];
    }
  }

  /** The top version is the first field's or that of a field that is not zero. */
  lemma {:induction false} TopVersionAttained(fs: seq<Field>, vs: seq<Value>, n: nat)
    requires 0 < |fs| == |vs| && n <= |fs|
    ensures var top := TopVersion(fs, vs, n);
            top == fs[0].version || exists i :: 0 <= i < n && fs[i].version == top && vs[i] != Zero(fs[i].typ)
  {
    if n > 0 {
      TopVersionAttained(fs, vs, n - 1);
    }
  }

  /** When fewer fields are not zero, as many are kept exactly if the top version stays in use. */
  lemma {:induction false} KeptSame(fs: seq<Field>, vs: seq<Value>, xs: seq<Value>)
    requires 0 < |fs| == |vs| == |xs| && NonDecreasing(Versions(fs))
    requires forall i | 0 <= i < |fs| && vs[i] == Zero(fs[i].typ) :: xs[i] == Zero(fs[i].typ)
    ensures var top := TopVersion(fs, vs, |fs|);
            Kept(fs, xs) == Kept(fs, vs) <==>
            top == fs[0].version || exists i :: 0 <= i < |fs| && fs[i].version == top && xs[i] != Zero(fs[i].typ)
  {
    TopVersionAttained(fs, vs, |fs|);
    TopVersionAttained(fs, xs, |fs|);
    TopVersionBound(fs, vs, |fs|);
    TopVersionBound(fs, xs, |fs|);
    KeptExact(fs, vs);
    KeptExact(fs, xs);
  }

  /** All fields beyond position i are zero, so they do not raise the top version. */
  lemma {:induction false} TopVersionOfPrefix(fs: seq<Field>, vs: seq<Value>, i: nat, n: nat)
    requires 0 < |fs| == |vs| && i <= n <= |fs|
    requires forall j | i <= j < n :: vs[j] == Zero(fs[j].typ)
    ensures TopVersion(fs, vs, n) == TopVersion(fs, vs, i)
    decreases n
  {
    if i < n {
      TopVersionOfPrefix(fs, vs, i, n - 1);
    }
  }

  lemma {:induction false} TopVersionAtMost(fs: seq<Field>, vs: seq<Value>, n: nat)
    requires 0 < n <= |fs| == |vs| && NonDecreasing(Versions(fs))
    ensures TopVersion(fs, vs, n) <= fs[n - 1].version
    ensures vs[n - 1] != Zero(fs[n - 1].typ) ==> TopVersion(fs, vs, n) == fs[n - 1].version
  {
    assert Versions(fs)[0] == fs[0].version && Versions(fs)[n - 1] == fs[n - 1].version;
    if n > 1 {
      TopVersionAtMost(fs, vs, n - 1);
      assert Versions(fs)[n - 2] <= Versions(fs)[n - 1];
    }
  }

  /** Where the version drops below position i + 1, everything up to position i has at most its version. */
  lemma {:induction false} CountAtDrop(fs: seq<Field>, i: nat)
    requires NonDecreasing(Versions(fs)) && i + 1 < |fs| && fs[i].version < fs[i + 1].version
    ensures CountUpTo(fs, fs[i].version, |fs|) == i + 1
  {
    forall j | i < j < |fs|
      ensures fs[j].version > fs[i].version
    {
      assert j > i + 1 ==> Versions(fs)[i + 1] <= Versions(fs)[j];
    }
    CountUpToExact(fs, fs[i].version, |fs|);
  }

  lemma {:induction false} VersionStep(fs: seq<Field>, i: nat)
    requires NonDecreasing(Versions(fs)) && i + 1 < |fs|
    ensures fs[i].version <= fs[i + 1].version
  {
    assert Versions(fs)[i] <= Versions(fs)[i + 1];
  }

  /** With only zero fields beyond position i, the top version is that of field i if i ends the walk. */
  lemma {:induction false} TopVersionAt(fs: seq<Field>, vs: seq<Value>, i: nat)
    requires i < |fs| == |vs| && NonDecreasing(Versions(fs))
    requires forall j | i < j < |fs| :: vs[j] == Zero(fs[j].typ)
    requires vs[i] != Zero(fs[i].typ) || fs[i].version == 0 || i == 0
    ensures TopVersion(fs, vs, |fs|) == fs[i].version
  {
    TopVersionOfPrefix(fs, vs, i + 1, |fs|);
    TopVersionAtMost(fs, vs, i + 1);
  }

  /**
   Walks the fields from the last down to the highest version in use. The answer is the number of items
   to announce and the number of fields to write.
   */
  method VersionedFields(fs: seq<Field>, vs: seq<Value>) returns (fnum: nat, kept: nat)
    requires |fs| == |vs| && NonDecreasing(Versions(fs))
    ensures kept == Kept(fs, vs)
    ensures if fs == [] then fnum == 0 else kept > 0 && fnum == fs[kept - 1].order + 1
  {
    if |fs| == 0 {
      return 0, 0;
    }
    var maxIndex := |fs| - 1;
    var maxVersion := fs[maxIndex].version;
    if maxVersion == 0 || maxVersion == fs[0].version {
      TopVersionAtMost(fs, vs, |fs|);
      return fs[maxIndex].order + 1, |fs|;
    }
    var i := |fs| - 1;
    while i >= 0
      invariant -1 <= i < |fs| && i <= maxIndex < |fs|
      invariant maxVersion == if i + 1 < |fs| then fs[i + 1].version else fs[i].version
      invariant CountUpTo(fs, maxVersion, |fs|) == maxIndex + 1
      invariant forall j | i < j < |fs| :: vs[j] == Zero(fs[j].typ)
    {
      if i + 1 < |fs| {
        VersionStep(fs, i);
      }
      if maxVersion > fs[i].version {
        maxVersion := fs[i].version;
        maxIndex := i;
        CountAtDrop(fs, i);
      }
      if maxVersion == 0 || vs[i] != Zero(fs[i].typ) {
        break;
      }
      i := i - 1;
    }
    TopVersionAt(fs, vs, if i < 0 then 0 else i);
    return fs[maxIndex].order + 1, maxIndex + 1;
  }
}
