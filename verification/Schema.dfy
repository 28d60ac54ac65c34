/** Decoding the items of a struct with any struct type: the struct cursor over a whole run. */
module Schema {
  import opened Numeric
  import opened Wrappers
  import opened Wire
  import opened Skipping
  import opened Values
  import opened Encoding
  import opened Decoding
  import opened Cursors

  /** Decoding item w into prev with `tail` behind it: the value x and all of w consumed, or an error. */
  ghost predicate DecodesAt(c: Decoder, t: Type, w: Item, d: nat, prev: Value, ok: bool, x: Value, tail: Bytes) {
    Dec(c, t, prev, ItemBytes(w) + tail, d) == if ok then Ok(x, tail) else Err
  }

  /** The outcome is the same whatever follows the item. */
  ghost predicate Decodes(c: Decoder, t: Type, w: Item, d: nat, prev: Value, ok: bool, x: Value) {
    forall tail :: DecodesAt(c, t, w, d, prev, ok, x, tail)
  }

  lemma {:induction false} ZeroHead(c: Decoder, t: Type, prev: Value, h: Head, bs: Bytes, d: nat)
    requires h.th.THZeroValue? && (c.events || d <= MAX_NESTED)
    ensures DecHead(c, t, prev, h, bs, d) == Ok(Zero(t), bs)
  {
    match t
    case TInt(_) =>
    case TUint(_) =>
    case TBool =>
    case TString =>
    case TBigInt =>
    case TArray(e, n) => assert DecArray(c, t, Elements(e, n, prev), h, bs, d) == Ok(Zero(t), bs);
    case TSlice(_) => assert DecSlice(c, t, prev, h, bs, d) == Ok(VNil, bs);
    case TMap(_, _) => assert DecMap(c, t, if prev.VMap? then prev.entries else [], h, bs, d) == Ok(VNil, bs);
    case TStruct(_) =>
    case TPtr(_) =>
  }

  /** A Zero item decodes to the zero value in every type, whatever the destination held. */
  lemma {:induction false} ZeroDecodes(c: Decoder, t: Type, d: nat, prev: Value)
    requires c.events || d <= MAX_NESTED
    ensures Decodes(c, t, WZero, d, prev, true, Zero(t))
  {
    forall tail: Bytes
      ensures DecodesAt(c, t, WZero, d, prev, true, Zero(t), tail)
    {
      HeadReads(WZero, c.events, tail);
      assert [] + tail == tail;
      ZeroHead(c, t, prev, HeadOf(WZero), tail, d);
    }
  }

  // ----- the run over the items -----

  /** Item j belongs to no field. */
  predicate Unclaimed(fs: seq<Field>, j: nat) {
    forall k | 0 <= k < |fs| :: fs[k].order != j
  }

  /** The items the recursive reader consumes: up to the last field's, or all when they end earlier. */
  function Consumed(fs: seq<Field>, size: nat): (n: int)
    ensures 0 <= n <= size
  {
    if OrderBefore(fs, |fs|) + 1 < 0 then 0
    else if OrderBefore(fs, |fs|) + 1 < size then OrderBefore(fs, |fs|) + 1
    else size
  }

  /** What a field that held prev gets: its item's outcome where there is an item of its order, zero elsewhere. */
  ghost predicate OutcomeAt(c: Decoder, f: Field, ws: seq<Item>, d: nat, prev: Value, ok: bool, x: Value) {
    if f.order < |ws| then Decodes(c, f.typ, ws[f.order], d, prev, ok, x) else ok && x == Zero(f.typ)
  }

  ghost predicate FieldOutcomes(c: Decoder, fs: seq<Field>, ws: seq<Item>, d: nat, prevs: seq<Value>, oks: seq<bool>,
                                xs: seq<Value>) {
    |prevs| == |oks| == |xs| == |fs| && forall k | 0 <= k < |fs| :: OutcomeAt(c, fs[k], ws, d, prevs[k], oks[k], xs[k])
  }

  /** Item j belongs to no field and is passed over: the recursive reader stops behind its last field's item. */
  predicate PassedOver(c: Decoder, fs: seq<Field>, size: nat, j: nat) {
    Unclaimed(fs, j) && (c.events || j < Consumed(fs, size))
  }

  /** Items from i on that are passed over can be skipped. */
  predicate SkipsFrom(c: Decoder, fs: seq<Field>, ws: seq<Item>, i: nat) {
    forall j | i <= j < |ws| && PassedOver(c, fs, |ws|, j) :: Skippable(c.popSkip, ws[j])
  }

  /** Items that are passed over can be skipped. */
  predicate SkipsFine(c: Decoder, fs: seq<Field>, ws: seq<Item>) {
    SkipsFrom(c, fs, ws, 0)
  }

  predicate AllTrue(bs: seq<bool>) {
    forall i | 0 <= i < |bs| :: bs[i]
  }

  /** Zeroing the fields that have no item is an error of the recursive reader beyond the depth limit. */
  predicate CanZero(c: Decoder, fs: seq<Field>, size: nat, d: nat) {
    c.events || d <= MAX_NESTED || forall k | 0 <= k < |fs| :: fs[k].order < size
  }

  /** What a decoder leaves unread: the recursive reader stops behind the item of its last field. */
  function Behind(c: Decoder, fs: seq<Field>, ws: seq<Item>, tail: Bytes): Bytes {
    if c.events then tail else Concat(ws[Consumed(fs, |ws|)..]) + tail
  }

  /** The outcome of decoding all the items. */
  ghost function StructOutcome(c: Decoder, fs: seq<Field>, ws: seq<Item>, d: nat, oks: seq<bool>, xs: seq<Value>,
                               tail: Bytes)
    : Res<Value>
  {
    if AllTrue(oks) && CanZero(c, fs, |ws|, d) then
      Ok(VStruct(xs), Behind(c, fs, ws, tail))
    else Err
  }

  /** The cursor between items: the fields before k are done, their orders are below i, the next is not. */
  ghost predicate Cursor(fs: seq<Field>, k: nat, i: nat) {
    && k <= |fs|
    && (k > 0 ==> fs[k - 1].order < i)
    && (k < |fs| ==> i <= fs[k].order)
  }

  lemma {:induction false} CursorUnclaimed(fs: seq<Field>, k: nat, i: nat)
    requires StrictlyIncreasing(Orders(fs)) && Cursor(fs, k, i)
    requires k < |fs| ==> i < fs[k].order
    ensures Unclaimed(fs, i)
  {
    forall m | 0 <= m < |fs|
      ensures fs[m].order != i
    {
      if m < k - 1 {
        assert Orders(fs)[m] < Orders(fs)[k - 1];
      } else if m > k {
        assert Orders(fs)[k] < Orders(fs)[m];
      }
    }
  }

  lemma {:induction false} CursorNext(fs: seq<Field>, k: nat, i: nat)
    requires StrictlyIncreasing(Orders(fs)) && Cursor(fs, k, i) && k < |fs| && i == fs[k].order
    ensures Cursor(fs, k + 1, i + 1)
  {
    assert k + 1 < |fs| ==> Orders(fs)[k] < Orders(fs)[k + 1];
  }

  /** Where a field's order lies relative to the items. */
  lemma {:induction false} CursorConsumed(fs: seq<Field>, k: nat, i: nat, size: nat)
    requires StrictlyIncreasing(Orders(fs)) && Cursor(fs, k, i) && i <= size
    ensures k < |fs| && i < size ==> i < Consumed(fs, size)
    ensures k < |fs| && i == size ==> Consumed(fs, size) == size
    ensures k == |fs| > 0 && i == fs[k - 1].order + 1 ==> Consumed(fs, size) == i
    ensures k < |fs| ==> forall m | k <= m < |fs| :: fs[m].order >= i
  {
    if k < |fs| {
      assert k < |fs| - 1 ==> Orders(fs)[k] < Orders(fs)[|fs| - 1];
      forall m | k <= m < |fs|
        ensures fs[m].order >= i
      {
        assert k < m ==> Orders(fs)[k] < Orders(fs)[m];
      }
    }
  }

  /** Past the last field every remaining item is unclaimed, and every order was that of an item. */
  lemma {:induction false} CursorPast(fs: seq<Field>, i: nat)
    requires StrictlyIncreasing(Orders(fs)) && Cursor(fs, |fs|, i)
    ensures forall k | 0 <= k < |fs| :: fs[k].order < i
  {
    forall k | 0 <= k < |fs|
      ensures fs[k].order < i
    {
      assert k < |fs| - 1 ==> Orders(fs)[k] < Orders(fs)[|fs| - 1];
    }
  }

  /** One turn of the cursor at the item of field k. */
  lemma {:induction false} TakeField(c: Decoder, t: Type, k: nat, ws: seq<Item>, ok: bool, x: Value, vs: seq<Value>,
                                     d: nat, tail: Bytes)
    requires t.TStruct? && |t.fields| == |vs| && k < |vs|
    requires t.fields[k].order < |ws| && OutcomeAt(c, t.fields[k], ws, d, vs[k], ok, x)
    ensures var i := t.fields[k].order;
            DecFields(c, t, k, i, |ws|, vs, Concat(ws[i..]) + tail, d) ==
               if ok then DecFields(c, t, k + 1, i + 1, |ws|, vs[k := x], Concat(ws[i + 1..]) + tail, d) else Err
  {
    var i := t.fields[k].order;
    var after := Concat(ws[i + 1..]) + tail;
    assert DecodesAt(c, t.fields[k].typ, ws[i], d, vs[k], ok, x, after);
    ConcatFrom(ws, i, i + 1, tail);
  }

  /** One turn of the cursor at an item before the next field's order. */
  lemma {:induction false} PassItem(c: Decoder, t: Type, k: nat, i: nat, next: nat, ws: seq<Item>, vs: seq<Value>,
                                    d: nat, tail: Bytes)
    requires t.TStruct? && |t.fields| == |vs| && k < |vs| && i < |ws| && i < t.fields[k].order
    requires Valid(ws[i]) && Skippable(c.popSkip, ws[i]) && next == i + 1
    ensures DecFields(c, t, k, i, |ws|, vs, Concat(ws[i..]) + tail, d) ==
            DecFields(c, t, k, next, |ws|, vs, Concat(ws[next..]) + tail, d)
  {
    ConcatFrom(ws, i, next, tail);
    SkipOne(c.popSkip, ws[i], Concat(ws[next..]) + tail);
  }

  /** No item is left: the fields from k on are zeroed. */
  lemma {:induction false} EndOfItems(c: Decoder, t: Type, k: nat, ws: seq<Item>, xs: seq<Value>, vs: seq<Value>,
                                      d: nat, tail: Bytes)
    requires t.TStruct? && |t.fields| == |vs| && k < |vs| == |xs|
    requires vs[..k] == xs[..k] && forall m | k <= m < |xs| :: xs[m] == Zero(t.fields[m].typ)
    ensures DecFields(c, t, k, |ws|, |ws|, vs, tail, d) ==
            if c.events || d <= MAX_NESTED then Ok(VStruct(xs), tail) else Err
  {
    assert vs[..k] + Zeros(t.fields)[k..] == xs;
  }

  /** No field is left: the event decoder skips the surplus items. */
  lemma {:induction false} EndOfFields(c: Decoder, t: Type, i: nat, ws: seq<Item>, vs: seq<Value>, d: nat, tail: Bytes)
    requires t.TStruct? && |t.fields| == |vs| && i <= |ws|
    requires c.events ==> forall j | i <= j < |ws| :: Valid(ws[j]) && Skippable(c.popSkip, ws[j])
    ensures DecFields(c, t, |vs|, i, |ws|, vs, Concat(ws[i..]) + tail, d) ==
            Ok(VStruct(vs), if c.events then tail else Concat(ws[i..]) + tail)
  {
    var n := |ws| - i;
    PastFields(c, t, i, |ws|, n, vs, Concat(ws[i..]) + tail, d);
    if c.events {
      SurplusSkipped(c.popSkip, i, n, ws, tail);
    }
  }

  lemma {:induction false} PastFields(c: Decoder, t: Type, i: nat, size: nat, n: nat, vs: seq<Value>, bs: Bytes, d: nat)
    requires t.TStruct? && |t.fields| == |vs| && i + n == size
    ensures DecFields(c, t, |vs|, i, size, vs, bs, d) ==
            var rest := if c.events then SkipMany(c.popSkip, n, bs) else Some(bs);
            if rest.None? then Err else Ok(VStruct(vs), rest.value)
  {
    assert vs[..|vs|] + Zeros(t.fields)[|vs|..] == vs;
  }

  /** The items from i on can be skipped. */
  predicate Passable(pop: bool, i: nat, ws: seq<Item>) {
    forall j | i <= j < |ws| :: Valid(ws[j]) && Skippable(pop, ws[j])
  }

  lemma {:induction false} SurplusSkipped(pop: bool, i: nat, n: nat, ws: seq<Item>, tail: Bytes)
    requires i + n == |ws| && Passable(pop, i, ws)
    ensures SkipMany(pop, n, Concat(ws[i..]) + tail) == Some(tail)
    decreases n
  {
    if n == 0 {
      assert ws[i..] == [] && [] + tail == tail;
    } else {
      var next, left := i + 1, n - 1;
      ConcatFrom(ws, i, next, tail);
      SkipOne(pop, ws[i], Concat(ws[next..]) + tail);
      SkipFirst(pop, n, left, Concat(ws[i..]) + tail, Concat(ws[next..]) + tail);
      SurplusSkipped(pop, next, left, ws, tail);
    }
  }

  lemma {:induction false} SkipFirst(pop: bool, n: nat, left: nat, bs: Bytes, rest: Bytes)
    requires n == left + 1 && Skim(pop, bs).Ok? && Skim(pop, bs).rest == rest
    ensures SkipMany(pop, n, bs) == SkipMany(pop, left, rest)
  {
  }

  lemma {:induction false} ConcatFrom(ws: seq<Item>, i: nat, next: nat, tail: Bytes)
    requires i < |ws| && next == i + 1
    ensures Concat(ws[i..]) + tail == ItemBytes(ws[i]) + (Concat(ws[next..]) + tail)
  {
    ConcatHead(ws[i..], tail);
    assert ws[i..][0] == ws[i] && ws[i..][1..] == ws[next..];
  }

  /** A state of the run: the fields before k hold their outcomes, the others are untouched. */
  ghost predicate Running(c: Decoder, t: Type, k: nat, i: nat, ws: seq<Item>, prevs: seq<Value>, oks: seq<bool>,
                          xs: seq<Value>, vs: seq<Value>, d: nat) {
    && t.TStruct? && StrictlyIncreasing(Orders(t.fields)) && Cursor(t.fields, k, i) && i <= |ws|
    && (k == |t.fields| && !c.events ==> i == Consumed(t.fields, |ws|))
    && |t.fields| == |vs| && FieldOutcomes(c, t.fields, ws, d, prevs, oks, xs) && AllValid(ws)
    && vs[..k] == xs[..k] && vs[k..] == prevs[k..] && AllTrue(oks[..k])
  }

  lemma {:induction false} TakeKeepsRunning(c: Decoder, t: Type, k: nat, i: nat, ws: seq<Item>, prevs: seq<Value>,
                                            oks: seq<bool>, xs: seq<Value>, vs: seq<Value>, d: nat)
    requires Running(c, t, k, i, ws, prevs, oks, xs, vs, d) && k < |vs| && i < |ws| && i == t.fields[k].order
    requires oks[k]
    ensures Running(c, t, k + 1, i + 1, ws, prevs, oks, xs, vs[k := xs[k]], d)
  {
    CursorNext(t.fields, k, i);
    CursorConsumed(t.fields, k + 1, i + 1, |ws|);
    TakenSoFar(k, prevs, oks, xs, vs);
  }

  lemma {:induction false} PassKeepsRunning(c: Decoder, t: Type, k: nat, i: nat, next: nat, ws: seq<Item>,
                                            prevs: seq<Value>, oks: seq<bool>, xs: seq<Value>, vs: seq<Value>, d: nat)
    requires Running(c, t, k, i, ws, prevs, oks, xs, vs, d) && k < |vs| && i < |ws| && i < t.fields[k].order
    requires next == i + 1
    ensures Running(c, t, k, next, ws, prevs, oks, xs, vs, d)
    ensures Valid(ws[i]) && PassedOver(c, t.fields, |ws|, i)
  {
    CursorConsumed(t.fields, k, i, |ws|);
    CursorUnclaimed(t.fields, k, i);
  }

  /** The rest of a run, from any state on. */
  lemma {:induction false} FieldsFrom(c: Decoder, t: Type, k: nat, i: nat, ws: seq<Item>, prevs: seq<Value>,
                                      oks: seq<bool>, xs: seq<Value>, vs: seq<Value>, d: nat, tail: Bytes)
    requires Running(c, t, k, i, ws, prevs, oks, xs, vs, d) && SkipsFrom(c, t.fields, ws, i)
    ensures DecFields(c, t, k, i, |ws|, vs, Concat(ws[i..]) + tail, d) ==
            StructOutcome(c, t.fields, ws, d, oks, xs, tail)
    decreases |ws| - i, 1
  {
    if k == |t.fields| || i == |ws| {
      FieldsEnd(c, t, k, i, ws, prevs, oks, xs, vs, d, tail);
    } else if i == t.fields[k].order {
      FieldsTake(c, t, k, i, ws, prevs, oks, xs, vs, d, tail);
    } else {
      FieldsPass(c, t, k, i, ws, prevs, oks, xs, vs, d, tail);
    }
  }

  lemma {:induction false} FieldsTake(c: Decoder, t: Type, k: nat, i: nat, ws: seq<Item>, prevs: seq<Value>,
                                      oks: seq<bool>, xs: seq<Value>, vs: seq<Value>, d: nat, tail: Bytes)
    requires Running(c, t, k, i, ws, prevs, oks, xs, vs, d) && k < |vs| && i < |ws| && i == t.fields[k].order
    requires SkipsFrom(c, t.fields, ws, i)
    ensures DecFields(c, t, k, i, |ws|, vs, Concat(ws[i..]) + tail, d) ==
            StructOutcome(c, t.fields, ws, d, oks, xs, tail)
    decreases |ws| - i, 0
  {
    assert OutcomeAt(c, t.fields[k], ws, d, prevs[k], oks[k], xs[k]);
    assert vs[k] == vs[k..][0] == prevs[k];
    TakeField(c, t, k, ws, oks[k], xs[k], vs, d, tail);
    if oks[k] {
      TakeKeepsRunning(c, t, k, i, ws, prevs, oks, xs, vs, d);
      FieldsFrom(c, t, k + 1, i + 1, ws, prevs, oks, xs, vs[k := xs[k]], d, tail);
    }
  }

  lemma {:induction false} FieldsPass(c: Decoder, t: Type, k: nat, i: nat, ws: seq<Item>, prevs: seq<Value>,
                                      oks: seq<bool>, xs: seq<Value>, vs: seq<Value>, d: nat, tail: Bytes)
    requires Running(c, t, k, i, ws, prevs, oks, xs, vs, d) && k < |vs| && i < |ws| && i < t.fields[k].order
    requires SkipsFrom(c, t.fields, ws, i)
    ensures DecFields(c, t, k, i, |ws|, vs, Concat(ws[i..]) + tail, d) ==
            StructOutcome(c, t.fields, ws, d, oks, xs, tail)
    decreases |ws| - i, 0
  {
    var next := i + 1;
    PassKeepsRunning(c, t, k, i, next, ws, prevs, oks, xs, vs, d);
    PassItem(c, t, k, i, next, ws, vs, d, tail);
    FieldsFrom(c, t, k, next, ws, prevs, oks, xs, vs, d, tail);
  }

  lemma {:induction false} TakenSoFar(k: nat, prevs: seq<Value>, oks: seq<bool>, xs: seq<Value>, vs: seq<Value>)
    requires k < |prevs| == |oks| == |xs| == |vs|
    requires vs[..k] == xs[..k] && vs[k..] == prevs[k..] && AllTrue(oks[..k]) && oks[k]
    ensures var vs' := vs[k := xs[k]];
            vs'[..k + 1] == xs[..k + 1] && vs'[k + 1..] == prevs[k + 1..] && AllTrue(oks[..k + 1])
  {
    var vs' := vs[k := xs[k]];
    assert oks[..k + 1] == oks[..k] + [oks[k]];
    assert vs'[..k + 1] == vs[..k] + [xs[k]];
    assert vs'[k + 1..] == vs[k..][1..] && prevs[k + 1..] == prevs[k..][1..];
  }

  /** The end of a run. */
  lemma {:induction false} FieldsEnd(c: Decoder, t: Type, k: nat, i: nat, ws: seq<Item>, prevs: seq<Value>,
                                     oks: seq<bool>, xs: seq<Value>, vs: seq<Value>, d: nat, tail: Bytes)
    requires Running(c, t, k, i, ws, prevs, oks, xs, vs, d) && (k == |t.fields| || i == |ws|)
    requires SkipsFrom(c, t.fields, ws, i)
    ensures DecFields(c, t, k, i, |ws|, vs, Concat(ws[i..]) + tail, d) ==
            StructOutcome(c, t.fields, ws, d, oks, xs, tail)
  {
    var fs := t.fields;
    CursorConsumed(fs, k, i, |ws|);
    forall m | 0 <= m < |fs|
      ensures oks[m] && (m >= k ==> xs[m] == Zero(fs[m].typ))
    {
      assert OutcomeAt(c, fs[m], ws, d, prevs[m], oks[m], xs[m]);
      assert m < k ==> oks[m] == oks[..k][m];
    }
    if k == |fs| {
      CursorPast(fs, i);
      assert vs == vs[..k] == xs[..k] == xs;
      forall j | i <= j < |ws| && c.events
        ensures Valid(ws[j]) && Skippable(c.popSkip, ws[j])
      {
        assert Unclaimed(fs, j);
      }
      EndOfFields(c, t, i, ws, vs, d, tail);
    } else {
      assert ws[i..] == [] && [] + tail == tail;
      assert fs[k].order >= |ws|;
      EndOfItems(c, t, k, ws, xs, vs, d, tail);
    }
  }

  /** A whole run over items of which those passed over can be skipped. */
  lemma {:induction false} StructRuns(c: Decoder, t: Type, ws: seq<Item>, oks: seq<bool>, xs: seq<Value>, prev: Value,
                                      h: Head, d: nat, tail: Bytes)
    requires t.TStruct? && StrictlyIncreasing(Orders(t.fields)) && AllValid(ws) && SkipsFine(c, t.fields, ws)
    requires FieldOutcomes(c, t.fields, ws, d + 1, FieldValues(t.fields, prev), oks, xs)
    requires h.th.IsArray() && h.n == |ws| && (c.events || d <= MAX_NESTED)
    ensures DecHead(c, t, prev, h, Concat(ws) + tail, d) == StructOutcome(c, t.fields, ws, d + 1, oks, xs, tail)
  {
    var prevs, inner := FieldValues(t.fields, prev), d + 1;
    AllFields(c, t, ws, prevs, oks, xs, inner, tail);
    StructHead(c, t, prev, h, Concat(ws) + tail, d, inner);
  }

  lemma {:induction false} AllFields(c: Decoder, t: Type, ws: seq<Item>, prevs: seq<Value>, oks: seq<bool>,
                                     xs: seq<Value>, d: nat, tail: Bytes)
    requires t.TStruct? && StrictlyIncreasing(Orders(t.fields)) && AllValid(ws) && SkipsFine(c, t.fields, ws)
    requires FieldOutcomes(c, t.fields, ws, d, prevs, oks, xs)
    ensures DecFields(c, t, 0, 0, |ws|, prevs, Concat(ws) + tail, d) == StructOutcome(c, t.fields, ws, d, oks, xs, tail)
  {
    assert ws[0..] == ws;
    FieldsFrom(c, t, 0, 0, ws, prevs, oks, xs, prevs, d, tail);
  }
}
