/** What one step of each nested handler does to what is still to be done. */
module Steps {
  import opened Numeric
  import opened Headers
  import opened Wrappers
  import opened Wire
  import opened Skipping
  import opened Values
  import opened Decoding
  import opened Schema
  import opened Cursors
  import opened Machine
  import opened Effort

  /** The top can become s' with child pushed: nothing is lost and less is left to do. */
  ghost predicate Advances(run: Runner, s: State, s': State, child: State, bs: Bytes, d: nat) {
    && Sound(s') && Busy(s') && Sound(child)
    && Pushes(run, s, s', child, bs, d)
    && Weight(s') + Weight(child) < Weight(s)
  }

  /** The top can become s' with `rest` to be read next. */
  ghost predicate Becomes(run: Runner, s: State, bs: Bytes, s': State, rest: Bytes, d: nat) {
    Sound(s') && run(s, bs, d) == run(s', rest, d) && (|rest| < |bs| || (rest == bs && Weight(s') < Weight(s)))
  }

  /** Pushes, of a decoder's states. */
  ghost predicate Splits(c: Decoder, s: State, s': State, child: State, bs: Bytes, d: nat) {
    Run(c, s, bs, d) == var r := Run(c, child, bs, d + 1);
                        if r.Err? then Err else Run(c, Put(s', r.value), r.rest, d)
  }

  lemma {:induction false} SplitsPush(run: Runner, c: Decoder, s: State, s': State, child: State, bs: Bytes, d: nat)
    requires Runs(run, c) && Splits(c, s, s', child, bs, d)
    ensures Pushes(run, s, s', child, bs, d)
  {
    assert run(s, bs, d) == Run(c, s, bs, d);
    var r := Run(c, child, bs, d + 1);
    assert run(child, bs, d + 1) == r;
    if r.Ok? {
      assert run(Put(s', r.value), r.rest, d) == Run(c, Put(s', r.value), r.rest, d);
    }
  }

  // ----- what a state of each kind runs -----

  lemma {:induction false} FreshRun(c: Decoder, val: Value, typ: Type, bs: Bytes, d: nat)
    ensures Run(c, Fresh(val, typ), bs, d) == Dec(c, typ, val, bs, d)
  {
  }

  lemma {:induction false} OneByteRun(c: Decoder, val: Value, typ: Type, b: byte, bs: Bytes, d: nat)
    ensures Run(c, OneByteState(val, typ, b), bs, d) == DecHead(c, typ, val, Head(THSingleByte, b, []), bs, d)
  {
  }

  lemma {:induction false} SliceRun(c: Decoder, s: State, bs: Bytes, d: nat)
    ensures Sound(s) && s.handler.SliceElement? ==>
            var h := s.handler;
            Run(c, s, bs, d) ==
            Pointed(s.derefs, Made(s.val, ElemsTo(c, s.typ.elem, h.size, Parts(s.val), h.idx + 1, bs, d + 1)))
  {
  }

  lemma {:induction false} ArrayRun(c: Decoder, s: State, bs: Bytes, d: nat)
    ensures Sound(s) && s.handler.ArrayElement? ==>
            var h := s.handler;
            Run(c, s, bs, d) == Pointed(s.derefs, Skipped(c, h.size - Min(h.size, h.valueSize),
              Made(s.val, ElemsTo(c, s.typ.elem, h.size, Parts(s.val), h.idx + 1, bs, d + 1))))
  {
  }

  lemma {:induction false} BytesRun(c: Decoder, s: State, bs: Bytes, d: nat)
    ensures Sound(s) && s.handler.String2ArraySlice? ==>
            var h := s.handler;
            Run(c, s, bs, d) ==
            Pointed(s.derefs, Made(s.val, BytesTo(c, s.typ.elem, h.buf, Parts(s.val), h.idx + 1, bs, d + 1)))
  {
  }

  lemma {:induction false} StructRun(c: Decoder, s: State, bs: Bytes, d: nat)
    ensures Sound(s) && s.handler.StructElement? ==>
            var h := s.handler;
            Run(c, s, bs, d) ==
            Pointed(s.derefs, DecFields(c, s.typ, h.fieldIdx + 1, h.dataIdx + 1, h.size, Parts(s.val), bs, d + 1))
  {
  }

  // ----- slices and arrays -----

  lemma {:induction false} SliceDone(c: Decoder, s: State, bs: Bytes, d: nat)
    requires Sound(s) && s.handler.SliceElement? && s.handler.idx + 1 == s.handler.size
    ensures Run(c, s, bs, d) == Ok(Wrap(s.derefs, s.val), bs)
  {
    ElemsLast(c, s.typ.elem, s.handler.size, Parts(s.val), s.handler.size, bs, d + 1);
  }

  /** A state after its element j was begun and ended with x. */
  lemma {:induction false} PutElement(s: State, h: Handler, j: nat, x: Value)
    requires h.Slot() == j < |Parts(s.val)| && !h.MapElement?
    ensures Put(s.(handler := h), x) == s.(handler := h, val := WithParts(s.val, Parts(s.val)[j := x]))
    ensures Sound(s.(handler := h)) ==> Sound(s.(handler := h, val := WithParts(s.val, Parts(s.val)[j := x])))
  {
  }

  lemma {:induction false} MadeAgain(v: Value, xs: seq<Value>, r: Res<seq<Value>>)
    ensures Made(WithParts(v, xs), r) == Made(v, r)
  {
  }

  lemma {:induction false} SliceNext(c: Decoder, s: State, bs: Bytes, d: nat)
    requires Sound(s) && s.handler.SliceElement? && s.handler.idx + 1 < s.handler.size
    ensures var j := s.handler.idx + 1;
            Splits(c, s, s.(handler := SliceElement(s.handler.size, j)), Fresh(Parts(s.val)[j], s.typ.elem), bs, d)
  {
    var j := s.handler.idx + 1;
    var xs, size := Parts(s.val), s.handler.size;
    SliceRun(c, s, bs, d);
    ElemsStep(c, s.typ.elem, size, xs, j, bs, d + 1);
    FreshRun(c, xs[j], s.typ.elem, bs, d + 1);
    var r := Dec(c, s.typ.elem, xs[j], bs, d + 1);
    if r.Ok? {
      PutElement(s, SliceElement(size, j), j, r.value);
      SliceRun(c, Put(s.(handler := SliceElement(size, j)), r.value), r.rest, d);
      MadeAgain(s.val, xs[j := r.value], ElemsTo(c, s.typ.elem, size, xs[j := r.value], j + 1, r.rest, d + 1));
    }
  }

  lemma {:induction false} ArrayDone(c: Decoder, s: State, bs: Bytes, d: nat)
    requires Sound(s) && s.handler.ArrayElement?
    requires s.handler.idx + 1 == Min(s.handler.size, s.handler.valueSize)
    ensures var rest := SkipMany(c.popSkip, s.handler.size - s.handler.idx - 1, bs);
            Run(c, s, bs, d) == if rest.None? then Err else Ok(Wrap(s.derefs, s.val), rest.value)
  {
    ElemsLast(c, s.typ.elem, s.handler.size, Parts(s.val), s.handler.idx + 1, bs, d + 1);
  }

  lemma {:induction false} ArrayNext(c: Decoder, s: State, bs: Bytes, d: nat)
    requires Sound(s) && s.handler.ArrayElement? && s.handler.idx + 1 < Min(s.handler.size, s.handler.valueSize)
    ensures var j := s.handler.idx + 1;
            Splits(c, s, s.(handler := ArrayElement(s.handler.size, j, s.handler.valueSize)),
                   Fresh(Parts(s.val)[j], s.typ.elem), bs, d)
  {
    var j := s.handler.idx + 1;
    var xs, h := Parts(s.val), ArrayElement(s.handler.size, j, s.handler.valueSize);
    ArrayRun(c, s, bs, d);
    ElemsStep(c, s.typ.elem, s.handler.size, xs, j, bs, d + 1);
    FreshRun(c, xs[j], s.typ.elem, bs, d + 1);
    var r := Dec(c, s.typ.elem, xs[j], bs, d + 1);
    if r.Ok? {
      ArrayGoesOn(c, s, h, j, r.value, r.rest, d);
    }
  }

  /** The array with element j read. */
  lemma {:induction false} ArrayGoesOn(c: Decoder, s: State, h: Handler, j: nat, x: Value, bs: Bytes, d: nat)
    requires Sound(s) && s.handler.ArrayElement? && j == s.handler.idx + 1 < Min(s.handler.size, s.handler.valueSize)
    requires h == ArrayElement(s.handler.size, j, s.handler.valueSize)
    ensures Run(c, Put(s.(handler := h), x), bs, d) ==
            Pointed(s.derefs, Skipped(c, h.size - Min(h.size, h.valueSize),
              Made(s.val, ElemsTo(c, s.typ.elem, h.size, Parts(s.val)[j := x], j + 1, bs, d + 1))))
  {
    PutElement(s, h, j, x);
    ArrayRun(c, Put(s.(handler := h), x), bs, d);
    var ys := Parts(s.val)[j := x];
    MadeAgain(s.val, ys, ElemsTo(c, s.typ.elem, s.handler.size, ys, j + 1, bs, d + 1));
  }

  lemma {:induction false} BytesEnd(c: Decoder, s: State, bs: Bytes, d: nat)
    requires Sound(s) && s.handler.String2ArraySlice?
    requires s.handler.idx + 1 == Min(|s.handler.buf|, s.handler.valueSize)
    ensures Run(c, s, bs, d) == Ok(Wrap(s.derefs, s.val), bs)
  {
    BytesLast(c, s.typ.elem, s.handler.buf, Parts(s.val), s.handler.idx + 1, bs, d + 1);
  }

  /** A byte of a string, as the state of an element that is to read it as a single-byte item. */
  function OneByteState(val: Value, typ: Type, b: byte): State {
    State(val, typ, 0, THSingleByte, b, [], NoHandler)
  }

  lemma {:induction false} BytesNext(c: Decoder, s: State, bs: Bytes, d: nat)
    requires Sound(s) && s.handler.String2ArraySlice?
    requires s.handler.idx + 1 < Min(|s.handler.buf|, s.handler.valueSize)
    ensures var j := s.handler.idx + 1;
            Splits(c, s, s.(handler := String2ArraySlice(s.handler.buf, j, s.handler.valueSize)),
                   OneByteState(Parts(s.val)[j], s.typ.elem, s.handler.buf[j]), bs, d)
  {
    var j := s.handler.idx + 1;
    var xs, buf, h := Parts(s.val), s.handler.buf, String2ArraySlice(s.handler.buf, j, s.handler.valueSize);
    BytesRun(c, s, bs, d);
    BytesStep(c, s.typ.elem, buf, xs, j, bs, d + 1);
    OneByteRun(c, xs[j], s.typ.elem, buf[j], bs, d + 1);
    var r := DecHead(c, s.typ.elem, xs[j], Head(THSingleByte, buf[j], []), bs, d + 1);
    if r.Ok? {
      PutElement(s, h, j, r.value);
      BytesRun(c, Put(s.(handler := h), r.value), r.rest, d);
      MadeAgain(s.val, xs[j := r.value], BytesTo(c, s.typ.elem, buf, xs[j := r.value], j + 1, r.rest, d + 1));
    }
  }

  // ----- maps -----

  /** Behind a value: the entry goes into the map and the key and value caches are emptied. */
  function Stored(s: State): State
    requires s.handler.MapElement? && s.typ.TMap? && s.val.VMap?
  {
    if s.handler.value.Some? then
      s.(val := VMap(WithCached(s.handler, s.val.entries)),
         handler := MapElement(s.handler.size, s.handler.idx, None, None))
    else s
  }

  lemma {:induction false} MapDone(c: Decoder, s: State, bs: Bytes, d: nat)
    requires Sound(s) && s.handler.MapElement? && s.handler.idx + 1 == s.handler.size
    ensures Run(c, s, bs, d) == Ok(Wrap(s.derefs, Stored(s).val), bs)
  {
  }

  /** The state whose next item, a key, was begun: both caches were empty, and the key's is filled. */
  function KeyBegun(s: State): State
    requires s.handler.MapElement? && s.typ.TMap? && s.val.VMap?
  {
    Stored(s).(handler := MapElement(s.handler.size, s.handler.idx + 1, Some(Zero(s.typ.key)), None))
  }

  lemma {:induction false} KeyBegunSound(s: State)
    requires Sound(s) && s.handler.MapElement? && s.handler.idx + 1 < s.handler.size && (s.handler.idx + 1) % 2 == 0
    ensures Stored(s).handler.key.None? && Stored(s).handler.value.None?
    ensures Sound(KeyBegun(s)) && Busy(KeyBegun(s))
  {
  }

  lemma {:induction false} MapKey(c: Decoder, s: State, bs: Bytes, d: nat)
    requires Sound(s) && s.handler.MapElement? && s.handler.idx + 1 < s.handler.size && (s.handler.idx + 1) % 2 == 0
    ensures Splits(c, s, KeyBegun(s), Fresh(Zero(s.typ.key), s.typ.key), bs, d)
  {
    FreshRun(c, Zero(s.typ.key), s.typ.key, bs, d + 1);
    var r := Dec(c, s.typ.key, Zero(s.typ.key), bs, d + 1);
    var left := PairsLeft(s.handler.size, s.handler.idx);
    var es := WithCached(s.handler, s.val.entries);
    KeyRun(c, s, left, bs, d);
    KeyFirst(c, s.typ, left, es, bs, d + 1);
    if r.Ok? {
      KeyPut(s, r.value);
      ValueRun(c, Put(KeyBegun(s), r.value), r.value, left - 1, r.rest, d);
    }
  }

  lemma {:induction false} KeyPut(s: State, x: Value)
    requires Sound(s) && s.handler.MapElement? && s.handler.idx + 1 < s.handler.size && (s.handler.idx + 1) % 2 == 0
    ensures var s' := Put(KeyBegun(s), x);
            && Sound(s') && s'.derefs == s.derefs && s'.typ == s.typ
            && s'.val == VMap(WithCached(s.handler, s.val.entries))
            && s'.handler == MapElement(s.handler.size, s.handler.idx + 1, Some(x), None)
  {
  }

  lemma {:induction false} KeyRun(c: Decoder, s: State, left: nat, bs: Bytes, d: nat)
    requires Sound(s) && s.handler.MapElement? && s.handler.idx % 2 == 1
    requires (s.handler.size - s.handler.idx - 1) / 2 == left
    ensures Run(c, s, bs, d) ==
            Pointed(s.derefs, MadeMap(DecEntries(c, s.typ, left, WithCached(s.handler, s.val.entries), bs, d + 1)))
  {
    EntriesKeyed(c, s.typ, s.handler, s.val.entries, left, bs, d + 1);
    assert Body(c, s, bs, d) == MadeMap(EntriesTo(c, s.typ, s.handler, s.val.entries, bs, d + 1));
  }

  lemma {:induction false} EntriesKeyed(c: Decoder, t: Type, h: Handler, es: seq<Entry>, left: nat, bs: Bytes, d: nat)
    requires t.TMap? && h.MapElement? && h.size % 2 == 0 && -1 <= h.idx && h.idx + 1 <= h.size && h.idx % 2 == 1
    requires (h.key.Some? <==> h.idx >= 0) && (h.size - h.idx - 1) / 2 == left
    ensures EntriesTo(c, t, h, es, bs, d) == DecEntries(c, t, left, WithCached(h, es), bs, d)
  {
  }

  lemma {:induction false} ValueRun(c: Decoder, s: State, key: Value, left: nat, bs: Bytes, d: nat)
    requires s.handler.MapElement? && s.handler.idx % 2 == 0 && (s.handler.size - s.handler.idx - 2) / 2 == left
    requires s.handler.key == Some(key)
    ensures Sound(s) ==>
            Run(c, s, bs, d) == Pointed(s.derefs, MadeMap(ValueTo(c, s.typ, left, key, s.val.entries, bs, d + 1)))
  {
  }

  lemma {:induction false} PairsLeft(size: nat, idx: int) returns (left: nat)
    requires size % 2 == 0 && -1 <= idx && idx + 1 < size && (idx + 1) % 2 == 0
    ensures left > 0 && (size - idx - 1) / 2 == left && (size - (idx + 1) - 2) / 2 == left - 1
    ensures idx % 2 == 1
  {
    left := (size - idx - 1) / 2;
  }

  lemma {:induction false} KeyFirst(c: Decoder, t: Type, n: nat, es: seq<Entry>, bs: Bytes, d: nat)
    requires t.TMap? && n > 0
    ensures DecEntries(c, t, n, es, bs, d) ==
            var k := Dec(c, t.key, Zero(t.key), bs, d);
            if k.Err? then Err else ValueTo(c, t, n - 1, k.value, es, k.rest, d)
  {
  }

  /** The state whose next item, a value, was begun: only the key's cache was filled. */
  function ValueBegun(s: State): State
    requires s.handler.MapElement? && s.typ.TMap? && s.val.VMap?
  {
    s.(handler := MapElement(s.handler.size, s.handler.idx + 1, s.handler.key, Some(Zero(s.typ.val))))
  }

  lemma {:induction false} ValueBegunSound(s: State)
    requires Sound(s) && s.handler.MapElement? && s.handler.idx + 1 < s.handler.size && (s.handler.idx + 1) % 2 == 1
    ensures s.handler.key.Some? && s.handler.value.None?
    ensures Sound(ValueBegun(s)) && Busy(ValueBegun(s))
  {
  }

  lemma {:induction false} MapValue(c: Decoder, s: State, bs: Bytes, d: nat)
    requires Sound(s) && s.handler.MapElement? && s.handler.idx + 1 < s.handler.size && (s.handler.idx + 1) % 2 == 1
    ensures Splits(c, s, ValueBegun(s), Fresh(Zero(s.typ.val), s.typ.val), bs, d)
  {
    ValueBegunSound(s);
    var h := s.handler;
    assert (h.size - (h.idx + 1) - 1) / 2 == (h.size - h.idx - 2) / 2;
    var r := Dec(c, s.typ.val, Zero(s.typ.val), bs, d + 1);
    if r.Ok? {
      PutSound(ValueBegun(s), r.value);
    }
  }

  // ----- structs -----

  lemma {:induction false} StructTake(c: Decoder, s: State, bs: Bytes, d: nat)
    requires Sound(s) && s.handler.StructElement?
    requires var h := s.handler;
             h.fieldIdx + 1 < |s.typ.fields| && h.dataIdx + 1 < h.size &&
             h.dataIdx + 1 == s.typ.fields[h.fieldIdx + 1].order
    ensures var k, i := s.handler.fieldIdx + 1, s.handler.dataIdx + 1;
            var s' := s.(handler := StructElement(s.handler.size, i, k));
            Sound(s') && Splits(c, s, s', Fresh(Parts(s.val)[k], s.typ.fields[k].typ), bs, d)
  {
    var k, i := s.handler.fieldIdx + 1, s.handler.dataIdx + 1;
    if StrictlyIncreasing(Orders(s.typ.fields)) {
      CursorNext(s.typ.fields, k, i);
    }
    TakeSplits(c, s, s.(handler := StructElement(s.handler.size, i, k)), s.handler.size, k, i, bs, d);
  }

  lemma {:induction false} TakeSplits(c: Decoder, s: State, s': State, size: nat, k: nat, i: nat, bs: Bytes, d: nat)
    requires Sound(s) && Sound(s') && s.handler == StructElement(size, i - 1, k - 1)
    requires s' == s.(handler := StructElement(size, i, k))
    requires k < |s.typ.fields| && i < size && i == s.typ.fields[k].order
    ensures Splits(c, s, s', Fresh(Parts(s.val)[k], s.typ.fields[k].typ), bs, d)
  {
    FieldsStep(c, s.typ, k, i, size, Parts(s.val), bs, d + 1);
    var r := Dec(c, s.typ.fields[k].typ, Parts(s.val)[k], bs, d + 1);
    if r.Ok? {
      PutElement(s, StructElement(size, i, k), k, r.value);
    }
  }

  lemma {:induction false} StructPass(c: Decoder, s: State, bs: Bytes, d: nat)
    requires Sound(s) && s.handler.StructElement?
    requires var h := s.handler;
             h.fieldIdx + 1 < |s.typ.fields| && h.dataIdx + 1 < h.size &&
             h.dataIdx + 1 < s.typ.fields[h.fieldIdx + 1].order
    ensures var s' := s.(handler := StructElement(s.handler.size, s.handler.dataIdx + 1, s.handler.fieldIdx));
            && Sound(s')
            && Run(c, s, bs, d) == var rest := SkipMany(c.popSkip, 1, bs);
                                   if rest.None? then Err else Run(c, s', rest.value, d)
  {
    var k, i := s.handler.fieldIdx + 1, s.handler.dataIdx + 1;
    PassRun(c, s, s.(handler := StructElement(s.handler.size, i, k - 1)), s.handler.size, k, i, bs, d);
  }

  lemma {:induction false} PassRun(c: Decoder, s: State, s': State, size: nat, k: nat, i: nat, bs: Bytes, d: nat)
    requires Sound(s) && Sound(s') && s.handler == StructElement(size, i - 1, k - 1)
    requires s' == s.(handler := StructElement(size, i, k - 1))
    requires k < |s.typ.fields| && i < size && i < s.typ.fields[k].order
    ensures Run(c, s, bs, d) == var rest := SkipMany(c.popSkip, 1, bs);
                                if rest.None? then Err else Run(c, s', rest.value, d)
  {
    FieldsPass(c, s.typ, k, i, size, Parts(s.val), bs, d + 1);
    StructRun(c, s, bs, d);
    var rest := SkipMany(c.popSkip, 1, bs);
    if rest.Some? {
      StructRun(c, s', rest.value, d);
    }
  }

  lemma {:induction false} FieldsPass(c: Decoder, t: Type, k: nat, i: nat, size: nat, vs: seq<Value>, bs: Bytes, d: nat)
    requires t.TStruct? && k < |vs| == |t.fields| && i < size && i < t.fields[k].order
    ensures DecFields(c, t, k, i, size, vs, bs, d) ==
            var rest := SkipMany(c.popSkip, 1, bs);
            if rest.None? then Err else DecFields(c, t, k, i + 1, size, vs, rest.value, d)
  {
    FieldsStep(c, t, k, i, size, vs, bs, d);
    SkipOnce(c.popSkip, bs);
  }

  lemma {:induction false} SkipOnce(pop: bool, bs: Bytes)
    ensures SkipMany(pop, 1, bs) == if Skim(pop, bs).Err? then None else Some(Skim(pop, bs).rest)
  {
    if Skim(pop, bs).Ok? {
      assert SkipMany(pop, 0, Skim(pop, bs).rest) == Some(Skim(pop, bs).rest);
    }
  }

  /** An item beyond the next field's order cannot be reached with strictly increasing orders. */
  lemma {:induction false} StructIllegal(c: Decoder, s: State, bs: Bytes, d: nat)
    requires Sound(s) && s.handler.StructElement?
    requires var h := s.handler;
             h.fieldIdx + 1 < |s.typ.fields| && h.dataIdx + 1 < h.size &&
             h.dataIdx + 1 > s.typ.fields[h.fieldIdx + 1].order
    ensures Run(c, s, bs, d) == Err && !StrictlyIncreasing(Orders(s.typ.fields))
  {
    FieldsStep(c, s.typ, s.handler.fieldIdx + 1, s.handler.dataIdx + 1, s.handler.size, Parts(s.val), bs, d + 1);
  }

  /** The fields without an item are zeroed, and the items without a field are skipped. */
  lemma {:induction false} StructDone(c: Decoder, s: State, bs: Bytes, d: nat)
    requires c.events && Sound(s) && s.handler.StructElement?
    requires s.handler.fieldIdx + 1 == |s.typ.fields| || s.handler.dataIdx + 1 == s.handler.size
    ensures var k := s.handler.fieldIdx + 1;
            var rest := SkipMany(c.popSkip, s.handler.size - s.handler.dataIdx - 1, bs);
            Run(c, s, bs, d) == if rest.None? then Err
                                else
                                  Ok(Wrap(s.derefs, VStruct(Parts(s.val)[..k] + Zeros(s.typ.fields)[k..])), rest.value)
  {
    StructRun(c, s, bs, d);
    FieldsOver(c, s.typ, s.handler.fieldIdx + 1, s.handler.dataIdx + 1, s.handler.size, Parts(s.val), bs, d + 1);
  }

  lemma {:induction false} FieldsOver(c: Decoder, t: Type, k: nat, i: nat, size: nat, vs: seq<Value>, bs: Bytes, d: nat)
    requires c.events && t.TStruct? && k <= |vs| == |t.fields| && i <= size && (k == |vs| || i == size)
    ensures DecFields(c, t, k, i, size, vs, bs, d) ==
            var rest := SkipMany(c.popSkip, size - i, bs);
            if rest.None? then Err else Ok(VStruct(vs[..k] + Zeros(t.fields)[k..]), rest.value)
  {
  }

  // ----- the steps as the context takes them -----

  lemma {:induction false} SliceAdvances(run: Runner, c: Decoder, s: State, bs: Bytes, d: nat)
    requires Runs(run, c) && Sound(s) && s.handler.SliceElement?
    ensures var h := s.handler; var j := h.idx + 1;
            if j < h.size then
              Advances(run, s, s.(handler := SliceElement(h.size, j)), Fresh(Parts(s.val)[j], s.typ.elem), bs, d)
            else run(s, bs, d) == Ok(Wrap(s.derefs, s.val), bs)
  {
    var h := s.handler; var j := h.idx + 1;
    if j < h.size {
      SliceNext(c, s, bs, d);
      SplitsPush(run, c, s, s.(handler := SliceElement(h.size, j)), Fresh(Parts(s.val)[j], s.typ.elem), bs, d);
    } else {
      SliceDone(c, s, bs, d);
    }
  }

  lemma {:induction false} ArrayAdvances(run: Runner, c: Decoder, s: State, bs: Bytes, d: nat)
    requires Runs(run, c) && Sound(s) && s.handler.ArrayElement?
    requires s.handler.idx + 1 < s.handler.size && s.handler.idx + 1 < s.handler.valueSize
    ensures var h := s.handler; var j := h.idx + 1;
            Advances(run, s, s.(handler := ArrayElement(h.size, j, h.valueSize)),
                     Fresh(Parts(s.val)[j], s.typ.elem), bs, d)
  {
    var h := s.handler; var j := h.idx + 1;
    ArrayNext(c, s, bs, d);
    SplitsPush(run, c, s, s.(handler := ArrayElement(h.size, j, h.valueSize)),
               Fresh(Parts(s.val)[j], s.typ.elem), bs, d);
  }

  lemma {:induction false} ArrayEnds(run: Runner, c: Decoder, s: State, surplus: nat, bs: Bytes, d: nat)
    requires Runs(run, c) && Sound(s) && s.handler.ArrayElement?
    requires s.handler.idx + 1 >= s.handler.size || s.handler.idx + 1 >= s.handler.valueSize
    requires surplus == if s.handler.size > s.handler.valueSize then s.handler.size - s.handler.valueSize else 0
    ensures var rest := SkipMany(c.popSkip, surplus, bs);
            run(s, bs, d) == if rest.None? then Err else Ok(Wrap(s.derefs, s.val), rest.value)
  {
    ArrayEndIndex(s, surplus);
    ArrayOver(c, s, surplus, bs, d);
  }

  lemma {:induction false} ArrayEndIndex(s: State, surplus: nat)
    requires Sound(s) && s.handler.ArrayElement?
    requires s.handler.idx + 1 >= s.handler.size || s.handler.idx + 1 >= s.handler.valueSize
    requires surplus == if s.handler.size > s.handler.valueSize then s.handler.size - s.handler.valueSize else 0
    ensures s.handler.idx + 1 == Min(s.handler.size, s.handler.valueSize)
    ensures surplus == s.handler.size - s.handler.idx - 1
  {
  }

  lemma {:induction false} ArrayOver(c: Decoder, s: State, surplus: nat, bs: Bytes, d: nat)
    requires Sound(s) && s.handler.ArrayElement?
    requires s.handler.idx + 1 == Min(s.handler.size, s.handler.valueSize)
    requires surplus == s.handler.size - s.handler.idx - 1
    ensures var rest := SkipMany(c.popSkip, surplus, bs);
            Run(c, s, bs, d) == if rest.None? then Err else Ok(Wrap(s.derefs, s.val), rest.value)
  {
    ArrayDone(c, s, bs, d);
  }

  lemma {:induction false} BytesAdvances(run: Runner, c: Decoder, s: State, bs: Bytes, d: nat)
    requires Runs(run, c) && Sound(s) && s.handler.String2ArraySlice?
    ensures var h := s.handler; var j := h.idx + 1;
            if j < h.valueSize && j < |h.buf| then
              Advances(run, s, s.(handler := String2ArraySlice(h.buf, j, h.valueSize)),
                       OneByteState(Parts(s.val)[j], s.typ.elem, h.buf[j]), bs, d)
            else run(s, bs, d) == Ok(Wrap(s.derefs, s.val), bs)
  {
    var h := s.handler; var j := h.idx + 1;
    if j < h.valueSize && j < |h.buf| {
      BytesNext(c, s, bs, d);
      BytesWeight(s, j);
      SplitsPush(run, c, s, s.(handler := String2ArraySlice(h.buf, j, h.valueSize)),
                 OneByteState(Parts(s.val)[j], s.typ.elem, h.buf[j]), bs, d);
    } else {
      BytesEnd(c, s, bs, d);
    }
  }

  lemma {:induction false} KeyAdvances(run: Runner, c: Decoder, s: State, bs: Bytes, d: nat)
    requires Runs(run, c) && Sound(s) && s.handler.MapElement? && s.handler.idx + 1 < s.handler.size
    requires (s.handler.idx + 1) % 2 == 0
    ensures Advances(run, s, KeyBegun(s), Fresh(Zero(s.typ.key), s.typ.key), bs, d)
  {
    KeyBegunSound(s);
    MapKey(c, s, bs, d);
    SplitsPush(run, c, s, KeyBegun(s), Fresh(Zero(s.typ.key), s.typ.key), bs, d);
  }

  lemma {:induction false} ValueAdvances(run: Runner, c: Decoder, s: State, bs: Bytes, d: nat)
    requires Runs(run, c) && Sound(s) && s.handler.MapElement? && s.handler.idx + 1 < s.handler.size
    requires (s.handler.idx + 1) % 2 == 1
    ensures Advances(run, s, ValueBegun(s), Fresh(Zero(s.typ.val), s.typ.val), bs, d)
  {
    ValueBegunSound(s);
    MapValue(c, s, bs, d);
    SplitsPush(run, c, s, ValueBegun(s), Fresh(Zero(s.typ.val), s.typ.val), bs, d);
  }

  lemma {:induction false} MapEnds(run: Runner, c: Decoder, s: State, bs: Bytes, d: nat)
    requires Runs(run, c) && Sound(s) && s.handler.MapElement? && s.handler.idx + 1 == s.handler.size
    ensures run(s, bs, d) == Ok(Wrap(s.derefs, Stored(s).val), bs)
  {
    MapDone(c, s, bs, d);
  }

  lemma {:induction false} TakeAdvances(run: Runner, c: Decoder, s: State, bs: Bytes, d: nat)
    requires Runs(run, c) && Sound(s) && s.handler.StructElement?
    requires var h := s.handler;
             h.fieldIdx + 1 < |s.typ.fields| && h.dataIdx + 1 < h.size &&
             h.dataIdx + 1 == s.typ.fields[h.fieldIdx + 1].order
    ensures var k, i := s.handler.fieldIdx + 1, s.handler.dataIdx + 1;
            Advances(run, s, s.(handler := StructElement(s.handler.size, i, k)),
                     Fresh(Parts(s.val)[k], s.typ.fields[k].typ), bs, d)
  {
    var k, i := s.handler.fieldIdx + 1, s.handler.dataIdx + 1;
    StructTake(c, s, bs, d);
    SplitsPush(run, c, s, s.(handler := StructElement(s.handler.size, i, k)),
               Fresh(Parts(s.val)[k], s.typ.fields[k].typ), bs, d);
  }

  lemma {:induction false} PassBecomes(run: Runner, c: Decoder, s: State, bs: Bytes, d: nat)
    requires Runs(run, c) && Sound(s) && s.handler.StructElement?
    requires var h := s.handler;
             h.fieldIdx + 1 < |s.typ.fields| && h.dataIdx + 1 < h.size &&
             h.dataIdx + 1 < s.typ.fields[h.fieldIdx + 1].order
    ensures var s' := s.(handler := StructElement(s.handler.size, s.handler.dataIdx + 1, s.handler.fieldIdx));
            var rest := SkipMany(c.popSkip, 1, bs);
            if rest.None? then run(s, bs, d) == Err else Becomes(run, s, bs, s', rest.value, d)
  {
    StructPass(c, s, bs, d);
    SkipOnce(c.popSkip, bs);
    var s' := s.(handler := StructElement(s.handler.size, s.handler.dataIdx + 1, s.handler.fieldIdx));
    var rest := SkipMany(c.popSkip, 1, bs);
    if rest.Some? {
      assert run(s', rest.value, d) == Run(c, s', rest.value, d);
    }
    assert run(s, bs, d) == Run(c, s, bs, d);
  }

  lemma {:induction false} StructFails(run: Runner, c: Decoder, s: State, bs: Bytes, d: nat)
    requires Runs(run, c) && Sound(s) && s.handler.StructElement?
    requires var h := s.handler;
             h.fieldIdx + 1 < |s.typ.fields| && h.dataIdx + 1 < h.size &&
             h.dataIdx + 1 > s.typ.fields[h.fieldIdx + 1].order
    ensures run(s, bs, d) == Err && !StrictlyIncreasing(Orders(s.typ.fields))
  {
    StructIllegal(c, s, bs, d);
  }

  lemma {:induction false} StructEnds(run: Runner, c: Decoder, s: State, bs: Bytes, d: nat)
    requires Runs(run, c) && c.events && Sound(s) && s.handler.StructElement?
    requires s.handler.fieldIdx + 1 == |s.typ.fields| || s.handler.dataIdx + 1 == s.handler.size
    ensures var k := s.handler.fieldIdx + 1;
            var rest := SkipMany(c.popSkip, s.handler.size - s.handler.dataIdx - 1, bs);
            run(s, bs, d) == if rest.None? then Err
                             else Ok(Wrap(s.derefs, VStruct(Parts(s.val)[..k] + Zeros(s.typ.fields)[k..])), rest.value)
  {
    StructDone(c, s, bs, d);
  }
}
