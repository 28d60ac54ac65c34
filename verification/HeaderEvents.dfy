/** What a header means for the value on top of the stack. */
module HeaderEvents {
  import opened Numeric
  import opened Wrappers
  import opened Wire
  import opened Values
  import opened Decoding
  import opened Schema
  import opened Cursors
  import opened Machine
  import opened Effort
  import opened Steps

  function HeadOfState(s: State): Head {
    Head(s.th, s.length, s.buf)
  }

  /** A state whose header was read and whose handler was not made yet. */
  predicate Headed(s: State) {
    s.handler.NoHandler? && !s.th.THInvalid?
  }

  predicate IsPlain(t: Type) {
    t.TInt? || t.TUint? || t.TBool? || t.TString? || t.TBigInt?
  }

  /** The value of a type without parts. */
  function PlainValue(c: Decoder, t: Type, h: Head): Option<Value> {
    match t
    case TInt(w) => DecInt(c, w, h)
    case TUint(w) => DecUint(c, w, h)
    case TBool => DecBool(h)
    case TString => DecString(h)
    case TBigInt => DecBigInt(c, h)
    case _ => None
  }

  lemma {:induction false} HeadedRun(run: Runner, c: Decoder, s: State, bs: Bytes, d: nat)
    requires Runs(run, c) && Headed(s) && Sound(s)
    ensures run(s, bs, d) == Pointed(s.derefs, DecHead(c, s.typ, s.val, HeadOfState(s), bs, d))
  {
    assert run(s, bs, d) == Run(c, s, bs, d);
  }

  lemma {:induction false} PlainRuns(run: Runner, c: Decoder, s: State, bs: Bytes, d: nat)
    requires Runs(run, c) && c.events && Headed(s) && Sound(s) && IsPlain(s.typ)
    ensures var x := PlainValue(c, s.typ, HeadOfState(s));
            run(s, bs, d) == if x.None? then Err else Ok(Wrap(s.derefs, x.value), bs)
  {
    HeadedRun(run, c, s, bs, d);
  }

  lemma {:induction false} ZeroRuns(run: Runner, c: Decoder, s: State, bs: Bytes, d: nat)
    requires Runs(run, c) && c.events && Headed(s) && Sound(s) && s.th.THZeroValue?
    ensures run(s, bs, d) == Ok(Wrap(s.derefs, Zero(s.typ)), bs)
  {
    HeadedRun(run, c, s, bs, d);
    ZeroHead(c, s.typ, s.val, HeadOfState(s), bs, d);
  }

  // ----- pointers -----

  lemma {:induction false} WrapPointer(n: nat, v: Value)
    ensures Wrap(n + 1, v) == Wrap(n, VPtr(v))
  {
    if n > 0 {
      WrapPointer(n - 1, v);
    }
  }

  /** The value a pointer leads to, made new for a nil pointer. */
  function Target(s: State): Value
    requires s.typ.TPtr?
  {
    if s.val.VPtr? then s.val.target else Zero(s.typ.elem)
  }

  lemma {:induction false} PointerBecomes(run: Runner, c: Decoder, s: State, bs: Bytes, d: nat)
    requires Runs(run, c) && c.events && Headed(s) && Sound(s) && s.typ.TPtr? && !s.th.THZeroValue?
    ensures Becomes(run, s, bs, s.(val := Target(s), typ := s.typ.elem, derefs := s.derefs + 1), bs, d)
  {
    var s' := s.(val := Target(s), typ := s.typ.elem, derefs := s.derefs + 1);
    HeadedRun(run, c, s, bs, d);
    HeadedRun(run, c, s', bs, d);
    var r := DecHead(c, s.typ.elem, Target(s), HeadOfState(s), bs, d);
    if r.Ok? {
      WrapPointer(s.derefs, r.value);
    }
  }

  // ----- arrays and slices -----

  lemma {:induction false} ArrayHead(c: Decoder, t: Type, prev: Value, h: Head, bs: Bytes, d: nat)
    requires c.events && t.TArray? && h.th.IsArray()
    ensures var xs := Elements(t.elem, t.len, prev);
            DecHead(c, t, prev, h, bs, d) ==
            Skipped(c, h.n - Min(h.n, |xs|), Made(VArray(xs), ElemsTo(c, t.elem, h.n, xs, 0, bs, d + 1)))
  {
    ElemsFromStart(c, t.elem, h.n, Elements(t.elem, t.len, prev), bs, d + 1);
  }

  lemma {:induction false} ArrayBecomes(run: Runner, c: Decoder, s: State, bs: Bytes, d: nat)
    requires Runs(run, c) && c.events && Headed(s) && Sound(s) && s.typ.TArray? && s.th.IsArray()
    ensures var xs := Elements(s.typ.elem, s.typ.len, s.val);
            Becomes(run, s, bs, s.(val := VArray(xs), handler := ArrayElement(s.length, -1, |xs|)), bs, d)
  {
    var xs := Elements(s.typ.elem, s.typ.len, s.val);
    var s' := s.(val := VArray(xs), handler := ArrayElement(s.length, -1, |xs|));
    NestedWeight(s.typ, s.length);
    HeadedRun(run, c, s, bs, d);
    ArrayHead(c, s.typ, s.val, HeadOfState(s), bs, d);
    ArrayRun(c, s', bs, d);
    assert run(s', bs, d) == Run(c, s', bs, d);
  }

  lemma {:induction false} SliceHead(c: Decoder, t: Type, prev: Value, h: Head, bs: Bytes, d: nat)
    requires c.events && t.TSlice? && h.th.IsArray()
    ensures var xs := Resize(t.elem, prev, h.n);
            DecHead(c, t, prev, h, bs, d) == Made(Refilled(prev, xs), ElemsTo(c, t.elem, h.n, xs, 0, bs, d + 1))
  {
    var xs := Resize(t.elem, prev, h.n);
    ElemsFromStart(c, t.elem, h.n, xs, bs, d + 1);
    assert xs[..h.n] == xs && xs[h.n..] == [];
    var r := DecElems(c, t.elem, xs, bs, d + 1);
    assert r.Ok? ==> r.value + [] == r.value;
  }

  lemma {:induction false} SliceBecomes(run: Runner, c: Decoder, s: State, bs: Bytes, d: nat)
    requires Runs(run, c) && c.events && Headed(s) && Sound(s) && s.typ.TSlice? && s.th.IsArray()
    ensures var xs := Resize(s.typ.elem, s.val, s.length);
            Becomes(run, s, bs, s.(val := Refilled(s.val, xs), handler := SliceElement(s.length, -1)), bs, d)
  {
    var xs := Resize(s.typ.elem, s.val, s.length);
    var s' := s.(val := Refilled(s.val, xs), handler := SliceElement(s.length, -1));
    NestedWeight(s.typ, s.length);
    HeadedRun(run, c, s, bs, d);
    SliceHead(c, s.typ, s.val, HeadOfState(s), bs, d);
    SliceRun(c, s', bs, d);
    assert run(s', bs, d) == Run(c, s', bs, d);
  }

  /** The destination of a string in an array or slice: a slice is resized to the string. */
  function Room(t: Type, prev: Value, text: Bytes): seq<Value>
    requires t.TArray? || t.TSlice?
  {
    if t.TArray? then Elements(t.elem, t.len, prev) else Resize(t.elem, prev, |text|)
  }

  function Roomy(t: Type, xs: seq<Value>): Value {
    if t.TArray? then VArray(xs) else VSlice(xs, [])
  }

  /** The bytes of a string or single byte, for elements that are bytes. */
  function Copied(text: Bytes, room: seq<Value>): seq<Value> {
    var m := Min(|text|, |room|);
    ByteValues(text[..m]) + room[m..]
  }

  lemma {:induction false} CopyRuns(run: Runner, c: Decoder, s: State, bs: Bytes, d: nat)
    requires Runs(run, c) && c.events && Headed(s) && Sound(s) && (s.th.THSingleByte? || s.th.IsString())
    requires (s.typ.TArray? || s.typ.TSlice?) && s.typ.elem == BYTE
    ensures var text := Text(HeadOfState(s));
            run(s, bs, d) == Ok(Wrap(s.derefs, Roomy(s.typ, Copied(text, Room(s.typ, s.val, text)))), bs)
  {
    HeadedRun(run, c, s, bs, d);
    CopyHead(c, s.typ, s.val, HeadOfState(s), bs, d);
  }

  lemma {:induction false} CopyHead(c: Decoder, t: Type, prev: Value, h: Head, bs: Bytes, d: nat)
    requires c.events && (t.TArray? || t.TSlice?) && t.elem == BYTE && (h.th.THSingleByte? || h.th.IsString())
    requires Text(h) != []
    ensures DecHead(c, t, prev, h, bs, d) == Ok(Roomy(t, Copied(Text(h), Room(t, prev, Text(h)))), bs)
  {
    var xs := Copied(Text(h), Room(t, prev, Text(h)));
    assert Fill(c, t.elem, Room(t, prev, Text(h)), h, bs, d) == Ok(xs, bs);
    assert t.TSlice? ==> xs != [];
  }

  lemma {:induction false} FillHead(c: Decoder, t: Type, prev: Value, h: Head, bs: Bytes, d: nat)
    requires c.events && (t.TArray? || t.TSlice?) && t.elem != BYTE && (h.th.THSingleByte? || h.th.IsString())
    requires Text(h) != []
    ensures var room := Room(t, prev, Text(h));
            DecHead(c, t, prev, h, bs, d) == Made(Roomy(t, room), BytesTo(c, t.elem, Text(h), room, 0, bs, d + 1))
  {
    var room := Room(t, prev, Text(h));
    FillIsBytes(c, t.elem, room, h, bs, d);
    var r := Fill(c, t.elem, room, h, bs, d);
    assert t.TSlice? ==> room != [];
  }

  /** The state whose bytes are read one by one. */
  function Spelled(s: State): State
    requires s.typ.TArray? || s.typ.TSlice?
  {
    var text := Text(HeadOfState(s));
    var room := Room(s.typ, s.val, text);
    s.(val := Roomy(s.typ, room), handler := String2ArraySlice(text, -1, |room|))
  }

  lemma {:induction false} SpelledSound(s: State)
    requires Headed(s) && Sound(s) && (s.th.THSingleByte? || s.th.IsString()) && (s.typ.TArray? || s.typ.TSlice?)
    ensures Sound(Spelled(s)) && Weight(Spelled(s)) < Weight(s)
  {
    NestedWeight(s.typ, |Text(HeadOfState(s))|);
  }

  lemma {:induction false} BytesBecomes(run: Runner, c: Decoder, s: State, bs: Bytes, d: nat)
    requires Runs(run, c) && c.events && Headed(s) && Sound(s) && (s.th.THSingleByte? || s.th.IsString())
    requires (s.typ.TArray? || s.typ.TSlice?) && s.typ.elem != BYTE
    ensures Becomes(run, s, bs, Spelled(s), bs, d)
  {
    SpelledSound(s);
    HeadedRun(run, c, s, bs, d);
    FillHead(c, s.typ, s.val, HeadOfState(s), bs, d);
    BytesRun(c, Spelled(s), bs, d);
    assert run(Spelled(s), bs, d) == Run(c, Spelled(s), bs, d);
  }

  // ----- maps and structs -----

  lemma {:induction false} MapBecomes(run: Runner, c: Decoder, s: State, bs: Bytes, d: nat)
    requires Runs(run, c) && c.events && Headed(s) && Sound(s) && s.typ.TMap? && s.th.IsArray() && s.length % 2 == 0
    ensures var es := if s.val.VMap? then s.val.entries else [];
            Becomes(run, s, bs, s.(val := VMap(es), handler := MapElement(s.length, -1, None, None)), bs, d)
  {
    var es := if s.val.VMap? then s.val.entries else [];
    var s' := s.(val := VMap(es), handler := MapElement(s.length, -1, None, None));
    HeadedRun(run, c, s, bs, d);
    KeyRun(c, s', s.length / 2, bs, d);
    assert run(s', bs, d) == Run(c, s', bs, d);
  }

  lemma {:induction false} StructBecomes(run: Runner, c: Decoder, s: State, bs: Bytes, d: nat)
    requires Runs(run, c) && c.events && Headed(s) && Sound(s) && s.typ.TStruct? && s.th.IsArray()
    ensures var xs := FieldValues(s.typ.fields, s.val);
            Becomes(run, s, bs, s.(val := VStruct(xs), handler := StructElement(s.length, -1, -1)), bs, d)
  {
    var s' := s.(val := VStruct(FieldValues(s.typ.fields, s.val)), handler := StructElement(s.length, -1, -1));
    HeadedRun(run, c, s, bs, d);
    assert run(s', bs, d) == Run(c, s', bs, d);
  }

  lemma {:induction false} EmptyRuns(run: Runner, c: Decoder, s: State, bs: Bytes, d: nat)
    requires Runs(run, c) && c.events && Headed(s) && Sound(s) && (s.typ.TSlice? || s.typ.TMap?) && s.th.THEmpty?
    ensures run(s, bs, d) == Ok(Wrap(s.derefs, if s.typ.TSlice? then VSlice([], []) else VMap([])), bs)
  {
    HeadedRun(run, c, s, bs, d);
  }

  /** The headers a type with parts does not take. */
  lemma {:induction false} Refused(run: Runner, c: Decoder, s: State, bs: Bytes, d: nat)
    requires Runs(run, c) && c.events && Headed(s) && Sound(s) && !IsPlain(s.typ) && !s.typ.TPtr? && !s.th.THZeroValue?
    requires s.th.IsArray() ==> s.typ.TMap? && s.length % 2 == 1
    requires s.th.THSingleByte? || s.th.IsString() ==> s.typ.TMap? || s.typ.TStruct?
    requires s.th.THEmpty? ==> s.typ.TArray? || s.typ.TStruct?
    ensures run(s, bs, d) == Err
  {
    HeadedRun(run, c, s, bs, d);
  }

  // ----- reading the header -----

  lemma {:induction false} HeadSound(bs: Bytes)
    ensures var h := ReadHead(true, bs);
            h.Ok? ==> (h.value.th.THSingleByte? ==> h.value.n < 0x100) && (h.value.th.IsString() ==> h.value.buf != [])
  {
  }

  lemma {:induction false} FreshBecomes(run: Runner, c: Decoder, s: State, bs: Bytes, d: nat)
    requires Runs(run, c) && c.events && Sound(s) && s.handler.NoHandler? && s.th.THInvalid?
    ensures var h := ReadHead(true, bs);
            if h.Err? then run(s, bs, d) == Err
            else Becomes(run, s, bs, s.(th := h.value.th, length := h.value.n, buf := h.value.buf), h.rest, d)
  {
    HeadSound(bs);
    assert run(s, bs, d) == Run(c, s, bs, d);
    var h := ReadHead(true, bs);
    if h.Ok? {
      HeadedRun(run, c, s.(th := h.value.th, length := h.value.n, buf := h.value.buf), h.rest, d);
    }
  }
}
