/** The event handlers of the kinds: what the header of the value on top of the stack does to it. */
module KindHandlers {
  import opened Numeric
  import opened Wrappers
  import opened Wire
  import opened Values
  import opened Decoding
  import opened Machine
  import opened Effort
  import opened HeaderEvents
  import opened Context

  // ----- values without parts -----

  method IntHandler(ghost c: Decoder, w: Width, h: Head) returns (r: Option<Value>)
    requires c.events
    ensures r == DecInt(c, w, h)
  {
    if h.th.THSingleByte? {
      return Some(VInt(WrapInt(w, h.n)));
    } else if h.th.THZeroValue? {
      return Some(VInt(0));
    } else if h.th.IsNumber() {
      var isPositive := h.th.IsPositive();
      if |h.buf| > 8 {
        return None;
      }
      return Some(VInt(WrapInt(w, BytesToInt64(h.buf, !isPositive))));
    }
    return None;
  }

  method UintHandler(ghost c: Decoder, w: Width, h: Head) returns (r: Option<Value>)
    requires c.events
    ensures r == DecUint(c, w, h)
  {
    if h.th.THSingleByte? {
      return Some(VUint(WrapUint(w, h.n)));
    } else if h.th.THZeroValue? {
      return Some(VUint(0));
    } else if h.th.IsNumber() {
      if !h.th.IsPositive() {
        return None;
      }
      if |h.buf| > 8 {
        return None;
      }
      return Some(VUint(WrapUint(w, BytesToUint64(h.buf))));
    }
    return None;
  }

  method BoolHandler(h: Head) returns (r: Option<Value>)
    ensures r == DecBool(h)
  {
    if h.th.THZeroValue? {
      return Some(VBool(false));
    } else if h.th.THTrue? {
      return Some(VBool(true));
    }
    return None;
  }

  method StringHandler(h: Head) returns (r: Option<Value>)
    ensures r == DecString(h)
  {
    if h.th.THSingleByte? {
      return Some(VString([h.n % 0x100]));
    } else if h.th.THZeroValue? {
      return Some(VString([]));
    } else if h.th.IsString() {
      return Some(VString(h.buf));
    }
    return None;
  }

  /** Every number goes through its bytes, so none is too large. */
  method BigIntPtrHandler(ghost c: Decoder, h: Head) returns (r: Option<Value>)
    requires c.events
    ensures r == DecBigInt(c, h)
  {
    if h.th.THSingleByte? {
      return Some(VBig(h.n));
    } else if h.th.THZeroValue? {
      return Some(VNil);
    } else if h.th.IsNumber() {
      var isPositive := h.th.IsPositive();
      var i: int := ValueOf(h.buf);
      if !isPositive {
        i := -i;
      }
      return Some(VBig(i));
    }
    return None;
  }

  method PlainEvent(ghost c: Decoder, t: Type, h: Head) returns (x: Option<Value>)
    requires c.events && IsPlain(t)
    ensures x == PlainValue(c, t, h)
  {
    match t {
      case TInt(w) => x := IntHandler(c, w, h);
      case TUint(w) => x := UintHandler(c, w, h);
      case TBool => x := BoolHandler(h);
      case TString => x := StringHandler(h);
      case TBigInt => x := BigIntPtrHandler(c, h);
    }
  }

  /** What a header for a type without parts leads to. */
  lemma {:induction false} TopPlain(ctx: HandleContext)
    requires ctx.Valid() && ctx.stack != [] && Headed(ctx.stack[|ctx.stack| - 1])
    requires IsPlain(ctx.stack[|ctx.stack| - 1].typ)
    ensures var s := ctx.stack[|ctx.stack| - 1];
            var x := PlainValue(ctx.Events(), s.typ, HeadOfState(s));
            ctx.TopRun() == if x.None? then Err else Ok(Wrap(s.derefs, x.value), ctx.vr.Rest())
  {
    PlainRuns(ctx.run, ctx.Events(), ctx.stack[|ctx.stack| - 1], ctx.vr.Rest(), |ctx.stack| - 1);
  }

  method PlainHandler(ctx: HandleContext) returns (ok: bool)
    requires ctx.Valid() && ctx.stack != [] && Headed(ctx.stack[|ctx.stack| - 1])
    requires IsPlain(ctx.stack[|ctx.stack| - 1].typ)
    modifies ctx
    ensures ctx.vr.Valid() && (!ok ==> old(ctx.End()) == Err)
    ensures ok ==> ctx.Valid() && ctx.End() == old(ctx.End()) && StackWeight(ctx.stack) < old(StackWeight(ctx.stack))
  {
    var s := ctx.stack[|ctx.stack| - 1];
    var h := HeadOfState(s);
    TopPlain(ctx);
    var x := PlainEvent(ctx.Events(), s.typ, h);
    if x.None? {
      ctx.Failed();
      return false;
    }
    ctx.Settle(x.value, ctx.vr.Rest());
    return true;
  }

  // ----- pointers -----

  /** Zero makes the pointer nil; every other header goes to the value pointed to, made new if it is nil. */
  method PointerHandler(ctx: HandleContext)
    requires ctx.Valid() && ctx.stack != [] && Headed(ctx.stack[|ctx.stack| - 1])
    requires ctx.stack[|ctx.stack| - 1].typ.TPtr?
    modifies ctx
    ensures ctx.Valid() && ctx.End() == old(ctx.End()) && StackWeight(ctx.stack) < old(StackWeight(ctx.stack))
  {
    var s := ctx.stack[|ctx.stack| - 1];
    if s.th.THZeroValue? {
      ZeroRuns(ctx.run, ctx.Events(), s, ctx.vr.Rest(), |ctx.stack| - 1);
      ctx.Settle(Zero(s.typ), ctx.vr.Rest());
    } else {
      var target := if s.val.VPtr? then s.val.target else Zero(s.typ.elem);
      PointerBecomes(ctx.run, ctx.Events(), s, ctx.vr.Rest(), |ctx.stack| - 1);
      ctx.Through(target, s.typ.elem);
    }
  }

  // ----- arrays and slices -----

  method ArrayHandler(ctx: HandleContext) returns (ok: bool)
    requires ctx.Valid() && ctx.stack != [] && Headed(ctx.stack[|ctx.stack| - 1])
    requires ctx.stack[|ctx.stack| - 1].typ.TArray?
    modifies ctx
    ensures ctx.vr.Valid() && (!ok ==> old(ctx.End()) == Err)
    ensures ok ==> ctx.Valid() && ctx.End() == old(ctx.End()) && StackWeight(ctx.stack) < old(StackWeight(ctx.stack))
  {
    var s := ctx.stack[|ctx.stack| - 1];
    ok := true;
    if s.th.THZeroValue? {
      ZeroRuns(ctx.run, ctx.Events(), s, ctx.vr.Rest(), |ctx.stack| - 1);
      ctx.Settle(Zero(s.typ), ctx.vr.Rest());
    } else if s.th.THSingleByte? || s.th.IsString() {
      BytesIn(ctx);
    } else if s.th.IsArray() {
      var xs := Elements(s.typ.elem, s.typ.len, s.val);
      ArrayBecomes(ctx.run, ctx.Events(), s, ctx.vr.Rest(), |ctx.stack| - 1);
      ctx.Nest(VArray(xs), ArrayElement(s.length, -1, |xs|));
    } else {
      Refused(ctx.run, ctx.Events(), s, ctx.vr.Rest(), |ctx.stack| - 1);
      ctx.Failed();
      ok := false;
    }
  }

  method SliceHandler(ctx: HandleContext) returns (ok: bool)
    requires ctx.Valid() && ctx.stack != [] && Headed(ctx.stack[|ctx.stack| - 1])
    requires ctx.stack[|ctx.stack| - 1].typ.TSlice?
    modifies ctx
    ensures ctx.vr.Valid() && (!ok ==> old(ctx.End()) == Err)
    ensures ok ==> ctx.Valid() && ctx.End() == old(ctx.End()) && StackWeight(ctx.stack) < old(StackWeight(ctx.stack))
  {
    var s := ctx.stack[|ctx.stack| - 1];
    ok := true;
    if s.th.THZeroValue? {
      ZeroRuns(ctx.run, ctx.Events(), s, ctx.vr.Rest(), |ctx.stack| - 1);
      ctx.Settle(Zero(s.typ), ctx.vr.Rest());
    } else if s.th.THEmpty? {
      EmptyRuns(ctx.run, ctx.Events(), s, ctx.vr.Rest(), |ctx.stack| - 1);
      ctx.Settle(VSlice([], []), ctx.vr.Rest());
    } else if s.th.THSingleByte? || s.th.IsString() {
      BytesIn(ctx);
    } else if s.th.IsArray() {
      var xs := Resize(s.typ.elem, s.val, s.length);
      SliceBecomes(ctx.run, ctx.Events(), s, ctx.vr.Rest(), |ctx.stack| - 1);
      ctx.Nest(Refilled(s.val, xs), SliceElement(s.length, -1));
    } else {
      Refused(ctx.run, ctx.Events(), s, ctx.vr.Rest(), |ctx.stack| - 1);
      ctx.Failed();
      ok := false;
    }
  }

  /** The bytes of a string or single byte: copied into bytes, spelled out for other elements. */
  method BytesIn(ctx: HandleContext)
    requires ctx.Valid() && ctx.stack != [] && Headed(ctx.stack[|ctx.stack| - 1])
    requires ctx.stack[|ctx.stack| - 1].typ.TArray? || ctx.stack[|ctx.stack| - 1].typ.TSlice?
    requires ctx.stack[|ctx.stack| - 1].th.THSingleByte? || ctx.stack[|ctx.stack| - 1].th.IsString()
    modifies ctx
    ensures ctx.Valid() && ctx.End() == old(ctx.End()) && StackWeight(ctx.stack) < old(StackWeight(ctx.stack))
  {
    var s := ctx.stack[|ctx.stack| - 1];
    var inputs := if s.th.THSingleByte? then [s.length] else s.buf;
    var room := Room(s.typ, s.val, inputs);
    assert inputs == Text(HeadOfState(s)) && inputs != [];
    if s.typ.elem == BYTE {
      CopyRuns(ctx.run, ctx.Events(), s, ctx.vr.Rest(), |ctx.stack| - 1);
      ctx.Settle(Roomy(s.typ, Copied(inputs, room)), ctx.vr.Rest());
    } else {
      BytesBecomes(ctx.run, ctx.Events(), s, ctx.vr.Rest(), |ctx.stack| - 1);
      ctx.Nest(Roomy(s.typ, room), String2ArraySlice(inputs, -1, |room|));
    }
  }

  // ----- maps and structs -----

  method MapHandler(ctx: HandleContext) returns (ok: bool)
    requires ctx.Valid() && ctx.stack != [] && Headed(ctx.stack[|ctx.stack| - 1])
    requires ctx.stack[|ctx.stack| - 1].typ.TMap?
    modifies ctx
    ensures ctx.vr.Valid() && (!ok ==> old(ctx.End()) == Err)
    ensures ok ==> ctx.Valid() && ctx.End() == old(ctx.End()) && StackWeight(ctx.stack) < old(StackWeight(ctx.stack))
  {
    var s := ctx.stack[|ctx.stack| - 1];
    ok := true;
    if s.th.THZeroValue? {
      ZeroRuns(ctx.run, ctx.Events(), s, ctx.vr.Rest(), |ctx.stack| - 1);
      ctx.Settle(Zero(s.typ), ctx.vr.Rest());
    } else if s.th.THEmpty? {
      EmptyRuns(ctx.run, ctx.Events(), s, ctx.vr.Rest(), |ctx.stack| - 1);
      ctx.Settle(VMap([]), ctx.vr.Rest());
    } else if s.th.IsArray() && s.length % 2 == 0 {
      PairsIn(ctx);
    } else {
      Refused(ctx.run, ctx.Events(), s, ctx.vr.Rest(), |ctx.stack| - 1);
      ctx.Failed();
      ok := false;
    }
  }

  /** A nil map is made; keys and values are to follow. */
  method PairsIn(ctx: HandleContext)
    requires ctx.Valid() && ctx.stack != [] && Headed(ctx.stack[|ctx.stack| - 1])
    requires ctx.stack[|ctx.stack| - 1].typ.TMap?
    requires ctx.stack[|ctx.stack| - 1].th.IsArray() && ctx.stack[|ctx.stack| - 1].length % 2 == 0
    modifies ctx
    ensures ctx.Valid() && ctx.End() == old(ctx.End()) && StackWeight(ctx.stack) < old(StackWeight(ctx.stack))
  {
    var s := ctx.stack[|ctx.stack| - 1];
    var entries := if s.val.VMap? then s.val.entries else [];
    MapBecomes(ctx.run, ctx.Events(), s, ctx.vr.Rest(), |ctx.stack| - 1);
    ctx.Nest(VMap(entries), MapElement(s.length, -1, None, None));
  }

  method StructHandler(ctx: HandleContext) returns (ok: bool)
    requires ctx.Valid() && ctx.stack != [] && Headed(ctx.stack[|ctx.stack| - 1])
    requires ctx.stack[|ctx.stack| - 1].typ.TStruct?
    modifies ctx
    ensures ctx.vr.Valid() && (!ok ==> old(ctx.End()) == Err)
    ensures ok ==> ctx.Valid() && ctx.End() == old(ctx.End()) && StackWeight(ctx.stack) < old(StackWeight(ctx.stack))
  {
    var s := ctx.stack[|ctx.stack| - 1];
    ok := true;
    if s.th.THZeroValue? {
      ZeroRuns(ctx.run, ctx.Events(), s, ctx.vr.Rest(), |ctx.stack| - 1);
      ctx.Settle(Zero(s.typ), ctx.vr.Rest());
    } else if s.th.IsArray() {
      StructBecomes(ctx.run, ctx.Events(), s, ctx.vr.Rest(), |ctx.stack| - 1);
      ctx.Nest(VStruct(FieldValues(s.typ.fields, s.val)), StructElement(s.length, -1, -1));
    } else {
      Refused(ctx.run, ctx.Events(), s, ctx.vr.Rest(), |ctx.stack| - 1);
      ctx.Failed();
      ok := false;
    }
  }

  /** The handler of the top's type, called with its header. */
  method Event(ctx: HandleContext) returns (ok: bool)
    requires ctx.Valid() && ctx.stack != [] && Headed(ctx.stack[|ctx.stack| - 1])
    modifies ctx
    ensures ctx.vr.Valid() && (!ok ==> old(ctx.End()) == Err)
    ensures ok ==> ctx.Valid() && ctx.End() == old(ctx.End()) && StackWeight(ctx.stack) < old(StackWeight(ctx.stack))
  {
    ok := true;
    match ctx.stack[|ctx.stack| - 1].typ {
      case TPtr(_) => PointerHandler(ctx);
      case TArray(_, _) => ok := ArrayHandler(ctx);
      case TSlice(_) => ok := SliceHandler(ctx);
      case TMap(_, _) => ok := MapHandler(ctx);
      case TStruct(_) => ok := StructHandler(ctx);
      case _ => ok := PlainHandler(ctx);
    }
  }
}
