/** The Element steps of the nested handlers. Each works on the state on top of the stack. */
module NestedHandlers {
  import opened Headers
  import opened Wrappers
  import opened Skipping
  import opened Values
  import opened Machine
  import opened Steps
  import opened Effort
  import opened Context

  /** Begins the next key or value, or ends the map. None of the handler's four cache errors can arise. */
  method MapStep(ctx: HandleContext)
    requires ctx.Valid() && ctx.stack != [] && ctx.stack[|ctx.stack| - 1].handler.MapElement?
    modifies ctx
    ensures ctx.Valid() && ctx.End() == old(ctx.End()) && StackWeight(ctx.stack) < old(StackWeight(ctx.stack))
  {
    var h := ctx.stack[|ctx.stack| - 1].handler;
    if h.idx + 1 >= h.size {
      MapEnd(ctx);
    } else if (h.idx + 1) % 2 == 0 {
      BeginKey(ctx);
    } else {
      BeginValue(ctx);
    }
  }

  /** Behind a value, which together with its key is in the caches then: puts the entry and empties the caches. */
  method PutEntry(s: State) returns (s': State)
    requires Sound(s) && s.handler.MapElement?
    ensures s' == Stored(s)
  {
    s' := s;
    var idx, key, value := s.handler.idx, s.handler.key, s.handler.value;
    if idx > 0 && idx % 2 == 1 {
      assert key.Some? && value.Some?;
      s' := s.(val := VMap(Insert(s.val.entries, key.value, value.value)),
               handler := MapElement(s.handler.size, idx, None, None));
    }
  }

  method MapEnd(ctx: HandleContext)
    requires ctx.Valid() && ctx.stack != [] && ctx.stack[|ctx.stack| - 1].handler.MapElement?
    requires var h := ctx.stack[|ctx.stack| - 1].handler; h.idx + 1 >= h.size
    modifies ctx
    ensures ctx.Valid() && ctx.End() == old(ctx.End()) && StackWeight(ctx.stack) < old(StackWeight(ctx.stack))
  {
    var s := ctx.stack[|ctx.stack| - 1];
    MapEnds(ctx.run, ctx.Events(), s, ctx.vr.Rest(), |ctx.stack| - 1);
    var stored := PutEntry(s);
    ctx.Settle(stored.val, ctx.vr.Rest());
  }

  method BeginKey(ctx: HandleContext)
    requires ctx.Valid() && ctx.stack != [] && ctx.stack[|ctx.stack| - 1].handler.MapElement?
    requires var h := ctx.stack[|ctx.stack| - 1].handler; h.idx + 1 < h.size && (h.idx + 1) % 2 == 0
    modifies ctx
    ensures ctx.Valid() && ctx.End() == old(ctx.End()) && StackWeight(ctx.stack) < old(StackWeight(ctx.stack))
  {
    var s := ctx.stack[|ctx.stack| - 1];
    KeyAdvances(ctx.run, ctx.Events(), s, ctx.vr.Rest(), |ctx.stack| - 1);
    var stored := PutEntry(s);
    assert stored.handler.key.None? && stored.handler.value.None?;
    var key := Zero(s.typ.key);
    ctx.Begin(stored.(handler := MapElement(s.handler.size, s.handler.idx + 1, Some(key), None)), key, s.typ.key);
  }

  method BeginValue(ctx: HandleContext)
    requires ctx.Valid() && ctx.stack != [] && ctx.stack[|ctx.stack| - 1].handler.MapElement?
    requires var h := ctx.stack[|ctx.stack| - 1].handler; h.idx + 1 < h.size && (h.idx + 1) % 2 == 1
    modifies ctx
    ensures ctx.Valid() && ctx.End() == old(ctx.End()) && StackWeight(ctx.stack) < old(StackWeight(ctx.stack))
  {
    var s := ctx.stack[|ctx.stack| - 1];
    ValueAdvances(ctx.run, ctx.Events(), s, ctx.vr.Rest(), |ctx.stack| - 1);
    assert s.handler.key.Some? && s.handler.value.None?;
    var value := Zero(s.typ.val);
    ctx.Begin(s.(handler := MapElement(s.handler.size, s.handler.idx + 1, s.handler.key, Some(value))),
              value, s.typ.val);
  }

  method SliceStep(ctx: HandleContext)
    requires ctx.Valid() && ctx.stack != [] && ctx.stack[|ctx.stack| - 1].handler.SliceElement?
    modifies ctx
    ensures ctx.Valid() && ctx.End() == old(ctx.End()) && StackWeight(ctx.stack) < old(StackWeight(ctx.stack))
  {
    var s := ctx.stack[|ctx.stack| - 1];
    var size := s.handler.size;
    SliceAdvances(ctx.run, ctx.Events(), s, ctx.vr.Rest(), |ctx.stack| - 1);
    var idx := s.handler.idx + 1;
    if idx >= size {
      ctx.Settle(s.val, ctx.vr.Rest());
    } else {
      ctx.Begin(s.(handler := SliceElement(size, idx)), Parts(s.val)[idx], s.typ.elem);
    }
  }

  /** A finished array is popped first; then the surplus items are skipped. */
  method ArrayStep(ctx: HandleContext) returns (ok: bool)
    requires ctx.Valid() && ctx.stack != [] && ctx.stack[|ctx.stack| - 1].handler.ArrayElement?
    modifies ctx, ctx.vr
    ensures ctx.vr.Valid() && (!ok ==> old(ctx.End()) == Err)
    ensures ok ==> ctx.Valid() && ctx.End() == old(ctx.End()) && |ctx.vr.Rest()| <= |old(ctx.vr.Rest())|
    ensures StackWeight(ctx.stack) < old(StackWeight(ctx.stack))
  {
    var s := ctx.stack[|ctx.stack| - 1];
    var size, valueSize := s.handler.size, s.handler.valueSize;
    var idx := s.handler.idx + 1;
    if idx >= size || idx >= valueSize {
      ok := ArrayEnd(ctx);
    } else {
      ArrayAdvances(ctx.run, ctx.Events(), s, ctx.vr.Rest(), |ctx.stack| - 1);
      ctx.Begin(s.(handler := ArrayElement(size, idx, valueSize)), Parts(s.val)[idx], s.typ.elem);
      ok := true;
    }
  }

  method ArrayEnd(ctx: HandleContext) returns (ok: bool)
    requires ctx.Valid() && ctx.stack != [] && ctx.stack[|ctx.stack| - 1].handler.ArrayElement?
    requires var h := ctx.stack[|ctx.stack| - 1].handler; h.idx + 1 >= h.size || h.idx + 1 >= h.valueSize
    modifies ctx, ctx.vr
    ensures ctx.vr.Valid() && (!ok ==> old(ctx.End()) == Err)
    ensures ok ==> ctx.Valid() && ctx.End() == old(ctx.End()) && |ctx.vr.Rest()| <= |old(ctx.vr.Rest())|
    ensures StackWeight(ctx.stack) < old(StackWeight(ctx.stack))
  {
    var s := ctx.stack[|ctx.stack| - 1];
    var size, valueSize := s.handler.size, s.handler.valueSize;
    var surplus := if size > valueSize then size - valueSize else 0;
    TopEnds(ctx, surplus);
    ok := PopAndSkip(ctx, s.val, surplus);
  }

  /** A struct on top that is done ends with its zeroed fields, behind its surplus items. */
  lemma {:induction false} StructTopEnds(ctx: HandleContext, s: State, k: nat, surplus: nat)
    requires ctx.Valid() && ctx.stack != [] && s == ctx.stack[|ctx.stack| - 1] && s.handler.StructElement?
    requires k == s.handler.fieldIdx + 1 && surplus == s.handler.size - s.handler.dataIdx - 1
    requires k <= |s.typ.fields| == |Parts(s.val)| && (k == |s.typ.fields| || surplus == 0)
    ensures var rest := SkipMany(ctx.vr.popSkip, surplus, ctx.vr.Rest());
            ctx.TopRun() == if rest.None? then Err
                            else Ok(Wrap(s.derefs, VStruct(Parts(s.val)[..k] + Zeros(s.typ.fields)[k..])), rest.value)
  {
    StructEnds(ctx.run, ctx.Events(), s, ctx.vr.Rest(), |ctx.stack| - 1);
  }

  /** An array on top that is done ends with its value, behind its surplus items. */
  lemma {:induction false} TopEnds(ctx: HandleContext, surplus: nat)
    requires ctx.Valid() && ctx.stack != [] && ctx.stack[|ctx.stack| - 1].handler.ArrayElement?
    requires var h := ctx.stack[|ctx.stack| - 1].handler;
             (h.idx + 1 >= h.size || h.idx + 1 >= h.valueSize) &&
             surplus == if h.size > h.valueSize then h.size - h.valueSize else 0
    ensures var s, rest := ctx.stack[|ctx.stack| - 1], SkipMany(ctx.vr.popSkip, surplus, ctx.vr.Rest());
            ctx.TopRun() == if rest.None? then Err else Ok(Wrap(s.derefs, s.val), rest.value)
  {
    ArrayEnds(ctx.run, ctx.Events(), ctx.stack[|ctx.stack| - 1], surplus, ctx.vr.Rest(), |ctx.stack| - 1);
  }

  /** The top ends with x, and `surplus` items behind it are skipped. */
  method PopAndSkip(ctx: HandleContext, x: Value, surplus: nat) returns (ok: bool)
    requires ctx.Valid() && ctx.stack != []
    requires var rest := SkipMany(ctx.vr.popSkip, surplus, ctx.vr.Rest());
             ctx.TopRun() == if rest.None? then Err else Ok(Wrap(ctx.stack[|ctx.stack| - 1].derefs, x), rest.value)
    modifies ctx, ctx.vr
    ensures ctx.vr.Valid() && (!ok ==> old(ctx.End()) == Err)
    ensures ok ==> ctx.Valid() && ctx.End() == old(ctx.End()) && |ctx.vr.Rest()| <= |old(ctx.vr.Rest())|
    ensures StackWeight(ctx.stack) < old(StackWeight(ctx.stack))
  {
    ghost var rest := SkipMany(ctx.vr.popSkip, surplus, ctx.vr.Rest());
    if rest.None? {
      ctx.Failed();
    }
    ctx.Settle(x, if rest.None? then [] else rest.value);
    if surplus > 0 {
      ok := ctx.SkipReader(surplus);
    } else {
      ok := true;
    }
  }

  /** Begins the next element as a single-byte item, or ends the array or slice. */
  method BytesStep(ctx: HandleContext)
    requires ctx.Valid() && ctx.stack != [] && ctx.stack[|ctx.stack| - 1].handler.String2ArraySlice?
    modifies ctx
    ensures ctx.Valid() && ctx.End() == old(ctx.End()) && StackWeight(ctx.stack) < old(StackWeight(ctx.stack))
  {
    var s := ctx.stack[|ctx.stack| - 1];
    var buf, valueSize := s.handler.buf, s.handler.valueSize;
    BytesAdvances(ctx.run, ctx.Events(), s, ctx.vr.Rest(), |ctx.stack| - 1);
    var idx := s.handler.idx + 1;
    if idx >= valueSize || idx >= |buf| {
      ctx.Settle(s.val, ctx.vr.Rest());
    } else {
      var s' := s.(handler := String2ArraySlice(buf, idx, valueSize));
      ctx.Pushed(s', OneByteState(Parts(s.val)[idx], s.typ.elem, buf[idx]));
      ctx.stack := ctx.stack[|ctx.stack| - 1 := s'];
      ctx.PushState(Parts(s.val)[idx], s.typ.elem, THSingleByte, buf[idx], []);
    }
  }

  /**
   The struct cursor: takes the next item into the next field, skips an item before the field's order, or
   ends the struct. An item beyond the field's order cannot be reached with strictly increasing orders.
   */
  method StructStep(ctx: HandleContext) returns (ok: bool)
    requires ctx.Valid() && ctx.stack != [] && ctx.stack[|ctx.stack| - 1].handler.StructElement?
    modifies ctx, ctx.vr
    ensures ctx.vr.Valid() && (!ok ==> old(ctx.End()) == Err)
    ensures ok ==> ctx.Valid() && ctx.End() == old(ctx.End())
    ensures ok ==> |ctx.vr.Rest()| < |old(ctx.vr.Rest())| ||
                   (|ctx.vr.Rest()| <= |old(ctx.vr.Rest())| && StackWeight(ctx.stack) < old(StackWeight(ctx.stack)))
    ensures var s := old(ctx.stack)[|old(ctx.stack)| - 1]; var h := s.handler;
            StrictlyIncreasing(Orders(s.typ.fields)) && h.fieldIdx + 1 < |s.typ.fields| && h.dataIdx + 1 < h.size ==>
              h.dataIdx + 1 <= s.typ.fields[h.fieldIdx + 1].order
  {
    var s := ctx.stack[|ctx.stack| - 1];
    var nextField, dataIdx := s.handler.fieldIdx + 1, s.handler.dataIdx + 1;
    if nextField < |s.typ.fields| && dataIdx < s.handler.size {
      var fieldOrder := s.typ.fields[nextField].order;
      if dataIdx == fieldOrder {
        TakeItem(ctx);
        ok := true;
      } else if dataIdx < fieldOrder {
        ok := SkipItem(ctx);
      } else {
        StructFails(ctx.run, ctx.Events(), s, ctx.vr.Rest(), |ctx.stack| - 1);
        ctx.Failed();
        ok := false;
      }
    } else {
      ok := StructEnd(ctx);
    }
  }

  /** Zeroes the fields that are left and skips the items that are left. */
  method StructEnd(ctx: HandleContext) returns (ok: bool)
    requires ctx.Valid() && ctx.stack != [] && ctx.stack[|ctx.stack| - 1].handler.StructElement?
    requires var s := ctx.stack[|ctx.stack| - 1];
             s.handler.fieldIdx + 1 == |s.typ.fields| || s.handler.dataIdx + 1 == s.handler.size
    modifies ctx, ctx.vr
    ensures ctx.vr.Valid() && (!ok ==> old(ctx.End()) == Err)
    ensures ok ==> ctx.Valid() && ctx.End() == old(ctx.End()) && |ctx.vr.Rest()| <= |old(ctx.vr.Rest())|
    ensures StackWeight(ctx.stack) < old(StackWeight(ctx.stack))
  {
    var s := ctx.stack[|ctx.stack| - 1];
    var k := s.handler.fieldIdx + 1;
    var fields := ZeroRest(s.typ.fields, k, Parts(s.val));
    var surplus := Surplus(s);
    StructTopEnds(ctx, s, k, surplus);
    ok := PopAndSkip(ctx, VStruct(fields), surplus);
  }

  /** The items behind the last one begun; the index is advanced once more when a field is left. */
  method Surplus(s: State) returns (surplus: nat)
    requires Sound(s) && s.handler.StructElement?
    requires s.handler.fieldIdx + 1 == |s.typ.fields| || s.handler.dataIdx + 1 == s.handler.size
    ensures surplus == s.handler.size - s.handler.dataIdx - 1
  {
    var size, dataIdx := s.handler.size, s.handler.dataIdx;
    if s.handler.fieldIdx + 1 < |s.typ.fields| {
      dataIdx := dataIdx + 1;
    }
    surplus := if dataIdx < size - 1 then size - 1 - dataIdx else 0;
  }

  /** Begins the field whose order the next item has. */
  method TakeItem(ctx: HandleContext)
    requires ctx.Valid() && ctx.stack != [] && ctx.stack[|ctx.stack| - 1].handler.StructElement?
    requires var s := ctx.stack[|ctx.stack| - 1]; var h := s.handler;
             h.fieldIdx + 1 < |s.typ.fields| && h.dataIdx + 1 < h.size &&
             h.dataIdx + 1 == s.typ.fields[h.fieldIdx + 1].order
    modifies ctx
    ensures ctx.Valid() && ctx.End() == old(ctx.End()) && StackWeight(ctx.stack) < old(StackWeight(ctx.stack))
  {
    var s := ctx.stack[|ctx.stack| - 1];
    var k := s.handler.fieldIdx + 1;
    TakeAdvances(ctx.run, ctx.Events(), s, ctx.vr.Rest(), |ctx.stack| - 1);
    ctx.Begin(s.(handler := StructElement(s.handler.size, s.handler.dataIdx + 1, k)),
              Parts(s.val)[k], s.typ.fields[k].typ);
  }

  /** Skips the item before the next field's order. */
  method SkipItem(ctx: HandleContext) returns (ok: bool)
    requires ctx.Valid() && ctx.stack != [] && ctx.stack[|ctx.stack| - 1].handler.StructElement?
    requires var s := ctx.stack[|ctx.stack| - 1]; var h := s.handler;
             h.fieldIdx + 1 < |s.typ.fields| && h.dataIdx + 1 < h.size &&
             h.dataIdx + 1 < s.typ.fields[h.fieldIdx + 1].order
    modifies ctx, ctx.vr
    ensures ctx.vr.Valid() && (!ok ==> old(ctx.End()) == Err)
    ensures ok ==> ctx.Valid() && ctx.End() == old(ctx.End())
    ensures ok ==> |ctx.vr.Rest()| < |old(ctx.vr.Rest())| ||
                   (|ctx.vr.Rest()| <= |old(ctx.vr.Rest())| && StackWeight(ctx.stack) < old(StackWeight(ctx.stack)))
  {
    var n := |ctx.stack| - 1;
    var s := ctx.stack[n];
    var s' := s.(handler := StructElement(s.handler.size, s.handler.dataIdx + 1, s.handler.fieldIdx));
    PassBecomes(ctx.run, ctx.Events(), s, ctx.vr.Rest(), n);
    ghost var rest := SkipMany(ctx.vr.popSkip, 1, ctx.vr.Rest());
    if rest.None? {
      ctx.Failed();
    } else {
      ctx.Changed(s', rest.value);
    }
    ctx.stack := ctx.stack[n := s'];
    ok := ctx.SkipReader(1);
  }

  /** Zeroes the fields from k on. */
  method ZeroRest(fs: seq<Field>, k: nat, vs: seq<Value>) returns (fields: seq<Value>)
    requires k <= |fs| == |vs|
    ensures fields == vs[..k] + Zeros(fs)[k..]
  {
    fields := vs;
    for i := k to |fs|
      invariant |fields| == |vs| && fields[..i] == (vs[..k] + Zeros(fs)[k..])[..i]
    {
      fields := fields[i := Zero(fs[i].typ)];
    }
    assert fields == fields[..|fs|] == vs[..k] + Zeros(fs)[k..];
  }

  /** One Element step of whatever nested handler is on top. */
  method Element(ctx: HandleContext) returns (ok: bool)
    requires ctx.Valid() && ctx.stack != [] && !ctx.stack[|ctx.stack| - 1].handler.NoHandler?
    modifies ctx, ctx.vr
    ensures ctx.vr.Valid() && (!ok ==> old(ctx.End()) == Err)
    ensures ok ==> ctx.Valid() && ctx.End() == old(ctx.End())
    ensures ok ==> |ctx.vr.Rest()| < |old(ctx.vr.Rest())| ||
                   (|ctx.vr.Rest()| <= |old(ctx.vr.Rest())| && StackWeight(ctx.stack) < old(StackWeight(ctx.stack)))
  {
    var handler := ctx.stack[|ctx.stack| - 1].handler;
    ok := true;
    if handler.MapElement? {
      MapStep(ctx);
    } else if handler.SliceElement? {
      SliceStep(ctx);
    } else if handler.ArrayElement? {
      ok := ArrayStep(ctx);
    } else if handler.String2ArraySlice? {
      BytesStep(ctx);
    } else {
      ok := StructStep(ctx);
    }
  }
}
