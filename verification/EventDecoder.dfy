/** The event decoder: a loop over the stack of states. */
module EventDecoder {
  import opened Headers
  import opened Wrappers
  import opened Wire
  import opened Values
  import opened Decoding
  import opened Reader
  import opened Machine
  import opened Effort
  import opened Context
  import opened HeaderEvents
  import opened NestedHandlers
  import opened KindHandlers

  /** Reads the header of the value on top, with its value bytes. */
  method ReadTop(ctx: HandleContext) returns (ok: bool)
    requires ctx.Valid() && ctx.stack != []
    requires ctx.stack[|ctx.stack| - 1].handler.NoHandler? && ctx.stack[|ctx.stack| - 1].th.THInvalid?
    modifies ctx, ctx.vr
    ensures ctx.vr.Valid() && (!ok ==> old(ctx.End()) == Err)
    ensures ok ==> ctx.Valid() && ctx.End() == old(ctx.End()) && |ctx.vr.Rest()| < |old(ctx.vr.Rest())|
    ensures ok ==> ctx.stack != [] && Headed(ctx.stack[|ctx.stack| - 1])
  {
    var n := |ctx.stack| - 1;
    var s := ctx.stack[n];
    ghost var before := ctx.vr.Rest();
    FreshBecomes(ctx.run, ctx.Events(), s, before, n);
    ghost var h := ReadHead(true, before);
    if h.Err? {
      ctx.Failed();
    } else {
      ctx.Changed(s.(th := h.value.th, length := h.value.n, buf := h.value.buf), h.rest);
    }
    ok, s := ReadInto(ctx.vr, s);
    if !ok {
      return false;
    }
    ctx.stack := ctx.stack[n := s];
    return true;
  }

  method ReadInto(vr: ValueReader, s: State) returns (ok: bool, s': State)
    requires vr.Valid() && s.buf == []
    modifies vr
    ensures vr.Valid()
    ensures var h := ReadHead(true, old(vr.Rest()));
            && ok == h.Ok?
            && (ok ==> s' == s.(th := h.value.th, length := h.value.n, buf := h.value.buf) && vr.Rest() == h.rest)
  {
    HeadFromSize(vr.Rest(), true);
    s' := s;
    var header := vr.ReadFullHeader();
    if header.None? {
      return false, s;
    }
    var (th, length) := header.value;
    s' := s'.(th := th, length := length);
    if HeaderTypeMap(th).b {
      var buf := vr.ReadBytes(length);
      if buf.None? {
        return false, s;
      }
      s' := s'.(buf := buf.value);
    }
    return true, s';
  }

  /**
   The loop, on every byte sequence: it terminates, and it ends with what the stack's states stand for in the
   recursive decoder. On success the stack is empty.
   */
  method Handle(ctx: HandleContext) returns (ok: bool)
    requires ctx.Valid()
    modifies ctx, ctx.vr
    ensures ctx.vr.Valid() && (!ok ==> old(ctx.End()) == Err)
    ensures ok ==> ctx.stack == [] && old(ctx.End()) == Ok(ctx.out, ctx.vr.Rest())
  {
    ghost var end := ctx.End();
    while true
      invariant ctx.Valid() && ctx.End() == end
      decreases |ctx.vr.Rest()|, StackWeight(ctx.stack)
    {
      StackWeightNat(ctx.stack);
      if |ctx.stack| == 0 {
        return true;
      }
      var state := ctx.stack[|ctx.stack| - 1];
      if !state.handler.NoHandler? {
        ok := Element(ctx);
        if !ok {
          return false;
        }
      } else {
        if state.th.THInvalid? {
          ok := ReadTop(ctx);
          if !ok {
            return false;
          }
        }
        ok := Event(ctx);
        if !ok {
          return false;
        }
      }
    }
  }

  /**
   Decodes one value. The stack machine refines the recursion on the type: for every type, destination and
   byte sequence its outcome and the bytes it leaves are those of Dec.
   */
  method Decode(vr: ValueReader, t: Type, prev: Value) returns (r: Option<Value>)
    requires vr.Valid()
    modifies vr
    ensures vr.Valid() && vr.Gave(r, Dec(Decoder(true, vr.popSkip), t, prev, old(vr.Rest()), 0))
  {
    var ctx := new HandleContext(vr);
    ctx.PushState(prev, t, THInvalid, 0, []);
    assert Run(ctx.Events(), Fresh(prev, t), vr.Rest(), 0) == Dec(ctx.Events(), t, prev, vr.Rest(), 0);
    ResumeTop(ctx.run, [], Fresh(prev, t), vr.Rest());
    assert ctx.stack == [] + [Fresh(prev, t)];
    var ok := Handle(ctx);
    if !ok {
      return None;
    }
    return Some(ctx.out);
  }
}
