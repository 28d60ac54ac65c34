/**
 The states of the event decoder's stack, and what a stack still has to do: every state is one frame of
 the recursive decoder.
 */
module Machine {
  import opened Numeric
  import opened Headers
  import opened Wrappers
  import opened Wire
  import opened Skipping
  import opened Values
  import opened Decoding
  import opened Schema
  import opened Cursors

  /** The nested handler of a state. An index of -1 says that no element was begun yet. */
  datatype Handler =
    | NoHandler
    | MapElement(size: nat, idx: int, key: Option<Value>, value: Option<Value>)
    | SliceElement(size: nat, idx: int)
    | ArrayElement(size: nat, idx: int, valueSize: nat)
    | String2ArraySlice(buf: Bytes, idx: int, valueSize: nat)
    | StructElement(size: nat, dataIdx: int, fieldIdx: int)
  {
    /** The element, entry half or field begun last. */
    function Slot(): int {
      match this
      case NoHandler => -1
      case StructElement(_, _, fieldIdx) => fieldIdx
      case _ => idx
    }
  }

  /**
   A value under construction. Its header, with th THInvalid before it is read, and the number of
   pointers the state was taken through to reach it.
   */
  datatype State = State(val: Value, typ: Type, derefs: nat, th: TypeHeader, length: nat, buf: Bytes, handler: Handler)

  function Fresh(val: Value, typ: Type): State {
    State(val, typ, 0, THInvalid, 0, [], NoHandler)
  }

  // ----- parts of a value -----

  function Parts(v: Value): seq<Value> {
    if v.VArray? || v.VSlice? then v.elems else if v.VStruct? then v.fields else []
  }

  function WithParts(v: Value, xs: seq<Value>): (r: Value)
    ensures |xs| == |Parts(v)| ==> Parts(r) == xs
  {
    if v.VArray? then VArray(xs) else if v.VSlice? then VSlice(xs, []) else if v.VStruct? then VStruct(xs) else v
  }

  /** No spare capacity is recorded. */
  predicate Bare(v: Value) {
    v.VSlice? ==> v.spare == []
  }

  /** The value behind n pointers, seen from the first of them. */
  function Wrap(n: nat, v: Value): Value {
    if n == 0 then v else VPtr(Wrap(n - 1, v))
  }

  /** A finished element becomes part of the value it belongs to. */
  function Put(s: State, x: Value): State {
    var i := s.handler.Slot();
    if s.handler.MapElement? then
      s.(handler := if i % 2 == 0 then s.handler.(key := Some(x)) else s.handler.(value := Some(x)))
    else if 0 <= i < |Parts(s.val)| then s.(val := WithParts(s.val, Parts(s.val)[i := x]))
    else s
  }

  // ----- the invariant -----

  /**
   What holds of every state of a run. The comparison makes it one condition: the cases of Shape are not
   taken apart wherever a contract mentions Sound.
   */
  ghost predicate Sound(s: State) {
    Shape(s) == true
  }

  ghost predicate Shape(s: State) {
    match s.handler
    case NoHandler =>
      && (s.th.THInvalid? ==> s.derefs == 0 && s.buf == [])
      && (s.th.THSingleByte? ==> s.length < 0x100) && (s.th.IsString() ==> s.buf != [])
    case MapElement(size, idx, key, value) =>
      && s.typ.TMap? && s.val.VMap? && size % 2 == 0 && -1 <= idx && idx + 1 <= size
      && (key.Some? <==> idx >= 0) && (value.Some? <==> idx >= 0 && idx % 2 == 1)
    case SliceElement(size, idx) =>
      && s.typ.TSlice? && Bare(s.val) && (s.val.VSlice? || s.val.VNil?) && |Parts(s.val)| == size
      && -1 <= idx && idx + 1 <= size
    case ArrayElement(size, idx, valueSize) =>
      && s.typ.TArray? && s.val.VArray? && |Parts(s.val)| == valueSize && -1 <= idx && idx + 1 <= Min(size, valueSize)
    case String2ArraySlice(buf, idx, valueSize) =>
      && (s.typ.TArray? || s.typ.TSlice?) && Bare(s.val) && (s.val.VArray? || s.val.VSlice?)
      && |Parts(s.val)| == valueSize && -1 <= idx && idx + 1 <= Min(|buf|, valueSize)
    case StructElement(size, dataIdx, fieldIdx) =>
      && s.typ.TStruct? && s.val.VStruct? && |Parts(s.val)| == |s.typ.fields|
      && -1 <= dataIdx && dataIdx + 1 <= size && -1 <= fieldIdx && fieldIdx + 1 <= |s.typ.fields|
      && (StrictlyIncreasing(Orders(s.typ.fields)) ==> Cursor(s.typ.fields, fieldIdx + 1, dataIdx + 1))
  }

  /** A state below the top: an element of it is under construction. */
  predicate Busy(s: State) {
    s.handler.Slot() >= 0
  }

  /** Every state below the top has a nested handler with an element begun; only the top may lack one. */
  ghost predicate StackOk(stack: seq<State>) {
    && (forall i | 0 <= i < |stack| :: Sound(stack[i]))
    && (forall i | 0 <= i < |stack| - 1 :: Busy(stack[i]))
  }

  lemma {:induction false} PutSound(s: State, x: Value)
    ensures Sound(s) && Busy(s) ==> Sound(Put(s, x))
    ensures Put(s, x).handler.Slot() == s.handler.Slot()
  {
  }

  // ----- what a state still has to do -----

  ghost function Made(v: Value, r: Res<seq<Value>>): Res<Value> {
    if r.Err? then Err else Ok(WithParts(v, r.value), r.rest)
  }

  ghost function MadeMap(r: Res<seq<Entry>>): Res<Value> {
    if r.Err? then Err else Ok(VMap(r.value), r.rest)
  }

  ghost function Skipped(c: Decoder, n: nat, r: Res<Value>): Res<Value> {
    if r.Err? then Err else
    var rest := SkipMany(c.popSkip, n, r.rest);
    if rest.None? then Err else Ok(r.value, rest.value)
  }

  ghost function Pointed(n: nat, r: Res<Value>): Res<Value> {
    if r.Err? then Err else Ok(Wrap(n, r.value), r.rest)
  }

  /** The entries of a map with the cached entry, if there is one, put in. */
  function WithCached(h: Handler, es: seq<Entry>): seq<Entry>
    requires h.MapElement?
  {
    if h.key.Some? && h.value.Some? then Insert(es, h.key.value, h.value.value) else es
  }

  /** The value of a key is next, and n entries after it. */
  ghost function ValueTo(c: Decoder, t: Type, n: nat, key: Value, es: seq<Entry>, bs: Bytes, d: nat): Res<seq<Entry>>
    requires t.TMap?
  {
    var v := Dec(c, t.val, Zero(t.val), bs, d);
    if v.Err? then Err else DecEntries(c, t, n, Insert(es, key, v.value), v.rest, d)
  }

  /** The entries of a map whose last key or value was item idx. */
  ghost function EntriesTo(c: Decoder, t: Type, h: Handler, es: seq<Entry>, bs: Bytes, d: nat): Res<seq<Entry>>
    requires t.TMap? && h.MapElement? && h.size % 2 == 0 && -1 <= h.idx && h.idx + 1 <= h.size
    requires h.key.Some? <==> h.idx >= 0
  {
    if h.idx % 2 == 1 then DecEntries(c, t, (h.size - h.idx - 1) / 2, WithCached(h, es), bs, d)
    else ValueTo(c, t, (h.size - h.idx - 2) / 2, h.key.value, es, bs, d)
  }

  /** The rest of a state's work at depth d: the value it ends with and the bytes it leaves. */
  ghost function Body(c: Decoder, s: State, bs: Bytes, d: nat): Res<Value>
    requires Sound(s)
  {
    match s.handler
    case NoHandler =>
      if s.th.THInvalid? then Dec(c, s.typ, s.val, bs, d)
      else DecHead(c, s.typ, s.val, Head(s.th, s.length, s.buf), bs, d)
    case MapElement(_, _, _, _) => MadeMap(EntriesTo(c, s.typ, s.handler, s.val.entries, bs, d + 1))
    case SliceElement(size, idx) => Made(s.val, ElemsTo(c, s.typ.elem, size, Parts(s.val), idx + 1, bs, d + 1))
    case ArrayElement(size, idx, valueSize) =>
      Skipped(c, size - Min(size, valueSize),
              Made(s.val, ElemsTo(c, s.typ.elem, size, Parts(s.val), idx + 1, bs, d + 1)))
    case String2ArraySlice(buf, idx, _) => Made(s.val, BytesTo(c, s.typ.elem, buf, Parts(s.val), idx + 1, bs, d + 1))
    case StructElement(size, dataIdx, fieldIdx) =>
      DecFields(c, s.typ, fieldIdx + 1, dataIdx + 1, size, Parts(s.val), bs, d + 1)
  }

  ghost function Run(c: Decoder, s: State, bs: Bytes, d: nat): Res<Value> {
    if Sound(s) then Pointed(s.derefs, Body(c, s, bs, d)) else Err
  }

  // ----- what a whole stack still has to do -----

  /** What a state ends with, from some bytes on and at some depth. */
  type Runner = (State, Bytes, nat) -> Res<Value>

  /** The runner is Run for the decoder c. */
  ghost predicate Runs(run: Runner, c: Decoder) {
    forall s, bs, d {:trigger Run(c, s, bs, d)} :: run(s, bs, d) == Run(c, s, bs, d)
  }

  /** The states below a finished one, which ended with value x. */
  function Delivered(below: seq<State>, x: Value): seq<State> {
    if below == [] then [] else below[..|below| - 1] + [Put(below[|below| - 1], x)]
  }

  /** What the whole stack ends with: the top runs first, and its value goes to the state below. */
  ghost function Resume(run: Runner, stack: seq<State>, bs: Bytes): Res<Value>
    decreases |stack|
  {
    if stack == [] then Err else
    var below := stack[..|stack| - 1];
    var r := run(stack[|stack| - 1], bs, |below|);
    if r.Err? || below == [] then r else Resume(run, Delivered(below, r.value), r.rest)
  }

  lemma {:induction false} ResumeTop(run: Runner, below: seq<State>, s: State, bs: Bytes)
    ensures Resume(run, below + [s], bs) ==
            var r := run(s, bs, |below|);
            if r.Err? || below == [] then r else Resume(run, Delivered(below, r.value), r.rest)
  {
    var stack := below + [s];
    assert stack[..|stack| - 1] == below;
  }

  /** Running s amounts to running child first and then s' with the child's value. */
  ghost predicate Pushes(run: Runner, s: State, s': State, child: State, bs: Bytes, d: nat) {
    run(s, bs, d) == var r := run(child, bs, d + 1);
                     if r.Err? then Err else run(Put(s', r.value), r.rest, d)
  }

  lemma {:induction false} ResumePush(run: Runner, below: seq<State>, s: State, s': State, child: State, bs: Bytes)
    requires Pushes(run, s, s', child, bs, |below|)
    ensures Resume(run, below + [s], bs) == Resume(run, below + [s'] + [child], bs)
  {
    ResumeTop(run, below, s, bs);
    ResumeTop(run, below + [s'], child, bs);
    var r := run(child, bs, |below| + 1);
    if r.Ok? {
      assert (below + [s'])[..|below|] == below;
      ResumeTop(run, below, Put(s', r.value), r.rest);
    }
  }

  /** The whole run, when the stack is empty or not. */
  ghost function Ending(run: Runner, stack: seq<State>, out: Value, bs: Bytes): Res<Value> {
    if stack == [] then Ok(out, bs) else Resume(run, stack, bs)
  }

  /** The top is done: its value goes to the state below, or is the result. */
  lemma {:induction false} ResumePop(run: Runner, below: seq<State>, s: State, x: Value, out: Value, bs: Bytes,
                                     rest: Bytes)
    requires run(s, bs, |below|) == Ok(x, rest)
    ensures Resume(run, below + [s], bs) == Ending(run, Delivered(below, x), if below == [] then x else out, rest)
  {
    ResumeTop(run, below, s, bs);
  }

  lemma {:induction false} ResumeSame(run: Runner, below: seq<State>, s: State, bs: Bytes, s': State, bs': Bytes)
    requires run(s, bs, |below|) == run(s', bs', |below|)
    ensures Resume(run, below + [s], bs) == Resume(run, below + [s'], bs')
  {
    ResumeTop(run, below, s, bs);
    ResumeTop(run, below, s', bs');
  }
}
