/** The termination measure of the event decoder's loop, for the turns that read no byte. */
module Effort {
  import opened Values
  import opened Machine

  /** An upper bound on the turns a header with n elements or bytes can lead to in a value of type t. */
  function Work(t: Type, n: nat): (w: nat)
    ensures w >= 1
    decreases t
  {
    match t
    case TPtr(e) => 1 + Work(e, n)
    case TArray(e, _) => Turns(n + 1, 2 + Work(e, 1)) + 2
    case TSlice(e) => Turns(n + 1, 2 + Work(e, 1)) + 2
    case TMap(_, _) => 2 * n + 4
    case TStruct(_) => 2 * n + 4
    case _ => 1
  }

  /** n turns of w each. */
  function Turns(n: int, w: nat): (r: nat)
    decreases n
  {
    if n <= 0 then 0 else w + Turns(n - 1, w)
  }

  /** Turns grows in both arguments. */
  lemma {:induction false} TurnsGrow(n: int, w: nat, m: int, v: nat)
    requires n <= m && w <= v
    ensures Turns(n, w) <= Turns(m, v)
    decreases m
  {
    if 0 < m && 0 < n {
      TurnsGrow(n - 1, w, m - 1, v);
    }
  }

  lemma {:induction false} TurnsTwo(n: nat, w: nat)
    requires w >= 2
    ensures Turns(n, w) >= 2 * n
  {
    if n > 0 {
      TurnsTwo(n - 1, w);
    }
  }

  /** The elements or bytes a state's header announces. */
  function Extent(s: State): nat {
    if s.th.THSingleByte? then 1 else if s.th.IsArray() then s.length else |s.buf|
  }

  function Weight(s: State): (w: int)
    ensures Sound(s) ==> w >= 1
  {
    match s.handler
    case NoHandler => if s.th.THInvalid? then 1 else Work(s.typ, Extent(s))
    case StructElement(size, dataIdx, _) => 2 * (size - dataIdx) + 1
    case String2ArraySlice(buf, idx, _) =>
      if s.typ.TArray? || s.typ.TSlice? then Turns(|buf| - idx, 1 + Work(s.typ.elem, 1)) + 1 else 1
    case MapElement(size, idx, _, _) => 2 * (size - idx) + 1
    case SliceElement(size, idx) => 2 * (size - idx) + 1
    case ArrayElement(size, idx, _) => 2 * (size - idx) + 1
  }

  function StackWeight(stack: seq<State>): int {
    if stack == [] then 0 else StackWeight(stack[..|stack| - 1]) + Weight(stack[|stack| - 1])
  }

  lemma {:induction false} StackWeightPush(stack: seq<State>, s: State)
    ensures StackWeight(stack + [s]) == StackWeight(stack) + Weight(s)
  {
    assert (stack + [s])[..|stack|] == stack;
  }

  lemma {:induction false} StackWeightNat(stack: seq<State>)
    requires StackOk(stack)
    ensures StackWeight(stack) >= 0
  {
    if stack != [] {
      StackWeightNat(stack[..|stack| - 1]);
    }
  }

  /** Putting a finished element into its state does not change what the state costs. */
  lemma {:induction false} PutWeight(s: State, x: Value)
    ensures Weight(Put(s, x)) == Weight(s)
  {
  }

  lemma {:induction false} DeliveredWeight(below: seq<State>, x: Value)
    ensures StackWeight(Delivered(below, x)) == StackWeight(below)
  {
    if below != [] {
      var last := below[|below| - 1];
      PutWeight(last, x);
      StackWeightPush(below[..|below| - 1], Put(last, x));
    }
  }

  /** The next byte of a string costs less than a turn of the string. */
  lemma {:induction false} BytesWeight(s: State, j: int)
    requires s.handler.String2ArraySlice? && j == s.handler.idx + 1 <= |s.handler.buf|
    requires s.typ.TArray? || s.typ.TSlice?
    ensures Weight(s.(handler := String2ArraySlice(s.handler.buf, j, s.handler.valueSize))) + Work(s.typ.elem, 1) + 1 ==
            Weight(s)
  {
  }

  /** A header's nested handler costs less than its header. */
  lemma {:induction false} NestedWeight(t: Type, n: nat)
    requires t.TArray? || t.TSlice?
    ensures 2 * (n + 1) + 1 < Work(t, n)
    ensures Turns(n + 1, 1 + Work(t.elem, 1)) + 1 < Work(t, n)
  {
    TurnsTwo(n + 1, 2 + Work(t.elem, 1));
    TurnsGrow(n + 1, 1 + Work(t.elem, 1), n + 1, 2 + Work(t.elem, 1));
  }
}
