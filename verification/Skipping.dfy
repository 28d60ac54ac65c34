/**
 Skipping one item: the recursive grammar the reader's explicit header stack walks, as the code walks
 it and with a pop in place of the `break` at the end of an array.
 */
module Skipping {
  import opened Numeric
  import opened Headers
  import opened Wrappers
  import opened Wire

  /**
   Skips one item; the value says whether it was an array. Without `pop` the end of the first array
   ends the whole skip, whatever encloses that array.
   */
  function Skim(pop: bool, bs: Bytes): (r: Res<bool>)
    ensures r.Ok? ==> |r.rest| < |bs|
    decreases |bs|, 0
  {
    var size := ReadSize(bs);
    if size.Err? then Err else
    var (th, n) := size.value;
    if HeaderTypeMap(th).x then
      var inner := SkimMany(pop, n, size.rest);
      if inner.None? then Err else Ok(true, inner.value)
    else if HeaderTypeMap(th).t.VTByte? then Ok(false, size.rest)
    else if n > |size.rest| then Err
    else Ok(false, size.rest[n..])
  }

  /** Skips n items of an array; without `pop` only up to the end of the first that is an array itself. */
  function SkimMany(pop: bool, n: nat, bs: Bytes): (r: Option<Bytes>)
    ensures r.Some? ==> |r.value| <= |bs|
    decreases |bs|, 1, n
  {
    if n == 0 then Some(bs) else
    var item := Skim(pop, bs);
    if item.Err? then None
    else if item.value && !pop then Some(item.rest)
    else SkimMany(pop, n - 1, item.rest)
  }

  /** n items skipped one call after the other (`HandleContext.SkipReader`). */
  function SkipMany(pop: bool, n: nat, bs: Bytes): (r: Option<Bytes>)
    ensures r.Some? ==> |r.value| <= |bs|
    decreases n
  {
    if n == 0 then Some(bs) else
    var item := Skim(pop, bs);
    if item.Err? then None else SkipMany(pop, n - 1, item.rest)
  }

  // ----- the explicit stack -----

  /** An entry of the header stack; `index` is the last item begun of an array, -1 at first. */
  datatype HeaderStack = HeaderStack(th: Parsed, size: nat, index: int)

  /** What is left once every entry of the stack is done with, top of the stack (the last entry) first. */
  ghost function Finish(pop: bool, stack: seq<HeaderStack>, bs: Bytes): Option<Bytes>
    decreases |stack|
  {
    if stack == [] then Some(bs) else
    var top, below := stack[|stack| - 1], stack[..|stack| - 1];
    if HeaderTypeMap(top.th).x then
      var left := SkimMany(pop, if top.index < top.size then top.size - top.index - 1 else 0, bs);
      if left.Some? && pop then Finish(pop, below, left.value) else left
    else if HeaderTypeMap(top.th).t.VTByte? then Finish(pop, below, bs)
    else if top.size > |bs| then None
    else Finish(pop, below, bs[top.size..])
  }

  /** The item whose header was read last sits on the stack; finishing it is what Skim does. */
  lemma {:induction false} FinishPushed(pop: bool, stack: seq<HeaderStack>, bs: Bytes)
    requires ReadSize(bs).Ok?
    ensures var (th, n) := ReadSize(bs).value;
            var item := Skim(pop, bs);
            Finish(pop, stack + [HeaderStack(th, n, -1)], ReadSize(bs).rest) ==
            if item.Err? then None
            else if item.value && !pop then Some(item.rest)
            else Finish(pop, stack, item.rest)
  {
    var (th, n) := ReadSize(bs).value;
    var pushed := stack + [HeaderStack(th, n, -1)];
    assert pushed[..|pushed| - 1] == stack;
  }

  /** The end of the array on top of the stack. */
  lemma {:induction false} FinishClosed(pop: bool, stack: seq<HeaderStack>, bs: Bytes)
    requires stack != [] && HeaderTypeMap(stack[|stack| - 1].th).x
    requires stack[|stack| - 1].index + 1 >= stack[|stack| - 1].size
    ensures Finish(pop, stack, bs) == if pop then Finish(pop, stack[..|stack| - 1], bs) else Some(bs)
  {
    assert SkimMany(pop, 0, bs) == Some(bs);
  }

  /** The array on top of the stack, with its next item not begun yet. */
  lemma {:induction false} FinishArray(pop: bool, below: seq<HeaderStack>, top: HeaderStack, bs: Bytes)
    requires HeaderTypeMap(top.th).x && top.index < top.size
    ensures var left := SkimMany(pop, top.size - top.index, bs);
            Finish(pop, below + [top.(index := top.index - 1)], bs) ==
            if left.Some? && pop then Finish(pop, below, left.value) else left
  {
    var before := below + [top.(index := top.index - 1)];
    assert before[..|before| - 1] == below;
  }

  lemma {:induction false} SkimManyFirst(pop: bool, n: nat, left: nat, bs: Bytes)
    requires n == left + 1
    ensures var item := Skim(pop, bs);
            SkimMany(pop, n, bs) ==
            if item.Err? then None else if item.value && !pop then Some(item.rest) else SkimMany(pop, left, item.rest)
  {
  }

  lemma {:induction false} FinishBegun(pop: bool, below: seq<HeaderStack>, top: HeaderStack, left: nat, bs: Bytes)
    requires HeaderTypeMap(top.th).x && top.index < top.size && left == top.size - top.index - 1
    ensures var rest := SkimMany(pop, left, bs);
            Finish(pop, below + [top], bs) == if rest.Some? && pop then Finish(pop, below, rest.value) else rest
  {
    var stack := below + [top];
    assert stack[..|stack| - 1] == below;
  }

  /** The array on top of the stack goes on behind its next item. */
  lemma {:induction false} FinishOn(pop: bool, below: seq<HeaderStack>, top: HeaderStack, n: nat, left: nat,
                                    bs: Bytes, rest: Bytes)
    requires HeaderTypeMap(top.th).x && top.index < top.size && n == top.size - top.index && left == n - 1
    requires SkimMany(pop, n, bs) == SkimMany(pop, left, rest)
    ensures Finish(pop, below + [top.(index := top.index - 1)], bs) == Finish(pop, below + [top], rest)
  {
    FinishArray(pop, below, top, bs);
    FinishBegun(pop, below, top, left, rest);
  }

  /** The array on top of the stack ends the skip. */
  lemma {:induction false} FinishStops(pop: bool, below: seq<HeaderStack>, top: HeaderStack, n: nat, bs: Bytes)
    requires HeaderTypeMap(top.th).x && top.index < top.size && n == top.size - top.index
    requires SkimMany(pop, n, bs).None? || !pop
    ensures Finish(pop, below + [top.(index := top.index - 1)], bs) == SkimMany(pop, n, bs)
  {
    FinishArray(pop, below, top, bs);
  }

  /** The next item of the array on top of the stack, and then the rest of the array. */
  lemma {:induction false} FinishItem(pop: bool, below: seq<HeaderStack>, top: HeaderStack, n: nat, left: nat,
                                      bs: Bytes)
    requires HeaderTypeMap(top.th).x && top.index < top.size && n == top.size - top.index && left == n - 1
    ensures var item := Skim(pop, bs);
            Finish(pop, below + [top.(index := top.index - 1)], bs) ==
            if item.Err? then None
            else if item.value && !pop then Some(item.rest)
            else Finish(pop, below + [top], item.rest)
  {
    SkimManyFirst(pop, n, left, bs);
    var item := Skim(pop, bs);
    if item.Err? || (item.value && !pop) {
      FinishStops(pop, below, top, n, bs);
    } else {
      FinishOn(pop, below, top, n, left, bs, item.rest);
    }
  }

  /** Without a header for the next item of the array on top of the stack, the skip fails. */
  lemma {:induction false} FinishCut(pop: bool, below: seq<HeaderStack>, top: HeaderStack, bs: Bytes)
    requires HeaderTypeMap(top.th).x && top.index < top.size && ReadSize(bs).Err?
    ensures Finish(pop, below + [top.(index := top.index - 1)], bs) == None
  {
    FinishItem(pop, below, top, top.size - top.index, top.size - top.index - 1, bs);
  }

  /** Beginning the next item of the array on top of the stack. */
  lemma {:induction false} FinishNext(pop: bool, below: seq<HeaderStack>, top: HeaderStack, bs: Bytes)
    requires HeaderTypeMap(top.th).x && top.index < top.size && ReadSize(bs).Ok?
    ensures var (th, n) := ReadSize(bs).value;
            Finish(pop, below + [top.(index := top.index - 1)], bs) ==
            Finish(pop, below + [top] + [HeaderStack(th, n, -1)], ReadSize(bs).rest)
  {
    FinishItem(pop, below, top, top.size - top.index, top.size - top.index - 1, bs);
    FinishPushed(pop, below + [top], bs);
  }

  // ----- what a skip of an encoded item leaves -----

  /** Arrays nest in last position only: no array item stands before another item. */
  predicate LastNested(w: Item) {
    w.WArr? && |w.items| > 0 ==>
      && (forall i | 0 <= i < |w.items| - 1 :: !w.items[i].WArr?)
      && LastNested(w.items[|w.items| - 1])
  }

  /** The bytes of an item that a skip without `pop` does not reach. */
  function Unread(w: Item): Bytes
    decreases w, 0
  {
    if w.WArr? then UnreadOf(w.items) else []
  }

  function UnreadOf(ws: seq<Item>): Bytes
    decreases ws, 1
  {
    if ws == [] then []
    else if ws[0].WArr? then Unread(ws[0]) + Concat(ws[1..])
    else UnreadOf(ws[1..])
  }

  /** Skipping the bytes of any item, with and without `pop`, whatever follows them. */
  lemma {:induction false} SkimItem(pop: bool, w: Item, tail: Bytes)
    requires Valid(w)
    ensures Skim(pop, ItemBytes(w) + tail) == Ok(w.WArr?, (if pop then [] else Unread(w)) + tail)
    decreases w, 0
  {
    HeadReads(w, false, tail);
    if w.WArr? {
      SkimItems(pop, w.items, tail);
      SkimArray(pop, w, tail);
    } else {
      PlainUnread(w, tail);
      SkimPlain(pop, ItemBytes(w) + tail, HeadOf(w), tail);
    }
  }

  lemma {:induction false} PlainUnread(w: Item, tail: Bytes)
    requires !w.WArr?
    ensures BodyOf(w) + tail == tail && Unread(w) == [] && [] + tail == tail
    ensures var h := HeadOf(w);
            !HeaderTypeMap(h.th).x && if HeaderTypeMap(h.th).t.VTByte? then h.buf == [] else h.n == |h.buf|
  {
  }

  lemma {:induction false} SkimPlain(pop: bool, bs: Bytes, h: Head, tail: Bytes)
    requires h.th != THInvalid && ReadSize(bs) == Ok((h.th, h.n), h.buf + tail)
    requires !HeaderTypeMap(h.th).x && if HeaderTypeMap(h.th).t.VTByte? then h.buf == [] else h.n == |h.buf|
    ensures Skim(pop, bs) == Ok(false, tail)
  {
    Halves(h.buf, tail);
    assert [] + tail == tail;
  }

  lemma {:induction false} SkimArray(pop: bool, w: Item, tail: Bytes)
    requires w.WArr?
    requires ReadSize(ItemBytes(w) + tail) == Ok((HeadOf(w).th, HeadOf(w).n), HeadOf(w).buf + (BodyOf(w) + tail))
    requires SkimMany(pop, |w.items|, Concat(w.items) + tail) == Some((if pop then [] else UnreadOf(w.items)) + tail)
    ensures Skim(pop, ItemBytes(w) + tail) == Ok(true, (if pop then [] else Unread(w)) + tail)
  {
    var left := (if pop then [] else UnreadOf(w.items)) + tail;
    assert HeadOf(w).buf + (BodyOf(w) + tail) == Concat(w.items) + tail;
    SkimNested(pop, ItemBytes(w) + tail, HeadOf(w).th, |w.items|, Concat(w.items) + tail, left);
  }

  lemma {:induction false} SkimNested(pop: bool, bs: Bytes, th: TypeHeader, n: nat, rest: Bytes, left: Bytes)
    requires th != THInvalid && HeaderTypeMap(th).x && ReadSize(bs) == Ok((th, n), rest)
    requires SkimMany(pop, n, rest) == Some(left)
    ensures Skim(pop, bs) == Ok(true, left)
  {
  }

  lemma {:induction false} SkimItems(pop: bool, ws: seq<Item>, tail: Bytes)
    requires forall i | 0 <= i < |ws| :: Valid(ws[i])
    ensures SkimMany(pop, |ws|, Concat(ws) + tail) == Some((if pop then [] else UnreadOf(ws)) + tail)
    decreases ws, 1
  {
    if ws == [] {
      assert Concat(ws) + tail == tail == [] + tail;
    } else {
      var after := Concat(ws[1..]) + tail;
      ConcatHead(ws, tail);
      SkimItem(pop, ws[0], after);
      if ws[0].WArr? && !pop {
        UnreadFirst(ws, tail);
      } else {
        assert [] + after == after;
        SkimItems(pop, ws[1..], tail);
      }
      SkimFirst(pop, |ws|, Concat(ws) + tail);
    }
  }

  lemma {:induction false} SkimFirst(pop: bool, n: nat, bs: Bytes)
    requires n > 0 && Skim(pop, bs).Ok?
    ensures SkimMany(pop, n, bs) ==
            if Skim(pop, bs).value && !pop then Some(Skim(pop, bs).rest) else SkimMany(pop, n - 1, Skim(pop, bs).rest)
  {
  }

  lemma {:induction false} UnreadFirst(ws: seq<Item>, tail: Bytes)
    requires ws != [] && ws[0].WArr?
    ensures UnreadOf(ws) + tail == Unread(ws[0]) + (Concat(ws[1..]) + tail)
  {
  }

  /** Nothing is left unread exactly when arrays nest in last position only. */
  lemma {:induction false} UnreadNothing(w: Item)
    requires Valid(w)
    ensures Unread(w) == [] <==> LastNested(w)
    decreases w, 0
  {
    if w.WArr? {
      UnreadNothingOf(w.items);
    }
  }

  lemma {:induction false} UnreadNothingOf(ws: seq<Item>)
    requires forall i | 0 <= i < |ws| :: Valid(ws[i])
    ensures UnreadOf(ws) == [] <==> LastNested(WArr(ws))
    decreases ws, 1
  {
    if ws != [] {
      ConcatLength(ws[1..]);
      if ws[0].WArr? {
        UnreadNothing(ws[0]);
      } else {
        UnreadNothingOf(ws[1..]);
        assert forall i | 0 <= i < |ws| - 1 :: ws[1..][i] == ws[i + 1];
      }
    }
  }

  /**
   The skip as written consumes exactly one item if and only if the item's arrays nest in last
   position only; with a pop it always does.
   */
  lemma {:induction false} SkipExact(w: Item, tail: Bytes)
    requires Valid(w)
    ensures Skim(true, ItemBytes(w) + tail) == Ok(w.WArr?, tail)
    ensures Skim(false, ItemBytes(w) + tail) == Ok(w.WArr?, tail) <==> LastNested(w)
  {
    SkimItem(true, w, tail);
    SkimItem(false, w, tail);
    UnreadNothing(w);
    assert [] + tail == tail;
    assert |Unread(w) + tail| == |Unread(w)| + |tail|;
  }

  /** An item a skip passes over completely. */
  predicate Skippable(pop: bool, w: Item) {
    pop || LastNested(w)
  }

  lemma {:induction false} SkipOne(pop: bool, w: Item, tail: Bytes)
    requires Valid(w) && Skippable(pop, w)
    ensures Skim(pop, ItemBytes(w) + tail) == Ok(w.WArr?, tail)
  {
    SkipExact(w, tail);
  }
}
