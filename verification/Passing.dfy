/** Items that are passed over: decoding stays in step exactly when each of them can be skipped. */
module Passing {
  import opened Numeric
  import opened Wrappers
  import opened Wire
  import opened Skipping
  import opened Values
  import opened Encoding
  import opened Decoding
  import opened Cursors
  import opened Leftover
  import opened Schema

  /** One above the last item of a run over the fields that the decoder reads or passes over. */
  function StopOf(c: Decoder, fs: seq<Field>, size: nat): (stop: nat)
    ensures stop <= size
  {
    if c.events then size else Consumed(fs, size)
  }

  /** The decoder ended where it should. */
  ghost predicate InStep(r: Res<Value>, behind: Bytes) {
    r.Ok? && r.rest == behind
  }

  lemma {:induction false} NotInStep(r: Res<Value>, behind: Bytes)
    requires r.Ok? ==> Spans(r.rest, 1, behind)
    ensures !InStep(r, behind)
  {
    if r.Ok? {
      SpansLonger(r.rest, 1, behind);
    }
  }

  /** The recursive reader's cursor goes no further than the item of its last field. */
  lemma {:induction false} CursorLeaves(c: Decoder, t: Type, k: nat, i: nat, size: nat, vs: seq<Value>, bs: Bytes,
                                        d: nat, left: nat, n: nat, sum: nat, tail: Bytes)
    requires t.TStruct? && |vs| == |t.fields| && StrictlyIncreasing(Orders(t.fields)) && Cursor(t.fields, k, i)
    requires !c.events
    requires i + left == Consumed(t.fields, size) && sum == left + n && Spans(bs, sum, tail)
    ensures var r := DecFields(c, t, k, i, size, vs, bs, d); r.Ok? ==> Spans(r.rest, n, tail)
    decreases left, 1
  {
    CursorConsumed(t.fields, k, i, size);
    if k < |vs| && i < size {
      CursorTurn(c, t, k, i, size, vs, bs, d, left - 1, left - 1 + n, n, sum, tail);
    } else {
      CursorEnds(c, t, k, i, size, vs, bs, d);
      SpansLess(bs, sum, n, tail);
    }
  }

  lemma {:induction false} CursorTurn(c: Decoder, t: Type, k: nat, i: nat, size: nat, vs: seq<Value>, bs: Bytes, d: nat,
                                      others: nat, m: nat, n: nat, sum: nat, tail: Bytes)
    requires t.TStruct? && k < |vs| == |t.fields| && StrictlyIncreasing(Orders(t.fields)) && Cursor(t.fields, k, i)
    requires !c.events && i < size && i + 1 + others == Consumed(t.fields, size)
    requires m == others + n && sum == m + 1 && Spans(bs, sum, tail)
    ensures var r := DecFields(c, t, k, i, size, vs, bs, d); r.Ok? ==> Spans(r.rest, n, tail)
    decreases others + 1, 0
  {
    if i == t.fields[k].order {
      CursorTakes(c, t, k, i, i + 1, size, vs, bs, d, others, m, n, sum, tail);
    } else {
      CursorPasses(c, t, k, i, i + 1, size, vs, bs, d, others, m, n, sum, tail);
    }
  }

  lemma {:induction false} CursorTakes(c: Decoder, t: Type, k: nat, i: nat, next: nat, size: nat, vs: seq<Value>,
                                       bs: Bytes, d: nat, others: nat, m: nat, n: nat, sum: nat, tail: Bytes)
    requires t.TStruct? && k < |vs| == |t.fields| && StrictlyIncreasing(Orders(t.fields)) && Cursor(t.fields, k, i)
    requires !c.events && i < size && next == i + 1 && next + others == Consumed(t.fields, size)
    requires m == others + n && sum == m + 1 && Spans(bs, sum, tail) && i == t.fields[k].order
    ensures var r := DecFields(c, t, k, i, size, vs, bs, d); r.Ok? ==> Spans(r.rest, n, tail)
    decreases others, 3
  {
    CursorNext(t.fields, k, i);
    FieldsStep(c, t, k, i, size, vs, bs, d);
    FieldThenCursor(c, t, k, k + 1, next, size, vs, bs, d, others, m, n, sum, tail);
  }

  lemma {:induction false} CursorPasses(c: Decoder, t: Type, k: nat, i: nat, next: nat, size: nat, vs: seq<Value>,
                                        bs: Bytes, d: nat, others: nat, m: nat, n: nat, sum: nat, tail: Bytes)
    requires t.TStruct? && k < |vs| == |t.fields| && StrictlyIncreasing(Orders(t.fields)) && Cursor(t.fields, k, next)
    requires !c.events && i < size && next == i + 1 && next + others == Consumed(t.fields, size)
    requires m == others + n && sum == m + 1 && Spans(bs, sum, tail) && i < t.fields[k].order
    ensures var r := DecFields(c, t, k, i, size, vs, bs, d); r.Ok? ==> Spans(r.rest, n, tail)
    decreases others, 3
  {
    FieldsStep(c, t, k, i, size, vs, bs, d);
    SkipThenCursor(c, t, k, next, size, vs, bs, d, others, m, n, sum, tail);
  }

  lemma {:induction false} CursorEnds(c: Decoder, t: Type, k: nat, i: nat, size: nat, vs: seq<Value>, bs: Bytes, d: nat)
    requires t.TStruct? && k <= |vs| == |t.fields| && i <= size && (k == |vs| || i == size) && !c.events
    ensures var r := DecFields(c, t, k, i, size, vs, bs, d); r.Ok? ==> r.rest == bs
  {
    FieldsDone(c, t, k, i, size, size - i, vs, bs, d);
  }

  lemma {:induction false} FieldThenCursor(c: Decoder, t: Type, k: nat, after: nat, next: nat, size: nat,
                                           vs: seq<Value>, bs: Bytes, d: nat, others: nat, m: nat, n: nat, sum: nat,
                                           tail: Bytes)
    requires t.TStruct? && k < |vs| == |t.fields| && StrictlyIncreasing(Orders(t.fields))
    requires Cursor(t.fields, after, next)
    requires !c.events && next + others == Consumed(t.fields, size) && after == k + 1
    requires m == others + n && sum == m + 1 && Spans(bs, sum, tail)
    ensures var r := Dec(c, t.fields[k].typ, vs[k], bs, d);
            r.Ok? ==>
              var r' := DecFields(c, t, after, next, size, vs[k := r.value], r.rest, d);
              r'.Ok? ==> Spans(r'.rest, n, tail)
    decreases others, 2
  {
    DecLeaves(c, t.fields[k].typ, vs[k], bs, d, m, tail);
    var r := Dec(c, t.fields[k].typ, vs[k], bs, d);
    if r.Ok? {
      CursorLeaves(c, t, after, next, size, vs[k := r.value], r.rest, d, others, n, m, tail);
    }
  }

  lemma {:induction false} SkipThenCursor(c: Decoder, t: Type, k: nat, next: nat, size: nat, vs: seq<Value>,
                                          bs: Bytes, d: nat, others: nat, m: nat, n: nat, sum: nat, tail: Bytes)
    requires t.TStruct? && k < |vs| == |t.fields| && StrictlyIncreasing(Orders(t.fields)) && Cursor(t.fields, k, next)
    requires !c.events && next + others == Consumed(t.fields, size) && m == others + n && sum == m + 1
    requires Spans(bs, sum, tail)
    ensures var s := Skim(c.popSkip, bs);
            s.Ok? && var r := DecFields(c, t, k, next, size, vs, s.rest, d); r.Ok? ==> Spans(r.rest, n, tail)
    decreases others, 2
  {
    SkimSpans(c.popSkip, bs, m, tail);
    CursorLeaves(c, t, k, next, size, vs, Skim(c.popSkip, bs).rest, d, others, n, m, tail);
  }

  /** A run that begins with one item too many ends with one item too many. */
  lemma {:induction false} Strays(c: Decoder, t: Type, k: nat, i: nat, size: nat, vs: seq<Value>, bs: Bytes, d: nat,
                                  left: nat, behind: Bytes)
    requires t.TStruct? && |vs| == |t.fields| && StrictlyIncreasing(Orders(t.fields)) && Cursor(t.fields, k, i)
    requires i + left == StopOf(c, t.fields, size) && Spans(bs, left + 1, behind)
    ensures !InStep(DecFields(c, t, k, i, size, vs, bs, d), behind)
  {
    if c.events {
      FieldsLeave(c, t, k, i, size, vs, bs, d, left, 1, left + 1, behind);
    } else {
      CursorLeaves(c, t, k, i, size, vs, bs, d, left, 1, left + 1, behind);
    }
    NotInStep(DecFields(c, t, k, i, size, vs, bs, d), behind);
  }

  /** The items up to the stop, and what is behind them. */
  lemma {:induction false} UpToStop(c: Decoder, fs: seq<Field>, ws: seq<Item>, i: nat, left: nat, tail: Bytes)
    requires AllValid(ws) && i + left == StopOf(c, fs, |ws|)
    ensures Spans(Concat(ws[i..]) + tail, left, Behind(c, fs, ws, tail))
  {
    var stop, behind := StopOf(c, fs, |ws|), Behind(c, fs, ws, tail);
    var us := ws[i..stop];
    assert ws[i..] == us + ws[stop..];
    ConcatAppend(us, ws[stop..]);
    Regroup(Concat(us), Concat(ws[stop..]), tail);
    if c.events {
      assert ws[stop..] == [] && [] + tail == tail;
    }
    assert Covers(us, Concat(ws[i..]) + tail, left, behind);
  }

  /** From an item that cannot be skipped on, the run is out of step. */
  lemma {:induction false} PassStrays(c: Decoder, t: Type, k: nat, i: nat, next: nat, ws: seq<Item>, vs: seq<Value>,
                                      d: nat, left: nat, tail: Bytes)
    requires t.TStruct? && |vs| == |t.fields| && StrictlyIncreasing(Orders(t.fields)) && AllValid(ws)
    requires k < |vs| && i < |ws| && next == i + 1 && i < t.fields[k].order && Cursor(t.fields, k, next)
    requires next + left == StopOf(c, t.fields, |ws|) && !Skippable(c.popSkip, ws[i])
    ensures !InStep(DecFields(c, t, k, i, |ws|, vs, Concat(ws[i..]) + tail, d), Behind(c, t.fields, ws, tail))
  {
    var behind, after := Behind(c, t.fields, ws, tail), Concat(ws[next..]) + tail;
    UpToStop(c, t.fields, ws, next, left, tail);
    ConcatFrom(ws, i, next, tail);
    SkimLeaves(c.popSkip, ws[i], after, left, behind);
    FieldsStep(c, t, k, i, |ws|, vs, Concat(ws[i..]) + tail, d);
    Strays(c, t, k, next, |ws|, vs, Skim(c.popSkip, Concat(ws[i..]) + tail).rest, d, left, behind);
  }

  /** A run in which an item that is passed over cannot be skipped does not end in step. */
  lemma {:induction false} FieldsStray(c: Decoder, t: Type, k: nat, i: nat, ws: seq<Item>, prevs: seq<Value>,
                                       oks: seq<bool>, xs: seq<Value>, vs: seq<Value>, d: nat, tail: Bytes)
    requires Running(c, t, k, i, ws, prevs, oks, xs, vs, d) && !SkipsFrom(c, t.fields, ws, i)
    ensures !InStep(DecFields(c, t, k, i, |ws|, vs, Concat(ws[i..]) + tail, d), Behind(c, t.fields, ws, tail))
    decreases |ws| - i, 1
  {
    var j :| i <= j < |ws| && PassedOver(c, t.fields, |ws|, j) && !Skippable(c.popSkip, ws[j]);
    CursorConsumed(t.fields, k, i, |ws|);
    if k == |t.fields| {
      SurplusStrays(c, t, i, |ws| - i, j, ws, vs, d, tail);
    } else if i == t.fields[k].order {
      TakeStrays(c, t, k, i, ws, prevs, oks, xs, vs, d, tail);
    } else {
      SkipStrays(c, t, k, i, i + 1, ws, prevs, oks, xs, vs, d, tail);
    }
  }

  lemma {:induction false} SkipStrays(c: Decoder, t: Type, k: nat, i: nat, next: nat, ws: seq<Item>, prevs: seq<Value>,
                                      oks: seq<bool>, xs: seq<Value>, vs: seq<Value>, d: nat, tail: Bytes)
    requires Running(c, t, k, i, ws, prevs, oks, xs, vs, d) && k < |vs| && i < |ws| && i < t.fields[k].order
    requires next == i + 1
    requires !SkipsFrom(c, t.fields, ws, i)
    ensures !InStep(DecFields(c, t, k, i, |ws|, vs, Concat(ws[i..]) + tail, d), Behind(c, t.fields, ws, tail))
    decreases |ws| - i, 0
  {
    PassKeepsRunning(c, t, k, i, next, ws, prevs, oks, xs, vs, d);
    if Skippable(c.popSkip, ws[i]) {
      SkipsAfter(c, t.fields, ws, i, next);
      PassItem(c, t, k, i, next, ws, vs, d, tail);
      FieldsStray(c, t, k, next, ws, prevs, oks, xs, vs, d, tail);
    } else {
      PassStrays(c, t, k, i, next, ws, vs, d, StopOf(c, t.fields, |ws|) - next, tail);
    }
  }

  /** Behind an item that can be skipped there is still one that cannot. */
  lemma {:induction false} SkipsAfter(c: Decoder, fs: seq<Field>, ws: seq<Item>, i: nat, next: nat)
    requires i < |ws| && next == i + 1 && Skippable(c.popSkip, ws[i]) && !SkipsFrom(c, fs, ws, i)
    ensures !SkipsFrom(c, fs, ws, next)
  {
    var j :| i <= j < |ws| && PassedOver(c, fs, |ws|, j) && !Skippable(c.popSkip, ws[j]);
    assert j >= next;
  }

  lemma {:induction false} TakeStrays(c: Decoder, t: Type, k: nat, i: nat, ws: seq<Item>, prevs: seq<Value>,
                                      oks: seq<bool>, xs: seq<Value>, vs: seq<Value>, d: nat, tail: Bytes)
    requires Running(c, t, k, i, ws, prevs, oks, xs, vs, d) && k < |vs| && i < |ws| && i == t.fields[k].order
    requires !SkipsFrom(c, t.fields, ws, i)
    ensures !InStep(DecFields(c, t, k, i, |ws|, vs, Concat(ws[i..]) + tail, d), Behind(c, t.fields, ws, tail))
    decreases |ws| - i, 0
  {
    assert OutcomeAt(c, t.fields[k], ws, d, prevs[k], oks[k], xs[k]);
    assert vs[k] == vs[k..][0] == prevs[k];
    TakeField(c, t, k, ws, oks[k], xs[k], vs, d, tail);
    if oks[k] {
      TakeKeepsRunning(c, t, k, i, ws, prevs, oks, xs, vs, d);
      FieldsStray(c, t, k + 1, i + 1, ws, prevs, oks, xs, vs[k := xs[k]], d, tail);
    }
  }

  /** Of the surplus items, one cannot be skipped. */
  lemma {:induction false} SurplusStrays(c: Decoder, t: Type, i: nat, left: nat, j: nat, ws: seq<Item>,
                                         vs: seq<Value>, d: nat, tail: Bytes)
    requires t.TStruct? && |vs| == |t.fields| && AllValid(ws) && i <= j < |ws| && i + left == |ws|
    requires c.events && !Skippable(c.popSkip, ws[j])
    ensures !InStep(DecFields(c, t, |vs|, i, |ws|, vs, Concat(ws[i..]) + tail, d), tail)
  {
    SkipRestExact(c.popSkip, ws, i, left, tail);
    FieldsDone(c, t, |vs|, i, |ws|, left, vs, Concat(ws[i..]) + tail, d);
  }

  /**
   Decoding any valid items into a struct of any type with strictly increasing orders, whatever the destination
   held and whatever follows. When the items that are passed over can be skipped, each field gets its item's
   outcome, or zero where there is no item of its order, and the decoder ends behind what it reads. It ends
   there if and only if those items can be skipped and every item of a field can be read.
   */
  lemma {:induction false} StructDecodes(c: Decoder, t: Type, ws: seq<Item>, oks: seq<bool>, xs: seq<Value>,
                                         prev: Value, h: Head, d: nat, tail: Bytes)
    requires t.TStruct? && StrictlyIncreasing(Orders(t.fields)) && AllValid(ws)
    requires FieldOutcomes(c, t.fields, ws, d + 1, FieldValues(t.fields, prev), oks, xs)
    requires h.th.IsArray() && h.n == |ws| && (c.events || d <= MAX_NESTED)
    ensures var r := DecHead(c, t, prev, h, Concat(ws) + tail, d);
            && (SkipsFine(c, t.fields, ws) ==> r == StructOutcome(c, t.fields, ws, d + 1, oks, xs, tail))
            && (InStep(r, Behind(c, t.fields, ws, tail)) <==>
                SkipsFine(c, t.fields, ws) && AllTrue(oks) && CanZero(c, t.fields, |ws|, d + 1))
  {
    var inner := d + 1;
    if SkipsFine(c, t.fields, ws) {
      StructRuns(c, t, ws, oks, xs, prev, h, d, tail);
      OutcomeInStep(c, t.fields, ws, inner, oks, xs, tail);
    } else {
      StructStrays(c, t, ws, oks, xs, prev, h, d, inner, tail);
    }
  }

  lemma {:induction false} OutcomeInStep(c: Decoder, fs: seq<Field>, ws: seq<Item>, d: nat, oks: seq<bool>,
                                         xs: seq<Value>, tail: Bytes)
    ensures InStep(StructOutcome(c, fs, ws, d, oks, xs, tail), Behind(c, fs, ws, tail)) <==>
            AllTrue(oks) && CanZero(c, fs, |ws|, d)
  {
  }

  lemma {:induction false} StructStrays(c: Decoder, t: Type, ws: seq<Item>, oks: seq<bool>, xs: seq<Value>, prev: Value,
                                        h: Head, d: nat, inner: nat, tail: Bytes)
    requires t.TStruct? && StrictlyIncreasing(Orders(t.fields)) && AllValid(ws) && !SkipsFine(c, t.fields, ws)
    requires FieldOutcomes(c, t.fields, ws, inner, FieldValues(t.fields, prev), oks, xs)
    requires h.th.IsArray() && h.n == |ws| && (c.events || d <= MAX_NESTED) && inner == d + 1
    ensures !InStep(DecHead(c, t, prev, h, Concat(ws) + tail, d), Behind(c, t.fields, ws, tail))
  {
    var prevs := FieldValues(t.fields, prev);
    assert ws[0..] == ws;
    FieldsStray(c, t, 0, 0, ws, prevs, oks, xs, prevs, inner, tail);
    StructHead(c, t, prev, h, Concat(ws) + tail, d, inner);
  }
}
