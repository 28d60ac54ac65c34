/** The event decoder's context: the reader and the stack of states. */
module Context {
  import opened Numeric
  import opened Headers
  import opened Wrappers
  import opened Skipping
  import opened Values
  import opened Decoding
  import opened Reader
  import opened Machine
  import opened Effort
  import opened Steps

  class HandleContext {
    const vr: ValueReader
    /** What a state of this context ends with. */
    ghost const run: Runner
    /** The last state is the one being processed. */
    var stack: seq<State>
    /** Where the value of the bottom state goes. */
    var out: Value

    ghost predicate Valid()
      reads this, vr
    {
      vr.Valid() && StackOk(stack) && Runs(run, Events())
    }

    /** The decoder this is, over its input. */
    ghost function Events(): Decoder {
      Decoder(true, vr.popSkip)
    }

    /** What the run ends with from here on. */
    ghost function End(): Res<Value>
      requires vr.Valid()
      reads this, vr
    {
      Ending(run, stack, out, vr.Rest())
    }

    /** What running the top to its end yields. */
    ghost function TopRun(): Res<Value>
      requires vr.Valid() && stack != []
      reads this, vr
    {
      run(stack[|stack| - 1], vr.Rest(), |stack| - 1)
    }

    constructor (vr: ValueReader)
      requires vr.Valid()
      ensures Valid() && this.vr == vr && stack == []
    {
      this.vr := vr;
      var c := Decoder(true, vr.popSkip);
      run := (s: State, bs: Bytes, d: nat) => Run(c, s, bs, d);
      stack, out := [], VNil;
    }

    /** Removes the top; the value it built is part of the state below from now on. */
    method PopState() returns (ok: bool)
      modifies this
      ensures ok == (old(stack) != [])
      ensures ok ==> var n := |old(stack)| - 1;
                     var x := Wrap(old(stack)[n].derefs, old(stack)[n].val);
                     stack == Delivered(old(stack)[..n], x) && out == if n == 0 then x else old(out)
      ensures !ok ==> stack == old(stack) && out == old(out)
    {
      if |stack| == 0 {
        return false;
      }
      var last := stack[|stack| - 1];
      var x := Wrap(last.derefs, last.val);
      stack := stack[..|stack| - 1];
      if |stack| == 0 {
        out := x;
      } else {
        stack := stack[..|stack| - 1] + [Put(stack[|stack| - 1], x)];
      }
      return true;
    }

    method PushState(val: Value, typ: Type, th: TypeHeader, length: nat, buf: Bytes)
      modifies this
      ensures stack == old(stack) + [State(val, typ, 0, th, length, buf, NoHandler)] && out == old(out)
    {
      stack := stack + [State(val, typ, 0, th, length, buf, NoHandler)];
    }

    /** Goes through a pointer: the top continues with the value pointed to. */
    method ReplaceStack(val: Value, typ: Type) returns (ok: bool)
      modifies this
      ensures ok == (old(stack) != [] && old(stack)[|old(stack)| - 1].handler.NoHandler?)
      ensures out == old(out) && |stack| == |old(stack)|
      ensures ok ==> var n := |stack| - 1; var s := old(stack)[n];
                     stack == old(stack)[n := s.(val := val, typ := typ, derefs := s.derefs + 1)]
      ensures !ok ==> stack == old(stack)
    {
      if |stack| == 0 {
        return false;
      }
      var n := |stack| - 1;
      if !stack[n].handler.NoHandler? {
        return false;
      }
      stack := stack[n := stack[n].(val := val, typ := typ, derefs := stack[n].derefs + 1)];
      return true;
    }

    method NestedStack(handler: Handler) returns (ok: bool)
      modifies this
      ensures ok == (old(stack) != [] && old(stack)[|old(stack)| - 1].handler.NoHandler?)
      ensures out == old(out)
      ensures ok ==> var n := |old(stack)| - 1; stack == old(stack)[n := old(stack)[n].(handler := handler)]
      ensures !ok ==> stack == old(stack)
    {
      if |stack| == 0 {
        return false;
      }
      var n := |stack| - 1;
      if !stack[n].handler.NoHandler? {
        return false;
      }
      stack := stack[n := stack[n].(handler := handler)];
      return true;
    }

    method SkipReader(length: nat) returns (ok: bool)
      requires vr.Valid()
      modifies vr
      ensures vr.Valid()
      ensures var rest := SkipMany(vr.popSkip, length, old(vr.Rest()));
              ok == rest.Some? && (ok ==> vr.Rest() == rest.value)
    {
      ghost var whole := SkipMany(vr.popSkip, length, vr.Rest());
      for i := 0 to length
        invariant vr.Valid() && whole == SkipMany(vr.popSkip, length - i, vr.Rest())
      {
        var _, skipped := vr.Skip();
        if !skipped {
          return false;
        }
      }
      return true;
    }

    // ----- steps that keep the run's ending -----

    /** The top takes the value x and is popped; `rest` is what it leaves of the input. */
    method Settle(x: Value, ghost rest: Bytes)
      requires Valid() && stack != []
      modifies this
      ensures Valid() && StackWeight(stack) < old(StackWeight(stack))
      ensures old(TopRun()) == Ok(Wrap(old(stack)[|old(stack)| - 1].derefs, x), rest) ==>
                Ending(run, stack, out, rest) == old(End())
    {
      ghost var below, s := stack[..|stack| - 1], stack[|stack| - 1];
      assert stack == below + [s];
      Popping(below, s, x, rest);
      PoppedOk(below, s, Wrap(s.derefs, x));
      stack := stack[|stack| - 1 := stack[|stack| - 1].(val := x)];
      assert stack[..|stack| - 1] == below;
      var popped := PopState();
      assert popped;
    }

    /** A top that ends in an error ends the whole run in one. */
    lemma {:induction false} Failed()
      requires Valid() && stack != [] && TopRun() == Err
      ensures End() == Err
    {
      assert stack == stack[..|stack| - 1] + [stack[|stack| - 1]];
      ResumeTop(run, stack[..|stack| - 1], stack[|stack| - 1], vr.Rest());
    }

    /** Updates the handler on top and pushes the part it is to read next. */
    method Begin(s': State, val: Value, typ: Type)
      requires Valid() && stack != []
      modifies this
      ensures stack == old(stack)[|old(stack)| - 1 := s'] + [Fresh(val, typ)] && out == old(out)
      ensures Advances(run, old(stack)[|old(stack)| - 1], s', Fresh(val, typ), vr.Rest(), |old(stack)| - 1) ==>
                Valid() && End() == old(End()) && StackWeight(stack) < old(StackWeight(stack))
    {
      Pushed(s', Fresh(val, typ));
      stack := stack[|stack| - 1 := s'];
      PushState(val, typ, THInvalid, 0, []);
    }

    /** The top takes the value x and gets a nested handler. */
    method Nest(x: Value, h: Handler)
      requires Valid() && stack != [] && stack[|stack| - 1].handler.NoHandler?
      modifies this
      ensures var n := |old(stack)| - 1; stack == old(stack)[n := old(stack)[n].(val := x, handler := h)]
      ensures out == old(out)
      ensures var n := |old(stack)| - 1; var s := old(stack)[n];
              Becomes(run, s, vr.Rest(), s.(val := x, handler := h), vr.Rest(), n) ==>
                Valid() && End() == old(End()) && StackWeight(stack) < old(StackWeight(stack))
    {
      Changed(stack[|stack| - 1].(val := x, handler := h), vr.Rest());
      stack := stack[|stack| - 1 := stack[|stack| - 1].(val := x)];
      var nested := NestedStack(h);
      assert nested;
    }

    /** The top goes on with the value its pointer leads to. */
    method Through(target: Value, typ: Type)
      requires Valid() && stack != [] && stack[|stack| - 1].handler.NoHandler?
      modifies this
      ensures var n := |old(stack)| - 1; var s := old(stack)[n];
              Becomes(run, s, vr.Rest(), s.(val := target, typ := typ, derefs := s.derefs + 1), vr.Rest(), n) ==>
                Valid() && End() == old(End()) && StackWeight(stack) < old(StackWeight(stack))
    {
      Changed(stack[|stack| - 1].(val := target, typ := typ, derefs := stack[|stack| - 1].derefs + 1), vr.Rest());
      var replaced := ReplaceStack(target, typ);
      assert replaced;
    }

    /** A top that ends with x can be popped without a change to what the stack ends with. */
    lemma {:induction false} Popping(below: seq<State>, s: State, x: Value, rest: Bytes)
      requires Valid() && stack == below + [s]
      ensures TopRun() == Ok(Wrap(s.derefs, x), rest) ==>
                var v := Wrap(s.derefs, x);
                Ending(run, Delivered(below, v), if below == [] then v else out, rest) == End()
    {
      if TopRun() == Ok(Wrap(s.derefs, x), rest) {
        ResumePop(run, below, s, Wrap(s.derefs, x), out, vr.Rest(), rest);
      }
    }

    /** The top becomes s', which is to read `rest`, without a change to what it ends with. */
    lemma {:induction false} Changed(s': State, rest: Bytes)
      requires Valid() && stack != []
      ensures Becomes(run, stack[|stack| - 1], vr.Rest(), s', rest, |stack| - 1) ==>
              var stack' := stack[|stack| - 1 := s'];
              && StackOk(stack') && Ending(run, stack', out, rest) == End()
              && (|rest| < |vr.Rest()| || (rest == vr.Rest() && StackWeight(stack') < StackWeight(stack)))
    {
      if Becomes(run, stack[|stack| - 1], vr.Rest(), s', rest, |stack| - 1) {
        var below, s := stack[..|stack| - 1], stack[|stack| - 1];
        assert stack == below + [s] && stack[|stack| - 1 := s'] == below + [s'];
        ResumeSame(run, below, s, vr.Rest(), s', rest);
        ChangedOk(below, s, s');
      }
    }

    /** The top becomes s' and child is pushed: together they end with what the top ended with. */
    lemma {:induction false} Pushed(s': State, child: State)
      requires Valid() && stack != []
      ensures Advances(run, stack[|stack| - 1], s', child, vr.Rest(), |stack| - 1) ==>
              var stack' := stack[|stack| - 1 := s'] + [child];
              && StackOk(stack') && Ending(run, stack', out, vr.Rest()) == End()
              && StackWeight(stack') < StackWeight(stack)
    {
      if Advances(run, stack[|stack| - 1], s', child, vr.Rest(), |stack| - 1) {
        var below, s := stack[..|stack| - 1], stack[|stack| - 1];
        assert stack == below + [s] && stack[|stack| - 1 := s'] == below + [s'];
        ResumePush(run, below, s, s', child, vr.Rest());
        PushedOk(below, s, s', child);
      }
    }
  }

  lemma {:induction false} ChangedOk(below: seq<State>, s: State, s': State)
    requires StackOk(below + [s]) && Sound(s')
    ensures StackOk(below + [s'])
    ensures StackWeight(below + [s']) - StackWeight(below + [s]) == Weight(s') - Weight(s)
  {
    var stack := below + [s];
    assert stack[|below|] == s && forall i | 0 <= i < |below| :: stack[i] == below[i];
    StackWeightPush(below, s);
    StackWeightPush(below, s');
  }

  lemma {:induction false} PushedOk(below: seq<State>, s: State, s': State, child: State)
    requires StackOk(below + [s]) && Sound(s') && Busy(s') && Sound(child) && Weight(s') + Weight(child) < Weight(s)
    ensures StackOk(below + [s'] + [child]) && StackWeight(below + [s'] + [child]) < StackWeight(below + [s])
  {
    var stack := below + [s];
    assert stack[|below|] == s && forall i | 0 <= i < |below| :: stack[i] == below[i];
    StackWeightPush(below, s);
    StackWeightPush(below, s');
    StackWeightPush(below + [s'], child);
  }

  lemma {:induction false} PoppedOk(below: seq<State>, s: State, x: Value)
    requires StackOk(below + [s])
    ensures StackOk(Delivered(below, x)) && StackWeight(Delivered(below, x)) < StackWeight(below + [s])
  {
    var stack := below + [s];
    assert stack[|below|] == s && forall i | 0 <= i < |below| :: stack[i] == below[i];
    DeliveredWeight(below, x);
    StackWeightPush(below, s);
    if below != [] {
      PutSound(below[|below| - 1], x);
    }
  }
}
