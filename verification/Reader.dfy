/** The byte reader over a finite input of known length, and its stack-based Skip. */
module Reader {
  import opened Numeric
  import opened Headers
  import opened Wrappers
  import Wire
  import opened Skipping

  class ValueReader {
    const data: Bytes
    /** The number of bytes the input announced when the reader was made. */
    const readerSize: nat
    /** false is the code as it stands; true puts a pop in place of the `break` of Skip. */
    const popSkip: bool
    var pos: nat
    var readCount: nat
    var eof: bool

    ghost predicate Valid()
      reads this
    {
      (readCount, readerSize) == (pos, |data|) && pos <= |data| && (eof ==> pos == |data|)
    }

    /** The bytes not read yet. */
    ghost function Rest(): Bytes
      requires Valid()
      reads this
    {
      data[pos..]
    }

    /** The outcome r and the reader's new position are what `spec` says. */
    ghost predicate Gave<T>(r: Option<T>, spec: Res<T>)
      requires Valid()
      reads this
    {
      spec == if r.Some? then Ok(r.value, Rest()) else Err
    }

    constructor (input: Bytes, popSkip: bool)
      ensures Valid() && Rest() == input && this.popSkip == popSkip
    {
      data := input;
      readerSize := |input|;
      this.popSkip := popSkip;
      pos, readCount, eof := 0, 0, false;
    }

    function Left(): int
      reads this
    {
      readerSize - readCount
    }

    /** io.ReadFull on the input: takes what there is of n bytes; too few is an end of file. */
    method ReadFull(n: nat) returns (buf: Bytes, ok: bool)
      requires Valid()
      modifies this
      ensures Valid() && ok == (n <= |old(Rest())|)
      ensures ok ==> buf == old(Rest())[..n] && Rest() == old(Rest())[n..] && eof == old(eof)
      ensures !ok ==> buf == old(Rest()) && Rest() == [] && eof
    {
      ok := n <= |data| - pos;
      if ok {
        buf := data[pos..pos + n];
        pos := pos + n;
      } else {
        buf := data[pos..];
        pos := |data|;
        eof := true;
      }
      readCount := readCount + |buf|;
    }

    method ReadByte() returns (r: Option<byte>)
      requires Valid()
      modifies this
      ensures Valid()
      ensures Gave(r, if old(Rest()) == [] then Err else Ok(old(Rest())[0], old(Rest())[1..]))
    {
      if eof {
        return None;
      }
      var buf, ok := ReadFull(1);
      return if ok then Some(buf[0]) else None;
    }

    method ReadHeader() returns (r: Option<(TypeHeader, nat)>)
      requires Valid()
      modifies this
      ensures Valid() && Gave(r, Wire.ReadHeader(old(Rest())))
    {
      var b := ReadByte();
      if b.None? {
        return None;
      }
      var order := [THSingleByte, THZeroValue, THTrue, THEmpty, THArraySingle, THArrayMulti, THPosNumSingle,
                    THNegNumSingle, THPosBigInt, THNegBigInt, THStringSingle, THStringMulti, THVersion,
                    THVersionSingle];
      InOrder(order);
      r := ParseRTLHeader(b.value, order);
    }

    method ReadBytes(length: int) returns (r: Option<Bytes>)
      requires Valid()
      modifies this
      ensures Valid() && Gave(r, if length < 0 then Err else Wire.ReadBytes(length, old(Rest())))
    {
      if length <= 0 {
        return None;
      }
      if eof {
        return None;
      }
      var buf, ok := ReadFull(length);
      return if ok then Some(buf) else None;
    }

    method ReadMultiLength(length: nat) returns (r: Option<nat>)
      requires Valid()
      modifies this
      ensures Valid() && Gave(r, Wire.ReadMultiLength(length, old(Rest())))
    {
      var n: nat;
      if length == 1 {
        var b := ReadByte();
        if b.None? {
          return None;
        }
        n := b.value;
        assert old(Rest())[..1] == [b.value];
        OneByte(b.value);
      } else {
        var lbuf := ReadBytes(length);
        if lbuf.None? {
          return None;
        }
        n := Numeric.BytesToUint(lbuf.value, 8);
      }
      var left := Left();
      if left <= 0 || n > left {
        return None;
      }
      return Some(n);
    }

    method ReadMultiLengthBytes(length: nat) returns (r: Option<Bytes>)
      requires Valid()
      modifies this
      ensures Valid()
      ensures Gave(r, var n := Wire.ReadMultiLength(length, old(Rest()));
                      if n.Err? then Err else Wire.ReadBytes(n.value, n.rest))
    {
      var l := ReadMultiLength(length);
      if l.None? {
        return None;
      }
      r := ReadBytes(l.value);
    }

    /** A header with the length of a long header, which must fit in an int32. */
    method ReadFullHeader() returns (r: Option<(TypeHeader, nat)>)
      requires Valid()
      modifies this
      ensures Valid()
      ensures Gave(r, var size := Wire.ReadSize(old(Rest()));
                      if size.Ok? && HeaderTypeMap(size.value.0).t.VTMultiHeader? && size.value.1 > Wire.MAX_INT32
                      then Err else size)
    {
      var h := ReadHeader();
      if h.None? {
        return None;
      }
      var (th, length) := h.value;
      if HeaderTypeMap(th).t.VTMultiHeader? {
        var l := ReadMultiLength(length);
        if l.None? || l.value > Wire.MAX_INT32 {
          return None;
        }
        return Some((th, l.value));
      }
      return Some((th, length));
    }

    /** Passes over `length` bytes, at most 512 at a time; n is the number of bytes passed. */
    method SkipBytes(length: nat) returns (n: nat, ok: bool)
      requires Valid()
      modifies this
      ensures Valid() && ok == (length <= |old(Rest())|)
      ensures ok ==> n == length && Rest() == old(Rest())[length..]
      ensures !ok ==> Rest() == []
      ensures n == |old(Rest())| - |Rest()|
    {
      if length > 512 {
        ghost var before := Rest();
        for i := 0 to length / 512
          invariant Valid() && i * 512 <= |before| && Rest() == before[i * 512..]
        {
          var buf, ok := ReadFull(512);
          if !ok {
            return i * 512 + |buf|, false;
          }
        }
        var m := length % 512;
        if m > 0 {
          var buf, ok := ReadFull(m);
          return length - m + |buf|, ok;
        }
        return length, true;
      }
      var buf, full := ReadFull(length);
      return |buf|, full;
    }

    /** Reads a header, with its length if it is long, and pushes an entry for it. */
    method ReadAndPush(stack: seq<HeaderStack>, skiped: nat) returns (stack': seq<HeaderStack>, skiped': nat, ok: bool)
      requires Valid()
      modifies this
      ensures Valid() && ok == Wire.ReadSize(old(Rest())).Ok?
      ensures ok ==> && Rest() == Wire.ReadSize(old(Rest())).rest
                     && var (th, n) := Wire.ReadSize(old(Rest())).value; stack' == stack + [HeaderStack(th, n, -1)]
      ensures ok ==> skiped' == skiped + |old(Rest())| - |Rest()|
    {
      stack' := stack;
      var h := ReadHeader();
      skiped' := skiped + 1;
      if h.None? {
        return stack', skiped', false;
      }
      var (th, length) := h.value;
      var size := length;
      if HeaderTypeMap(th).t.VTMultiHeader? {
        var ml := ReadMultiLength(length);
        skiped' := skiped' + length;
        if ml.None? {
          return stack', skiped', false;
        }
        size := ml.value;
      }
      return stack + [HeaderStack(th, size, -1)], skiped', true;
    }

    /** One turn of Skip's loop; without `more` the loop is left. */
    method SkipTop(stack: seq<HeaderStack>) returns (stack': seq<HeaderStack>, n: nat, more: bool, ok: bool)
      requires Valid() && stack != []
      modifies this
      ensures Valid() && (!ok ==> Finish(popSkip, stack, old(Rest())) == None)
      ensures ok ==> n == |old(Rest())| - |Rest()|
      ensures ok ==>
                Finish(popSkip, stack, old(Rest())) == if more then Finish(popSkip, stack', Rest()) else Some(Rest())
      ensures ok && more ==> |Rest()| < |old(Rest())| || (Rest() == old(Rest()) && |stack'| < |stack|)
    {
      var last, below := stack[|stack| - 1], stack[..|stack| - 1];
      if HeaderTypeMap(last.th).x {
        last := last.(index := last.index + 1);
        if last.index >= last.size {
          FinishClosed(popSkip, stack, Rest());
          return below, 0, popSkip, true;
        }
        assert stack == below + [last.(index := last.index - 1)];
        if Wire.ReadSize(Rest()).Err? {
          FinishCut(popSkip, below, last, Rest());
        } else {
          FinishNext(popSkip, below, last, Rest());
        }
        stack', n, ok := ReadAndPush(below + [last], 0);
        return stack', n, true, ok;
      }
      if HeaderTypeMap(last.th).t.VTByte? {
        return below, 0, true, true;
      }
      n, ok := SkipBytes(last.size);
      return below, n, true, ok;
    }

    /**
     Skips one item with an explicit stack of headers. It succeeds exactly when the recursive Skim does,
     ends where Skim ends, and answers the number of bytes it passed over.
     */
    method Skip() returns (skiped: nat, ok: bool)
      requires Valid()
      modifies this
      ensures Valid() && ok == Skim(popSkip, old(Rest())).Ok?
      ensures ok ==> Rest() == Skim(popSkip, old(Rest())).rest && skiped == |old(Rest())| - |Rest()|
    {
      if eof {
        return 0, false;
      }
      ghost var before := Rest();
      var stack: seq<HeaderStack> := [];
      stack, skiped, ok := ReadAndPush(stack, 0);
      if !ok {
        return skiped, false;
      }
      FinishPushed(popSkip, [], before);
      ghost var outcome := Finish(popSkip, stack, Rest());
      while |stack| > 0
        invariant Valid()
        invariant outcome == Finish(popSkip, stack, Rest())
        invariant skiped == |before| - |Rest()|
        decreases |Rest()|, |stack|
      {
        var n, more;
        stack, n, more, ok := SkipTop(stack);
        skiped := skiped + n;
        if !ok {
          return skiped, false;
        }
        if !more {
          break;
        }
      }
      return skiped, true;
    }
  }

  lemma {:induction false} InOrder(order: seq<TypeHeader>)
    requires order == [THSingleByte, THZeroValue, THTrue, THEmpty, THArraySingle, THArrayMulti, THPosNumSingle,
                       THNegNumSingle, THPosBigInt, THNegBigInt, THStringSingle, THStringMulti, THVersion,
                       THVersionSingle]
    ensures THInvalid !in order && forall th | th != THInvalid :: th in order
  {
  }
}
