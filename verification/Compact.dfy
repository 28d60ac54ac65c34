/** Numbers, bools and strings are written in the fewest bytes: no item that decodes to the same is shorter. */
module Compact {
  import opened Numeric
  import opened Headers
  import opened Wrappers
  import opened Wire
  import opened Values
  import opened Encoding
  import opened Decoding
  import opened Conversions

  // ----- lengths -----

  /** A larger number has at least as many bytes. */
  lemma {:induction false} LongerNumber(m: nat, n: nat)
    requires m <= n
    ensures |UintBytes(m)| <= |UintBytes(n)|
  {
    if n >= 0x100 && m >= 0x100 {
      LongerNumber(m / 0x100, n / 0x100);
    }
  }

  /** Bytes that stand for at least n are at least as many as those written for n. */
  lemma {:induction false} NoShorter(n: nat, bs: Bytes)
    requires bs != [] && n <= ValueOf(bs)
    ensures |UintBytes(n)| <= |bs|
  {
    UintBytesShortest(ValueOf(bs), bs);
    LongerNumber(n, ValueOf(bs));
  }

  lemma {:induction false} LongerHeader(f: Family, m: nat, n: nat)
    requires m <= n
    ensures |LengthHeader(f, m)| <= |LengthHeader(f, n)|
  {
    LongerNumber(m, n);
  }

  lemma {:induction false} LongerItem(negative: bool, us: Bytes, bs: Bytes, sign: bool)
    requires |us| <= |bs|
    ensures |ItemBytes(WNum(negative, us))| <= |ItemBytes(WNum(sign, bs))|
  {
    LongerHeader(Sign(negative), |us|, |bs|);
    SameHeader(|bs|);
  }

  lemma {:induction false} SameHeader(n: nat)
    ensures |NumericHeader(false, n)| == |NumericHeader(true, n)|
  {
  }

  // ----- numbers -----

  /** Every number below 128 is its own byte, of every kind. */
  lemma {:induction false} OwnByte(b: nat, w: Width)
    requires b < 128
    ensures ItemBytes(WireOf(TInt(w), VInt(b))) == [b]
    ensures ItemBytes(WireOf(TUint(w), VUint(b))) == [b]
    ensures ItemBytes(WireOf(TBigInt, VBig(b))) == [b]
    ensures ItemBytes(WireOf(TString, VString([b]))) == [b]
    ensures ItemBytes(WireOf(TSlice(BYTE), VSlice([VUint(b)], []))) == [b]
  {
    assert BytesOf([VUint(b)]) == [b];
  }

  /** Numbers less than the size of the kind apart are different in it. */
  lemma {:induction false} CongruentNear(w: Width, x: int, n: int)
    requires Congruent(w, x, n) && Abs(x - n) < Modulus(w)
    ensures x == n
  {
    var k :| x == n + Times(k, w);
    TimesFar(k, w);
    assert Times(0, w) == 0;
  }

  lemma {:induction false} TimesFar(k: int, w: Width)
    ensures k == 0 || Abs(Times(k, w)) >= Modulus(w)
  {
    if k > 0 {
      TimesAtLeast(k, w);
    } else if k < 0 {
      TimesAtLeast(-k, w);
      TimesNegated(k, w);
    }
  }

  lemma {:induction false} TimesAtLeast(k: nat, w: Width)
    requires k > 0
    ensures Times(k, w) >= Modulus(w)
  {
    TimesSum(k - 1, 1, w);
    assert Times(k - 1, w) >= 0;
  }

  /** A number in the range of a signed kind is no farther from zero than any that is the same in the kind. */
  lemma {:induction false} NearestInt(w: Width, x: int, n: int)
    requires InIntRange(w, x) && Congruent(w, x, n)
    ensures Abs(x) <= Abs(n)
  {
    if Abs(n) < Abs(x) {
      CongruentNear(w, x, n);
    }
  }

  lemma {:induction false} NearestUint(w: Width, u: nat, n: nat)
    requires u < Modulus(w) && Congruent(w, u, n)
    ensures u <= n
  {
    if n < u {
      CongruentNear(w, u, n);
    }
  }

  /** What an item of a number takes, when its digits stand for at least u. */
  lemma {:induction false} NumberTakes(negative: bool, u: nat, item: Item)
    requires Valid(item) && NumberOf(item).Some?
    requires item.WNum? ==> u <= ValueOf(item.bs)
    requires !item.WNum? ==> !negative && u <= 127
    ensures |ItemBytes(NumberItem(negative, u))| <= |ItemBytes(item)|
  {
    if negative || u > 127 {
      NoShorter(u, item.bs);
      LongerItem(negative, UintBytes(u), item.bs, item.negative);
    }
  }

  /** Any valid item that decodes to an int is at least as long as the one written for it. */
  lemma {:induction false} IntShortest(c: Decoder, w: Width, i: int, item: Item, prev: Value, d: nat, tail: Bytes)
    requires Begins(c, item, d) && Decoded(c, TInt(w), item, prev, d, tail) == Ok(VInt(i), tail)
    ensures |ItemBytes(WireOf(TInt(w), VInt(i)))| <= |ItemBytes(item)|
  {
    IntoInt(c, w, item, prev, d, tail);
    var n := NumberOf(item).value;
    NearestInt(w, i, AsInt64(n));
    if !item.WNum? {
      NearZero(w, i, n);
    } else {
      assert Abs(i) <= Abs(AsInt64(n)) == ValueOf(item.bs);
    }
    NumberTakes(i < 0, Abs(i), item);
  }

  lemma {:induction false} NearZero(w: Width, i: int, n: nat)
    requires InIntRange(w, i) && n < 128 && Congruent(w, i, n)
    ensures i == n
  {
    CongruentNear(w, i, n);
  }

  lemma {:induction false} UintShortest(c: Decoder, w: Width, u: nat, item: Item, prev: Value, d: nat, tail: Bytes)
    requires Begins(c, item, d) && Decoded(c, TUint(w), item, prev, d, tail) == Ok(VUint(u), tail)
    ensures |ItemBytes(WireOf(TUint(w), VUint(u)))| <= |ItemBytes(item)|
  {
    IntoUint(c, w, item, prev, d, tail);
    NearestUint(w, u, NumberOf(item).value);
    NumberTakes(false, u, item);
  }

  lemma {:induction false} BigShortest(c: Decoder, i: int, item: Item, prev: Value, d: nat, tail: Bytes)
    requires Begins(c, item, d) && Decoded(c, TBigInt, item, prev, d, tail) == Ok(VBig(i), tail)
    ensures |ItemBytes(WireOf(TBigInt, VBig(i)))| <= |ItemBytes(item)|
  {
    IntoBig(c, item, prev, d, tail);
    if item.WNum? && Short(item) {
      EightBytesBound(item.bs);
    }
    NumberTakes(i < 0, Abs(i), item);
  }

  // ----- strings and bools -----

  lemma {:induction false} StringShortest(c: Decoder, s: Bytes, item: Item, prev: Value, d: nat, tail: Bytes)
    requires Begins(c, item, d) && Decoded(c, TString, item, prev, d, tail) == Ok(VString(s), tail)
    ensures |ItemBytes(WireOf(TString, VString(s)))| <= |ItemBytes(item)|
  {
    IntoString(c, item, prev, d, tail);
  }

  /** A value without parts: any valid item that decodes to it is at least as long as what is written for it. */
  lemma {:induction false} Shortest(c: Decoder, t: Type, v: Value, item: Item, prev: Value, d: nat, tail: Bytes)
    requires (t.TInt? || t.TUint? || t.TBool? || t.TString? || t.TBigInt?) && HasType(t, v) && Begins(c, item, d)
    requires Decoded(c, t, item, prev, d, tail) == Ok(v, tail)
    ensures |ItemBytes(WireOf(t, v))| <= |ItemBytes(item)|
  {
    match t
    case TInt(w) => IntShortest(c, w, v.i, item, prev, d, tail);
    case TUint(w) => UintShortest(c, w, v.u, item, prev, d, tail);
    case TString => StringShortest(c, v.s, item, prev, d, tail);
    case TBigInt =>
      if v.VBig? {
        BigShortest(c, v.i, item, prev, d, tail);
      }
    case TBool =>
  }
}
