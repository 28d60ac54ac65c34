/**
 Big-endian integers without leading zero bytes, and the two's complement conversions of Go
 between uint64, int64 and the narrower integer kinds.
 */
module Numeric {

  type byte = x: int | 0 <= x < 0x100
  type Bytes = seq<byte>

  const TWO_TO_THE_63 := 0x8000_0000_0000_0000
  const TWO_TO_THE_64 := 0x1_0000_0000_0000_0000

  lemma {:induction false} Halves(a: Bytes, b: Bytes)
    ensures (a + b)[..|a|] == a && (a + b)[|a|..] == b
  {
  }

  lemma {:induction false} Regroup(a: Bytes, b: Bytes, c: Bytes)
    ensures a + b + c == a + (b + c)
  {
  }

  /** The number a byte sequence stands for, most significant byte first (`big.Int.SetBytes`). */
  function ValueOf(bs: Bytes): nat {
    if bs == [] then 0 else ValueOf(bs[..|bs| - 1]) * 0x100 + bs[|bs| - 1]
  }

  /** The shortest non-empty byte sequence standing for n. */
  function UintBytes(n: nat): (bs: Bytes)
    ensures |bs| > 0
  {
    if n < 0x100 then [n] else UintBytes(n / 0x100) + [n % 0x100]
  }

  function Pow256(k: nat): (p: nat)
    ensures p > 0
  {
    if k == 0 then 1 else 0x100 * Pow256(k - 1)
  }

  /** `byte(n >> (8 * k))` */
  function ByteAt(n: nat, k: nat): byte {
    if k == 0 then n % 0x100 else ByteAt(n / 0x100, k - 1)
  }

  lemma {:induction false} PowersOf256()
    ensures Pow256(1) == 0x100 && Pow256(2) == 0x1_0000 && Pow256(3) == 0x100_0000
    ensures Pow256(4) == 0x1_0000_0000 && Pow256(5) == 0x100_0000_0000 && Pow256(6) == 0x1_0000_0000_0000
    ensures Pow256(7) == 0x100_0000_0000_0000 && Pow256(8) == TWO_TO_THE_64
  {
    assert Pow256(1) == 0x100 * Pow256(0);
    assert Pow256(3) == 0x100 * Pow256(2);
    assert Pow256(5) == 0x100 * Pow256(4);
    assert Pow256(7) == 0x100 * Pow256(6);
  }

  // ----- reading back and minimality -----

  lemma {:induction false} ValueOfUintBytes(n: nat)
    ensures ValueOf(UintBytes(n)) == n
  {
    if n < 0x100 {
      assert [n][..0] == [];
    } else {
      ValueOfUintBytes(n / 0x100);
      assert UintBytes(n)[..|UintBytes(n)| - 1] == UintBytes(n / 0x100);
    }
  }

  lemma {:induction false} OneByte(b: byte)
    ensures ValueOf([b]) == b
  {
    assert [b][..0] == [];
  }

  lemma {:induction false} ValueBound(bs: Bytes)
    ensures ValueOf(bs) < Pow256(|bs|)
  {
    if bs != [] {
      ValueBound(bs[..|bs| - 1]);
    }
  }

  lemma {:induction false} UintLength(n: nat, k: nat)
    requires k >= 1 && n < Pow256(k) && (k == 1 || Pow256(k - 1) <= n)
    ensures |UintBytes(n)| == k
    ensures forall j | 0 <= j < k :: UintBytes(n)[j] == ByteAt(n, k - 1 - j)
  {
    if k > 1 {
      assert Pow256(1) == 0x100 * Pow256(0);
      if k > 2 {
        assert Pow256(k - 1) == 0x100 * Pow256(k - 2);
      }
      Pow256Grows(1, k - 1);
      UintLength(n / 0x100, k - 1);
    }
  }

  lemma {:induction false} Pow256Grows(j: nat, k: nat)
    requires j <= k
    ensures Pow256(j) <= Pow256(k)
    decreases k
  {
    if j < k {
      Pow256Grows(j, k - 1);
    }
  }

  /** No sequence that stands for n is shorter than UintBytes(n). */
  lemma {:induction false} UintBytesShortest(n: nat, bs: Bytes)
    requires bs != [] && ValueOf(bs) == n
    ensures |UintBytes(n)| <= |bs|
    ensures |UintBytes(n)| == |bs| ==> UintBytes(n) == bs
  {
    var init := bs[..|bs| - 1];
    if n < 0x100 {
      assert |bs| == 1 ==> init == [] && bs == [bs[0]];
    } else {
      assert init != [];
      UintBytesShortest(n / 0x100, init);
      assert bs == init + [bs[|bs| - 1]];
    }
  }

  lemma {:induction false} UintBytesFit(n: nat, k: nat)
    requires k >= 1 && n < Pow256(k)
    ensures |UintBytes(n)| <= k
  {
    if Pow256(k - 1) <= n || k == 1 {
      UintLength(n, k);
    } else {
      UintBytesFit(n, k - 1);
    }
  }

  // ----- numeric.go: writeUint and bytesToUint -----

  /** Fills `b[off..]` with the bytes of `i`; the answer is their number, or None when they do not fit. */
  method WriteUint(b: array<byte>, off: nat, i: nat) returns (l: int, ok: bool)
    requires off <= b.Length && i < TWO_TO_THE_64
    modifies b
    ensures ok == (|UintBytes(i)| <= b.Length - off)
    ensures ok ==> l == |UintBytes(i)| <= 8 && b[off..off + l] == UintBytes(i)
    ensures !ok ==> l == 0 && b[..] == old(b[..])
    ensures forall j | 0 <= j < b.Length && !(off <= j < off + l) :: b[j] == old(b[j])
  {
    var k;
    if i < 0x100 {
      k := 1;
    } else if i < 0x1_0000 {
      k := 2;
    } else if i < 0x100_0000 {
      k := 3;
    } else if i < 0x1_0000_0000 {
      k := 4;
    } else if i < 0x100_0000_0000 {
      k := 5;
    } else if i < 0x1_0000_0000_0000 {
      k := 6;
    } else if i < 0x100_0000_0000_0000 {
      k := 7;
    } else {
      k := 8;
    }
    assert |UintBytes(i)| == k && forall j | 0 <= j < k :: UintBytes(i)[j] == ByteAt(i, k - 1 - j) by {
      PowersOf256();
      UintLength(i, k);
    }
    if b.Length - off < k {
      return 0, false;
    }
    forall j | 0 <= j < k {
      b[off + j] := ByteAt(i, k - 1 - j);
    }
    return k, true;
  }

  /** The last n bytes of b, or all of b when it is shorter. */
  function LastBytes(b: Bytes, n: nat): Bytes {
    if |b| <= n then b else b[|b| - n..]
  }

  lemma {:induction false} EightBytesBound(bs: Bytes)
    requires |bs| <= 8
    ensures ValueOf(bs) < TWO_TO_THE_64
  {
    PowersOf256();
    ValueBound(bs);
    Pow256Grows(|bs|, 8);
  }

  /** The number in the last n bytes of b; `n <= 8`, so the accumulator never wraps. */
  method BytesToUint(b: Bytes, n: nat) returns (r: nat)
    requires n <= 8
    ensures r == ValueOf(LastBytes(b, n)) < TWO_TO_THE_64
  {
    r := 0;
    var l := |b|;
    ghost var tail := LastBytes(b, n);
    EightBytesBound(tail);
    if l > 0 {
      var s := l - n;
      if s < 0 { s := 0; }
      assert tail == b[s..];
      for i := s to l
        invariant r == ValueOf(tail[..i - s])
      {
        ValuePrefix(tail, i - s);
        r := Wrap64(r * 0x100);
        r := Wrap64(r + b[i]);
      }
      assert tail[..l - s] == tail;
    }
  }

  /** Arithmetic of uint64. */
  function Wrap64(n: nat): (r: nat)
    ensures r < TWO_TO_THE_64
    ensures n < TWO_TO_THE_64 ==> r == n
  {
    n % TWO_TO_THE_64
  }

  lemma {:induction false} ValuePrefix(bs: Bytes, k: nat)
    requires k < |bs| <= 8
    ensures ValueOf(bs[..k + 1]) == ValueOf(bs[..k]) * 0x100 + bs[k] < TWO_TO_THE_64
  {
    var seen := bs[..k + 1];
    EightBytesBound(seen);
    assert seen[..k] == bs[..k];
  }

  // ----- two's complement -----

  datatype Width = W8 | W16 | W32 | W64

  /** The number of values of an integer kind of this width. */
  function Modulus(w: Width): nat {
    match w
    case W8 => 0x100
    case W16 => 0x1_0000
    case W32 => 0x1_0000_0000
    case W64 => TWO_TO_THE_64
  }

  predicate InIntRange(w: Width, i: int) {
    -(Modulus(w) / 2) <= i < Modulus(w) / 2
  }

  /** Conversion to the signed kind of width w: drops the high bits (`reflect.Value.SetInt`). */
  function WrapInt(w: Width, i: int): (r: int)
    ensures InIntRange(w, r)
    ensures InIntRange(w, i) ==> r == i
  {
    (i + Modulus(w) / 2) % Modulus(w) - Modulus(w) / 2
  }

  /** Conversion to the unsigned kind of width w (`reflect.Value.SetUint`). */
  function WrapUint(w: Width, u: nat): (r: nat)
    ensures r < Modulus(w)
    ensures u < Modulus(w) ==> r == u
  {
    u % Modulus(w)
  }

  /** What `BytesToUint64` answers: the number in the last eight bytes. */
  function BytesToUint64(b: Bytes): nat {
    ValueOf(LastBytes(b, 8))
  }

  /** What `BytesToInt64` answers: the sign is only applied to a positive int64. */
  function BytesToInt64(b: Bytes, negative: bool): int {
    var r := WrapInt(W64, BytesToUint64(b));
    if negative && r > 0 then -r else r
  }

  /** `uint64(i)` for an int64. */
  function ToUint64(i: int): int {
    if i < 0 then i + TWO_TO_THE_64 else i
  }

  /** The magnitude `intWriter` writes: `uint64(-i)`, where -MinInt64 wraps to MinInt64 itself. */
  function Magnitude(i: int): int {
    if i < 0 then ToUint64(WrapInt(W64, -i)) else i
  }

  lemma {:induction false} WrapInt64(u: nat)
    requires u < TWO_TO_THE_64
    ensures WrapInt(W64, u) == if u < TWO_TO_THE_63 then u else u - TWO_TO_THE_64
  {
    if u >= TWO_TO_THE_63 {
      assert (u + TWO_TO_THE_63) % TWO_TO_THE_64 == u - TWO_TO_THE_63;
    }
  }

  /** Every uint64 is restored from its bytes. */
  lemma {:induction false} UintRestored(u: nat)
    requires u < TWO_TO_THE_64
    ensures |UintBytes(u)| <= 8 && BytesToUint64(UintBytes(u)) == u
  {
    PowersOf256();
    UintBytesFit(u, 8);
    ValueOfUintBytes(u);
  }

  /** Every int64, the least one included, is restored from its sign and magnitude. */
  lemma {:induction false} IntRestored(i: int)
    requires InIntRange(W64, i)
    ensures 0 <= Magnitude(i) < TWO_TO_THE_64 && |UintBytes(Magnitude(i))| <= 8
    ensures BytesToInt64(UintBytes(Magnitude(i)), i < 0) == i
  {
    assert Magnitude(i) == if i < 0 then -i else i by {
      if i < 0 {
        WrapInt64(-i);
      }
    }
    var u := Magnitude(i);
    UintRestored(u);
    WrapInt64(u);
  }

  /** A negative big integer too large for int64 whose magnitude still fits in eight bytes. */
  predicate InBigGap(i: int) {
    -TWO_TO_THE_64 < i < -TWO_TO_THE_63
  }

  /** What eight bytes of magnitude come back as through `BytesToInt64`: right exactly outside the gap. */
  lemma {:induction false} SmallNegativeBig(i: int)
    requires i < 0 && |UintBytes(-i)| <= 8
    ensures BytesToInt64(UintBytes(-i), true) == if InBigGap(i) then -i - TWO_TO_THE_64 else i
  {
    var u := -i;
    ValueOfUintBytes(u);
    EightBytesBound(UintBytes(u));
    WrapInt64(u);
  }
}
