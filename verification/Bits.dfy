/** Bit strings, most significant bit first, their numeric values, and their packing into bytes. */
module Bits {
  import opened Headers

  type Bits = seq<bool>

  function Pow2(n: nat): (p: nat)
    ensures p >= 1
  {
    if n == 0 then 1 else 2 * Pow2(n - 1)
  }

  function Value(b: Bits): (v: nat)
    ensures v < Pow2(|b|)
  {
    if b == [] then 0 else 2 * Value(b[..|b| - 1]) + (if b[|b| - 1] then 1 else 0)
  }

  /** The `width` low bits of `v`. */
  function OfValue(width: nat, v: nat): (b: Bits)
    ensures |b| == width
  {
    if width == 0 then [] else OfValue(width - 1, v / 2) + [v % 2 == 1]
  }

  function Ones(n: nat): (b: Bits)
    ensures |b| == n && forall i :: 0 <= i < n ==> b[i]
  {
    seq(n, _ => true)
  }

  lemma {:induction false} PowAdd(a: nat, b: nat)
    ensures Pow2(a + b) == Pow2(a) * Pow2(b)
  {
    if b > 0 {
      PowAdd(a, b - 1);
      TwiceProduct(Pow2(a), Pow2(b - 1));
    }
  }

  lemma {:induction false} ValueAppend(a: Bits, b: Bits)
    ensures Value(a + b) == Value(a) * Pow2(|b|) + Value(b)
  {
    if b == [] {
      assert a + b == a;
    } else {
      var c := b[..|b| - 1];
      assert (a + b)[..|a + b| - 1] == a + c;
      assert Value(a + b) == 2 * Value(a + c) + (Value(b) - 2 * Value(c));
      ValueAppend(a, c);
      TwiceProduct(Value(a), Pow2(|c|));
    }
  }

  lemma TwiceProduct(x: nat, p: nat)
    ensures 2 * (x * p) == x * (2 * p)
  {
  }

  lemma {:induction false} ValueOnes(n: nat)
    ensures Value(Ones(n)) == Pow2(n) - 1
  {
    if n > 0 {
      assert Ones(n)[..n - 1] == Ones(n - 1);
      ValueOnes(n - 1);
    }
  }

  lemma {:induction false} OfValueValue(b: Bits)
    ensures OfValue(|b|, Value(b)) == b
  {
    if b != [] {
      OfValueValue(b[..|b| - 1]);
    }
  }

  lemma {:induction false} ValueOfValue(width: nat, v: nat)
    requires v < Pow2(width)
    ensures Value(OfValue(width, v)) == v
  {
    if width > 0 {
      ValueOfValue(width - 1, v / 2);
      assert OfValue(width, v)[..width - 1] == OfValue(width - 1, v / 2);
    }
  }

  // ----- bytes

  function OfBytes(bs: Bytes): (b: Bits)
    ensures |b| == 8 * |bs|
  {
    if bs == [] then [] else OfBytes(bs[..|bs| - 1]) + OfValue(8, bs[|bs| - 1])
  }

  function ByteOf(b: Bits): Byte
    requires |b| == 8
  {
    assert Pow2(8) == 256;
    Value(b)
  }

  function ToBytes(b: Bits): (bs: Bytes)
    requires |b| % 8 == 0
    ensures 8 * |bs| == |b|
    decreases |b|
  {
    if b == [] then [] else ToBytes(b[..|b| - 8]) + [ByteOf(b[|b| - 8..])]
  }

  lemma OfBytesAppend(bs: Bytes, x: Byte)
    ensures OfBytes(bs + [x]) == OfBytes(bs) + OfValue(8, x)
  {
    assert (bs + [x])[..|bs|] == bs;
  }

  lemma ByteOfValue(x: Byte)
    ensures ByteOf(OfValue(8, x)) == x
  {
    assert Pow2(8) == 256;
    ValueOfValue(8, x);
  }

  lemma ToBytesAppend(a: Bits, b: Bits)
    requires |a| % 8 == 0 && |b| == 8
    ensures ToBytes(a + b) == ToBytes(a) + [ByteOf(b)]
  {
    hide Value;
    assert (a + b)[..|a|] == a && (a + b)[|a|..] == b;
  }

  lemma {:induction false} OfBytesToBytes(b: Bits)
    requires |b| % 8 == 0
    ensures OfBytes(ToBytes(b)) == b
    decreases |b|
  {
    if b != [] {
      var front, last := b[..|b| - 8], b[|b| - 8..];
      assert front + last == b;
      OfBytesToBytes(front);
      MoreToBytes(front, last);
    }
  }

  lemma MoreToBytes(b: Bits, last: Bits)
    requires |b| % 8 == 0 && |last| == 8 && OfBytes(ToBytes(b)) == b
    ensures OfBytes(ToBytes(b + last)) == b + last
  {
    hide OfBytes, ToBytes, Value, OfValue;
    ToBytesAppend(b, last);
    OfValueValue(last);
    OfBytesAppend(ToBytes(b), ByteOf(last));
  }

  lemma {:induction false} ToBytesOfBytes(bs: Bytes)
    ensures ToBytes(OfBytes(bs)) == bs
  {
    if bs != [] {
      var front, x := bs[..|bs| - 1], bs[|bs| - 1];
      ToBytesOfBytes(front);
      OneByteMore(front, x);
      assert front + [x] == bs;
    }
  }

  lemma OneByteMore(bs: Bytes, x: Byte)
    requires ToBytes(OfBytes(bs)) == bs
    ensures ToBytes(OfBytes(bs + [x])) == bs + [x]
  {
    hide OfBytes, ToBytes, Value, OfValue;
    ByteOfValue(x);
    OfBytesAppend(bs, x);
    ToBytesAppend(OfBytes(bs), OfValue(8, x));
  }

  lemma {:induction false} OfBytesConcat(a: Bytes, b: Bytes)
    ensures OfBytes(a + b) == OfBytes(a) + OfBytes(b)
  {
    if b == [] {
      assert a + b == a;
    } else {
      var front, x := b[..|b| - 1], b[|b| - 1];
      OfBytesConcat(a, front);
      MoreConcat(a, front, x);
      assert front + [x] == b && a + front + [x] == a + b;
    }
  }

  lemma MoreConcat(a: Bytes, b: Bytes, x: Byte)
    requires OfBytes(a + b) == OfBytes(a) + OfBytes(b)
    ensures OfBytes(a + b + [x]) == OfBytes(a) + OfBytes(b + [x])
  {
    hide OfBytes, OfValue;
    OfBytesAppend(a + b, x);
    OfBytesAppend(b, x);
    assert OfBytes(a) + (OfBytes(b) + OfValue(8, x)) == OfBytes(a) + OfBytes(b) + OfValue(8, x);
  }

  /** A byte is its two nibbles. */
  lemma ByteNibbles(x: Byte)
    ensures OfValue(8, x) == OfValue(4, x / 16) + OfValue(4, x % 16)
  {
    var hi, lo := OfValue(4, x / 16), OfValue(4, x % 16);
    assert Pow2(4) == 16 && Pow2(8) == 256;
    ValueOfValue(4, x / 16);
    ValueOfValue(4, x % 16);
    ValueAppend(hi, lo);
    OfValueValue(hi + lo);
  }
}
