/** The bit-packing encoder and the nibble-driven decoder. */
module HuffmanCoder {
  import opened Arith
  import opened Headers
  import opened Bits
  import opened Buffers
  import opened HuffmanCode

  const P8: nat := 0x100
  const P32: nat := 0x1_0000_0000
  const P40: nat := 0x100_0000_0000
  const P64: nat := 0x1_0000_0000_0000_0000

  lemma Powers()
    ensures Pow2(8) == P8 && Pow2(32) == P32 && Pow2(40) == P40
  {
    assert Pow2(4) == 16 && Pow2(8) == 256;
    PowAdd(8, 8);
    PowAdd(16, 16);
    PowAdd(32, 8);
  }

  /** The encoder's 64-bit accumulator: the bits not yet put sit just below bit 40, everything under them is
      zero, and whatever was shifted out above is left there. */
  ghost predicate Holds(acc: nat, p: Bits, left: nat) {
    |p| + left == 40 && exists g: nat :: HoldsAbove(acc, g, p, left)
  }

  ghost predicate HoldsAbove(acc: nat, g: nat, p: Bits, left: nat) {
    acc == g * P40 + Value(p) * Pow2(left)
  }

  /** Oring a code word into the free bits just below the pending ones appends it to them. The free bits are
      zero, so the or is an addition. */
  lemma HoldsWord(acc: nat, p: Bits, left: nat, w: Bits)
    requires Holds(acc, p, left) && |w| <= left
    ensures Holds(acc + Value(w) * Pow2(left - |w|), p + w, left - |w|)
    ensures acc % Pow2(left) == 0 && Value(w) * Pow2(left - |w|) < Pow2(left)
  {
    hide Pow2, Value;
    var g: nat :| HoldsAbove(acc, g, p, left);
    var low := left - |w|;
    Powers();
    PowAdd(low, |w|);
    PowAdd(left, |p|);
    ValueAppend(p, w);
    WordArith(acc, g, Value(p), Value(w), Pow2(|w|), Pow2(low), Pow2(left));
    assert HoldsAbove(acc + Value(w) * Pow2(low), g, p + w, low);
    FreeBits(acc, g, Value(p), Pow2(|p|), Pow2(left));
    SmallerProduct(Value(w), Pow2(|w|), Pow2(low));
  }

  lemma WordArith(acc: nat, g: nat, vp: nat, vw: nat, pw: nat, pl: nat, pleft: nat)
    requires acc == g * P40 + vp * pleft && pleft == pl * pw
    ensures acc + vw * pl == g * P40 + (vp * pw + vw) * pl
  {
    Assoc(vp, pw, pl);
    Distribute(vp * pw, vw, pl);
  }

  lemma FreeBits(acc: nat, g: nat, v: nat, pp: nat, pl: nat)
    requires acc == g * P40 + v * pl && P40 == pl * pp && pl > 0
    ensures acc % pl == 0
  {
    var k := g * pp + v;
    Distribute(g * pp, v, pl);
    Assoc(g, pp, pl);
    ModIs(acc, pl, k, 0);
  }

  /** Bits 32 to 39 are the first eight pending bits; shifting left by eight, with what falls off the top of
      64 bits lost, drops them. */
  lemma HoldsShift(acc: nat, p: Bits, left: nat)
    requires Holds(acc, p, left) && left <= 32
    ensures (acc / P32) % P8 == ByteOf(p[..8])
    ensures Holds((acc * P8) % P64, p[8..], left + 8)
  {
    hide Pow2, Value;
    var g: nat :| HoldsAbove(acc, g, p, left);
    var h, q := p[..8], p[8..];
    Powers();
    assert p == h + q;
    ValueAppend(h, q);
    PowAdd(left, |q|);
    PowAdd(left, 8);
    ShiftedOff(acc, g, Value(h), Value(q), Pow2(|q|), Pow2(left), Pow2(left + 8));
    assert HoldsAbove((acc * P8) % P64, (g * P8 + Value(h)) % 0x100_0000, q, left + 8);
  }

  /** The same in numbers: `vh` are the bits put and `vq` those left. */
  lemma ShiftedOff(acc: nat, g: nat, vh: nat, vq: nat, pq: nat, pl: nat, pl8: nat)
    requires acc == g * P40 + (vh * pq + vq) * pl && pl * pq == P32 && vh < P8 && vq < pq && pl > 0 && pl8 == pl * P8
    ensures (acc / P32) % P8 == vh
    ensures (acc * P8) % P64 == ((g * P8 + vh) % 0x100_0000) * P40 + vq * pl8
  {
    var r := vq * pl;
    SmallerProduct(vq, pq, pl);
    ShiftArith(acc, g, vh, vq, pq, pl);
    TopByte(acc, g, vh, r);
    Assoc(vq, pl, P8);
    LoseTop(acc * P8, g * P8 + vh, r * P8);
  }

  lemma ShiftArith(acc: nat, g: nat, vh: nat, vq: nat, pq: nat, pl: nat)
    requires acc == g * P40 + (vh * pq + vq) * pl && pl * pq == P32
    ensures acc == (g * P8 + vh) * P32 + vq * pl
  {
    Distribute(vh * pq, vq, pl);
    Assoc(vh, pq, pl);
  }

  lemma TopByte(acc: nat, g: nat, h: nat, r: nat)
    requires acc == (g * P8 + h) * P32 + r && r < P32 && h < P8
    ensures (acc / P32) % P8 == h
  {
    assert acc / P32 == g * P8 + h;
  }

  lemma LoseTop(x: nat, k: nat, r: nat)
    requires x == k * P40 + r && r < P40
    ensures x % P64 == (k % 0x100_0000) * P40 + r
  {
    var k1, k2 := k / 0x100_0000, k % 0x100_0000;
    assert x == k1 * P64 + (k2 * P40 + r);
  }

  /** The or of a code word, shifted up by `low`, into free bits: the operands have no bit in common. */
  function Ored(acc: nat, code: nat, low: nat): nat {
    acc + code * Pow2(low)
  }

  /** Where the encoder stands after `i` bytes of `src`: `put` written, `p` pending in the accumulator. */
  ghost predicate Packing(t: EncodeTable, src: Bytes, i: nat, put: Bytes, p: Bits, acc: nat, left: nat)
    requires |t| == 257 && i <= |src|
  {
    Holds(acc, p, left) && OfBytes(put) + p == CodeBits(t, src[..i])
  }

  lemma PackingStart(t: EncodeTable, src: Bytes)
    requires |t| == 257
    ensures Packing(t, src, 0, [], [], 0, 40)
  {
    assert HoldsAbove(0, 0, [], 40);
  }

  lemma PackingWord(t: EncodeTable, src: Bytes, i: nat, put: Bytes, p: Bits, acc: nat, left: nat)
    requires IsCode(t) && i < |src| && Packing(t, src, i, put, p, acc, left) && 33 <= left
    ensures var (nbits, code) := t[src[i]];
      && nbits <= MAX_CODE_BITS
      && Packing(t, src, i + 1, put, p + Word(t, src[i]), Ored(acc, code, left - nbits), left - nbits)
  {
    hide Pow2, Value, Holds, CodeBits, OfBytes, OfValue;
    var w := Word(t, src[i]);
    CodeBitsConcat(t, src[..i], [src[i]]);
    CodeBitsOne(t, src[i]);
    assert src[..i + 1] == src[..i] + [src[i]];
    ValueOfValue(t[src[i]].0, t[src[i]].1);
    HoldsWord(acc, p, left, w);
    assert OfBytes(put) + (p + w) == (OfBytes(put) + p) + w;
  }

  lemma HoldsLength(acc: nat, p: Bits, left: nat)
    requires Holds(acc, p, left)
    ensures |p| + left == 40
  {
  }

  lemma PackingPut(t: EncodeTable, src: Bytes, i: nat, put: Bytes, p: Bits, acc: nat, left: nat)
    requires |t| == 257 && i <= |src| && Packing(t, src, i, put, p, acc, left) && left <= 32
    ensures |p| >= 8 && (acc / P32) % P8 == ByteOf(p[..8])
    ensures Packing(t, src, i, put + [ByteOf(p[..8])], p[8..], (acc * P8) % P64, left + 8)
  {
    hide Pow2, Value, Holds, CodeBits, OfBytes, OfValue;
    HoldsLength(acc, p, left);
    HoldsShift(acc, p, left);
    OfBytesAppend(put, ByteOf(p[..8]));
    OfValueValue(p[..8]);
    assert p == p[..8] + p[8..];
    assert OfBytes(put) + p[..8] + p[8..] == OfBytes(put) + p;
  }

  lemma HoldsPad(acc: nat, p: Bits, left: nat)
    requires Holds(acc, p, left)
    ensures Holds(acc + (Pow2(left) - 1), p + Ones(left), 0)
  {
    ValueOnes(left);
    HoldsWord(acc, p, left, Ones(left));
    assert Pow2(0) == 1;
  }

  /** The last byte, filled up with ones. */
  lemma PackingPad(t: EncodeTable, src: Bytes, put: Bytes, p: Bits, acc: nat, left: nat) returns (last: Byte)
    requires |t| == 257 && Packing(t, src, |src|, put, p, acc, left) && 33 <= left < 40
    ensures last == ((acc + (Pow2(left) - 1)) / P32) % P8
    ensures Encoded(t, src) == put + [last]
  {
    hide Pow2, Value;
    var pad := Ones(8 - |p|);
    HoldsPad(acc, p, left);
    HoldsShift(acc + (Pow2(left) - 1), p + Ones(left), 0);
    assert (p + Ones(left))[..8] == p + pad;
    last := ByteOf(p + pad);
    OfBytesAppend(put, last);
    OfValueValue(p + pad);
    assert OfBytes(put) + (p + pad) == (OfBytes(put) + p) + pad;
    assert src[..|src|] == src;
    EncodedFromBits(t, src, 8 - |p|, put + [last]);
  }

  lemma PackingDone(t: EncodeTable, src: Bytes, put: Bytes, p: Bits, acc: nat)
    requires |t| == 257 && Packing(t, src, |src|, put, p, acc, 40)
    ensures Encoded(t, src) == put
  {
    assert src[..|src|] == src;
    assert OfBytes(put) == CodeBits(t, src) + Ones(0);
    EncodedFromBits(t, src, 0, put);
  }

  /** With eight bits pending there is at least one more byte to come. */
  lemma PackingTooLong(t: EncodeTable, src: Bytes, i: nat, put: Bytes, p: Bits, acc: nat, left: nat)
    requires |t| == 257 && i <= |src| && Packing(t, src, i, put, p, acc, left) && left <= 32
    ensures |Encoded(t, src)| > |put|
  {
    assert src == src[..i] + src[i..];
    CodeBitsConcat(t, src[..i], src[i..]);
  }

  /** Packs the code words of `src` into `dst`, or reports that they do not fit. */
  method Encode(t: EncodeTable, src: Bytes, dst: Dst) returns (ok: bool)
    requires IsCode(t)
    modifies dst
    ensures ok <==> |Encoded(t, src)| <= old(dst.remaining)
    ensures ok ==> dst.data == old(dst.data) + Encoded(t, src)
    ensures ok ==> dst.remaining == old(dst.remaining) - |Encoded(t, src)|
    ensures !ok ==> old(dst.data) <= dst.data
  {
    hide Packing, Pow2, Encoded, CodeBits, Word;
    var bits: nat, bitsLeft: nat, rem: nat := 0, 40, dst.remaining;
    ghost var put: Bytes, p: Bits := [], [];
    PackingStart(t, src);
    for i := 0 to |src|
      invariant rem == dst.remaining && rem + |put| == old(dst.remaining) && dst.data == old(dst.data) + put
      invariant 33 <= bitsLeft <= 40 && Packing(t, src, i, put, p, bits, bitsLeft)
    {
      var (nbits, code) := t[src[i]];
      PackingWord(t, src, i, put, p, bits, bitsLeft);
      bits, bitsLeft := Ored(bits, code, bitsLeft - nbits), bitsLeft - nbits;
      p := p + Word(t, src[i]);
      while bitsLeft <= 32
        invariant rem == dst.remaining && rem + |put| == old(dst.remaining) && dst.data == old(dst.data) + put
        invariant bitsLeft <= 40 && Packing(t, src, i + 1, put, p, bits, bitsLeft)
        decreases 40 - bitsLeft
      {
        if rem == 0 {
          PackingTooLong(t, src, i + 1, put, p, bits, bitsLeft);
          return false;
        }
        PackingPut(t, src, i + 1, put, p, bits, bitsLeft);
        dst.Put((bits / P32) % P8);
        put, p := put + [(bits / P32) % P8], p[8..];
        bits, bitsLeft, rem := (bits * P8) % P64, bitsLeft + 8, rem - 1;
      }
    }
    if bitsLeft != 40 {
      ghost var last := PackingPad(t, src, put, p, bits, bitsLeft);
      if rem == 0 {
        return false;
      }
      bits := bits + (Pow2(bitsLeft) - 1);
      dst.Put((bits / P32) % P8);
    } else {
      PackingDone(t, src, put, p, bits);
    }
    return true;
  }
}
