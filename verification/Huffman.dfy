/** Huffman coding of strings (section 5.2 of RFC 7541): what the coded form of a string is, and the two
    directions of inverting it, for any prefix code with the bounds of that section. */
module HuffmanCode {
  import opened Headers
  import opened Bits

  /** A code word as the tables hold it: how many bits, and their value. */
  type EncodeTable = seq<(nat, nat)>

  const EOS: nat := 256
  const MIN_CODE_BITS: nat := 5
  const MAX_CODE_BITS: nat := 30

  function Word(t: EncodeTable, sym: nat): (b: Bits)
    requires sym < |t|
    ensures |b| == t[sym].0
  {
    OfValue(t[sym].0, t[sym].1)
  }

  /** A prefix code over the 256 bytes and the end-of-string symbol, whose word is thirty ones. */
  ghost predicate IsCode(t: EncodeTable) {
    && |t| == 257
    && (forall i :: 0 <= i < 257 ==> MIN_CODE_BITS <= t[i].0 <= MAX_CODE_BITS && t[i].1 < Pow2(t[i].0))
    && (forall i, j :: 0 <= i < 257 && 0 <= j < 257 && i != j ==> !(Word(t, i) <= Word(t, j)))
    && Word(t, EOS) == Ones(MAX_CODE_BITS)
  }

  function CodeBits(t: EncodeTable, s: Bytes): (b: Bits)
    requires |t| == 257
  {
    if s == [] then [] else CodeBits(t, s[..|s| - 1]) + Word(t, s[|s| - 1])
  }

  /** How many one-bits fill the last byte. */
  function PadLen(n: nat): (r: nat)
    ensures r <= 7 && (n + r) % 8 == 0
  {
    (8 - n % 8) % 8
  }

  /** The coded form: the code words in order, then the padding. */
  function Encoded(t: EncodeTable, s: Bytes): (bs: Bytes)
    requires |t| == 257
    ensures 8 * |bs| == |CodeBits(t, s)| + PadLen(|CodeBits(t, s)|)
  {
    var b := CodeBits(t, s);
    ToBytes(b + Ones(PadLen(|b|)))
  }

  lemma {:induction false} CodeBitsConcat(t: EncodeTable, a: Bytes, b: Bytes)
    requires |t| == 257
    ensures CodeBits(t, a + b) == CodeBits(t, a) + CodeBits(t, b)
  {
    if b == [] {
      assert a + b == a;
    } else {
      assert (a + b)[..|a + b| - 1] == a + b[..|b| - 1];
      CodeBitsConcat(t, a, b[..|b| - 1]);
    }
  }

  lemma CodeBitsOne(t: EncodeTable, b: Byte)
    requires |t| == 257
    ensures CodeBits(t, [b]) == Word(t, b)
  {
    assert [b][..0] == [];
  }

  lemma CodeBitsHead(t: EncodeTable, s: Bytes)
    requires |t| == 257 && s != []
    ensures CodeBits(t, s) == Word(t, s[0]) + CodeBits(t, s[1..])
  {
    assert s == s[..1] + s[1..];
    CodeBitsConcat(t, s[..1], s[1..]);
    assert CodeBits(t, s[..1]) == CodeBits(t, s[..1][..0]) + Word(t, s[0]);
  }

  /** Two prefixes of one bit string are comparable. */
  lemma Comparable(a: Bits, b: Bits, x: Bits)
    requires a <= x && b <= x
    ensures a <= b || b <= a
  {
    if |a| <= |b| {
      assert a == x[..|a|] == b[..|a|];
    } else {
      assert b == x[..|b|] == a[..|b|];
    }
  }

  lemma PrefixOfSum(a: Bits, b: Bits, x: Bits)
    requires a + b <= x
    ensures a <= x
  {
    assert a == (a + b)[..|a|] == x[..|a|];
  }

  /** No code word fits into padding. */
  lemma PaddingIsNoWord(t: EncodeTable, sym: nat, r: nat)
    requires IsCode(t) && sym < 257 && r <= 7
    ensures !(Word(t, sym) <= Ones(r))
  {
    assert Word(t, sym) <= Ones(r) ==> Word(t, sym) <= Ones(MAX_CODE_BITS);
    assert sym != EOS ==> !(Word(t, sym) <= Word(t, EOS));
  }

  lemma Strip(c: Bits, a: Bits, b: Bits)
    requires c + a <= c + b
    ensures a <= b
  {
    assert a == (c + a)[|c|..] == (c + b)[|c|..][..|a|];
    assert b == (c + b)[|c|..];
  }

  /** If one coded string starts like another, both start with the same symbol. */
  lemma SameFirstSymbol(t: EncodeTable, x: Byte, rest: Bits, s: Bytes, r: nat)
    requires IsCode(t) && r <= 7 && Word(t, x) + rest <= CodeBits(t, s) + Ones(r)
    ensures s != [] && s[0] == x
    ensures rest <= CodeBits(t, s[1..]) + Ones(r)
  {
    var all := CodeBits(t, s) + Ones(r);
    PrefixOfSum(Word(t, x), rest, all);
    assert s == [] ==> all == Ones(r);
    PaddingIsNoWord(t, x, r);
    CodeBitsHead(t, s);
    var c, rest' := Word(t, s[0]), CodeBits(t, s[1..]) + Ones(r);
    assert all == c + rest';
    PrefixOfSum(c, rest', all);
    Comparable(Word(t, x), c, all);
    Strip(c, rest, rest');
  }

  /** Whatever was decoded from a prefix of a coded string is a prefix of the string, and what is left over
      of the bits starts the code of the rest. */
  lemma {:induction false} DecodedIsPrefix(t: EncodeTable, out: Bytes, w: Bits, s: Bytes, r: nat)
    requires IsCode(t) && r <= 7
    requires CodeBits(t, out) + w <= CodeBits(t, s) + Ones(r)
    ensures out <= s && w <= CodeBits(t, s[|out|..]) + Ones(r)
  {
    hide IsCode;
    CodeLen(t);
    if out == [] {
      assert CodeBits(t, out) + w == w;
      assert s[0..] == s;
    } else {
      CodeBitsHead(t, out);
      var rest := CodeBits(t, out[1..]) + w;
      assert CodeBits(t, out) + w == Word(t, out[0]) + rest;
      SameFirstSymbol(t, out[0], rest, s, r);
      DecodedIsPrefix(t, out[1..], w, s[1..], r);
      assert s[1..][|out[1..]|..] == s[|out|..];
    }
  }

  lemma CodeLen(t: EncodeTable)
    requires IsCode(t)
    ensures |t| == 257
  {
  }

  /** Only one string has a given coded form. */
  lemma EncodedInjective(t: EncodeTable, s: Bytes, s': Bytes)
    requires IsCode(t) && Encoded(t, s) == Encoded(t, s')
    ensures s == s'
  {
    EncodedBits(t, s);
    EncodedBits(t, s');
    var r, r' := PadLen(|CodeBits(t, s)|), PadLen(|CodeBits(t, s')|);
    DecodedIsPrefix(t, s, [], s', r') by { assert CodeBits(t, s) + [] == CodeBits(t, s); }
    DecodedIsPrefix(t, s', [], s, r) by { assert CodeBits(t, s') + [] == CodeBits(t, s'); }
  }

  lemma EncodedBits(t: EncodeTable, s: Bytes)
    requires |t| == 257
    ensures OfBytes(Encoded(t, s)) == CodeBits(t, s) + Ones(PadLen(|CodeBits(t, s)|))
  {
    OfBytesToBytes(CodeBits(t, s) + Ones(PadLen(|CodeBits(t, s)|)));
  }

  /** Any byte string whose bits are code words and short padding is the coded form of those words. */
  lemma EncodedFromBits(t: EncodeTable, s: Bytes, r: nat, src: Bytes)
    requires |t| == 257 && r <= 7 && OfBytes(src) == CodeBits(t, s) + Ones(r)
    ensures Encoded(t, s) == src
  {
    assert r == PadLen(|CodeBits(t, s)|);
    ToBytesOfBytes(src);
  }

  /** The inverse of `Encoded`, where there is one. */
  ghost function Decoded(t: EncodeTable, src: Bytes): (r: Option<Bytes>)
    requires |t| == 257
    ensures r.Some? ==> Encoded(t, r.value) == src
    ensures r.None? ==> forall s :: Encoded(t, s) != src
  {
    if s :| Encoded(t, s) == src then Some(s) else None
  }

  lemma DecodedOfEncoded(t: EncodeTable, s: Bytes)
    requires IsCode(t)
    ensures Decoded(t, Encoded(t, s)) == Some(s)
  {
    var r := Decoded(t, Encoded(t, s));
    assert r.Some?;
    EncodedInjective(t, r.value, s);
  }
}
