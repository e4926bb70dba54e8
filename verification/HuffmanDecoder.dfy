/** The nibble-driven decoder, for any table that unrolls the code four bits at a time. */
module HuffmanDecoder {
  import opened Headers
  import opened Bits
  import opened HuffmanCode

  /** What the table says for one state and one nibble: the next state, the byte completed if `decoded`, and
      whether input may end in the next state. */
  datatype Entry = Entry(next: nat, byte: Byte, maybeEos: bool, decoded: bool, error: bool)
  type DecodeTable = seq<seq<Entry>>

  /** The bits read since the last whole code word could be padding. */
  ghost predicate CouldBePadding(w: Bits) {
    w != [] && |w| <= 7 && w == Ones(|w|)
  }

  /** `w` is the beginning of some code word, and not the whole of it. */
  ghost predicate Inside(t: EncodeTable, w: Bits)
    requires |t| == 257
  {
    exists k: nat :: k < 257 && w < Word(t, k)
  }

  ghost predicate Leads(rest: Bits, e: Entry, node: seq<Bits>) {
    && e.next < |node|
    && node[e.next] == rest
    && (e.maybeEos <==> CouldBePadding(rest))
  }

  /** What the entry reached with unfinished bits `w` has to say. */
  ghost predicate EntryOk(t: EncodeTable, w: Bits, e: Entry, node: seq<Bits>)
    requires |t| == 257
  {
    if exists k: nat :: k < 257 && Word(t, k) <= w then
      forall k: nat :: k < 257 && Word(t, k) <= w ==>
        if k == EOS then e.error
        else !e.error && e.decoded && e.byte == k && Leads(w[|Word(t, k)|..], e, node)
    else if Inside(t, w) then
      !e.error && !e.decoded && Leads(w, e, node)
    else
      e.error
  }

  /** The table is the nibble unrolling of the code: `node` tells which unfinished bits each state stands for. */
  ghost predicate Unrolls(t: EncodeTable, d: DecodeTable, node: seq<Bits>)
    requires |t| == 257
  {
    && |d| == |node| && |node| > 0 && node[0] == []
    && (forall s :: 0 < s < |node| ==> node[s] != [])
    && (forall s :: 0 <= s < |node| ==> Inside(t, node[s]))
    && (forall s :: 0 <= s < |d| ==> |d[s]| == 16)
    && (forall s, n: nat :: 0 <= s < |d| && n < 16 ==> EntryOk(t, node[s] + OfValue(4, n), d[s][n], node))
  }

  function Output(out: Bytes, e: Entry): Bytes {
    if e.decoded then out + [e.byte] else out
  }

  /** A step without error accounts for every bit read. */
  lemma StepKeepsBits(t: EncodeTable, d: DecodeTable, node: seq<Bits>, out: Bytes, s: nat, n: nat, before: Bits)
    requires IsCode(t) && Unrolls(t, d, node) && s < |d| && n < 16 && |d[s]| == 16 && !d[s][n].error
    requires CodeBits(t, out) + node[s] == before
    ensures var e := d[s][n];
      && e.next < |node|
      && CodeBits(t, Output(out, e)) + node[e.next] == before + OfValue(4, n)
      && (e.maybeEos <==> CouldBePadding(node[e.next]))
  {
    hide CodeBits, EntryOk, IsCode, OfValue;
    CodeLen(t);
    var w := node[s] + OfValue(4, n);
    assert CodeBits(t, out) + w == before + OfValue(4, n);
    assert EntryOk(t, w, d[s][n], node);
    EntryKeepsBits(t, out, w, d[s][n], node);
  }

  lemma EntryKeepsBits(t: EncodeTable, out: Bytes, w: Bits, e: Entry, node: seq<Bits>)
    requires |t| == 257 && EntryOk(t, w, e, node) && !e.error
    ensures e.next < |node| && (e.maybeEos <==> CouldBePadding(node[e.next]))
    ensures CodeBits(t, Output(out, e)) + node[e.next] == CodeBits(t, out) + w
  {
    hide CodeBits;
    if k: nat :| k < 257 && Word(t, k) <= w {
      CodeBitsConcat(t, out, [e.byte]);
      CodeBitsOne(t, e.byte);
      assert w == Word(t, k) + w[|Word(t, k)|..];
    }
  }

  lemma Transitive(a: Bits, b: Bits, c: Bits)
    ensures a <= b && b <= c ==> a <= c && (b != c ==> |a| < |c|)
  {
  }

  /** Unfinished bits that start the code of `rest` either hold its first word or lie inside a word. */
  lemma WordAhead(t: EncodeTable, w: Bits, rest: Bytes, r: nat)
    requires IsCode(t) && r <= 7 && w <= CodeBits(t, rest) + Ones(r)
    ensures if rest != [] && Word(t, rest[0]) <= w then true
            else Inside(t, w) && forall k: nat :: k < 257 ==> !(Word(t, k) <= w)
  {
    if rest == [] {
      assert CodeBits(t, rest) + Ones(r) == Ones(r);
      forall k: nat | k < 257 ensures !(Word(t, k) <= w) {
        PaddingIsNoWord(t, k, r);
        Transitive(Word(t, k), w, Ones(r));
      }
      assert w < Word(t, EOS);
    } else {
      FirstWordComparable(t, w, rest, r);
      if !(Word(t, rest[0]) <= w) {
        forall k: nat | k < 257 ensures !(Word(t, k) <= w) {
          Transitive(Word(t, k), w, Word(t, rest[0]));
        }
      }
    }
  }

  lemma FirstWordComparable(t: EncodeTable, w: Bits, rest: Bytes, r: nat)
    requires IsCode(t) && w <= CodeBits(t, rest) + Ones(r) && rest != []
    ensures Word(t, rest[0]) <= w || w < Word(t, rest[0])
  {
    hide IsCode, Word;
    CodeLen(t);
    CodeBitsHead(t, rest);
    var more, c, tail := CodeBits(t, rest) + Ones(r), Word(t, rest[0]), CodeBits(t, rest[1..]) + Ones(r);
    assert more == c + tail;
    PrefixOfSum(c, tail, more);
    Comparable(c, w, more);
    assert w <= c && w != c ==> w < c;
  }

  /** Reading a coded string never meets an error. */
  lemma StepMeetsNoError(t: EncodeTable, d: DecodeTable, node: seq<Bits>, out: Bytes, s: nat, n: nat, src: Bytes,
                         r: nat)
    requires IsCode(t) && Unrolls(t, d, node) && s < |d| && n < 16 && r <= 7
    requires CodeBits(t, out) + (node[s] + OfValue(4, n)) <= CodeBits(t, src) + Ones(r)
    ensures !d[s][n].error
  {
    hide IsCode, Word, CodeBits, OfValue, Inside;
    CodeLen(t);
    var w := node[s] + OfValue(4, n);
    DecodedIsPrefix(t, out, w, src, r);
    WordAhead(t, w, src[|out|..], r);
    assert EntryOk(t, w, d[s][n], node);
  }

  /** The decoder's state: where in the code tree it stands, and whether input may end there. */
  class Automaton {
    const table: DecodeTable
    var state: nat
    var maybeEos: bool

    constructor (table: DecodeTable)
      ensures this.table == table && state == 0 && !maybeEos
    {
      this.table, state, maybeEos := table, 0, false;
    }

    /** Consumes one nibble: `None` for an error, otherwise the byte completed, if any. */
    method Decode4(input: nat) returns (r: Option<Option<Byte>>)
      requires state < |table| && input < |table[state]|
      modifies this
      ensures var e := table[old(state)][input];
        if e.error then r.None? && state == old(state)
        else r == Some(if e.decoded then Some(e.byte) else None) && state == e.next && maybeEos == e.maybeEos
    {
      var e := table[state][input];
      if e.error {
        return None;
      }
      state, maybeEos := e.next, e.maybeEos;
      return Some(if e.decoded then Some(e.byte) else None);
    }

    predicate IsFinal()
      reads this
    {
      state == 0 || maybeEos
    }
  }

  /** Decodes a string: exactly the strings the encoder can write are accepted, each with its own original. */
  method Decode(d: DecodeTable, src: Bytes, ghost t: EncodeTable, ghost node: seq<Bits>) returns (r: Option<Bytes>)
    requires IsCode(t) && Unrolls(t, d, node)
    ensures r == Decoded(t, src)
  {
    hide IsCode, Unrolls, CodeBits, OfBytes, OfValue, CouldBePadding;
    CodeLen(t);
    UnrollsStart(t, d, node);
    var a := new Automaton(d);
    var out: Bytes := [];
    for i := 0 to |src|
      invariant a.table == d && a.state < |d| == |node| && CodeBits(t, out) + node[a.state] == OfBytes(src[..i])
      invariant a.maybeEos ==> CouldBePadding(node[a.state])
      invariant CouldBePadding(node[a.state]) ==> a.maybeEos
      invariant fresh(a)
      modifies a
    {
      UnrollsWidth(t, d, node, a.state);
      NibblesAhead(src, i);
      ghost var before := OfBytes(src[..i]);
      var hi, lo := src[i] / 16, src[i] % 16;
      ghost var s, out0 := a.state, out;
      var c := a.Decode4(hi);
      if c.None? {
        NotEncoded(t, d, node, out, s, hi, src, before, OfValue(4, hi));
        return None;
      }
      if c.value.Some? {
        out := out + [c.value.value];
      }
      StepKeepsBits(t, d, node, out0, s, hi, before);
      UnrollsWidth(t, d, node, a.state);
      s, out0 := a.state, out;
      c := a.Decode4(lo);
      if c.None? {
        NotEncoded(t, d, node, out, s, lo, src, before + OfValue(4, hi), OfValue(4, lo));
        return None;
      }
      if c.value.Some? {
        out := out + [c.value.value];
      }
      StepKeepsBits(t, d, node, out0, s, lo, before + OfValue(4, hi));
    }
    assert src[..|src|] == src;
    if !a.IsFinal() {
      NotFinal(t, d, node, out, a.state, src);
      return None;
    }
    UnrollsZero(t, d, node, a.state);
    EncodedFromBits(t, out, |node[a.state]|, src);
    DecodedOfEncoded(t, out);
    return Some(out);
  }

  lemma UnrollsStart(t: EncodeTable, d: DecodeTable, node: seq<Bits>)
    requires |t| == 257 && Unrolls(t, d, node)
    ensures |d| == |node| && |d| > 0 && node[0] == [] && !CouldBePadding([])
    ensures CodeBits(t, []) == [] && OfBytes([]) == []
  {
  }

  lemma UnrollsWidth(t: EncodeTable, d: DecodeTable, node: seq<Bits>, s: nat)
    requires |t| == 257 && Unrolls(t, d, node) && s < |d|
    ensures |d[s]| == 16
  {
  }

  lemma UnrollsZero(t: EncodeTable, d: DecodeTable, node: seq<Bits>, s: nat)
    requires |t| == 257 && Unrolls(t, d, node) && s < |d| && (s == 0 || CouldBePadding(node[s]))
    ensures |node[s]| <= 7 && node[s] == Ones(|node[s]|)
  {
  }

  /** The bits of `src` go on with the two nibbles of byte `i`. */
  lemma NibblesAhead(src: Bytes, i: nat)
    requires i < |src|
    ensures OfBytes(src[..i]) + OfValue(4, src[i] / 16) + OfValue(4, src[i] % 16) == OfBytes(src[..i + 1])
    ensures OfBytes(src[..i + 1]) <= OfBytes(src)
    ensures OfBytes(src[..i]) + OfValue(4, src[i] / 16) <= OfBytes(src)
  {
    hide OfBytes, OfValue;
    NibblesOf(src[..i], src[i]);
    ByteAhead(src, i, OfValue(4, src[i] / 16), OfValue(4, src[i] % 16));
  }

  lemma ByteAhead(src: Bytes, i: nat, hi: Bits, lo: Bits)
    requires i < |src| && OfBytes(src[..i]) + hi + lo == OfBytes(src[..i] + [src[i]])
    ensures OfBytes(src[..i]) + hi + lo == OfBytes(src[..i + 1])
    ensures OfBytes(src[..i + 1]) <= OfBytes(src)
    ensures OfBytes(src[..i]) + hi <= OfBytes(src)
  {
    hide OfBytes;
    OneByteMore(src, i);
    BytesAhead(src, i + 1);
    FirstTwoOf(OfBytes(src[..i]), hi, lo, OfBytes(src[..i + 1]), OfBytes(src));
  }

  lemma OneByteMore(src: Bytes, i: nat)
    requires i < |src|
    ensures src[..i + 1] == src[..i] + [src[i]]
  {
  }

  lemma FirstTwoOf(a: Bits, b: Bits, c: Bits, all: Bits, x: Bits)
    requires a + b + c == all && all <= x
    ensures a + b <= x
  {
    PrefixOfSum(a + b, c, x);
  }

  lemma NibblesOf(bs: Bytes, x: Byte)
    ensures OfBytes(bs) + OfValue(4, x / 16) + OfValue(4, x % 16) == OfBytes(bs + [x])
  {
    hide OfBytes, OfValue;
    OfBytesAppend(bs, x);
    ByteNibbles(x);
    assert OfBytes(bs) + OfValue(4, x / 16) + OfValue(4, x % 16) ==
      OfBytes(bs) + (OfValue(4, x / 16) + OfValue(4, x % 16));
  }

  lemma BytesAhead(src: Bytes, i: nat)
    requires i <= |src|
    ensures OfBytes(src[..i]) <= OfBytes(src)
  {
    assert src == src[..i] + src[i..];
    OfBytesConcat(src[..i], src[i..]);
  }

  lemma NotEncoded(t: EncodeTable, d: DecodeTable, node: seq<Bits>, out: Bytes, s: nat, n: nat, src: Bytes,
                   before: Bits, nibble: Bits)
    requires IsCode(t) && Unrolls(t, d, node) && s < |d| && n < 16 && |d[s]| == 16 && d[s][n].error
    requires CodeBits(t, out) + node[s] == before && nibble == OfValue(4, n) && before + nibble <= OfBytes(src)
    ensures Decoded(t, src) == None
  {
    hide IsCode, Unrolls, CodeBits, OfBytes, OfValue;
    CodeLen(t);
    UnrollsStart(t, d, node);
    var r := Decoded(t, src);
    if r.Some? {
      EncodedBits(t, r.value);
      assert CodeBits(t, out) + (node[s] + nibble) == before + nibble;
      StepMeetsNoError(t, d, node, out, s, n, r.value, PadLen(|CodeBits(t, r.value)|));
      assert false;
    }
  }

  /** Bits left over at the end of a coded string are its padding. */
  lemma LeftoverIsPadding(t: EncodeTable, out: Bytes, w: Bits, src: Bytes, r: nat)
    requires IsCode(t) && r <= 7 && CodeBits(t, out) + w == CodeBits(t, src) + Ones(r)
    requires Inside(t, w)
    ensures w == Ones(r)
  {
    hide CodeBits, Word;
    DecodedIsPrefix(t, out, w, src, r);
    var rest := src[|out|..];
    assert src == out + rest;
    CodeBitsConcat(t, out, rest);
    assert CodeBits(t, out) + w == CodeBits(t, out) + (CodeBits(t, rest) + Ones(r));
    Strip(CodeBits(t, out), CodeBits(t, rest) + Ones(r), w);
    if rest != [] {
      CodeBitsHead(t, rest);
      FirstWordComparable(t, w, rest, r);
      var k: nat :| k < 257 && w < Word(t, k);
      Transitive(Word(t, rest[0]), w, Word(t, k));
      assert false;
    }
    CodeBitsEmpty(t);
  }

  lemma CodeBitsEmpty(t: EncodeTable)
    requires |t| == 257
    ensures CodeBits(t, []) == []
  {
  }

  lemma NotFinal(t: EncodeTable, d: DecodeTable, node: seq<Bits>, out: Bytes, s: nat, src: Bytes)
    requires IsCode(t) && Unrolls(t, d, node) && s < |d| && s != 0 && !CouldBePadding(node[s])
    requires CodeBits(t, out) + node[s] == OfBytes(src)
    ensures Decoded(t, src) == None
  {
    hide IsCode, CodeBits, OfBytes, OfValue, EntryOk;
    CodeLen(t);
    var r := Decoded(t, src);
    if r.Some? {
      EncodedBits(t, r.value);
      LeftoverIsPadding(t, out, node[s], r.value, PadLen(|CodeBits(t, r.value)|));
      assert false;
    }
  }
}
