/** The examples of Appendix C of RFC 7541: what the bytes of header fields mean, told without the encoder. */
module HpackExamples {
  import opened Headers
  import opened FifoTable
  import opened Bits
  import opened HuffmanCode
  import opened HpackWire

  /** ASCII text as bytes. */
  function Text(s: string): (b: Bytes)
    ensures |b| == |s| && forall i :: 0 <= i < |s| && s[i] as int < 256 ==> b[i] == s[i] as int
  {
    seq(|s|, i requires 0 <= i < |s| => (s[i] as int % 256) as Byte)
  }

  /** Appendix C.1: ten and 1337 with a five-bit prefix, and 42 from the start of a byte. */
  lemma Integers()
    ensures IntBytes(10, 5, 0) == [0x0a]
    ensures IntBytes(1337, 5, 0) == [0x1f, 0x9a, 0x0a]
    ensures IntBytes(42, 8, 0) == [0x2a]
    ensures ReadInt([0x1f, 0x9a, 0x0a], 5) == Got(1337, 3)
  {
    assert Pow2(5) == 32 && Pow2(8) == 256;
    assert ContBytes(10) == [10];
    assert ContBytes(1306) == [154] + ContBytes(10);
    var b: Bytes := [0x1f, 0x9a, 0x0a];
    assert ReadCont(b, 2, 31 + 26, 128) == Got(31 + 26 + 10 * 128, 3);
    assert ReadCont(b, 1, 31, 1) == ReadCont(b, 2, 31 + 26, 128);
  }

  /** An integer that goes on after its fifth byte is refused, one byte before that more input is wanted. */
  lemma LongInteger(b: Bytes)
    requires |b| >= 4 && b[0] % 32 == 31 && b[1] >= 128 && b[2] >= 128 && b[3] >= 128
    requires |b| > 4 ==> b[4] >= 128
    ensures ReadInt(b, 5) == if |b| > 4 then Bad(IntegerOverflow) else NeedMore(0)
  {
    assert Pow2(5) == 32;
    var c1: nat, c2: nat, c3: nat := b[1] % 128, b[2] % 128, b[3] % 128;
    var a1 := 31 + c1;
    var a2 := a1 + c2 * 128;
    var a3 := a2 + c3 * (128 * 128);
    assert ReadCont(b, 3, a2, 128 * 128) == ReadCont(b, 4, a3, 128 * 128 * 128);
    assert ReadCont(b, 1, 31, 1) == ReadCont(b, 2, a1, 128) == ReadCont(b, 3, a2, 128 * 128);
  }

  // ----- strings and literals without Huffman coding

  /** A string sent as it is: its length, below 127, and its bytes. */
  lemma RawString(t: EncodeTable, s: Bytes, rest: Bytes)
    requires |t| == 257 && |s| < 127
    ensures ReadStr(t, [|s|] + s + rest) == Got(Str(s, true), 1 + |s|)
  {
    hide Decoded;
    Seven();
    var b: Bytes := [|s|] + s + rest;
    assert ReadInt(b, 7) == Got(|s|, 1);
    assert b[1..1 + |s|] == s;
  }

  /** A literal with a name of its own, as in Figure 7, 9 or 11: indexed or not by its first byte alone. */
  lemma RawLiteral(t: EncodeTable, statics: StaticTable, ds: DecState, first: Byte, name: Bytes, value: Bytes,
                   rest: Bytes, can: bool)
    requires |t| == 257 && 0 < |name| < 127 && |value| < 127 && (first == 0x40 || first == 0 || first == 0x10)
    ensures var b := [first, |name|] + name + [|value|] + value;
      var h := Header(name, value, false);
      ReadItem(t, statics, ds, b + rest, can) ==
        Got((Some(h), if first == 0x40 then ds.(entries := Add(ds.entries, h, ds.max)) else ds), |b|)
  {
    hide ReadStr, Add;
    Prefixes();
    var b := [first, |name|] + name + [|value|] + value;
    var tail := [|value|] + value + rest;
    assert (b + rest)[1..] == [|name|] + name + tail;
    assert (b + rest)[2 + |name|..] == tail;
    RawString(t, name, tail);
    RawString(t, value, rest);
  }

  /** A literal with the name of a static entry, not indexed, as in Figure 8 or 10. */
  lemma RawNamed(t: EncodeTable, statics: StaticTable, ds: DecState, first: Byte, idx: nat, value: Bytes, rest: Bytes,
                 can: bool)
    requires |t| == 257 && 0 < idx < 15 && |value| < 127 && (first == 0 || first == 0x10)
    ensures var b := [first + idx, |value|] + value;
      ReadItem(t, statics, ds, b + rest, can) == Got((Some(Header(statics[idx - 1].name, value, false)), ds), |b|)
  {
    hide ReadStr;
    Prefixes();
    var b := [first + idx, |value|] + value;
    assert (b + rest)[1..] == [|value|] + value + rest;
    RawString(t, value, rest);
  }

  /** Huffman coding goes from the most significant bit on, and ones fill up the last byte: so it is with the code words
      that Appendix B has for `a` and `w`, 00011 and 1111000. */
  lemma Huffman(t: EncodeTable)
    requires |t| == 257 && t[97] == (5, 0x03) && t[119] == (7, 0x78)
    ensures Encoded(t, Text("a")) == [0x1f]
    ensures Encoded(t, Text("ww")) == [0xf1, 0xe3]
  {
    assert Text("a") == [97] && Text("ww") == [119, 119];
    HuffmanA(t);
    HuffmanW(t);
  }

  lemma HuffmanA(t: EncodeTable)
    requires |t| == 257 && t[97] == (5, 0x03)
    ensures Encoded(t, [97]) == [0x1f]
  {
    hide OfValue, ToBytes, ByteOf;
    WordsOfExample();
    var a := [false, false, false, true, true];
    OneSymbol(t, 97);
    assert a + Ones(3) == OfValue(8, 0x1f);
    OneByte(0x1f);
  }

  lemma HuffmanW(t: EncodeTable)
    requires |t| == 257 && t[119] == (7, 0x78)
    ensures Encoded(t, [119, 119]) == [0xf1, 0xe3]
  {
    hide OfValue, ToBytes, ByteOf;
    WordsOfExample();
    var w := [true, true, true, true, false, false, false];
    OneSymbol(t, 119);
    assert [119 as Byte, 119][..1] == [119];
    assert w + w + Ones(2) == OfValue(8, 0xf1) + OfValue(8, 0xe3);
    OneByte(0xf1);
    TwoBytes(0xf1, 0xe3);
  }

  lemma OneSymbol(t: EncodeTable, sym: Byte)
    requires |t| == 257
    ensures CodeBits(t, [sym]) == Word(t, sym)
  {
    assert [sym][..0] == [];
  }

  lemma WordsOfExample()
    ensures OfValue(5, 0x03) == [false, false, false, true, true]
    ensures OfValue(7, 0x78) == [true, true, true, true, false, false, false]
    ensures OfValue(8, 0x1f) == [false, false, false, true, true, true, true, true]
    ensures OfValue(8, 0xf1) == [true, true, true, true, false, false, false, true]
    ensures OfValue(8, 0xe3) == [true, true, true, false, false, false, true, true]
  {
    hide OfValue;
    WordOfA();
    WordOfW();
    SecondByte();
  }

  lemma WordOfA()
    ensures OfValue(5, 0x03) == [false, false, false, true, true]
    ensures OfValue(8, 0x1f) == [false, false, false, true, true, true, true, true]
  {
    assert OfValue(3, 0) == [false, false, false];
    assert OfValue(5, 3) == [false, false, false, true, true];
    assert OfValue(7, 15) == [false, false, false, true, true, true, true];
  }

  lemma WordOfW()
    ensures OfValue(7, 0x78) == [true, true, true, true, false, false, false]
    ensures OfValue(8, 0xf1) == [true, true, true, true, false, false, false, true]
  {
    assert OfValue(2, 3) == [true, true];
    assert OfValue(4, 15) == [true, true, true, true];
    assert OfValue(6, 60) == [true, true, true, true, false, false];
  }

  lemma SecondByte()
    ensures OfValue(8, 0xe3) == [true, true, true, false, false, false, true, true]
  {
    assert OfValue(2, 3) == [true, true];
    assert OfValue(4, 14) == [true, true, true, false];
    assert OfValue(6, 56) == [true, true, true, false, false, false];
  }

  lemma OneByte(x: Byte)
    ensures ToBytes(OfValue(8, x)) == [x]
  {
    var b := OfValue(8, x);
    assert Pow2(8) == 256;
    ValueOfValue(8, x);
    assert b[..0] == [] && b[0..] == b;
  }

  lemma TwoBytes(x: Byte, y: Byte)
    ensures ToBytes(OfValue(8, x) + OfValue(8, y)) == [x, y]
  {
    hide OfValue;
    var b := OfValue(8, x) + OfValue(8, y);
    assert Pow2(8) == 256;
    ValueOfValue(8, y);
    OneByte(x);
    assert b[..8] == OfValue(8, x) && b[8..] == OfValue(8, y);
  }

  // ----- header fields

  /** Appendix C.2.1: a literal with indexing. The entry charges 55 and is the one at index 62 from then on. */
  lemma WithIndexing(t: EncodeTable, statics: StaticTable, limit: nat)
    requires |t| == 257
    ensures var h := Header(Text("custom-key"), Text("custom-header"), false);
      var b := [0x40, 0x0a] + Text("custom-key") + [0x0d] + Text("custom-header");
      var ds := DecState([h], 4096, limit);
      && |b| == 26
      && ReadItem(t, statics, DecState([], 4096, limit), b, true) == Got((Some(h), ds), |b|)
      && Total(ds.entries) == 55
      && ReadItem(t, statics, ds, [0xbe], false) == Got((Some(h), ds), 1)
  {
    hide Text, ReadItem, Add, Total;
    var name, value := Text("custom-key"), Text("custom-header");
    var h := Header(name, value, false);
    RawLiteral(t, statics, DecState([], 4096, limit), 0x40, name, value, [], true);
    Plain([0x40, |name|] + name + [|value|] + value);
    OnlyEntry(h);
    Indexed(t, statics, DecState([h], 4096, limit), 62);
  }

  lemma Plain(b: Bytes)
    ensures b + [] == b
  {
  }

  lemma OnlyEntry(h: Header)
    requires h.Len() <= 4096
    ensures Add([], h, 4096) == [h] && Total([h]) == h.Len()
  {
    assert [h][..0] == [];
  }

  /** A bare index below 127. */
  lemma Indexed(t: EncodeTable, statics: StaticTable, ds: DecState, idx: Byte)
    requires |t| == 257 && idx < 127 && Get(statics, ds.entries, idx).Some?
    ensures ReadItem(t, statics, ds, [0x80 + idx], false) ==
      Got((Some(Get(statics, ds.entries, idx).value), ds), 1)
  {
    Prefixes();
    assert ReadInt([0x80 + idx], 7) == Got(idx, 1);
  }

  /** Appendix C.2.2 to C.2.4: a literal without indexing under the static name `:path`, one never to be indexed, and
      the static field `:method: GET`. None of them changes the table. */
  lemma WithoutIndexing(t: EncodeTable, statics: StaticTable, ds: DecState)
    requires |t| == 257
    requires statics[1] == StaticEntry(Text(":method"), Text("GET"))
      && statics[3] == StaticEntry(Text(":path"), Text("/"))
    ensures var b := [0x04, 0x0c] + Text("/sample/path");
      ReadItem(t, statics, ds, b, true) == Got((Some(Header(Text(":path"), Text("/sample/path"), false)), ds), 14)
    ensures var b := [0x10, 0x08] + Text("password") + [0x06] + Text("secret");
      ReadItem(t, statics, ds, b, true) == Got((Some(Header(Text("password"), Text("secret"), false)), ds), 17)
    ensures ReadItem(t, statics, ds, [0x82], false) == Got((Some(Header(Text(":method"), Text("GET"), false)), ds), 1)
  {
    hide Text, ReadItem;
    RawNamed(t, statics, ds, 0, 4, Text("/sample/path"), [], true);
    Plain([0x04, 0x0c] + Text("/sample/path"));
    RawLiteral(t, statics, ds, 0x10, Text("password"), Text("secret"), [], true);
    Plain([0x10, 0x08] + Text("password") + [0x06] + Text("secret"));
    Indexed(t, statics, ds, 2);
  }
}
