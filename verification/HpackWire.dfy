/** The bytes of HPACK (sections 5 and 6 of RFC 7541): how integers, strings and field representations are
    written, how they are read, and that reading undoes writing, also when the bytes arrive in parts. */
module HpackWire {
  import opened Arith
  import opened Headers
  import opened FifoTable
  import opened Bits
  import opened HuffmanCode

  /** A reader's answer: a value and how many bytes it took; or that bytes are missing; or that no further byte
      can help. `dropped` counts bytes already cut off the front of the input when they ran out. */
  datatype Parse<+T> =
    | Got(value: T, used: nat)
    | NeedMore(dropped: nat)
    | Bad(error: DecoderError)

  datatype DecoderError =
    | InvalidTableIndex
    | InvalidHuffmanCode
    | InvalidMaxDynamicSize
    | IntegerOverflow
    | InvalidIntegerPrefix

  // ----- integers

  /** The largest excess over the prefix the encoder will write; beyond it the source panics. */
  const MAX_EXCESS: nat := 0x0fff_ffff
  const MAX_BYTES: nat := 5

  /** The largest value an integer with a `prefix`-bit prefix can carry. */
  function Largest(prefix: nat): nat {
    Pow2(prefix) - 1 + MAX_EXCESS
  }

  /** The bytes after the prefix, seven bits each, least significant first. */
  function ContBytes(v: nat): (b: Bytes)
    ensures b != []
  {
    if v < 128 then [v] else [128 + v % 128] + ContBytes(v / 128)
  }

  /** An integer: the flags `first` occupy the bits above the prefix. */
  function IntBytes(v: nat, prefix: nat, first: nat): (b: Bytes)
    requires first + Pow2(prefix) <= 256
    ensures b != []
  {
    var low := Pow2(prefix) - 1;
    if v < low then [first + v] else [first + low] + ContBytes(v - low)
  }

  function ReadCont(b: Bytes, n: nat, acc: nat, mult: nat): (r: Parse<nat>)
    requires n <= |b|
    ensures r.Got? ==> n < r.used <= |b|
    ensures r.NeedMore? ==> r.dropped == 0
    decreases |b| - n
  {
    if n == |b| then NeedMore(0)
    else
      var acc' := acc + (b[n] % 128) * mult;
      if b[n] < 128 then Got(acc', n + 1)
      else if n + 1 == MAX_BYTES then Bad(IntegerOverflow)
      else ReadCont(b, n + 1, acc', mult * 128)
  }

  function ReadInt(b: Bytes, prefix: nat): (r: Parse<nat>)
    ensures r.Got? ==> 0 < r.used <= |b|
    ensures r.NeedMore? ==> r.dropped == 0
  {
    if b == [] then NeedMore(0)
    else
      var low := Pow2(prefix) - 1;
      var v := b[0] % Pow2(prefix);
      if v < low then Got(v, 1) else ReadCont(b, 1, v, 1)
  }

  /** How many bytes follow the prefix. */
  lemma {:induction false} ContLength(v: nat, k: nat)
    requires v < Pow2(7 * k) && k > 0
    ensures |ContBytes(v)| <= k
  {
    assert Pow2(7) == 128;
    if v >= 128 {
      if k == 1 {
        assert false;
      }
      PowAdd(7 * (k - 1), 7);
      assert v / 128 < Pow2(7 * (k - 1));
      ContLength(v / 128, k - 1);
    }
  }

  lemma {:induction false} ReadContOfWritten(v: nat, rest: Bytes, b: Bytes, n: nat, acc: nat, mult: nat)
    requires n <= |b| && b[n..] == ContBytes(v) + rest
    requires n + |ContBytes(v)| <= MAX_BYTES
    ensures ReadCont(b, n, acc, mult) == Got(acc + v * mult, n + |ContBytes(v)|)
  {
    assert b[n] == (ContBytes(v) + rest)[0];
    if v >= 128 {
      var acc' := acc + (v % 128) * mult;
      assert b[n + 1..] == b[n..][1..] == ContBytes(v / 128) + rest;
      ReadContOfWritten(v / 128, rest, b, n + 1, acc', mult * 128);
      SplitProduct(v, mult);
    }
  }

  lemma SplitProduct(v: nat, mult: nat)
    ensures (v % 128) * mult + (v / 128) * (mult * 128) == v * mult
  {
    Assoc(v / 128, mult, 128);
    Distribute(v % 128, 128 * (v / 128), mult);
    Assoc(128, v / 128, mult);
  }

  /** Reading an integer undoes writing it, whatever follows. */
  lemma ReadIntOfWritten(v: nat, prefix: nat, first: nat, rest: Bytes)
    requires 1 <= prefix <= 8 && first + Pow2(prefix) <= 256 && first % Pow2(prefix) == 0
    requires v <= Largest(prefix)
    ensures ReadInt(IntBytes(v, prefix, first) + rest, prefix) == Got(v, |IntBytes(v, prefix, first)|)
  {
    hide Pow2, ContBytes;
    var low, b := Pow2(prefix) - 1, IntBytes(v, prefix, first) + rest;
    var small := if v < low then v else low;
    FlagsMod(first, small, Pow2(prefix));
    if v >= low {
      FourBytes(v - low);
      assert b[1..] == ContBytes(v - low) + rest;
      ReadContOfWritten(v - low, rest, b, 1, low, 1);
    }
  }

  lemma FourBytes(v: nat)
    requires v <= MAX_EXCESS
    ensures |ContBytes(v)| <= 4
  {
    assert Pow2(7) == 128;
    PowAdd(7, 7);
    PowAdd(14, 14);
    ContLength(v, 4);
  }

  lemma FlagsMod(first: nat, small: nat, m: nat)
    requires m > small && first % m == 0
    ensures (first + small) % m == small
  {
    var q, r := Quotient(first, m);
    ModIs(first + small, m, q, small);
  }

  // ----- strings

  /** A string is written Huffman coded after its coded length; the empty string is a bare zero. */
  function StrBytes(t: EncodeTable, s: Bytes): (b: Bytes)
    requires |t| == 257
    ensures b != []
  {
    if s == [] then [0]
    else
      assert Pow2(7) == 128;
      IntBytes(|Encoded(t, s)|, 7, 0x80) + Encoded(t, s)
  }

  predicate StrEncodable(t: EncodeTable, s: Bytes)
    requires |t| == 257
  {
    |Encoded(t, s)| <= Largest(7)
  }

  /** A string read, and whether it was sent raw: raw bytes are cut off the input at once. */
  datatype Str = Str(bytes: Bytes, raw: bool)

  ghost function ReadStr(t: EncodeTable, b: Bytes): (r: Parse<Str>)
    requires |t| == 257
    ensures r.Got? ==> 0 < r.used <= |b|
    ensures r.NeedMore? ==> r.dropped == 0
  {
    match ReadInt(b, 7)
    case NeedMore(_) => NeedMore(0)
    case Bad(e) => Bad(e)
    case Got(len, n) =>
      if n + len > |b| then NeedMore(0)
      else if b[0] < 128 then Got(Str(b[n..n + len], true), n + len)
      else
        match Decoded(t, b[n..n + len])
        case None => Bad(InvalidHuffmanCode)
        case Some(s) => Got(Str(s, false), n + len)
  }

  lemma ReadStrOfWritten(t: EncodeTable, s: Bytes, rest: Bytes)
    requires IsCode(t) && StrEncodable(t, s)
    ensures ReadStr(t, StrBytes(t, s) + rest) == Got(Str(s, s == []), |StrBytes(t, s)|)
  {
    hide IsCode, Pow2, Encoded, Decoded, ReadInt, IntBytes;
    CodeLen(t);
    Seven();
    if s == [] {
      ReadEmpty(t, rest);
    } else {
      var b, h := StrBytes(t, s) + rest, Encoded(t, s);
      var head := IntBytes(|h|, 7, 0x80);
      HighBit(|h|);
      ReadIntOfWritten(|h|, 7, 0x80, h + rest);
      assert b == head + (h + rest);
      assert b[|head|..|head| + |h|] == h;
      DecodedOfEncoded(t, s);
    }
  }

  lemma Seven()
    ensures Pow2(7) == 128
  {
  }

  lemma HighBit(len: nat)
    requires 0x80 + Pow2(7) <= 256
    ensures IntBytes(len, 7, 0x80)[0] >= 128
  {
  }

  lemma ReadEmpty(t: EncodeTable, rest: Bytes)
    requires |t| == 257
    ensures ReadStr(t, [0] + rest) == Got(Str([], true), 1)
  {
    hide Decoded;
    Seven();
    var b := [0] + rest;
    assert ReadInt(b, 7) == Got(0, 1);
    assert b[1..1] == [];
  }

  // ----- field representations, written

  /** The flag bits of a literal that is not to be indexed. */
  function LiteralFlags(sensitive: bool): (f: nat)
    ensures f == 0 || f == 0x10
  {
    if sensitive then 0x10 else 0
  }

  lemma Prefixes()
    ensures Pow2(4) == 16 && Pow2(5) == 32 && Pow2(6) == 64 && Pow2(7) == 128
  {
  }

  /** The name by index, the value as a string. */
  function NamedBytes(t: EncodeTable, idx: nat, prefix: nat, flags: nat, value: Bytes): (b: Bytes)
    requires |t| == 257 && flags + Pow2(prefix) <= 256
    ensures b != []
  {
    IntBytes(idx, prefix, flags) + StrBytes(t, value)
  }

  /** Name and value as strings. */
  function LiteralBytes(t: EncodeTable, flags: Byte, name: Bytes, value: Bytes): (b: Bytes)
    requires |t| == 257
    ensures b != []
  {
    [flags] + StrBytes(t, name) + StrBytes(t, value)
  }

  /** A field as indexed, with the table as indexing left it. */
  function FieldBytes(t: EncodeTable, i: Index, es: Entries): (b: Bytes)
    requires |t| == 257
    requires i.Inserted? || i.InsertedValue? ==> i.slot < |es|
    ensures b != []
  {
    Prefixes();
    match i
    case Indexed(idx, _) => IntBytes(idx, 7, 0x80)
    case Name(idx, h) => NamedBytes(t, idx, 4, LiteralFlags(h.sensitive), h.value)
    case Inserted(slot) => LiteralBytes(t, 0x40, es[slot].name, es[slot].value)
    case InsertedValue(idx, slot) => NamedBytes(t, idx, 6, 0x40, es[slot].value)
    case NotIndexed(h) => LiteralBytes(t, LiteralFlags(h.sensitive), h.name, h.value)
  }

  /** The table position that has the name of the last field. */
  function ResolveIdx(i: Index): nat
    requires !i.NotIndexed?
  {
    match i
    case Indexed(idx, _) => idx
    case Name(idx, _) => idx
    case Inserted(slot) => slot + DYN_OFFSET
    case InsertedValue(_, slot) => slot + DYN_OFFSET
  }

  /** A further value for the name of the last field. */
  function NamelessBytes(t: EncodeTable, last: Index, value: Bytes, sensitive: bool): (b: Bytes)
    requires |t| == 257
    ensures b != []
  {
    Prefixes();
    if last.NotIndexed? then LiteralBytes(t, LiteralFlags(sensitive), last.header.name, value)
    else NamedBytes(t, ResolveIdx(last), 4, LiteralFlags(sensitive), value)
  }

  function SizeUpdateBytes(size: nat): (b: Bytes)
    ensures b != []
  {
    Prefixes();
    IntBytes(size, 5, 0x20)
  }

  // ----- kinds of representations

  datatype Representation =
    | IndexedField
    | LiteralWithIndexing
    | LiteralWithoutIndexing
    | LiteralNeverIndexed
    | SizeUpdateItem

  /** What kind of representation begins with `b`, by its leading bits. No byte is left without one. */
  function Load(b: Byte): (r: Option<Representation>)
    ensures r.Some?
    ensures r == Some(IndexedField) <==> b >= 0x80
    ensures r == Some(LiteralWithIndexing) <==> 0x40 <= b < 0x80
    ensures r == Some(SizeUpdateItem) <==> 0x20 <= b < 0x40
    ensures r == Some(LiteralNeverIndexed) <==> 0x10 <= b < 0x20
    ensures r == Some(LiteralWithoutIndexing) <==> b < 0x10
  {
    if b / 0x80 % 2 == 1 then Some(IndexedField)
    else if b / 0x40 % 2 == 1 then Some(LiteralWithIndexing)
    else if b / 0x10 == 0 then Some(LiteralWithoutIndexing)
    else if b / 0x10 == 1 then Some(LiteralNeverIndexed)
    else if b / 0x20 == 1 then Some(SizeUpdateItem)
    else None
  }

  /** What goes on the wire for an indexed header: a bare index; or a literal, to be indexed by the reader too if the
      header entered the table, and otherwise marked as never to be indexed by anybody just if it is sensitive. */
  lemma FieldKind(t: EncodeTable, i: Index, es: Entries)
    requires |t| == 257 && (i.Inserted? || i.InsertedValue? ==> i.slot < |es|)
    ensures Load(FieldBytes(t, i, es)[0]) == Some(
      match i
      case Indexed(_, _) => IndexedField
      case Inserted(_) => LiteralWithIndexing
      case InsertedValue(_, _) => LiteralWithIndexing
      case Name(_, h) => if h.sensitive then LiteralNeverIndexed else LiteralWithoutIndexing
      case NotIndexed(h) => if h.sensitive then LiteralNeverIndexed else LiteralWithoutIndexing)
  {
    hide IntBytes, StrBytes, Pow2;
    Prefixes();
    match i
    case Indexed(idx, _) => KindStart(idx, 7, 0x80, []);
    case Name(idx, h) => KindStart(idx, 4, LiteralFlags(h.sensitive), StrBytes(t, h.value));
    case InsertedValue(idx, slot) => KindStart(idx, 6, 0x40, StrBytes(t, es[slot].value));
    case _ =>
  }

  /** A further value for a name goes by its own mark. */
  lemma NamelessKind(t: EncodeTable, last: Index, value: Bytes, sensitive: bool)
    requires |t| == 257
    ensures Load(NamelessBytes(t, last, value, sensitive)[0]) ==
      Some(if sensitive then LiteralNeverIndexed else LiteralWithoutIndexing)
  {
    hide IntBytes, StrBytes, Pow2;
    Prefixes();
    if !last.NotIndexed? {
      KindStart(ResolveIdx(last), 4, LiteralFlags(sensitive), StrBytes(t, value));
    }
  }

  lemma KindStart(v: nat, prefix: nat, first: nat, more: Bytes)
    requires 1 <= prefix && first + Pow2(prefix) <= 256
    ensures first <= (IntBytes(v, prefix, first) + more)[0] < first + Pow2(prefix)
    ensures first <= IntBytes(v, prefix, first)[0] < first + Pow2(prefix)
  {
  }

  // ----- field representations, read

  /** The decoder's state: its table, and the largest size an update may ask for. */
  datatype DecState = DecState(entries: Entries, max: nat, limit: nat)

  function Get(statics: StaticTable, es: Entries, idx: nat): Option<Header> {
    if idx == 0 then None
    else if idx <= STATIC_LEN then Some(Header(statics[idx - 1].name, statics[idx - 1].value, false))
    else if idx - DYN_OFFSET < |es| then Some(es[idx - DYN_OFFSET])
    else None
  }

  /** A header made of a name and a value read from the input, `used` bytes in all. Raw strings have been cut
      off the input by then, and an empty name is taken for missing input. */
  function MakeHeader(name: Str, value: Str, afterName: nat, used: nat): Parse<Header> {
    if name.bytes == [] then NeedMore(if value.raw then used else if name.raw then afterName else 0)
    else Got(Header(name.bytes, value.bytes, false), used)
  }

  function WhenRaw(s: Str, n: nat): nat {
    if s.raw then n else 0
  }

  /** A name and a value, both as strings, from `n` on. */
  ghost function ReadPair(t: EncodeTable, b: Bytes, n: nat): (r: Parse<Header>)
    requires |t| == 257 && n <= |b|
    ensures r.Got? ==> n < r.used <= |b|
    ensures r.NeedMore? ==> r.dropped <= |b|
  {
    match ReadStr(t, b[n..])
    case NeedMore(d) => NeedMore(d)
    case Bad(e) => Bad(e)
    case Got(name, m) =>
      match ReadStr(t, b[n + m..])
      case NeedMore(_) => NeedMore(WhenRaw(name, n + m))
      case Bad(e) => Bad(e)
      case Got(value, k) => MakeHeader(name, value, n + m, n + m + k)
  }

  ghost function ReadLiteral(t: EncodeTable, statics: StaticTable, es: Entries, b: Bytes,
                             prefix: nat): (r: Parse<Header>)
    requires |t| == 257
    ensures r.Got? ==> 0 < r.used <= |b|
    ensures r.NeedMore? ==> r.dropped <= |b|
  {
    match ReadInt(b, prefix)
    case NeedMore(d) => NeedMore(d)
    case Bad(e) => Bad(e)
    case Got(idx, n) =>
      if idx == 0 then
        ReadPair(t, b, n)
      else
        match Get(statics, es, idx)
        case None => Bad(InvalidTableIndex)
        case Some(e) =>
          match ReadStr(t, b[n..])
          case NeedMore(d) => NeedMore(d)
          case Bad(e) => Bad(e)
          case Got(value, k) => Got(Header(e.name, value.bytes, false), n + k)
  }

  /** One representation: the field it carries, if any, and the state after it. */
  ghost function ReadItem(t: EncodeTable, statics: StaticTable, ds: DecState, b: Bytes, canResize: bool)
    : (r: Parse<(Option<Header>, DecState)>)
    requires |t| == 257 && b != []
    ensures r.Got? ==> 0 < r.used <= |b|
    ensures r.NeedMore? ==> r.dropped <= |b|
  {
    if b[0] >= 0x80 then
      match ReadInt(b, 7)
      case NeedMore(d) => NeedMore(d)
      case Bad(e) => Bad(e)
      case Got(idx, n) =>
        match Get(statics, ds.entries, idx)
        case None => Bad(InvalidTableIndex)
        case Some(h) => Got((Some(h), ds), n)
    else if b[0] >= 0x40 then
      match ReadLiteral(t, statics, ds.entries, b, 6)
      case NeedMore(d) => NeedMore(d)
      case Bad(e) => Bad(e)
      case Got(h, n) => Got((Some(h), ds.(entries := Add(ds.entries, h, ds.max))), n)
    else if b[0] < 0x20 then
      match ReadLiteral(t, statics, ds.entries, b, 4)
      case NeedMore(d) => NeedMore(d)
      case Bad(e) => Bad(e)
      case Got(h, n) => Got((Some(h), ds), n)
    else if !canResize then Bad(InvalidMaxDynamicSize)
    else
      match ReadInt(b, 5)
      case NeedMore(d) => NeedMore(d)
      case Bad(e) => Bad(e)
      case Got(size, n) =>
        if size > ds.limit then Bad(InvalidMaxDynamicSize)
        else Got((None, ds.(entries := Evict(ds.entries, size), max := size)), n)
  }

  // ----- reading undoes writing, one representation at a time

  lemma IntStart(v: nat, prefix: nat, first: nat, more: Bytes)
    requires 1 <= prefix && first + Pow2(prefix) <= 256
    ensures first <= (IntBytes(v, prefix, first) + more)[0] < first + Pow2(prefix)
  {
  }

  lemma ReadIndexedOfWritten(t: EncodeTable, statics: StaticTable, ds: DecState, idx: nat, h: Header, rest: Bytes,
                             can: bool)
    requires |t| == 257 && idx <= Largest(7) && Get(statics, ds.entries, idx) == Some(h)
    ensures Pow2(7) == 128
    ensures var b := IntBytes(idx, 7, 0x80); ReadItem(t, statics, ds, b + rest, can) == Got((Some(h), ds), |b|)
  {
    Prefixes();
    IntStart(idx, 7, 0x80, rest);
    ReadIntOfWritten(idx, 7, 0x80, rest);
  }

  lemma ReadSizeOfWritten(t: EncodeTable, statics: StaticTable, ds: DecState, size: nat, rest: Bytes)
    requires |t| == 257 && size <= Largest(5) && size <= ds.limit
    ensures var b := SizeUpdateBytes(size);
      ReadItem(t, statics, ds, b + rest, true) == Got((None, ds.(entries := Evict(ds.entries, size), max := size)), |b|)
  {
    Prefixes();
    IntStart(size, 5, 0x20, rest);
    ReadIntOfWritten(size, 5, 0x20, rest);
  }

  lemma ReadNamedOfWritten(t: EncodeTable, statics: StaticTable, es: Entries, idx: nat, prefix: nat, flags: nat,
                           e: Header, value: Bytes, rest: Bytes)
    requires IsCode(t) && StrEncodable(t, value) && 4 <= prefix <= 6 && flags + Pow2(prefix) <= 256
    requires flags % Pow2(prefix) == 0 && 0 < idx <= Largest(prefix) && Get(statics, es, idx) == Some(e)
    ensures var b := NamedBytes(t, idx, prefix, flags, value);
      ReadLiteral(t, statics, es, b + rest, prefix) == Got(Header(e.name, value, false), |b|)
  {
    hide IsCode, StrBytes, IntBytes, ReadInt, ReadStr, StrEncodable, Pow2;
    CodeLen(t);
    var head, tail := IntBytes(idx, prefix, flags), StrBytes(t, value) + rest;
    var b := NamedBytes(t, idx, prefix, flags, value) + rest;
    assert b == head + tail;
    ReadIntOfWritten(idx, prefix, flags, tail);
    assert b[|head|..] == tail;
    ReadStrOfWritten(t, value, rest);
  }

  lemma ReadFullOfWritten(t: EncodeTable, statics: StaticTable, es: Entries, prefix: nat, flags: Byte,
                          name: Bytes, value: Bytes, rest: Bytes)
    requires IsCode(t) && StrEncodable(t, name) && StrEncodable(t, value) && name != []
    requires 4 <= prefix <= 6 && flags + Pow2(prefix) <= 256 && flags % Pow2(prefix) == 0
    ensures var b := LiteralBytes(t, flags, name, value);
      ReadLiteral(t, statics, es, b + rest, prefix) == Got(Header(name, value, false), |b|)
  {
    hide IsCode, StrBytes, ReadInt, ReadStr, StrEncodable, Pow2;
    CodeLen(t);
    var n, v := StrBytes(t, name), StrBytes(t, value);
    var b := LiteralBytes(t, flags, name, value) + rest;
    ReadZero(b, prefix, flags);
    assert b[1..] == n + (v + rest);
    ReadStrOfWritten(t, name, v + rest);
    assert b[1 + |n|..] == v + rest;
    ReadStrOfWritten(t, value, rest);
  }

  lemma ReadZero(b: Bytes, prefix: nat, flags: Byte)
    requires b != [] && b[0] == flags && 4 <= prefix <= 6 && flags % Pow2(prefix) == 0
    ensures ReadInt(b, prefix) == Got(0, 1)
  {
    Prefixes();
  }

  // ----- reading a representation that has only partly arrived

  lemma {:induction false} ContCut(b: Bytes, k: nat, n: nat, acc: nat, mult: nat)
    requires n <= k <= |b| && ReadCont(b, n, acc, mult).Got?
    ensures ReadCont(b[..k], n, acc, mult) ==
      if k >= ReadCont(b, n, acc, mult).used then ReadCont(b, n, acc, mult) else NeedMore(0)
    decreases k - n
  {
    if n < k {
      assert b[..k][n] == b[n];
      if b[n] >= 128 {
        ContCut(b, k, n + 1, acc + (b[n] % 128) * mult, mult * 128);
      }
    }
  }

  lemma IntCut(b: Bytes, k: nat, prefix: nat)
    requires k <= |b| && ReadInt(b, prefix).Got?
    ensures ReadInt(b[..k], prefix) == if k >= ReadInt(b, prefix).used then ReadInt(b, prefix) else NeedMore(0)
  {
    hide Pow2, ReadCont;
    if k > 0 {
      assert b[..k][0] == b[0];
      if b[0] % Pow2(prefix) >= Pow2(prefix) - 1 {
        ContCut(b, k, 1, b[0] % Pow2(prefix), 1);
      }
    }
  }

  lemma StrCut(t: EncodeTable, b: Bytes, k: nat)
    requires |t| == 257 && k <= |b| && ReadStr(t, b).Got?
    ensures ReadStr(t, b[..k]) == if k >= ReadStr(t, b).used then ReadStr(t, b) else NeedMore(0)
  {
    hide ReadInt, Decoded;
    IntCut(b, k, 7);
    if ReadInt(b, 7).used <= k {
      var n, len := ReadInt(b, 7).used, ReadInt(b, 7).value;
      assert b[..k][0] == b[0];
      if n + len <= k {
        assert b[..k][n..n + len] == b[n..n + len];
      }
    }
  }

  /** Where the value of a literal with a raw name begins: from there on the name has been cut off. */
  ghost function AfterRawName(t: EncodeTable, b: Bytes, prefix: nat): (n: Option<nat>)
    requires |t| == 257
  {
    match ReadInt(b, prefix)
    case Got(0, n) => (match ReadStr(t, b[n..]) case Got(name, m) => if name.raw then Some(n + m) else None
    case _ => None)
    case _ => None
  }

  /** What a literal whole in `b` yields when only its first `k` bytes are there: nothing, and nothing is lost
      of the input, unless the name was raw and already complete. */
  lemma LiteralCut(t: EncodeTable, statics: StaticTable, es: Entries, b: Bytes, k: nat, prefix: nat)
    requires |t| == 257 && k <= |b| && ReadLiteral(t, statics, es, b, prefix).Got?
    ensures var whole, cut := ReadLiteral(t, statics, es, b, prefix), ReadLiteral(t, statics, es, b[..k], prefix);
      var lost := AfterRawName(t, b, prefix);
      cut == if k >= whole.used then whole else NeedMore(if lost.Some? && lost.value <= k then lost.value else 0)
  {
    hide ReadInt, ReadStr, Get;
    IntCut(b, k, prefix);
    var n := ReadInt(b, prefix).used;
    if n <= k {
      assert b[..k][n..] == b[n..][..k - n];
      StrCut(t, b[n..], k - n);
      if ReadInt(b, prefix).value == 0 {
        var m := ReadStr(t, b[n..]).used;
        if n + m <= k {
          assert b[..k][n + m..] == b[n + m..][..k - n - m];
          StrCut(t, b[n + m..], k - n - m);
        }
      }
    }
  }

  /** Whether cutting the representation at `b` after `k` bytes loses part of it. */
  ghost predicate CutLoses(t: EncodeTable, b: Bytes, k: nat)
    requires |t| == 257 && b != []
  {
    b[0] < 0x80 && (b[0] >= 0x40 || b[0] < 0x20) &&
    var lost := AfterRawName(t, b, if b[0] >= 0x40 then 6 else 4); lost.Some? && lost.value <= k
  }

  /** A representation cut short asks for more, keeps the state, and keeps all its bytes exactly if the cut
      loses none; from its full length on it reads the same whatever follows. */
  lemma ItemCut(t: EncodeTable, statics: StaticTable, ds: DecState, b: Bytes, k: nat, can: bool)
    requires |t| == 257 && 0 < k <= |b| && ReadItem(t, statics, ds, b, can).Got?
    ensures var whole, cut := ReadItem(t, statics, ds, b, can), ReadItem(t, statics, ds, b[..k], can);
      if k >= whole.used then cut == whole
      else cut.NeedMore? && (cut.dropped == 0 <==> !CutLoses(t, b, k))
  {
    hide ReadInt, ReadStr, ReadLiteral, Get, Evict, Add;
    assert b[..k][0] == b[0];
    if b[0] >= 0x80 {
      IntCut(b, k, 7);
    } else if b[0] >= 0x40 {
      LiteralCut(t, statics, ds.entries, b, k, 6);
    } else if b[0] < 0x20 {
      LiteralCut(t, statics, ds.entries, b, k, 4);
    } else {
      IntCut(b, k, 5);
    }
  }

  // ----- what was read, or refused, stays so whatever follows

  lemma {:induction false} ContMore(b: Bytes, k: nat, n: nat, acc: nat, mult: nat)
    requires n <= k <= |b| && !ReadCont(b[..k], n, acc, mult).NeedMore?
    ensures ReadCont(b, n, acc, mult) == ReadCont(b[..k], n, acc, mult)
    decreases k - n
  {
    if n < k {
      assert b[..k][n] == b[n];
      if b[n] >= 128 && n + 1 != MAX_BYTES {
        ContMore(b, k, n + 1, acc + (b[n] % 128) * mult, mult * 128);
      }
    }
  }

  lemma IntMore(b: Bytes, k: nat, prefix: nat)
    requires k <= |b| && !ReadInt(b[..k], prefix).NeedMore?
    ensures ReadInt(b, prefix) == ReadInt(b[..k], prefix)
  {
    hide Pow2, ReadCont;
    assert b[..k][0] == b[0];
    if b[0] % Pow2(prefix) >= Pow2(prefix) - 1 {
      ContMore(b, k, 1, b[0] % Pow2(prefix), 1);
    }
  }

  lemma StrMore(t: EncodeTable, b: Bytes, k: nat)
    requires |t| == 257 && k <= |b| && !ReadStr(t, b[..k]).NeedMore?
    ensures ReadStr(t, b) == ReadStr(t, b[..k])
  {
    hide ReadInt, Decoded;
    IntMore(b, k, 7);
    if ReadInt(b, 7).Got? {
      var n, len := ReadInt(b, 7).used, ReadInt(b, 7).value;
      assert b[..k][0] == b[0] && b[..k][n..n + len] == b[n..n + len];
    }
  }

  lemma PairMore(t: EncodeTable, b: Bytes, k: nat, n: nat)
    requires |t| == 257 && n <= k <= |b| && !ReadPair(t, b[..k], n).NeedMore?
    ensures ReadPair(t, b, n) == ReadPair(t, b[..k], n)
  {
    hide ReadStr;
    assert b[..k][n..] == b[n..][..k - n];
    StrMore(t, b[n..], k - n);
    if ReadStr(t, b[n..]).Got? {
      var m := ReadStr(t, b[n..]).used;
      assert b[..k][n + m..] == b[n + m..][..k - n - m];
      StrMore(t, b[n + m..], k - n - m);
    }
  }

  lemma LiteralMore(t: EncodeTable, statics: StaticTable, es: Entries, b: Bytes, k: nat, prefix: nat)
    requires |t| == 257 && k <= |b| && !ReadLiteral(t, statics, es, b[..k], prefix).NeedMore?
    ensures ReadLiteral(t, statics, es, b, prefix) == ReadLiteral(t, statics, es, b[..k], prefix)
  {
    hide ReadInt, ReadStr, Get, ReadPair;
    IntMore(b, k, prefix);
    if ReadInt(b, prefix).Got? {
      var n := ReadInt(b, prefix).used;
      if ReadInt(b, prefix).value == 0 {
        PairMore(t, b, k, n);
      } else if Get(statics, es, ReadInt(b, prefix).value).Some? {
        assert b[..k][n..] == b[n..][..k - n];
        StrMore(t, b[n..], k - n);
      }
    }
  }

  /** A representation that was read, or refused, is so whatever follows. */
  lemma ItemMore(t: EncodeTable, statics: StaticTable, ds: DecState, b: Bytes, k: nat, can: bool)
    requires |t| == 257 && 0 < k <= |b| && !ReadItem(t, statics, ds, b[..k], can).NeedMore?
    ensures ReadItem(t, statics, ds, b, can) == ReadItem(t, statics, ds, b[..k], can)
  {
    hide ReadInt, ReadStr, ReadLiteral, Get, Evict, Add;
    assert b[..k][0] == b[0];
    if b[0] >= 0x80 {
      IntMore(b, k, 7);
    } else if b[0] >= 0x40 {
      LiteralMore(t, statics, ds.entries, b, k, 6);
    } else if b[0] < 0x20 {
      LiteralMore(t, statics, ds.entries, b, k, 4);
    } else if can {
      IntMore(b, k, 5);
    }
  }

  /** Whether the representation at `b` is a size update. */
  predicate IsSizeUpdate(b: Bytes) {
    b != [] && 0x20 <= b[0] < 0x40
  }

  /** Only a size update is read differently where none is admitted: there it is refused. */
  lemma OnlyUpdatesDiffer(t: EncodeTable, statics: StaticTable, ds: DecState, b: Bytes)
    requires |t| == 257 && b != []
    ensures !IsSizeUpdate(b) ==> ReadItem(t, statics, ds, b, true) == ReadItem(t, statics, ds, b, false)
    ensures !IsSizeUpdate(b) && ReadItem(t, statics, ds, b, true).Got? ==>
      ReadItem(t, statics, ds, b, true).value.0.Some?
    ensures IsSizeUpdate(b) ==> ReadItem(t, statics, ds, b, false) == Bad(InvalidMaxDynamicSize)
  {
    hide ReadInt, ReadLiteral, Get, Evict, Add;
  }
}
