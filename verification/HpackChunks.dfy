/** Decoding a header block that arrives in parts: a HEADERS frame and CONTINUATION frames, cut anywhere. */
module HpackChunks {
  import opened Headers
  import opened FifoTable
  import opened Bits
  import opened HuffmanCode
  import opened HpackWire
  import opened HpackBlock

  /** Feeds the decoder part by part, `so` being how the part before ended. Bytes it could not use yet are put
      in front of the next part; every part may begin with size updates again. Stops at an error. */
  ghost function DecodeParts(cfg: Config, ds: DecState, so: Outcome, parts: seq<Bytes>): Decoding
    requires |cfg.code| == 257
    decreases |parts|
  {
    if parts == [] || so.Failed? then Decoding([], ds, so)
    else
      var d := Decode(cfg, ds, Left(so) + parts[0], true);
      var r := DecodeParts(cfg, d.state, d.outcome, parts[1..]);
      r.(headers := d.headers + r.headers)
  }

  function Left(o: Outcome): Bytes {
    if o.Starved? then o.rest else []
  }

  function Concat(parts: seq<Bytes>): Bytes {
    if parts == [] then [] else parts[0] + Concat(parts[1..])
  }

  /** No literal in the block has a raw name. */
  ghost predicate NoRawNames(cfg: Config, ds: DecState, b: Bytes, can: bool)
    requires |cfg.code| == 257
    decreases |b|
  {
    b == [] ||
    match ReadItem(cfg.code, cfg.statics, ds, b, can)
    case Got((h, ds'), n) => (forall k: nat :: !CutLoses(cfg.code, b, k))
      && NoRawNames(cfg, ds', b[n..], can && h.None?)
    case _ => true
  }

  /** Admitting size updates anywhere changes nothing for a block that is fine without. */
  lemma {:induction false} MorePermissive(cfg: Config, ds: DecState, b: Bytes)
    requires |cfg.code| == 257 && Decode(cfg, ds, b, false).outcome == Done && NoRawNames(cfg, ds, b, false)
    ensures Decode(cfg, ds, b, true) == Decode(cfg, ds, b, false) && NoRawNames(cfg, ds, b, true)
    decreases |b|
  {
    hide ReadInt, ReadStr, ReadLiteral, CutLoses, Get;
    if b != [] {
      var r := ReadItem(cfg.code, cfg.statics, ds, b, false);
      assert ReadItem(cfg.code, cfg.statics, ds, b, true) == r;
      MorePermissive(cfg, r.value.1, b[r.used..]);
    }
  }

  lemma DecodeNothing(cfg: Config, ds: DecState, can: bool)
    requires |cfg.code| == 257
    ensures Decode(cfg, ds, [], can) == Decoding([], ds, Done)
  {
  }

  lemma DecodeGets(cfg: Config, ds: DecState, b: Bytes, can: bool)
    requires |cfg.code| == 257 && b != [] && Decode(cfg, ds, b, can).outcome == Done
    ensures ReadItem(cfg.code, cfg.statics, ds, b, can).Got?
  {
  }

  lemma DecodeStep(cfg: Config, ds: DecState, b: Bytes, can: bool)
    requires |cfg.code| == 257 && b != [] && ReadItem(cfg.code, cfg.statics, ds, b, can).Got?
    ensures var r := ReadItem(cfg.code, cfg.statics, ds, b, can);
      var d := Decode(cfg, r.value.1, b[r.used..], can && r.value.0.None?);
      Decode(cfg, ds, b, can) == d.(headers := (if r.value.0.Some? then [r.value.0.value] else []) + d.headers)
  {
  }

  lemma DecodeStarved(cfg: Config, ds: DecState, b: Bytes, can: bool)
    requires |cfg.code| == 257 && b != [] && ReadItem(cfg.code, cfg.statics, ds, b, can) == NeedMore(0)
    ensures Decode(cfg, ds, b, can) == Decoding([], ds, Starved(b))
  {
  }

  lemma Slices(b: Bytes, n: nat, k: nat)
    requires n <= k <= |b|
    ensures b[..k][n..] == b[n..][..k - n] && b[n..][k - n..] == b[k..] && b[..k] + b[k..] == b
  {
  }

  /** Decoding the first `k` bytes, and then what they left over together with the rest, is decoding it all. */
  lemma {:induction false} CutAnywhere(cfg: Config, ds: DecState, b: Bytes, k: nat, can: bool)
    requires |cfg.code| == 257 && k <= |b| && Decode(cfg, ds, b, can).outcome == Done && NoRawNames(cfg, ds, b, can)
    ensures var whole, first := Decode(cfg, ds, b, can), Decode(cfg, ds, b[..k], can);
      var later := Left(first.outcome) + b[k..];
      var second := Decode(cfg, first.state, later, true);
      && !first.outcome.Failed?
      && second == whole.(headers := second.headers) && first.headers + second.headers == whole.headers
      && NoRawNames(cfg, first.state, later, true)
    decreases |b|
  {
    hide ReadItem, CutLoses, Decode;
    if k == 0 {
      assert b[..k] == [] && [] + b[k..] == b;
      DecodeNothing(cfg, ds, can);
      if !can {
        MorePermissive(cfg, ds, b);
      }
    } else {
      var t := cfg.code;
      DecodeGets(cfg, ds, b, can);
      ItemCut(t, cfg.statics, ds, b, k, can);
      var r := ReadItem(t, cfg.statics, ds, b, can);
      DecodeStep(cfg, ds, b, can);
      if k >= r.used {
        var b', ds', can' := b[r.used..], r.value.1, can && r.value.0.None?;
        DecodeStep(cfg, ds, b[..k], can);
        Slices(b, r.used, k);
        CutAnywhere(cfg, ds', b', k - r.used, can');
      } else {
        DecodeStarved(cfg, ds, b[..k], can);
        Slices(b, 0, k);
        if !can {
          MorePermissive(cfg, ds, b);
        }
      }
    }
  }

  /** How far decoding gets: the representations it reads, up to the one it cannot read yet or refuses. */
  ghost function ReadUpTo(cfg: Config, ds: DecState, b: Bytes, can: bool): (c: nat)
    requires |cfg.code| == 257
    ensures c <= |b|
    decreases |b|
  {
    if b == [] then 0
    else
      match ReadItem(cfg.code, cfg.statics, ds, b, can)
      case Got((h, ds'), n) => n + ReadUpTo(cfg, ds', b[n..], can && h.None?)
      case _ => 0
  }

  /** A decoding with headers in front. */
  function After(hs: seq<Header>, d: Decoding): Decoding {
    d.(headers := hs + d.headers)
  }

  lemma DecodeStops(cfg: Config, ds: DecState, b: Bytes, can: bool)
    requires |cfg.code| == 257 && b != [] && !ReadItem(cfg.code, cfg.statics, ds, b, can).Got?
    ensures Decode(cfg, ds, b, can).headers == [] && Decode(cfg, ds, b, can).state == ds
      && ReadUpTo(cfg, ds, b, can) == 0
    ensures match ReadItem(cfg.code, cfg.statics, ds, b, can)
      case NeedMore(d) => Decode(cfg, ds, b, can).outcome == Starved(b[d..])
      case Bad(e) => Decode(cfg, ds, b, can).outcome == Failed(e)
  {
    hide ReadItem;
  }

  lemma ReadOn(cfg: Config, ds: DecState, b: Bytes, can: bool)
    requires |cfg.code| == 257 && b != [] && ReadItem(cfg.code, cfg.statics, ds, b, can).Got?
    ensures var r := ReadItem(cfg.code, cfg.statics, ds, b, can);
      ReadUpTo(cfg, ds, b, can) == r.used + ReadUpTo(cfg, r.value.1, b[r.used..], can && r.value.0.None?)
  {
    hide ReadItem;
  }

  /** Whatever becomes of it: decoding goes on where the first `k` bytes got to, unless it was refused before. */
  ghost predicate ContinuesAt(cfg: Config, ds: DecState, b: Bytes, k: nat, can: bool)
    requires |cfg.code| == 257 && k <= |b|
  {
    var whole, first, c := Decode(cfg, ds, b, can), Decode(cfg, ds, b[..k], can), ReadUpTo(cfg, ds, b[..k], can);
    && c <= k && (first.outcome == Done ==> c == k)
    && (first.outcome.Starved? && (first.headers != [] || !can) ==> !IsSizeUpdate(b[c..]))
    && if first.outcome.Failed? then whole == first
       else whole == After(first.headers, Decode(cfg, first.state, b[c..], can && first.headers == []))
  }

  lemma {:induction false} GoesOn(cfg: Config, ds: DecState, b: Bytes, k: nat, can: bool)
    requires |cfg.code| == 257 && k <= |b|
    ensures ContinuesAt(cfg, ds, b, k, can)
    decreases |b|
  {
    hide ReadItem, Decode, ReadUpTo, ContinuesAt;
    if k == 0 {
      NothingYet(cfg, ds, b, can);
    } else {
      var t := cfg.code;
      if ReadItem(t, cfg.statics, ds, b[..k], can).Got? {
        ItemMore(t, cfg.statics, ds, b, k, can);
        var r := ReadItem(t, cfg.statics, ds, b, can);
        GoesOn(cfg, r.value.1, b[r.used..], k - r.used, can && r.value.0.None?);
        OneItemRead(cfg, ds, b, k, can);
      } else {
        NoItemRead(cfg, ds, b, k, can);
      }
    }
  }

  lemma NothingYet(cfg: Config, ds: DecState, b: Bytes, can: bool)
    requires |cfg.code| == 257
    ensures ContinuesAt(cfg, ds, b, 0, can)
  {
    hide ReadItem;
    assert b[..0] == [] && b[0..] == b;
  }

  lemma NoItemRead(cfg: Config, ds: DecState, b: Bytes, k: nat, can: bool)
    requires |cfg.code| == 257 && 0 < k <= |b| && !ReadItem(cfg.code, cfg.statics, ds, b[..k], can).Got?
    ensures ContinuesAt(cfg, ds, b, k, can)
  {
    hide ReadItem, Decode, ReadUpTo;
    assert b[0..] == b && b[..k][0] == b[0];
    DecodeStops(cfg, ds, b[..k], can);
    OnlyUpdatesDiffer(cfg.code, cfg.statics, ds, b[..k]);
    if ReadItem(cfg.code, cfg.statics, ds, b[..k], can).Bad? {
      ItemMore(cfg.code, cfg.statics, ds, b, k, can);
      DecodeStops(cfg, ds, b, can);
    }
  }

  lemma OneItemRead(cfg: Config, ds: DecState, b: Bytes, k: nat, can: bool)
    requires |cfg.code| == 257 && 0 < k <= |b| && ReadItem(cfg.code, cfg.statics, ds, b[..k], can).Got?
    requires ReadItem(cfg.code, cfg.statics, ds, b, can) == ReadItem(cfg.code, cfg.statics, ds, b[..k], can)
    requires var r := ReadItem(cfg.code, cfg.statics, ds, b, can);
      ContinuesAt(cfg, r.value.1, b[r.used..], k - r.used, can && r.value.0.None?)
    ensures ContinuesAt(cfg, ds, b, k, can)
  {
    hide ReadItem, Decode, ReadUpTo;
    var r := ReadItem(cfg.code, cfg.statics, ds, b, can);
    var n, ds', can' := r.used, r.value.1, can && r.value.0.None?;
    Slices(b, n, k);
    DecodeStep(cfg, ds, b, can);
    DecodeStep(cfg, ds, b[..k], can);
    ReadOn(cfg, ds, b[..k], can);
    var c := ReadUpTo(cfg, ds', b[n..][..k - n], can');
    assert b[n..][c..] == b[n + c..];
  }

  /** Admitting a size update matters just if there is one: otherwise it is refused. */
  lemma AdmittedOrNot(cfg: Config, ds: DecState, b: Bytes)
    requires |cfg.code| == 257
    ensures if IsSizeUpdate(b) then Decode(cfg, ds, b, false) == Decoding([], ds, Failed(InvalidMaxDynamicSize))
            else Decode(cfg, ds, b, false) == Decode(cfg, ds, b, true)
  {
    hide ReadItem;
    if b != [] {
      OnlyUpdatesDiffer(cfg.code, cfg.statics, ds, b);
    }
  }

  /** A block in two parts, against the block whole, whatever becomes of either; the cut takes no name off the input.
      They differ only where the second part begins with a size update after a field: that is refused in the whole
      block, and admitted in the part. */
  lemma CutInFrontOfUpdate(cfg: Config, ds: DecState, b: Bytes, k: nat)
    requires |cfg.code| == 257 && k <= |b|
    requires Left(Decode(cfg, ds, b[..k], true).outcome) == b[ReadUpTo(cfg, ds, b[..k], true)..k]
      || Decode(cfg, ds, b[..k], true).outcome.Failed?
    ensures var whole, first := Decode(cfg, ds, b, true), Decode(cfg, ds, b[..k], true);
      var parts := DecodeParts(cfg, ds, Done, [b[..k], b[k..]]);
      if first.headers != [] && first.outcome == Done && IsSizeUpdate(b[k..]) then
        whole == Decoding(first.headers, first.state, Failed(InvalidMaxDynamicSize)) &&
        parts == After(first.headers, Decode(cfg, first.state, b[k..], true))
      else parts == whole
  {
    hide ReadItem, ReadUpTo, Decode, DecodeParts;
    var first, c := Decode(cfg, ds, b[..k], true), ReadUpTo(cfg, ds, b[..k], true);
    GoesOn(cfg, ds, b, k, true);
    TwoParts(cfg, ds, b[..k], b[k..]);
    if !first.outcome.Failed? {
      assert b[c..k] + b[k..] == b[c..];
      assert first.outcome == Done ==> b[c..k] == [];
      AdmittedOrNot(cfg, first.state, b[c..]);
    }
  }

  lemma TwoParts(cfg: Config, ds: DecState, a: Bytes, b: Bytes)
    requires |cfg.code| == 257
    ensures var first := Decode(cfg, ds, a, true);
      DecodeParts(cfg, ds, Done, [a, b]) ==
        if first.outcome.Failed? then first
          else After(first.headers, Decode(cfg, first.state, Left(first.outcome) + b, true))
  {
    hide Decode;
    var none: seq<Bytes> := [];
    assert [a, b][1..] == [b] && [b][1..] == none && [] + a == a;
    var first := Decode(cfg, ds, a, true);
    var second := Decode(cfg, first.state, Left(first.outcome) + b, true);
    assert DecodeParts(cfg, second.state, second.outcome, none) == Decoding([], second.state, second.outcome);
    assert DecodeParts(cfg, first.state, first.outcome, [b]) ==
      if first.outcome.Failed? then Decoding([], first.state, first.outcome) else second;
  }

  lemma {:induction false} AnyParts(cfg: Config, ds: DecState, so: Outcome, parts: seq<Bytes>, whole: Decoding)
    requires |cfg.code| == 257 && !so.Failed?
    requires whole == Decode(cfg, ds, Left(so) + Concat(parts), true) && whole.outcome == Done
    requires NoRawNames(cfg, ds, Left(so) + Concat(parts), true) && (parts == [] ==> so == Done)
    ensures DecodeParts(cfg, ds, so, parts) == whole
    decreases |parts|
  {
    hide Decode, NoRawNames;
    if parts == [] {
      assert Left(so) + Concat(parts) == [];
      DecodeNothing(cfg, ds, true);
    } else {
      var b, k := Left(so) + Concat(parts), |Left(so) + parts[0]|;
      assert b[..k] == Left(so) + parts[0] && b[k..] == Concat(parts[1..]);
      CutAnywhere(cfg, ds, b, k, true);
      var first := Decode(cfg, ds, b[..k], true);
      var second := Decode(cfg, first.state, Left(first.outcome) + b[k..], true);
      if parts[1..] == [] {
        assert b[..k] == b;
      }
      AnyParts(cfg, first.state, first.outcome, parts[1..], second);
    }
  }

  // ----- the blocks this encoder writes

  lemma NoRawName(t: EncodeTable, name: Bytes, value: Bytes, flags: Byte, rest: Bytes, prefix: nat)
    requires IsCode(t) && StrEncodable(t, name) && name != [] && 4 <= prefix <= 6 && flags % Pow2(prefix) == 0
    ensures AfterRawName(t, LiteralBytes(t, flags, name, value) + rest, prefix) == None
  {
    hide IsCode, StrBytes, ReadStr, ReadInt, StrEncodable, Pow2;
    CodeLen(t);
    var b := LiteralBytes(t, flags, name, value) + rest;
    ReadZero(b, prefix, flags);
    assert b[1..] == StrBytes(t, name) + (StrBytes(t, value) + rest);
    ReadStrOfWritten(t, name, StrBytes(t, value) + rest);
  }

  lemma NoNameAtAll(t: EncodeTable, idx: nat, prefix: nat, flags: nat, value: Bytes, rest: Bytes)
    requires |t| == 257 && 4 <= prefix <= 6 && flags + Pow2(prefix) <= 256 && flags % Pow2(prefix) == 0
    requires 0 < idx <= Largest(prefix)
    ensures AfterRawName(t, NamedBytes(t, idx, prefix, flags, value) + rest, prefix) == None
  {
    hide StrBytes, ReadStr, ReadInt, Pow2, IntBytes;
    var head, tail := IntBytes(idx, prefix, flags), StrBytes(t, value) + rest;
    assert NamedBytes(t, idx, prefix, flags, value) + rest == head + tail;
    ReadIntOfWritten(idx, prefix, flags, tail);
  }

  lemma FieldNotRaw(cfg: Config, e: Enc, h: Header, rest: Bytes)
    requires ConfigOk(cfg) && EncOk(e) && |cfg.code| == 257 && FieldOk(cfg, Named(h))
    ensures forall k: nat :: !CutLoses(cfg.code, Piece(cfg, e, Named(h)) + rest, k)
  {
    hide IsCode, IndexIn, EntriesAfter, AfterRawName, StrEncodable, Get;
    var t := cfg.code;
    var (i, es) := Indexing(cfg, e, h);
    IndexingFinds(cfg, e, h);
    IndexBounds();
    Prefixes();
    match i
    case Indexed(idx, _) => IntStart(idx, 7, 0x80, rest);
    case Name(idx, _) =>
      NamedStart(t, idx, 4, LiteralFlags(h.sensitive), h.value, rest);
      NoNameAtAll(t, idx, 4, LiteralFlags(h.sensitive), h.value, rest);
    case Inserted(_) =>
      LiteralStart(t, 0x40, h.name, h.value, rest);
      NoRawName(t, h.name, h.value, 0x40, rest, 6);
    case InsertedValue(idx, _) =>
      NamedStart(t, idx, 6, 0x40, h.value, rest);
      NoNameAtAll(t, idx, 6, 0x40, h.value, rest);
    case NotIndexed(_) =>
      LiteralStart(t, LiteralFlags(h.sensitive), h.name, h.value, rest);
      NoRawName(t, h.name, h.value, LiteralFlags(h.sensitive), rest, 4);
  }

  lemma NamelessNotRaw(cfg: Config, e: Enc, v: Bytes, sensitive: bool, name: Bytes, rest: Bytes)
    requires ConfigOk(cfg) && |cfg.code| == 257 && FieldOk(cfg, Nameless(v, sensitive))
    requires e.last.Some? && LastNames(cfg, e, name)
    ensures forall k: nat :: !CutLoses(cfg.code, Piece(cfg, e, Nameless(v, sensitive)) + rest, k)
  {
    hide IsCode, AfterRawName, StrEncodable, Get;
    var t, flags := cfg.code, LiteralFlags(sensitive);
    Prefixes();
    if e.last.value.NotIndexed? {
      LiteralStart(t, flags, name, v, rest);
      NoRawName(t, name, v, flags, rest, 4);
    } else {
      NamedStart(t, ResolveIdx(e.last.value), 4, flags, v, rest);
      NoNameAtAll(t, ResolveIdx(e.last.value), 4, flags, v, rest);
    }
  }

  lemma {:induction false} FieldsNotRaw(cfg: Config, e: Enc, fields: seq<Field>, name: Bytes, limit: nat, can: bool)
    requires ConfigOk(cfg) && EncOk(e) && |cfg.code| == 257 && FieldsOk(cfg, fields)
    requires Startable(e, fields) && LastNames(cfg, e, name)
    ensures NoRawNames(cfg, StateOf(e, limit), Pieces(cfg, e, fields), can)
    decreases |fields|
  {
    hide ConfigOk, ReadItem, Indexing, LastNames, EncOk, FieldOk, Piece, CutLoses;
    if fields != [] {
      var f := fields[0];
      var e', b := Step(cfg, e, f), Piece(cfg, e, f);
      var rest := Pieces(cfg, e', fields[1..]);
      EncStaysOk(cfg, e, f);
      match f {
        case Named(h) =>
          FieldRoundTrip(cfg, e, h, limit, rest, can);
          FieldNotRaw(cfg, e, h, rest);
          StepNames(cfg, e, h);
          FieldsNotRaw(cfg, e', fields[1..], h.name, limit, false);
        case Nameless(v, s) =>
          NamelessRoundTrip(cfg, e, v, s, name, limit, rest, can);
          NamelessNotRaw(cfg, e, v, s, name, rest);
          FieldsNotRaw(cfg, e', fields[1..], name, limit, false);
      }
      assert (b + rest)[|b|..] == rest;
    }
  }

  lemma UpdateNotRaw(t: EncodeTable, size: nat, rest: Bytes)
    requires |t| == 257
    ensures forall k: nat :: !CutLoses(t, SizeUpdateBytes(size) + rest, k)
  {
    hide AfterRawName;
    Prefixes();
    IntStart(size, 5, 0x20, rest);
  }

  lemma NoRawFirst(cfg: Config, ds: DecState, b: Bytes, rest: Bytes, ds': DecState)
    requires |cfg.code| == 257 && b != []
    requires ReadItem(cfg.code, cfg.statics, ds, b + rest, true) == Got((None, ds'), |b|)
    requires (forall k: nat :: !CutLoses(cfg.code, b + rest, k)) && NoRawNames(cfg, ds', rest, true)
    ensures NoRawNames(cfg, ds, b + rest, true)
  {
    hide CutLoses;
    assert (b + rest)[|b|..] == rest;
  }

  lemma BlockNotRaw(cfg: Config, s: EncoderState, fields: seq<Field>, limit: nat)
    requires ConfigOk(cfg) && |cfg.code| == 257 && EncoderOk(s, limit) && BlockOk(cfg, fields)
    ensures NoRawNames(cfg, DecState(s.entries, s.max, limit), BlockBytes(cfg, s, fields), true)
  {
    hide ConfigOk, EncOk, FieldOk, FieldsOk, NoRawNames, ReadItem, CutLoses, SizeUpdateBytes, Evict, Pieces;
    var e, start := Announced(s), Enc(s.entries, s.max, None);
    var rest, ds := Pieces(cfg, e, fields), StateOf(start, limit);
    AnnouncedOk(s, limit);
    NoLast(s);
    IndexBounds();
    FieldsNotRaw(cfg, e, fields, [], limit, true) by { assert LastNames(cfg, e, []); }
    match s.pending
    case None => assert UpdateBytes(s.pending) + rest == rest;
    case Some(One(v)) =>
      ReadSizeOfWritten(cfg.code, cfg.statics, ds, v, rest);
      UpdateNotRaw(cfg.code, v, rest);
      NoRawFirst(cfg, ds, SizeUpdateBytes(v), rest, StateOf(e, limit));
    case Some(Two(a, b)) =>
      var mid, tail := StateOf(Announce(Some(One(a)), start), limit), SizeUpdateBytes(b) + rest;
      ReadSizeOfWritten(cfg.code, cfg.statics, mid, b, rest);
      UpdateNotRaw(cfg.code, b, rest);
      NoRawFirst(cfg, mid, SizeUpdateBytes(b), rest, StateOf(e, limit));
      ReadSizeOfWritten(cfg.code, cfg.statics, ds, a, tail);
      UpdateNotRaw(cfg.code, a, tail);
      NoRawFirst(cfg, ds, SizeUpdateBytes(a), tail, mid);
      assert UpdateBytes(s.pending) + rest == SizeUpdateBytes(a) + tail;
  }

  /** However a block this encoder wrote is cut into parts, feeding the parts one by one yields its fields and
      the encoder's table, as feeding it whole does. */
  lemma PartsRoundTrip(cfg: Config, s: EncoderState, fields: seq<Field>, limit: nat, parts: seq<Bytes>)
    requires ConfigOk(cfg) && |cfg.code| == 257 && EncoderOk(s, limit) && BlockOk(cfg, fields)
    requires Concat(parts) == BlockBytes(cfg, s, fields)
    ensures var s' := AfterBlock(cfg, s, fields);
      DecodeParts(cfg, DecState(s.entries, s.max, limit), Done, parts) ==
        Decoding(Expected(fields, []), DecState(s'.entries, s'.max, limit), Done)
  {
    hide ConfigOk, EncOk, FieldsOk, NoRawNames, Decode, Expected, AfterBlock, BlockBytes, DecodeParts;
    BlockRoundTrip(cfg, s, fields, limit);
    BlockNotRaw(cfg, s, fields, limit);
    assert [] + Concat(parts) == BlockBytes(cfg, s, fields);
    AnyParts(cfg, DecState(s.entries, s.max, limit), Done, parts,
             Decode(cfg, DecState(s.entries, s.max, limit), BlockBytes(cfg, s, fields), true));
  }

  /** The boundary of that: a literal with a raw name. The name is cut off the input as soon as it is complete,
      so a cut inside the value leaves the decoder without it, and the parts no longer decode to the header. */
  lemma RawNameIsLost(cfg: Config, ds: DecState)
    requires |cfg.code| == 257
    ensures var b: Bytes := [0x00, 0x01, 0x61, 0x01, 0x62];
      && Decode(cfg, ds, b, true) == Decoding([Header([0x61], [0x62], false)], ds, Done)
      && DecodeParts(cfg, ds, Done, [b[..4], b[4..]]) == Decoding([], ds, Starved([0x01, 0x62]))
  {
    hide Decoded, ReadItem;
    var b, cut, later: Bytes := [0x00, 0x01, 0x61, 0x01, 0x62], [0x00, 0x01, 0x61, 0x01], [0x01, 0x62];
    ReadRawWhole(cfg.code, cfg.statics, ds);
    ReadRawCut(cfg.code, cfg.statics, ds);
    ReadRawLater(cfg.code, cfg.statics, ds);
    assert b[5..] == [];
    assert b[..4] == cut && [] + cut == cut && cut[3..] + b[4..] == later;
    DecodeRaw(cfg, ds, b, cut, later);
    var parts: seq<Bytes> := [b[..4], b[4..]];
    var last: seq<Bytes> := parts[1..];
    var none: seq<Bytes> := last[1..];
    assert none == [];
    assert DecodeParts(cfg, ds, Starved(later), none) == Decoding([], ds, Starved(later));
    assert DecodeParts(cfg, ds, Starved(cut[3..]), last) == Decoding([], ds, Starved(later));
  }

  lemma DecodeRaw(cfg: Config, ds: DecState, b: Bytes, cut: Bytes, later: Bytes)
    requires |cfg.code| == 257 && |b| == 5 && |cut| == 4 && |later| == 2
    requires ReadItem(cfg.code, cfg.statics, ds, b, true) == Got((Some(Header([0x61], [0x62], false)), ds), 5)
    requires ReadItem(cfg.code, cfg.statics, ds, cut, true) == NeedMore(3)
    requires ReadItem(cfg.code, cfg.statics, ds, later, true) == NeedMore(0)
    ensures Decode(cfg, ds, b, true) == Decoding([Header([0x61], [0x62], false)], ds, Done)
    ensures Decode(cfg, ds, cut, true) == Decoding([], ds, Starved(cut[3..]))
    ensures Decode(cfg, ds, later, true) == Decoding([], ds, Starved(later))
  {
    hide ReadItem;
    assert b[5..] == [];
  }

  lemma ReadRawWhole(t: EncodeTable, statics: StaticTable, ds: DecState)
    requires |t| == 257
    ensures ReadItem(t, statics, ds, [0x00, 0x01, 0x61, 0x01, 0x62], true) ==
      Got((Some(Header([0x61], [0x62], false)), ds), 5)
  {
    hide Decoded;
    Prefixes();
    var b: Bytes := [0x00, 0x01, 0x61, 0x01, 0x62];
    ReadOneByte(t, b[1..]);
    ReadOneByte(t, b[3..]);
    assert b[1..][1..2] == [0x61] && b[3..][1..2] == [0x62];
  }

  lemma ReadRawCut(t: EncodeTable, statics: StaticTable, ds: DecState)
    requires |t| == 257
    ensures ReadItem(t, statics, ds, [0x00, 0x01, 0x61, 0x01], true) == NeedMore(3)
  {
    hide Decoded;
    Prefixes();
    var cut: Bytes := [0x00, 0x01, 0x61, 0x01];
    assert cut[1..] == [0x01, 0x61, 0x01] && cut[3..] == [0x01];
    ReadOneByte(t, cut[1..]);
    assert ReadInt([0x01], 7) == Got(1, 1);
  }

  lemma ReadRawLater(t: EncodeTable, statics: StaticTable, ds: DecState)
    requires |t| == 257
    ensures ReadItem(t, statics, ds, [0x01, 0x62], true) == NeedMore(0)
  {
    hide Decoded;
    Prefixes();
    var later: Bytes := [0x01, 0x62];
    assert later[1..] == [0x62];
    assert ReadInt([0x62], 7) == Got(0x62, 1);
  }

  lemma ReadOneByte(t: EncodeTable, b: Bytes)
    requires |t| == 257 && |b| >= 2 && b[0] == 1
    ensures ReadStr(t, b) == Got(Str(b[1..2], true), 2)
  {
    Prefixes();
  }
}
