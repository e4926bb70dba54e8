/** The receiving end of a header block: HEADERS and CONTINUATION frames put together again (section 6.10 of
    RFC 7540), and what comes out when they are the frames of this encoder. */
module HeaderReader {
  import opened ByteOrder
  import opened Headers
  import opened HuffmanCode
  import opened HpackWire
  import opened HpackBlock
  import opened HpackChunks
  import opened HpackEncoder
  import D = HpackDecoder
  import opened HeaderFrames

  const PADDED: nat := 8
  const PRIORITY: nat := 0x20
  const STREAM_ID_MASK: nat := 0x8000_0000

  predicate Has(flag: Byte, bit: nat)
    requires bit > 0
  {
    flag / bit % 2 == 1
  }

  /** The head of a frame; the reserved bit of the stream identifier is ignored. */
  function ParseHead(frame: Bytes): Head
    requires |frame| >= HEADER_LEN
  {
    Head(frame[3], frame[4], OfBigEndian(frame[5..9]) % STREAM_ID_MASK)
  }

  lemma ParseHeadOfFrame(h: Head, payload: Bytes)
    requires h.streamId < STREAM_ID_MASK
    ensures var f := FrameBytes(h, payload); |f| >= HEADER_LEN && ParseHead(f) == h && f[HEADER_LEN..] == payload
    ensures |payload| < 0x100_0000 ==> OfBigEndian(FrameBytes(h, payload)[..3]) == |payload|
  {
    var f := FrameBytes(h, payload);
    assert f[5..9] == BigEndian(4, h.streamId);
    assert Pow256(4) == 0x1_0000_0000 && Pow256(3) == 0x100_0000;
    BigEndianRoundTrip(4, h.streamId);
    if |payload| < 0x100_0000 {
      assert f[..3] == BigEndian(3, |payload|);
      BigEndianRoundTrip(3, |payload|);
    }
  }

  /** The head of a frame byte by byte (section 4.1 of RFC 7540): length, kind, flags, stream identifier. */
  lemma HeadLayout(len: nat, h: Head)
    ensures HeadBytes(len, h) == [len / 256 / 256 % 256, len / 256 % 256, len % 256, h.kind, h.flag,
                                  h.streamId / 256 / 256 / 256 % 256, h.streamId / 256 / 256 % 256,
                                  h.streamId / 256 % 256, h.streamId % 256]
  {
    assert BigEndian(1, len / 256 / 256) == [len / 256 / 256 % 256];
    assert BigEndian(2, len / 256) == [len / 256 / 256 % 256, len / 256 % 256];
    assert BigEndian(2, h.streamId / 256 / 256) ==
      [h.streamId / 256 / 256 / 256 % 256, h.streamId / 256 / 256 % 256] by { LowBytes(h.streamId / 256 / 256); }
    assert BigEndian(3, h.streamId / 256) == BigEndian(2, h.streamId / 256 / 256) + [h.streamId / 256 % 256];
  }

  lemma LowBytes(v: nat)
    ensures BigEndian(2, v) == [v / 256 % 256, v % 256]
  {
    assert BigEndian(1, v / 256) == [v / 256 % 256];
  }

  /** An example: HEADERS with END_HEADERS, five bytes long, on stream 3; then CONTINUATION. Each flag by its bit
      (section 6.2 of RFC 7540), told from all others. */
  lemma FrameExample()
    ensures HeadBytes(5, Head(HEADERS, END_HEADERS, 3)) == [0, 0, 5, 0x1, 0x4, 0, 0, 0, 3]
    ensures HeadBytes(5, Head(CONTINUATION, 0, 3)) == [0, 0, 5, 0x9, 0, 0, 0, 0, 3]
    ensures EndHeaders(0x04) && !EndHeaders(0xfb) && Has(0x08, PADDED) && !Has(0xf7, PADDED)
      && Has(0x20, PRIORITY) && !Has(0xdf, PRIORITY)
    ensures MoreToCome(0xff) == 0xfb && MoreToCome(0x01) == 0x01
  {
    HeadLayout(5, Head(HEADERS, END_HEADERS, 3));
    HeadLayout(5, Head(CONTINUATION, 0, 3));
  }

  datatype LoadError = MalformedMessage | InvalidDependencyId | TooMuchPadding

  datatype Loaded = Fragment(bytes: Bytes) | Unloadable(error: LoadError)

  /** The header block fragment in a HEADERS payload: without padding and priority (section 6.2 of RFC 7540). */
  function LoadHeaders(head: Head, payload: Bytes): Loaded {
    if Has(head.flag, PADDED) && payload == [] then Unloadable(MalformedMessage)
    else
      var pad, src := if Has(head.flag, PADDED) then payload[0] else 0, if Has(head.flag, PADDED) then payload[1..]
        else payload;
      if Has(head.flag, PRIORITY) && |src| < 5 then Unloadable(MalformedMessage)
      else if Has(head.flag, PRIORITY) && OfBigEndian(src[..4]) % STREAM_ID_MASK == head.streamId then
        Unloadable(InvalidDependencyId)
      else
        var block := if Has(head.flag, PRIORITY) then src[5..] else src;
        if pad > |block| then Unloadable(TooMuchPadding) else Fragment(block[..|block| - pad])
  }

  /** A fragment with what may be put around it: the length of the padding, a priority, and the padding. */
  function Wrapped(flag: Byte, priority: Bytes, fragment: Bytes, padding: Bytes): Bytes
    requires |padding| < 256
  {
    (if Has(flag, PADDED) then [|padding|] else []) + (priority + (fragment + padding))
  }

  /** Padding and priority are undone: whatever is put around a fragment, it loads to the fragment, unless its stream
      is to depend on itself. */
  lemma PaddingIsDropped(flag: Byte, streamId: nat, priority: Bytes, fragment: Bytes, padding: Bytes)
    requires |padding| < 256 && (!Has(flag, PADDED) ==> padding == [])
    requires |priority| == if Has(flag, PRIORITY) then 5 else 0
    ensures LoadHeaders(Head(HEADERS, flag, streamId), Wrapped(flag, priority, fragment, padding)) ==
      if Has(flag, PRIORITY) && OfBigEndian(priority[..4]) % STREAM_ID_MASK == streamId then
        Unloadable(InvalidDependencyId)
      else Fragment(fragment)
  {
    hide Has, OfBigEndian;
    var rest := fragment + padding;
    var src := priority + rest;
    if Has(flag, PADDED) {
      assert ([|padding|] + src)[1..] == src;
    } else {
      assert [] + src == src;
    }
    assert |priority| == 5 ==> src[..4] == priority[..4] && src[5..] == rest;
    assert priority == [] ==> src == rest;
    assert rest[..|rest| - |padding|] == fragment;
  }

  /** And nothing else loads: where a fragment comes out, that is what was put around it. */
  lemma LoadedWasWrapped(head: Head, payload: Bytes) returns (priority: Bytes, padding: Bytes)
    requires LoadHeaders(head, payload).Fragment?
    ensures |padding| < 256 && |priority| == (if Has(head.flag, PRIORITY) then 5 else 0)
      && (!Has(head.flag, PADDED) ==> padding == [])
      && payload == Wrapped(head.flag, priority, LoadHeaders(head, payload).bytes, padding)
  {
    hide Has, OfBigEndian;
    var padded, weighed := Has(head.flag, PADDED), Has(head.flag, PRIORITY);
    var src := if padded then payload[1..] else payload;
    var block := if weighed then src[5..] else src;
    var n := |LoadHeaders(head, payload).bytes|;
    priority, padding := if weighed then src[..5] else [], block[n..];
    assert LoadHeaders(head, payload).bytes == block[..n];
    Rejoined(src, |priority|, n);
    if padded {
      assert [payload[0]] + src == payload && |padding| == payload[0];
    } else {
      assert [] + src == src;
    }
  }

  lemma Rejoined(b: Bytes, m: nat, n: nat)
    requires m + n <= |b|
    ensures b[..m] + (b[m..][..n] + b[m..][n..]) == b && b[0..] == b && b[..0] == []
  {
  }

  // ----- reassembly

  /** A header block of which more frames are to come. */
  datatype PartialBlock = PartialBlock(streamId: nat, headers: seq<Header>, buf: Bytes)

  datatype Received =
    | Waiting
    | Whole(streamId: nat, headers: seq<Header>)
    | Other(head: Head)
    | StreamError(streamId: nat)
    | ConnectionError

  /** What one more fragment of a block makes of it. */
  ghost function Loading(p: PartialBlock, d: Decoding, end: bool): (r: (Received, Option<PartialBlock>))
    ensures r.0.Waiting? <==> r.1.Some?
  {
    if d.outcome.Failed? || (d.outcome.Starved? && end) then (ConnectionError, None)
    else if end then (Whole(p.streamId, p.headers + d.headers), None)
    else (Waiting, Some(PartialBlock(p.streamId, p.headers + d.headers, Left(d.outcome))))
  }

  /** What comes of the fragments of a block, the last of which ends it. */
  ghost function AllLoaded(cfg: Config, ds: DecState, p: PartialBlock, fragments: seq<Bytes>): Received
    requires |cfg.code| == 257 && fragments != []
    decreases |fragments|
  {
    var d := Decode(cfg, ds, p.buf + fragments[0], true);
    var (r, more) := Loading(p, d, |fragments| == 1);
    if r.Waiting? then AllLoaded(cfg, d.state, more.value, fragments[1..]) else r
  }

  /** Whatever fragments come, of this encoder or not: the block is handed out if and only if all of them together
      decode and nothing is left over. Otherwise it is an error of the connection. */
  lemma {:induction false} WholeIfComplete(cfg: Config, ds: DecState, p: PartialBlock, so: Outcome,
                                           fragments: seq<Bytes>)
    requires |cfg.code| == 257 && fragments != [] && !so.Failed? && Left(so) == p.buf
    ensures var d := DecodeParts(cfg, ds, so, fragments);
      AllLoaded(cfg, ds, p, fragments) ==
        if d.outcome == Done then Whole(p.streamId, p.headers + d.headers) else ConnectionError
    decreases |fragments|
  {
    hide Decode, DecodeParts;
    var d := Decode(cfg, ds, p.buf + fragments[0], true);
    PartsUnfold(cfg, ds, so, fragments);
    PartsEnd(cfg, d.state, d.outcome, fragments[1..]);
    if |fragments| > 1 && !d.outcome.Failed? {
      WholeIfComplete(cfg, d.state, PartialBlock(p.streamId, p.headers + d.headers, Left(d.outcome)), d.outcome,
                      fragments[1..]);
      assert forall hs :: p.headers + d.headers + hs == p.headers + (d.headers + hs);
    } else {
      assert d.headers + [] == d.headers;
    }
  }

  class Reader {
    const decoder: D.Decoder
    var partial: Option<PartialBlock>

    ghost predicate Valid()
      reads this, decoder, decoder.table
    {
      decoder.Valid() && decoder.maxSizeUpdate == None
    }

    constructor (decoder: D.Decoder)
      requires decoder.Valid() && decoder.maxSizeUpdate == None
      ensures Valid() && this.decoder == decoder && partial == None
    {
      this.decoder, partial := decoder, None;
    }

    /** Decodes what is there of a block. */
    method Load(p: PartialBlock, end: bool) returns (r: Received)
      requires Valid() && partial == None
      modifies this`partial, decoder, decoder.table
      ensures Valid()
      ensures var d := Decode(decoder.cfg, old(decoder.State()), p.buf, true);
        decoder.State() == d.state && (r, partial) == Loading(p, d, end)
    {
      hide Decode;
      var src := new D.Source(p.buf);
      var headers, ok := decoder.Decode(src);
      if ok.Err? || (ok.OutOfInput? && end) {
        return ConnectionError;
      }
      if end {
        return Whole(p.streamId, p.headers + headers);
      }
      partial := Some(PartialBlock(p.streamId, p.headers + headers, src.data));
      return Waiting;
    }

    /** One frame. While a block is incomplete only its CONTINUATION is admitted. */
    method DecodeFrame(frame: Bytes) returns (r: Received)
      requires Valid() && |frame| >= HEADER_LEN
      modifies this`partial, decoder, decoder.table
      ensures Valid()
      ensures var head, payload, was := ParseHead(frame), frame[HEADER_LEN..], old(partial);
        if head.kind == HEADERS && was.None? then
          match LoadHeaders(head, payload)
          case Unloadable(InvalidDependencyId) => r == StreamError(head.streamId) && Same()
          case Unloadable(_) => r == ConnectionError && Same()
          case Fragment(b) =>
            var d := Decode(decoder.cfg, old(decoder.State()), b, true);
            decoder.State() == d.state
              && (r, partial) == Loading(PartialBlock(head.streamId, [], b), d, EndHeaders(head.flag))
        else if head.kind == CONTINUATION && was.Some? && was.value.streamId == head.streamId then
          var d := Decode(decoder.cfg, old(decoder.State()), was.value.buf + payload, true);
          decoder.State() == d.state && (r, partial) == Loading(was.value, d, EndHeaders(head.flag))
        else if head.kind == CONTINUATION || was.Some? then
          r == ConnectionError && decoder.State() == old(decoder.State())
        else r == Other(head) && Same()
    {
      hide Decode, LoadHeaders;
      var head, payload := ParseHead(frame), frame[HEADER_LEN..];
      if partial.Some? && head.kind != CONTINUATION {
        return ConnectionError;
      }
      if head.kind == HEADERS {
        match LoadHeaders(head, payload)
        case Unloadable(InvalidDependencyId) => return StreamError(head.streamId);
        case Unloadable(_) => return ConnectionError;
        case Fragment(b) => r := Load(PartialBlock(head.streamId, [], b), EndHeaders(head.flag));
      } else if head.kind == CONTINUATION {
        if partial.None? {
          return ConnectionError;
        }
        var p := partial.value;
        partial := None;
        if p.streamId != head.streamId {
          return ConnectionError;
        }
        var buf := if p.buf == [] then payload else p.buf + payload;
        assert buf == p.buf + payload;
        r := Load(p.(buf := buf), EndHeaders(head.flag));
      } else {
        return Other(head);
      }
    }

    twostate predicate Same()
      reads this, decoder, decoder.table
    {
      partial == old(partial) && decoder.State() == old(decoder.State())
    }
  }

  lemma DecoderConfig(decoder: D.Decoder)
    requires decoder.Valid()
    ensures |decoder.cfg.code| == 257
  {
  }

  /** Where the reader stands before frame `i` of a block of which it has `got` headers so far. */
  predicate Between(partial: Option<PartialBlock>, streamId: nat, i: nat, got: seq<Header>, so: Outcome) {
    if i == 0 then partial == None && so == Done && got == []
    else partial == Some(PartialBlock(streamId, got, Left(so)))
  }

  /** Reads frame `i` of a block. */
  method ReceiveOne(reader: Reader, head: Head, i: nat, last: bool, frame: Bytes, ghost payload: Bytes,
                    ghost got: seq<Header>, ghost so: Outcome)
    returns (r: Received)
    requires reader.Valid() && Between(reader.partial, head.streamId, i, got, so)
    requires frame == FrameBytes(BlockHead(HeadAt(head, i), last), payload)
    requires head.kind == HEADERS && head.streamId < STREAM_ID_MASK
    requires EndHeaders(head.flag) && !Has(head.flag, PADDED) && !Has(head.flag, PRIORITY)
    modifies reader`partial, reader.decoder, reader.decoder.table
    ensures reader.Valid()
    ensures var d := Decode(reader.decoder.cfg, old(reader.decoder.State()), Left(so) + payload, true);
      && reader.decoder.State() == d.state
      && (r, reader.partial) == Loading(PartialBlock(head.streamId, got, Left(so) + payload), d, last)
  {
    hide Decode, D.Decoder.Valid, FrameBytes, LoadHeaders, ParseHead, BlockHead, Has;
    ghost var h := BlockHead(HeadAt(head, i), last);
    PlainHead(head, i, last, payload);
    ParseHeadOfFrame(h, payload);
    assert Left(Done) + payload == payload;
    r := reader.DecodeFrame(frame);
  }

  lemma NextPart(cfg: Config, ds: DecState, so: Outcome, parts: seq<Bytes>, got: seq<Header>, whole: Decoding)
    requires |cfg.code| == 257 && !so.Failed? && parts != [] && whole.outcome == Done
    requires var d := DecodeParts(cfg, ds, so, parts); whole == d.(headers := got + d.headers)
    ensures var d := Decode(cfg, ds, Left(so) + parts[0], true);
      var r := DecodeParts(cfg, d.state, d.outcome, parts[1..]);
      && !d.outcome.Failed? && whole == r.(headers := got + d.headers + r.headers)
      && (|parts| == 1 ==> d.outcome == Done)
  {
    hide Decode, DecodeParts;
    PartsUnfold(cfg, ds, so, parts);
    var d := Decode(cfg, ds, Left(so) + parts[0], true);
    var r := DecodeParts(cfg, d.state, d.outcome, parts[1..]);
    PartsEnd(cfg, d.state, d.outcome, parts[1..]);
    assert got + d.headers + r.headers == got + (d.headers + r.headers);
  }

  /** The frames of a block, read one by one: if their payloads decode, the last frame hands out what they
      decode to, and every frame before it asks for more. */
  method ReceiveBlock(reader: Reader, head: Head, frames: seq<Bytes>, ghost payloads: seq<Bytes>, ghost maxLen: nat)
    returns (r: Received)
    requires reader.Valid() && reader.partial == None
    requires frames != [] && FramesSent(head, frames, payloads, false, maxLen)
    requires head.kind == HEADERS && head.streamId < STREAM_ID_MASK
    requires EndHeaders(head.flag) && !Has(head.flag, PADDED) && !Has(head.flag, PRIORITY)
    requires |reader.decoder.cfg.code| == 257
    requires DecodeParts(reader.decoder.cfg, reader.decoder.State(), Done, payloads).outcome == Done
    modifies reader`partial, reader.decoder, reader.decoder.table
    ensures reader.Valid() && reader.partial == None
    ensures var d := old(DecodeParts(reader.decoder.cfg, reader.decoder.State(), Done, payloads));
      r == Whole(head.streamId, d.headers) && reader.decoder.State() == d.state
  {
    hide Decode, DecodeParts, D.Decoder.Valid, FrameBytes, BlockHead, HeadAt, Has, EndHeaders;
    ghost var cfg := reader.decoder.cfg;
    ghost var whole := DecodeParts(cfg, reader.decoder.State(), Done, payloads);
    ghost var so, got, rest: seq<Bytes> := Done, [], payloads;
    assert [] + whole.headers == whole.headers;
    r := Waiting;
    for i := 0 to |frames|
      invariant reader.Valid() && rest == payloads[i..] && !so.Failed?
      invariant var d := DecodeParts(cfg, reader.decoder.State(), so, rest); whole == d.(headers := got + d.headers)
      invariant if i < |frames| then Between(reader.partial, head.streamId, i, got, so)
        else r == Whole(head.streamId, got) && reader.partial == None
    {
      NextPart(cfg, reader.decoder.State(), so, rest, got, whole);
      ghost var d := Decode(cfg, reader.decoder.State(), Left(so) + payloads[i], true);
      r := ReceiveOne(reader, head, i, i == |frames| - 1, frames[i], payloads[i], got, so);
      so, got, rest := d.outcome, got + d.headers, rest[1..];
    }
    PartsEnd(cfg, reader.decoder.State(), so, rest);
  }

  /** The heads of a block's frames carry neither padding nor priority, and tell the last frame. */
  lemma PlainHead(head: Head, i: nat, last: bool, payload: Bytes)
    requires head.kind == HEADERS && EndHeaders(head.flag) && !Has(head.flag, PADDED) && !Has(head.flag, PRIORITY)
    ensures var h := BlockHead(HeadAt(head, i), last);
      && EndHeaders(h.flag) == last && h.streamId == head.streamId
      && h.kind == (if i == 0 then HEADERS else CONTINUATION)
      && LoadHeaders(h, payload) == Fragment(payload)
  {
  }

  lemma PartsUnfold(cfg: Config, ds: DecState, so: Outcome, parts: seq<Bytes>)
    requires |cfg.code| == 257 && !so.Failed? && parts != []
    ensures var d := Decode(cfg, ds, Left(so) + parts[0], true);
      var r := DecodeParts(cfg, d.state, d.outcome, parts[1..]);
      DecodeParts(cfg, ds, so, parts) == r.(headers := d.headers + r.headers)
  {
  }

  /** A failure is final, and so is the end. */
  lemma PartsEnd(cfg: Config, ds: DecState, so: Outcome, parts: seq<Bytes>)
    requires |cfg.code| == 257
    ensures so.Failed? || parts == [] ==> DecodeParts(cfg, ds, so, parts) == Decoding([], ds, so)
  {
  }

  /** From one end to the other: a list of fields written as frames and read back frame by frame is the list,
      and afterwards both ends have the same table. */
  method Exchange(enc: Encoder, reader: Reader, head: Head, fields: seq<Field>, maxLen: nat) returns (r: Received)
    requires enc.Valid() && enc.ToWrite(None, fields).Ok() && enc.ToWrite(None, fields).Fits(maxLen)
    requires EndHeaders(head.flag) && maxLen < 0x100_0000 && |UpdateBytes(enc.sizeUpdate)| <= maxLen
    requires reader.Valid() && reader.partial == None && reader.decoder.cfg == enc.cfg
    requires EncoderOk(enc.State(), reader.decoder.lastMaxUpdate)
    requires reader.decoder.table.entries == enc.table.Entries() && reader.decoder.table.maxSize == enc.table.maxSize
    requires head.kind == HEADERS && head.streamId < STREAM_ID_MASK
    requires !Has(head.flag, PADDED) && !Has(head.flag, PRIORITY)
    modifies enc`sizeUpdate, enc.table, reader`partial, reader.decoder, reader.decoder.table
    ensures enc.Valid() && reader.Valid() && reader.partial == None
    ensures r == Whole(head.streamId, Expected(fields, []))
    ensures reader.decoder.table.entries == enc.table.Entries() && reader.decoder.table.maxSize == enc.table.maxSize
    ensures reader.decoder.lastMaxUpdate == old(reader.decoder.lastMaxUpdate)
  {
    hide Encoder.Valid, Work.Ok, Work.Bytes, Work.Final, Work.Fits, UpdateBytes, Announce, DecodeParts, Expected,
      Decode;
    hide AfterBlock, BlockBytes, FrameBytes, Concat, EncoderOk, ConfigOk, FramesSent, D.Decoder.Valid, Has, BlockOk;
    EncoderConfig(enc);
    DecoderConfig(reader.decoder);
    var frames; ghost var payloads;
    frames, payloads := EncodeBlock(enc, head, fields, maxLen, reader.decoder.lastMaxUpdate);
    r := ReceiveBlock(reader, head, frames, payloads, maxLen);
  }
}
