/** Cutting a byte stream into frames by a length field (section 4.1 of RFC 7540 for the frames of HTTP/2), however
    the stream arrives. */
module Framer {
  import opened ByteOrder
  import opened Headers
  import opened HpackChunks
  import H = HeaderFrames
  import R = HeaderReader

  /** How the length of a frame is found. */
  datatype Builder = Builder(maxFrameLen: nat, lengthFieldLen: nat, lengthFieldOffset: nat, lengthAdjustment: int,
                             numSkip: Option<nat>, bigEndian: bool) {
    function NumHeadBytes(): nat {
      var num := lengthFieldOffset + lengthFieldLen;
      if numSkip.Some? && numSkip.value > num then numSkip.value else num
    }

    function GetNumSkip(): (n: nat)
      ensures n <= NumHeadBytes()
    {
      if numSkip.Some? then numSkip.value else lengthFieldOffset + lengthFieldLen
    }

    /** The length field of the head at the front of `b`. */
    function Field(b: Bytes): nat
      requires |b| >= NumHeadBytes()
    {
      var f := b[lengthFieldOffset..lengthFieldOffset + lengthFieldLen];
      if bigEndian then OfBigEndian(f) else OfLittleEndian(f)
    }

    /** Every frame takes at least one byte off the stream. */
    predicate Productive() {
      GetNumSkip() > 0 || lengthAdjustment > 0
    }
  }

  datatype DecodeState = Head | Data(n: nat)

  datatype FrameError = FrameTooBig | LengthUnderflow | BytesRemaining

  /** One attempt to take a frame off the front. */
  datatype Attempt = NeedMore(state: DecodeState, rest: Bytes) | Frame(frame: Bytes,
                                                                       rest: Bytes) | Bad(error: FrameError)

  function TakeData(n: nat, b: Bytes): Attempt {
    if |b| < n then NeedMore(Data(n), b) else Frame(b[..n], b[n..])
  }

  function DecodeOne(cfg: Builder, st: DecodeState, b: Bytes): Attempt {
    match st
    case Data(n) => TakeData(n, b)
    case Head =>
      if |b| < cfg.NumHeadBytes() then NeedMore(Head, b)
      else if cfg.Field(b) > cfg.maxFrameLen then Bad(FrameTooBig)
      else if cfg.Field(b) + cfg.lengthAdjustment < 0 then Bad(LengthUnderflow)
      else TakeData(cfg.Field(b) + cfg.lengthAdjustment, b[cfg.GetNumSkip()..])
  }

  /** All frames a stream holds, the state and bytes left over, and what stopped it if not the end. */
  datatype Framing = Framing(frames: seq<Bytes>, state: DecodeState, rest: Bytes, error: Option<FrameError>)

  function DecodeAll(cfg: Builder, st: DecodeState, b: Bytes): Framing
    requires cfg.Productive()
    decreases |b|, if st.Data? then 1 else 0
  {
    match DecodeOne(cfg, st, b)
    case NeedMore(st', rest) => Framing([], st', rest, None)
    case Bad(e) => Framing([], st, b, Some(e))
    case Frame(f, rest) => var r := DecodeAll(cfg, Head, rest); r.(frames := [f] + r.frames)
  }

  /** What more bytes make of what was framed so far. */
  function Continued(cfg: Builder, d: Framing, more: Bytes): Framing
    requires cfg.Productive()
  {
    if d.error.Some? then d.(rest := d.rest + more)
    else
      var r := DecodeAll(cfg, d.state, d.rest + more); r.(frames := d.frames + r.frames)
  }

  lemma OneMoreCome(cfg: Builder, st: DecodeState, a: Bytes, b: Bytes)
    ensures match DecodeOne(cfg, st, a)
      case NeedMore(st', rest) => DecodeOne(cfg, st', rest + b) == DecodeOne(cfg, st, a + b)
      case Bad(e) => DecodeOne(cfg, st, a + b) == Bad(e)
      case Frame(f, rest) => DecodeOne(cfg, st, a + b) == Frame(f, rest + b)
  {
    if st.Head? && |a| >= cfg.NumHeadBytes() {
      var o, n, k := cfg.lengthFieldOffset, cfg.lengthFieldLen, cfg.GetNumSkip();
      assert (a + b)[o..o + n] == a[o..o + n];
      assert (a + b)[k..] == a[k..] + b;
      if cfg.Field(a) + cfg.lengthAdjustment >= 0 {
        DataMoreCome(cfg.Field(a) + cfg.lengthAdjustment, a[k..], b);
      }
    } else if st.Data? {
      DataMoreCome(st.n, a, b);
    }
  }

  lemma DataMoreCome(n: nat, a: Bytes, b: Bytes)
    ensures n <= |a| ==> TakeData(n, a + b) == Frame(a[..n], a[n..] + b)
  {
    if n <= |a| {
      assert (a + b)[..n] == a[..n] && (a + b)[n..] == a[n..] + b;
    }
  }

  /** Framing does not depend on where the stream is cut. */
  lemma {:induction false} StreamCutAnywhere(cfg: Builder, st: DecodeState, a: Bytes, b: Bytes)
    requires cfg.Productive()
    ensures DecodeAll(cfg, st, a + b) == Continued(cfg, DecodeAll(cfg, st, a), b)
    decreases |a|, if st.Data? then 1 else 0
  {
    hide DecodeOne;
    OneMoreCome(cfg, st, a, b);
    match DecodeOne(cfg, st, a)
    case NeedMore(st', rest) =>
      WaitingIsSame(cfg, st, a);
      if !DecodeOne(cfg, st', rest + b).Bad? {
        SameAttempt(cfg, st', rest + b, st, a + b);
      } else {
        OnlyHeadsAreBad(cfg, st', rest + b);
      }
    case Bad(e) =>
    case Frame(f, rest) =>
      SmallerRest(cfg, st, a);
      StreamCutAnywhere(cfg, Head, rest, b);
      var d := DecodeAll(cfg, Head, rest);
      if d.error.None? {
        var r := DecodeAll(cfg, d.state, d.rest + b);
        assert [f] + (d.frames + r.frames) == [f] + d.frames + r.frames;
      }
  }

  lemma SmallerRest(cfg: Builder, st: DecodeState, b: Bytes)
    requires cfg.Productive() && DecodeOne(cfg, st, b).Frame?
    ensures |DecodeOne(cfg, st, b).rest| < |b| || (st.Data? && |DecodeOne(cfg, st, b).rest| == |b|)
  {
  }

  lemma SameAttempt(cfg: Builder, st: DecodeState, b: Bytes, st': DecodeState, b': Bytes)
    requires cfg.Productive() && DecodeOne(cfg, st, b) == DecodeOne(cfg, st', b') && !DecodeOne(cfg, st, b).Bad?
    ensures DecodeAll(cfg, st, b) == DecodeAll(cfg, st', b')
  {
    hide DecodeOne;
  }

  lemma WaitingIsSame(cfg: Builder, st: DecodeState, b: Bytes)
    requires DecodeOne(cfg, st, b).NeedMore?
    ensures DecodeOne(cfg, st, b).state.Head? ==> st.Head? && DecodeOne(cfg, st, b).rest == b
  {
  }

  lemma OnlyHeadsAreBad(cfg: Builder, st: DecodeState, b: Bytes)
    requires DecodeOne(cfg, st, b).Bad?
    ensures st.Head?
  {
  }

  // ----- the codec and the loop that feeds it

  class LengthDelimitedCodec {
    const builder: Builder
    var state: DecodeState

    constructor (builder: Builder)
      ensures this.builder == builder && state == Head
    {
      this.builder, state := builder, Head;
    }

    /** Reads the head of a frame: how many bytes are to follow what is skipped of it. */
    method DecodeHead(src: Bytes) returns (n: Option<nat>, rest: Bytes, error: Option<FrameError>)
      requires state.Head?
      ensures match DecodeOne(builder, Head, src)
        case Bad(e) => error == Some(e)
        case NeedMore(Head, b) => n == None && rest == b && error == None
        case _ => n.Some? && error == None && DecodeOne(builder, Head, src) == TakeData(n.value, rest)
    {
      var headLen := builder.NumHeadBytes();
      if |src| < headLen {
        return None, src, None;
      }
      var value := builder.Field(src);
      if value > builder.maxFrameLen {
        return None, src, Some(FrameTooBig);
      }
      if value + builder.lengthAdjustment < 0 {
        return None, src, Some(LengthUnderflow);
      }
      n := Some(value + builder.lengthAdjustment);
      var numSkip := builder.GetNumSkip();
      rest := src;
      if numSkip > 0 {
        rest := src[numSkip..];
      }
      assert src[0..] == src;
      return n, rest, None;
    }

    /** Takes one frame off the buffer, if it is all there. */
    method Decode(src: Bytes) returns (frame: Option<Bytes>, rest: Bytes, error: Option<FrameError>)
      modifies this
      ensures match DecodeOne(builder, old(state), src)
        case Bad(e) => error == Some(e) && state == old(state) && rest == src
        case NeedMore(st, b) => frame == None && rest == b && state == st && error == None
        case Frame(f, b) => frame == Some(f) && rest == b && state == Head && error == None
    {
      var n: nat;
      rest := src;
      match state {
        case Head =>
          var len, after, e := DecodeHead(src);
          if e.Some? {
            return None, src, e;
          }
          if len.None? {
            return None, src, None;
          }
          n, rest := len.value, after;
          state := Data(n);
        case Data(len) => n := len;
      }
      if |rest| < n {
        return None, rest, None;
      }
      state := Head;
      return Some(rest[..n]), rest[n..], None;
    }
  }

  /** What one attempt says about all there is. */
  predicate Tells(cfg: Builder, st: DecodeState, b: Bytes, attempt: Attempt)
    requires cfg.Productive()
  {
    match attempt
    case NeedMore(st', rest) =>
      && DecodeAll(cfg, st, b) == Framing([], st', rest, None) == DecodeAll(cfg, st', rest)
      && DecodeOne(cfg, st', rest) == NeedMore(st', rest)
    case Bad(e) => DecodeAll(cfg, st, b) == Framing([], st, b, Some(e))
    case Frame(f, rest) =>
      DecodeAll(cfg, st, b) == DecodeAll(cfg, Head, rest).(frames := [f] + DecodeAll(cfg, Head, rest).frames)
  }

  lemma AttemptTells(cfg: Builder, st: DecodeState, b: Bytes)
    requires cfg.Productive()
    ensures Tells(cfg, st, b, DecodeOne(cfg, st, b))
  {
  }

  /** What the transport has to offer: some bytes, of which none at all means the end of the stream, or nothing yet. */
  datatype Read = Ready(bytes: Bytes) | Pending

  function BytesOf(offers: seq<Read>): Bytes {
    if offers == [] then []
    else BytesOf(offers[..|offers| - 1]) + (if offers[|offers| - 1].Ready? then offers[|offers| - 1].bytes else [])
  }

  lemma NothingRead(offers: seq<Read>)
    ensures BytesOf(offers[..0]) == []
  {
  }

  lemma OneMoreRead(offers: seq<Read>, n: nat)
    requires n < |offers| && offers[n].Ready?
    ensures BytesOf(offers[..n + 1]) == BytesOf(offers[..n]) + offers[n].bytes
  {
    assert offers[..n + 1][..n] == offers[..n];
  }

  datatype Item = Next(frame: Bytes) | Failed(error: FrameError) | NotReady | Finished

  /** What is handed out agrees with `all` there is in the bytes read so far, of which `frames` have been handed
      out: the next frame; or what stops the stream, when nothing is left to hand out; or a wait for the transport;
      or the end, when nothing is left over either. */
  predicate Delivered(item: Item, frames: seq<Bytes>, all: Framing, eof: bool) {
    match item
    case Next(f) => frames < all.frames && f == all.frames[|frames|]
    case Failed(BytesRemaining) => frames == all.frames && eof && all.error.None? && all.rest != []
    case Failed(e) => frames == all.frames && all.error == Some(e)
    case NotReady => frames == all.frames && all.error.None? && !eof
    case Finished => frames == all.frames && all.error.None? && eof && all.rest == []
  }

  /** The frames handed out and what the bytes still held give are what the bytes read give. */
  ghost predicate Kept(cfg: Builder, st: DecodeState, buffer: Bytes, fed: Bytes, frames: seq<Bytes>)
    requires cfg.Productive()
  {
    DecodeAll(cfg, Head, fed) == DecodeAll(cfg, st, buffer).(frames := frames + DecodeAll(cfg, st, buffer).frames)
  }

  /** A failed attempt, or none yet, says that nothing more can be had of what was read. */
  predicate Waits(cfg: Builder, st: DecodeState, buffer: Bytes) {
    DecodeOne(cfg, st, buffer) == NeedMore(st, buffer)
  }

  /** What the reader hands out for an attempt at what it holds. */
  function ItemOf(attempt: Attempt, eof: bool): Item {
    match attempt
    case Bad(e) => Failed(e)
    case Frame(f, _) => Next(f)
    case NeedMore(_, rest) => if !eof then NotReady else if rest == [] then Finished else Failed(BytesRemaining)
  }

  lemma AfterAttempt(cfg: Builder, st: DecodeState, buffer: Bytes, fed: Bytes, frames: seq<Bytes>, eof: bool)
    requires cfg.Productive() && Kept(cfg, st, buffer, fed, frames)
    ensures var a := DecodeOne(cfg, st, buffer);
      && (a.NeedMore? ==> Kept(cfg, a.state, a.rest, fed, frames) && Waits(cfg, a.state, a.rest))
      && (a.Frame? ==> Kept(cfg, Head, a.rest, fed, frames + [a.frame]))
      && Delivered(ItemOf(a, eof), frames, DecodeAll(cfg, Head, fed), eof)
      && (a.Bad? ==> a.error != BytesRemaining)
  {
    AttemptTells(cfg, st, buffer);
    var a := DecodeOne(cfg, st, buffer);
    if a.Frame? {
      var d := DecodeAll(cfg, Head, a.rest);
      assert frames + ([a.frame] + d.frames) == frames + [a.frame] + d.frames;
    } else {
      assert frames + [] == frames;
    }
  }

  lemma Idle(cfg: Builder, st: DecodeState, buffer: Bytes)
    requires Waits(cfg, st, buffer)
    ensures DecodeOne(cfg, st, buffer) == NeedMore(st, buffer)
  {
  }

  lemma AfterRead(cfg: Builder, st: DecodeState, buffer: Bytes, fed: Bytes, frames: seq<Bytes>, bytes: Bytes)
    requires cfg.Productive() && Kept(cfg, st, buffer, fed, frames) && Waits(cfg, st, buffer)
    ensures Kept(cfg, st, buffer + bytes, fed + bytes, frames)
  {
    AttemptTells(cfg, st, buffer);
    StreamCutAnywhere(cfg, Head, fed, bytes);
    assert frames + [] == frames;
  }

  /** A reader of frames: what it has read, and whether it is worth another attempt. */
  class Framed {
    const codec: LengthDelimitedCodec
    var buffer: Bytes
    var eof: bool
    var isReadable: bool
    ghost var fed: Bytes
    ghost var frames: seq<Bytes>

    /** What came out, and what is still in the buffer, is exactly what the bytes read so far hold. */
    ghost predicate Valid()
      reads this, codec
    {
      && codec.builder.Productive()
      && Kept(codec.builder, codec.state, buffer, fed, frames)
      && (eof ==> isReadable)
      && (!isReadable ==> Waits(codec.builder, codec.state, buffer))
    }

    constructor (codec: LengthDelimitedCodec)
      requires codec.builder.Productive() && codec.state == Head && codec.builder.NumHeadBytes() > 0
      ensures Valid() && this.codec == codec && fed == [] && frames == [] && !eof
    {
      this.codec, buffer, eof, isReadable, fed, frames := codec, [], false, false, [], [];
    }

    /** The end of the stream: what is left must be a whole frame, or nothing. */
    method DecodeEof() returns (frame: Option<Bytes>, error: Option<FrameError>)
      modifies this`buffer, codec
      ensures match DecodeOne(codec.builder, old(codec.state), old(buffer))
        case Bad(e) => error == Some(e) && codec.state == old(codec.state) && buffer == old(buffer)
        case NeedMore(st, b) => frame == None && buffer == b && codec.state == st && error == if b == [] then None
          else Some(BytesRemaining)
        case Frame(f, b) => frame == Some(f) && buffer == b && codec.state == Head && error == None
    {
      frame, buffer, error := codec.Decode(buffer);
      if error.None? && frame.None? && buffer != [] {
        error := Some(BytesRemaining);
      }
    }

    /** Decodes and reads until there is a frame, or nothing more to be had for now. */
    method PollNext(offers: seq<Read>) returns (item: Item, used: nat)
      requires Valid()
      modifies this, codec
      ensures Valid() && used <= |offers| && fed == old(fed) + BytesOf(offers[..used])
      ensures Delivered(item, old(frames), DecodeAll(codec.builder, Head, fed), eof)
      ensures item.NotReady? ==> used == |offers| || offers[used].Pending?
      ensures frames == if item.Next? then old(frames) + [item.frame] else old(frames)
    {
      hide DecodeOne, DecodeAll, Kept, Waits, Delivered, BytesOf, Builder.Productive;
      used := 0;
      NothingRead(offers);
      while true
        invariant Valid() && used <= |offers| && fed == old(fed) + BytesOf(offers[..used]) && frames == old(frames)
        decreases |offers| - used
      {
        if isReadable {
          AfterAttempt(codec.builder, codec.state, buffer, fed, frames, eof);
          if eof {
            var frame, error := DecodeEof();
            if error.Some? {
              return Failed(error.value), used;
            }
            if frame.Some? {
              frames := frames + [frame.value];
              return Next(frame.value), used;
            }
            return Finished, used;
          }
          var frame, rest, error := codec.Decode(buffer);
          buffer := rest;
          if error.Some? {
            return Failed(error.value), used;
          }
          if frame.Some? {
            frames := frames + [frame.value];
            return Next(frame.value), used;
          }
          isReadable := false;
        }
        assert !eof;
        if used == |offers| || offers[used].Pending? {
          Idle(codec.builder, codec.state, buffer);
          AfterAttempt(codec.builder, codec.state, buffer, fed, frames, eof);
          return NotReady, used;
        }
        var bytes := offers[used].bytes;
        OneMoreRead(offers, used);
        AfterRead(codec.builder, codec.state, buffer, fed, frames, bytes);
        buffer, fed, used := buffer + bytes, fed + bytes, used + 1;
        if bytes == [] {
          eof := true;
        }
        isReadable := true;
      }
    }
  }

  // ----- frames of HTTP/2

  /** How HTTP/2 is framed: three bytes of length at the front, and nine bytes of head that stay on the frame. */
  function Http2(maxFrameLen: nat): (cfg: Builder)
    ensures cfg.Productive() && cfg.NumHeadBytes() == 3
  {
    Builder(maxFrameLen, 3, 0, H.HEADER_LEN, Some(0), true)
  }

  /** A frame as section 4.1 of RFC 7540 has it: head and payload, as long as its length field says. */
  predicate IsFrame(max: nat, f: Bytes) {
    |f| >= H.HEADER_LEN && |f| == H.HEADER_LEN + OfBigEndian(f[..3]) && |f| <= H.HEADER_LEN + max
  }

  /** The beginning of a frame, or of what is too long for one. */
  predicate Unfinished(max: nat, b: Bytes) {
    |b| >= 3 ==> OfBigEndian(b[..3]) <= max && |b| < H.HEADER_LEN + OfBigEndian(b[..3])
  }

  predicate TooBig(max: nat, b: Bytes) {
    |b| >= 3 && OfBigEndian(b[..3]) > max
  }

  lemma OneFrame(max: nat, b: Bytes)
    ensures match DecodeOne(Http2(max), Head, b)
      case NeedMore(_, rest) => rest == b && Unfinished(max, b)
      case Bad(e) => e == FrameTooBig && TooBig(max, b)
      case Frame(f, rest) => f + rest == b && IsFrame(max, f)
  {
    if |b| >= 3 {
      assert b[0..0 + 3] == b[..3];
      var n := OfBigEndian(b[..3]) + H.HEADER_LEN;
      assert b[0..] == b;
      if |b| >= n {
        assert b[..n][..3] == b[..3] && b[..n] + b[n..] == b;
      }
    }
  }

  /** A stream is its frames and the beginning of one more, unless one is too long: nothing is lost, added or moved. */
  lemma {:induction false} StreamIsFrames(max: nat, b: Bytes)
    ensures var d := DecodeAll(Http2(max), Head, b);
      && Concat(d.frames) + d.rest == b
      && (forall f :: f in d.frames ==> IsFrame(max, f))
      && (if d.error.None? then Unfinished(max, d.rest) else d.error == Some(FrameTooBig) && TooBig(max, d.rest))
    decreases |b|
  {
    hide DecodeOne, IsFrame, Unfinished, TooBig;
    OneFrame(max, b);
    var cfg := Http2(max);
    match DecodeOne(cfg, Head, b)
    case NeedMore(_, _) => assert Concat([]) + b == b;
    case Bad(_) => assert Concat([]) + b == b;
    case Frame(f, rest) =>
      FramesAreNotEmpty(max, f);
      StreamIsFrames(max, rest);
      var d := DecodeAll(cfg, Head, rest);
      assert ([f] + d.frames)[1..] == d.frames;
      assert f + Concat(d.frames) + d.rest == f + (Concat(d.frames) + d.rest);
  }

  lemma FramesAreNotEmpty(max: nat, f: Bytes)
    requires IsFrame(max, f)
    ensures |f| > 0
  {
  }

  lemma FrameComesOff(max: nat, f: Bytes, b: Bytes)
    requires IsFrame(max, f)
    ensures DecodeOne(Http2(max), Head, f + b) == Frame(f, b)
  {
    assert (f + b)[0..0 + 3] == f[..3] && (f + b)[0..] == f + b;
    assert (f + b)[..|f|] == f && (f + b)[|f|..] == b;
  }

  /** Frames put on the stream one after the other come off it as they were. */
  lemma {:induction false} FramesComeBack(max: nat, frames: seq<Bytes>, b: Bytes)
    requires forall f :: f in frames ==> IsFrame(max, f)
    ensures var d := DecodeAll(Http2(max), Head, b);
      DecodeAll(Http2(max), Head, Concat(frames) + b) == d.(frames := frames + d.frames)
  {
    hide DecodeOne, IsFrame;
    var d := DecodeAll(Http2(max), Head, b);
    if frames == [] {
      assert [] + b == b && [] + d.frames == d.frames;
    } else {
      FramesComeBack(max, frames[1..], b);
      var more := Concat(frames[1..]) + b;
      assert Concat(frames) + b == frames[0] + more;
      FrameComesOff(max, frames[0], more);
      assert [frames[0]] + (frames[1..] + d.frames) == frames + d.frames;
    }
  }

  /** The frames of a header block, run together and cut anywhere, are what a reader gets, one by one. */
  lemma BlockComesBack(head: H.Head, frames: seq<Bytes>, payloads: seq<Bytes>, maxLen: nat, max: nat)
    requires H.FramesSent(head, frames, payloads, false, maxLen) && maxLen <= max && maxLen < 0x100_0000
    requires head.streamId < R.STREAM_ID_MASK
    ensures DecodeAll(Http2(max), Head, Concat(frames)) == Framing(frames, Head, [], None)
  {
    forall f | f in frames ensures IsFrame(max, f) {
      var i :| 0 <= i < |frames| && frames[i] == f;
      R.ParseHeadOfFrame(H.BlockHead(H.HeadAt(head, i), i == |frames| - 1), payloads[i]);
    }
    FramesComeBack(max, frames, []);
    assert Concat(frames) + [] == Concat(frames) && frames + [] == frames;
  }

  /** A stream that ends cleanly held whole frames and nothing else. */
  lemma CleanEndIsWhole(max: nat, b: Bytes, frames: seq<Bytes>)
    ensures Delivered(Finished, frames, DecodeAll(Http2(max), Head, b), true) <==>
      Concat(frames) == b && forall f :: f in frames ==> IsFrame(max, f)
  {
    StreamIsFrames(max, b);
    var d := DecodeAll(Http2(max), Head, b);
    assert Concat(d.frames) + [] == Concat(d.frames);
    if Concat(frames) == b && forall f :: f in frames ==> IsFrame(max, f) {
      FramesComeBack(max, frames, []);
      assert Concat(frames) + [] == Concat(frames) && frames + [] == frames;
    }
  }

  // ----- a stream that stops short

  /** A codec that keeps some of the head on the frame, or whose frames never have anything after it. */
  predicate SeesMissingPayload(cfg: Builder) {
    cfg.GetNumSkip() < cfg.NumHeadBytes() || LargestField(cfg) + cfg.lengthAdjustment <= 0
  }

  /** The largest length that is admitted and that the length field can hold. */
  function LargestField(cfg: Builder): nat {
    if Pow256(cfg.lengthFieldLen) <= cfg.maxFrameLen then Pow256(cfg.lengthFieldLen) - 1 else cfg.maxFrameLen
  }

  lemma FieldIsBounded(cfg: Builder, b: Bytes)
    requires |b| >= cfg.NumHeadBytes()
    ensures cfg.Field(b) <= cfg.maxFrameLen ==> cfg.Field(b) <= LargestField(cfg)
  {
    Bounded(b[cfg.lengthFieldOffset..cfg.lengthFieldOffset + cfg.lengthFieldLen]);
  }

  /** For such a codec a stream that ends cleanly does not stop between a head and its payload. */
  lemma {:induction false} MissingPayloadSeen(cfg: Builder, b: Bytes)
    requires cfg.Productive() && SeesMissingPayload(cfg)
    ensures var d := DecodeAll(cfg, Head, b); d.error.None? && d.rest == [] ==> d.state == Head
    decreases |b|
  {
    if |b| >= cfg.NumHeadBytes() {
      FieldIsBounded(cfg, b);
    }
    AttemptTells(cfg, Head, b);
    if DecodeOne(cfg, Head, b).Frame? {
      SmallerRest(cfg, Head, b);
      MissingPayloadSeen(cfg, DecodeOne(cfg, Head, b).rest);
    }
  }

  /** A head that announces as much as it can. */
  function LongestHead(cfg: Builder): (b: Bytes)
    ensures |b| == cfg.NumHeadBytes()
  {
    var o, n := cfg.lengthFieldOffset, cfg.lengthFieldLen;
    seq(o, _ => 0 as Byte)
      + (if cfg.bigEndian then BigEndian(n, LargestField(cfg)) else LittleEndian(n, LargestField(cfg)))
      + seq(cfg.NumHeadBytes() - o - n, _ => 0 as Byte)
  }

  lemma LongestHeadField(cfg: Builder)
    ensures cfg.Field(LongestHead(cfg)) == LargestField(cfg)
  {
    var o, n := cfg.lengthFieldOffset, cfg.lengthFieldLen;
    BigEndianRoundTrip(n, LargestField(cfg));
    LittleEndianRoundTrip(n, LargestField(cfg));
    assert LongestHead(cfg)[o..o + n] == if cfg.bigEndian then BigEndian(n, LargestField(cfg))
      else LittleEndian(n, LargestField(cfg));
  }

  /** Any other codec takes such a head for the clean end of a stream. */
  lemma MissingPayloadUnseen(cfg: Builder)
    requires cfg.Productive() && !SeesMissingPayload(cfg)
    ensures var n: nat := LargestField(cfg) + cfg.lengthAdjustment;
      n > 0 && DecodeAll(cfg, Head, LongestHead(cfg)) == Framing([], Data(n), [], None)
  {
    var b := LongestHead(cfg);
    LongestHeadField(cfg);
    assert b[cfg.GetNumSkip()..] == [];
    AttemptTells(cfg, Head, b);
  }

  /** Just those codecs report every payload that is missing at the end of a stream. */
  lemma MissingPayloadSeenExactly(cfg: Builder)
    requires cfg.Productive()
    ensures SeesMissingPayload(cfg) <==>
      forall b: Bytes :: var d := DecodeAll(cfg, Head, b); Delivered(Finished, d.frames, d, true) ==> d.state == Head
  {
    hide DecodeAll, Builder.Productive, SeesMissingPayload;
    if SeesMissingPayload(cfg) {
      forall b: Bytes
        ensures var d := DecodeAll(cfg, Head, b); Delivered(Finished, d.frames, d, true) ==> d.state == Head {
        MissingPayloadSeen(cfg, b);
      }
    } else {
      MissingPayloadUnseen(cfg);
    }
  }
}
