/** A header block on the wire: one HEADERS frame and as many CONTINUATION frames as it takes (sections 6.2 and
    6.10 of RFC 7540), each within the maximum frame size. */
module HeaderFrames {
  import opened ByteOrder
  import opened Headers
  import opened FifoTable
  import opened Buffers
  import opened HuffmanCode
  import opened HpackTable
  import opened HpackWire
  import opened HpackBlock
  import opened HpackChunks
  import opened HpackEncoder

  const HEADER_LEN: nat := 9
  const HEADERS: Byte := 1
  const CONTINUATION: Byte := 9
  const END_HEADERS: nat := 4

  /** A frame head; `flag` is the flag byte. */
  datatype Head = Head(kind: Byte, flag: Byte, streamId: nat)

  predicate EndHeaders(flag: Byte) {
    flag / END_HEADERS % 2 == 1
  }

  /** The flag byte with END_HEADERS taken off. */
  function MoreToCome(flag: Byte): (f: Byte)
    ensures !EndHeaders(f)
  {
    if EndHeaders(flag) then flag - END_HEADERS else flag
  }

  /** The head of a frame of a header block. */
  function BlockHead(h: Head, last: bool): Head {
    if last then h else h.(flag := MoreToCome(h.flag))
  }

  function HeadBytes(len: nat, h: Head): (b: Bytes)
    ensures |b| == HEADER_LEN
  {
    BigEndian(3, len) + [h.kind, h.flag] + BigEndian(4, h.streamId)
  }

  function FrameBytes(h: Head, payload: Bytes): Bytes {
    HeadBytes(|payload|, h) + payload
  }

  /** Overwrites the length and the flag of a head already written. */
  lemma PatchHead(before: Bytes, h: Head, rest: Bytes, len: nat, flag: Byte)
    ensures var data := before + HeadBytes(0, h) + rest;
      var l := BigEndian(3, len);
      var p := |before|;
      data[p := l[0]][p + 1 := l[1]][p + 2 := l[2]][p + 4 := flag] == before + HeadBytes(len, h.(flag := flag)) + rest
  {
    var data, p, l := before + HeadBytes(0, h) + rest, |before|, BigEndian(3, len);
    var r := data[p := l[0]][p + 1 := l[1]][p + 2 := l[2]][p + 4 := flag];
    var want := before + HeadBytes(len, h.(flag := flag)) + rest;
    assert |r| == |want|;
    forall i | 0 <= i < |r| ensures r[i] == want[i] {
      if p <= i < p + HEADER_LEN {
        assert want[i] == HeadBytes(len, h.(flag := flag))[i - p];
        assert data[i] == HeadBytes(0, h)[i - p];
      }
    }
  }

  /** Writes the true length and flag over a provisional head. */
  method Patch(dst: Dst, headPos: nat, len: nat, flag: Byte, ghost before: Bytes, ghost head: Head,
               ghost payload: Bytes)
    requires dst.data == before + HeadBytes(0, head) + payload && headPos == |before|
    modifies dst`data
    ensures dst.data == before + HeadBytes(len, head.(flag := flag)) + payload
  {
    hide HeadBytes;
    var l := BigEndian(3, len);
    PatchHead(before, head, payload, len, flag);
    dst.Set(headPos, l[0]);
    dst.Set(headPos + 1, l[1]);
    dst.Set(headPos + 2, l[2]);
    dst.Set(headPos + 4, flag);
  }

  /** Writes one frame of a header block: the head with a provisional length, as much of the block as fits, and
      then the true length, with END_HEADERS taken off again if there is more to come. */
  method EncodeFrame(head: Head, enc: Encoder, resume: Option<EncodeState>, fields: seq<Field>, dst: Dst, maxLen: nat)
    returns (more: Option<EncodeState>, rest: seq<Field>, ghost payload: Bytes)
    requires enc.Valid() && enc.ToWrite(resume, fields).Ok() && (resume.Some? ==> enc.sizeUpdate.None?)
    requires EndHeaders(head.flag) && dst.remaining == HEADER_LEN + maxLen && maxLen < 0x100_0000
    requires |UpdateBytes(enc.sizeUpdate)| <= maxLen
    modifies enc`sizeUpdate, enc.table, dst
    ensures enc.Valid() && enc.sizeUpdate == None && enc.table.maxSize == old(Announced(enc.State())).max
    ensures dst.data == old(dst.data) + FrameBytes(BlockHead(head, more.None?), payload)
    ensures Wrought(old(enc.ToWrite(resume, fields)), old(UpdateBytes(enc.sizeUpdate)), payload,
      enc.ToWrite(more, rest), maxLen, maxLen)
  {
    hide Encoder.Valid, Work.Ok, Work.Bytes, Work.Final, Work.Fits, UpdateBytes, Announce, Wrought;
    var headPos := |dst.data|;
    PutSlice(HeadBytes(0, head), dst);
    var payloadPos := |dst.data|;
    var r;
    r, rest := enc.Encode(resume, fields, dst, maxLen);
    more := r.Owed();
    var len := |dst.data| - payloadPos;
    payload := dst.data[payloadPos..];
    assert dst.data == old(dst.data) + HeadBytes(0, head) + payload;
    Patch(dst, headPos, len, BlockHead(head, more.None?).flag, old(dst.data), head, payload);
    assert dst.data == old(dst.data) + FrameBytes(BlockHead(head, more.None?), payload);
  }

  lemma {:induction false} ConcatSnoc(parts: seq<Bytes>, x: Bytes)
    ensures Concat(parts + [x]) == Concat(parts) + x
  {
    if parts == [] {
      assert parts + [x] == [x] && [x][1..] == [];
    } else {
      assert (parts + [x])[1..] == parts[1..] + [x];
      ConcatSnoc(parts[1..], x);
    }
  }

  /** Work not yet begun is a whole block. */
  lemma WorkIsBlock(cfg: Config, s: EncoderState, fields: seq<Field>, w: Work)
    requires w == Work(cfg, Announced(s), None, fields) && w.Ok() && s.pending.None? == (UpdateBytes(s.pending) == [])
    ensures BlockOk(cfg, fields)
    ensures BlockBytes(cfg, s, fields) == UpdateBytes(s.pending) + w.Bytes()
    ensures AfterBlock(cfg, s, fields).entries == w.Final()
    ensures AfterBlock(cfg, s, fields).max == Announced(s).max && AfterBlock(cfg, s, fields).pending == None
  {
    hide FieldOk, Announce, Piece, UpdateBytes;
    NoLast(s);
    StepsKeepMax(cfg, Announced(s), fields);
    assert [] + Pieces(cfg, Announced(s), fields) == Pieces(cfg, Announced(s), fields);
  }

  lemma {:induction false} StepsKeepMax(cfg: Config, e: Enc, fields: seq<Field>)
    ensures Steps(cfg, e, fields).max == e.max
    decreases |fields|
  {
    hide Indexing;
    if fields != [] {
      StepsKeepMax(cfg, Step(cfg, e, fields[0]), fields[1..]);
    }
  }

  lemma UpdateBytesNone(pending: Option<SizeUpdate>)
    ensures pending.None? <==> UpdateBytes(pending) == []
  {
  }

  /** A frame that is not the last carries something: otherwise the source gives up on the block. */
  lemma FrameProgress(w: Work, updates: Bytes, payload: Bytes, w': Work, maxLen: nat)
    requires Wrought(w, updates, payload, w', maxLen, maxLen) && w.Fits(maxLen)
    ensures |payload| <= maxLen && w'.Ok() && w'.Fits(maxLen) && w'.Final() == w.Final()
    ensures updates + w.Bytes() == payload + w'.Bytes()
    ensures w'.owed.Some? ==> payload != []
    ensures w'.owed.None? ==> w'.fields == [] && w'.Bytes() == []
    ensures w.owed.Some? ==> w.Bytes() != []
  {
    hide Pieces, PiecesFit, Steps, OwedBytes, FieldOk, IndexOk;
    if w'.owed.None? {
      NothingLeft(w');
    }
  }

  /** The head of the `i`-th frame of a block. */
  function HeadAt(head: Head, i: nat): Head {
    if i == 0 then head else Head(CONTINUATION, END_HEADERS, head.streamId)
  }

  lemma EncoderConfig(enc: Encoder)
    requires enc.Valid()
    ensures |enc.cfg.code| == 257 && ConfigOk(enc.cfg)
  {
  }

  /** How far the frames of a block have got: `sent` is what they carry, and `more` says whether the last one is
      still to come. */
  predicate FramesSent(head: Head, frames: seq<Bytes>, payloads: seq<Bytes>, more: bool, maxLen: nat) {
    && |frames| == |payloads|
    && forall i :: 0 <= i < |frames| ==>
         && frames[i] == FrameBytes(BlockHead(HeadAt(head, i), !more && i == |frames| - 1), payloads[i])
         && |payloads[i]| <= maxLen
         && (more || i < |frames| - 1 ==> payloads[i] != [])
  }

  lemma OneMoreFrame(head: Head, frames: seq<Bytes>, payloads: seq<Bytes>, more: bool, maxLen: nat, frame: Bytes,
                     payload: Bytes)
    requires FramesSent(head, frames, payloads, true, maxLen)
    requires frame == FrameBytes(BlockHead(HeadAt(head, |frames|), !more), payload)
    requires |payload| <= maxLen && (more ==> payload != [])
    ensures FramesSent(head, frames + [frame], payloads + [payload], more, maxLen)
  {
    hide FrameBytes, BlockHead, HeadAt;
  }

  /** Writes a whole header block as frames: within the maximum length each, together the block, END_HEADERS on
      the last one only, and no frame but the last empty. A decoder fed the payloads one by one ends up with the
      fields and with the encoder's table. */
  method EncodeBlock(enc: Encoder, head: Head, fields: seq<Field>, maxLen: nat, ghost limit: nat)
    returns (frames: seq<Bytes>, ghost payloads: seq<Bytes>)
    requires enc.Valid() && enc.ToWrite(None, fields).Ok() && enc.ToWrite(None, fields).Fits(maxLen)
    requires EndHeaders(head.flag) && maxLen < 0x100_0000 && |UpdateBytes(enc.sizeUpdate)| <= maxLen
    requires EncoderOk(enc.State(), limit)
    modifies enc`sizeUpdate, enc.table
    ensures enc.Valid() && BlockOk(enc.cfg, fields)
    ensures enc.State() == AfterBlock(enc.cfg, old(enc.State()), fields)
    ensures frames != [] && FramesSent(head, frames, payloads, false, maxLen)
    ensures Concat(payloads) == BlockBytes(enc.cfg, old(enc.State()), fields)
    ensures DecodeParts(enc.cfg, old(DecState(enc.table.Entries(), enc.table.maxSize, limit)), Done, payloads) ==
      Decoding(Expected(fields, []), DecState(enc.table.Entries(), enc.table.maxSize, limit), Done)
  {
    hide Encoder.Valid, Work.Ok, Work.Bytes, Work.Final, Work.Fits, UpdateBytes, Announce, Wrought, DecodeParts,
      Expected;
    hide FieldsOk, AfterBlock, BlockBytes, FrameBytes, BlockHead, Concat, EncoderOk, ConfigOk, FramesSent;
    EncoderConfig(enc);
    ghost var cfg, s, w, max := enc.cfg, enc.State(), enc.ToWrite(None, fields), Announced(enc.State()).max;
    UpdateBytesNone(s.pending);
    WorkIsBlock(cfg, s, fields, w);
    ghost var total := BlockBytes(cfg, s, fields);
    var dst := new Dst([], HEADER_LEN + maxLen);
    var more, rest, payload := EncodeFrame(head, enc, None, fields, dst, maxLen);
    ghost var left := enc.ToWrite(more, rest);
    FrameProgress(w, UpdateBytes(s.pending), payload, left, maxLen);
    ConcatSnoc([], payload);
    NoFrames(head, maxLen);
    OneMoreFrame(head, [], [], more.Some?, maxLen, dst.data, payload);
    frames, payloads := [] + [dst.data], [] + [payload];
    UpdateBytesNone(None);
    while more.Some?
      invariant enc.Valid() && enc.sizeUpdate == None && enc.table.maxSize == max
      invariant left == enc.ToWrite(more, rest) && left.Ok() && left.Fits(maxLen) && left.Final() == w.Final()
      invariant Concat(payloads) + left.Bytes() == total
      invariant more.None? ==> rest == [] && left.Bytes() == []
      invariant |frames| > 0 && FramesSent(head, frames, payloads, more.Some?, maxLen)
      decreases |left.Bytes()|
    {
      dst := new Dst([], HEADER_LEN + maxLen);
      ghost var before := left;
      AnnounceNothing(enc.Now(None));
      more, rest, payload := EncodeFrame(Head(CONTINUATION, END_HEADERS, head.streamId), enc, more, rest, dst, maxLen);
      left := enc.ToWrite(more, rest);
      FrameProgress(before, [], payload, left, maxLen);
      ConcatSnoc(payloads, payload);
      assert before.Bytes() == payload + left.Bytes();
      assert Concat(payloads) + before.Bytes() == Concat(payloads + [payload]) + left.Bytes();
      OneMoreFrame(head, frames, payloads, more.Some?, maxLen, dst.data, payload);
      frames, payloads := frames + [dst.data], payloads + [payload];
    }
    AnnounceNothing(enc.Now(None));
    LeftIsTable(left);
    PartsRoundTrip(cfg, s, fields, limit, payloads);
  }

  lemma NoFrames(head: Head, maxLen: nat)
    ensures FramesSent(head, [], [], true, maxLen) && Concat([]) == []
  {
  }

  lemma LeftIsTable(w: Work)
    requires w.Ok() && w.owed.None? && w.fields == []
    ensures w.Final() == w.e.entries
  {
  }
}
