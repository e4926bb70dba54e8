/** The encoder: integers and strings written into a limited buffer, and header lists that may stop in the
    middle when the buffer is full and go on in the next one. */
module HpackEncoder {
  import opened Headers
  import opened FifoTable
  import opened Bits
  import opened Buffers
  import opened HuffmanCode
  import HuffmanCoder
  import opened HpackTable
  import opened HpackWire
  import opened HpackBlock

  // ----- integers

  lemma IntParts(v: nat, prefix: nat, first: nat)
    requires first + Pow2(prefix) <= 256
    ensures var low := Pow2(prefix) - 1;
      IntBytes(v, prefix, first) == if v < low then [first + v] else [first + low] + ContBytes(v - low)
  {
  }

  lemma ContParts(v: nat)
    ensures ContBytes(v) == if v < 128 then [v] else [128 + v % 128] + ContBytes(v / 128)
  {
  }

  /** Writes an integer, or as much of it as there is room for. */
  method EncodeInt(v: nat, prefix: nat, first: nat, dst: Dst) returns (ok: bool)
    requires first + Pow2(prefix) <= 256 && v <= Largest(prefix)
    modifies dst
    ensures ok <==> |IntBytes(v, prefix, first)| <= old(dst.remaining)
    ensures ok ==> dst.data == old(dst.data) + IntBytes(v, prefix, first)
    ensures ok ==> dst.remaining == old(dst.remaining) - |IntBytes(v, prefix, first)|
    ensures !ok ==> old(dst.data) <= dst.data
  {
    hide Pow2, ContBytes, IntBytes;
    IntParts(v, prefix, first);
    var rem: nat, value: nat := dst.remaining, v;
    if rem == 0 {
      return false;
    }
    var low := Pow2(prefix) - 1;
    if value < low {
      dst.Put(first + value);
      return true;
    }
    value := value - low;
    dst.Put(first + low);
    rem := rem - 1;
    ghost var put := [first + low];
    while value >= 128
      invariant rem == dst.remaining && rem + |put| == old(dst.remaining) && dst.data == old(dst.data) + put
      invariant put + ContBytes(value) == IntBytes(v, prefix, first)
    {
      if rem == 0 {
        return false;
      }
      ContParts(value);
      dst.Put(128 + value % 128);
      put := put + [128 + value % 128];
      rem := rem - 1;
      value := value / 128;
    }
    ContParts(value);
    if rem == 0 {
      return false;
    }
    dst.Put(value);
    return true;
  }

  // ----- strings

  /** A coded length of more than one byte is only accepted if one byte more is free than it needs. */
  function StrSlack(t: EncodeTable, s: Bytes): (n: nat)
    requires |t| == 257
    ensures n <= 1 <= |StrBytes(t, s)|
    ensures n == 1 <==> |StrBytes(t, s)| > 1 + |Encoded(t, s)|
  {
    OneByteLength(|Encoded(t, s)|);
    if s == [] || |Encoded(t, s)| < 127 then 0 else 1
  }

  /** Whether a string is accepted by a buffer with `rem` bytes left. */
  predicate StrFits(t: EncodeTable, s: Bytes, rem: nat)
    requires |t| == 257
  {
    |StrBytes(t, s)| + StrSlack(t, s) <= rem
  }

  lemma OneByteLength(len: nat)
    ensures Pow2(7) == 128
    ensures |IntBytes(len, 7, 0x80)| == 1 <==> len < 127
    ensures len < 127 ==> IntBytes(len, 7, 0x80) == [0x80 + len]
  {
    Prefixes();
  }

  /** Writes a string: reserves one byte for the length, codes the string behind it, and if the length turns out
      longer moves the coded string up in place. */
  method EncodeStr(t: EncodeTable, s: Bytes, dst: Dst) returns (ok: bool)
    requires IsCode(t) && StrEncodable(t, s)
    modifies dst
    ensures ok <==> StrFits(t, s, old(dst.remaining))
    ensures ok ==> dst.data == old(dst.data) + StrBytes(t, s)
    ensures ok ==> dst.remaining == old(dst.remaining) - |StrBytes(t, s)|
    ensures !ok ==> old(dst.data) <= dst.data
  {
    hide IsCode, Encoded, IntBytes, Pow2;
    CodeLen(t);
    if dst.remaining == 0 {
      return false;
    }
    if s == [] {
      dst.Put(0);
      return true;
    }
    var idx := |dst.data|;
    dst.Put(0);
    var coded := HuffmanCoder.Encode(t, s, dst);
    if !coded {
      return false;
    }
    ghost var h := Encoded(t, s);
    var huffLen := |dst.data| - (idx + 1);
    OneByteLength(huffLen);
    if huffLen < 127 {
      dst.Set(idx, 0x80 + huffLen);
      assert dst.data == old(dst.data) + ([0x80 + huffLen] + h);
      return true;
    }
    ok := InsertLength(dst, idx, huffLen);
    assert ok ==> dst.data == old(dst.data) + (IntBytes(huffLen, 7, 0x80) + h);
  }

  /** Puts a length of more than one byte in front of what follows the byte reserved for it. */
  method InsertLength(dst: Dst, idx: nat, huffLen: nat) returns (ok: bool)
    requires 0x80 + Pow2(7) <= 256 && 127 <= huffLen <= Largest(7)
    requires |dst.data| == idx + 1 + huffLen
    modifies dst
    ensures var head := IntBytes(huffLen, 7, 0x80);
      && (ok <==> |head| <= old(dst.remaining))
      && (ok ==> dst.data == old(dst.data)[..idx] + head + old(dst.data)[idx + 1..])
      && (ok ==> dst.remaining == old(dst.remaining) - (|head| - 1))
      && (!ok ==> dst.data == old(dst.data))
  {
    hide IntBytes, Pow2;
    var head := new Dst([], 8);
    LengthBytes(huffLen);
    var _ := EncodeInt(huffLen, 7, 0x80, head);
    var headLen := 8 - head.remaining;
    if dst.remaining < headLen {
      return false;
    }
    var buf := head.data;
    PutSlice(buf[1..headLen], dst);
    MoveUp(dst, idx, headLen, huffLen);
    WriteAt(dst, idx, buf);
    return true;
  }

  lemma LengthBytes(len: nat)
    requires 0x80 + Pow2(7) <= 256 && len <= Largest(7)
    ensures |IntBytes(len, 7, 0x80)| <= 5
  {
    Prefixes();
    if len >= 127 {
      FourBytes(len - 127);
    }
  }

  method PutSlice(bs: Bytes, dst: Dst)
    requires |bs| <= dst.remaining
    modifies dst
    ensures dst.data == old(dst.data) + bs && dst.remaining == old(dst.remaining) - |bs|
  {
    for i := 0 to |bs|
      invariant dst.data == old(dst.data) + bs[..i] && dst.remaining == old(dst.remaining) - i
    {
      dst.Put(bs[i]);
    }
  }

  /** Moves `len` bytes from just behind `idx` up to `idx + headLen`, last byte first. */
  method MoveUp(dst: Dst, idx: nat, headLen: nat, len: nat)
    requires 1 <= headLen && idx + headLen + len == |dst.data|
    modifies dst`data
    ensures |dst.data| == old(|dst.data|)
    ensures dst.data[..idx] == old(dst.data)[..idx]
    ensures dst.data[idx + headLen..] == old(dst.data)[idx + 1..idx + 1 + len]
  {
    ghost var was := dst.data;
    for i := 0 to len
      invariant dst.data == was[..idx + headLen + (len - i)] + was[idx + 1 + (len - i)..idx + 1 + len]
    {
      var src := idx + 1 + (len - (i + 1));
      dst.Set(idx + headLen + (len - (i + 1)), dst.data[src]);
    }
  }

  method WriteAt(dst: Dst, idx: nat, bs: Bytes)
    requires idx + |bs| <= |dst.data|
    modifies dst`data
    ensures dst.data == old(dst.data)[..idx] + bs + old(dst.data)[idx + |bs|..]
  {
    ghost var was := dst.data;
    for i := 0 to |bs|
      invariant dst.data == was[..idx] + bs[..i] + was[idx + i..]
    {
      OneMorePut(was, idx, bs, i);
      dst.Set(idx + i, bs[i]);
    }
  }

  lemma OneMorePut(was: Bytes, idx: nat, bs: Bytes, i: nat)
    requires i < |bs| && idx + |bs| <= |was|
    ensures (was[..idx] + bs[..i] + was[idx + i..])[idx + i := bs[i]] == was[..idx] + bs[..i + 1] + was[idx + (i + 1)..]
  {
  }

  // ----- fields

  /** What every writer of some `bytes` promises, which takes `slack` more room than their number: all of them, or
      none that matter exactly if there is less. */
  twostate predicate Wrote(dst: Dst, bytes: Bytes, ok: bool, slack: nat)
    reads dst
  {
    && (ok <==> |bytes| + slack <= old(dst.remaining))
    && (ok ==> dst.data == old(dst.data) + bytes && dst.remaining + |bytes| == old(dst.remaining))
    && (!ok ==> old(dst.data) <= dst.data)
  }

  method EncodeNotIndexed(t: EncodeTable, idx: nat, prefix: nat, flags: nat, value: Bytes, dst: Dst) returns (ok: bool)
    requires IsCode(t) && StrEncodable(t, value) && flags + Pow2(prefix) <= 256 && idx <= Largest(prefix)
    modifies dst
    ensures Wrote(dst, NamedBytes(t, idx, prefix, flags, value), ok, StrSlack(t, value))
  {
    hide IsCode, StrEncodable, IntBytes, StrBytes, Pow2, Encoded;
    CodeLen(t);
    ok := EncodeInt(idx, prefix, flags, dst);
    if ok {
      ok := EncodeStr(t, value, dst);
      assert old(dst.data) + IntBytes(idx, prefix, flags) + StrBytes(t, value) ==
        old(dst.data) + NamedBytes(t, idx, prefix, flags, value);
    }
  }

  method EncodeLiteral(t: EncodeTable, flags: Byte, name: Bytes, value: Bytes, dst: Dst) returns (ok: bool)
    requires IsCode(t) && StrEncodable(t, name) && StrEncodable(t, value)
    modifies dst
    ensures Wrote(dst, LiteralBytes(t, flags, name, value), ok, StrSlack(t, value))
  {
    hide IsCode, StrEncodable, StrBytes, Encoded;
    CodeLen(t);
    if dst.remaining == 0 {
      return false;
    }
    dst.Put(flags);
    ok := EncodeStr(t, name, dst);
    if ok {
      ok := EncodeStr(t, value, dst);
      assert old(dst.data) + [flags] + StrBytes(t, name) + StrBytes(t, value) ==
        old(dst.data) + LiteralBytes(t, flags, name, value);
    }
  }

  // ----- header lists

  /** A field that did not fit: how it was indexed, and its value if it is a nameless one. */
  datatype EncodeState = EncodeState(index: FifoTable.Index, value: Option<(Bytes, bool)>)

  datatype EncodeResult = Full | Partial(state: EncodeState) {
    function Owed(): Option<EncodeState> {
      if Full? then None else Some(state)
    }
  }

  /** The bytes still owed for a field that did not fit. */
  function OwedBytes(cfg: Config, es: Entries, st: EncodeState): (b: Bytes)
    requires |cfg.code| == 257
    requires st.index.Inserted? || st.index.InsertedValue? ==> st.index.slot < |es|
    ensures b != []
  {
    match st.value
    case None => FieldBytes(cfg.code, st.index, es)
    case Some((v, sensitive)) => NamelessBytes(cfg.code, st.index, v, sensitive)
  }

  /** How much more room than its bytes a field asks for. */
  function FieldSlack(t: EncodeTable, i: FifoTable.Index, es: Entries): nat
    requires |t| == 257 && (i.Inserted? || i.InsertedValue? ==> i.slot < |es|)
  {
    match i
    case Indexed(_, _) => 0
    case Name(_, h) => StrSlack(t, h.value)
    case Inserted(slot) => StrSlack(t, es[slot].value)
    case InsertedValue(_, slot) => StrSlack(t, es[slot].value)
    case NotIndexed(h) => StrSlack(t, h.value)
  }

  function OwedSlack(cfg: Config, es: Entries, st: EncodeState): nat
    requires |cfg.code| == 257
    requires st.index.Inserted? || st.index.InsertedValue? ==> st.index.slot < |es|
  {
    match st.value
    case None => FieldSlack(cfg.code, st.index, es)
    case Some((v, _)) => StrSlack(cfg.code, v)
  }

  function PieceSlack(cfg: Config, e: Enc, f: Field): nat
    requires |cfg.code| == 257
  {
    match f
    case Named(h) => var (i, es) := Indexing(cfg, e, h); FieldSlack(cfg.code, i, es)
    case Nameless(v, _) => StrSlack(cfg.code, v)
  }

  /** A field can be written: its index refers to the table, and its strings and numbers are within bounds. */
  predicate IndexOk(cfg: Config, es: Entries, i: FifoTable.Index)
    requires |cfg.code| == 257
  {
    match i
    case Indexed(idx, _) => idx <= Largest(4)
    case Name(idx, h) => idx <= Largest(4) && StrEncodable(cfg.code, h.name) && StrEncodable(cfg.code, h.value)
    case Inserted(slot) => slot == 0 && es != [] && StrEncodable(cfg.code, es[0].name)
      && StrEncodable(cfg.code, es[0].value)
    case InsertedValue(idx, slot) =>
      slot == 0 && es != [] && idx <= Largest(4) && StrEncodable(cfg.code, es[0].name)
        && StrEncodable(cfg.code, es[0].value)
    case NotIndexed(h) => StrEncodable(cfg.code, h.name) && StrEncodable(cfg.code, h.value)
  }

  predicate ResumeOk(cfg: Config, e: Enc, resume: Option<EncodeState>)
    requires |cfg.code| == 257
  {
    resume.Some? ==>
      && IndexOk(cfg, e.entries, resume.value.index)
      && (resume.value.value.Some? ==> StrEncodable(cfg.code, resume.value.value.value.0))
  }

  predicate LastOk(cfg: Config, e: Enc)
    requires |cfg.code| == 257
  {
    e.last.Some? ==> IndexOk(cfg, e.entries, e.last.value)
  }

  /** Everything still to be written: what is owed from before, then the fields, with the table as it is. */
  datatype Work = Work(cfg: Config, e: Enc, owed: Option<EncodeState>, fields: seq<Field>) {
    ghost predicate Ok() {
      && |cfg.code| == 257
      && ResumeOk(cfg, e, owed) && LastOk(cfg, e) && FieldsOk(cfg, fields)
      && Startable(AfterOwed(), fields)
    }

    function AfterOwed(): Enc {
      if owed.Some? then e.(last := Some(owed.value.index)) else e
    }

    ghost function Bytes(): Bytes
      requires Ok()
    {
      (if owed.Some? then OwedBytes(cfg, e.entries, owed.value) else []) + Pieces(cfg, AfterOwed(), fields)
    }

    /** Nothing there is to write asks for more than `room` bytes. */
    ghost predicate Fits(room: nat)
      requires Ok()
    {
      && (owed.Some? ==> |OwedBytes(cfg, e.entries, owed.value)| + OwedSlack(cfg, e.entries, owed.value) <= room)
      && PiecesFit(cfg, AfterOwed(), fields, room)
    }

    /** The table once everything is written. */
    ghost function Final(): Entries {
      Steps(cfg, AfterOwed(), fields).entries
    }
  }

  predicate PiecesFit(cfg: Config, e: Enc, fields: seq<Field>, room: nat)
    requires |cfg.code| == 257 && Startable(e, fields)
    decreases |fields|
  {
    fields == [] ||
      (|Piece(cfg, e, fields[0])| + PieceSlack(cfg, e, fields[0]) <= room
       && PiecesFit(cfg, Step(cfg, e, fields[0]), fields[1..], room))
  }

  /** What a field becomes when it is taken off the list. */
  function Taken(cfg: Config, e: Enc, f: Field): EncodeState
    requires f.Nameless? ==> e.last.Some?
  {
    match f
    case Named(h) => EncodeState(Indexing(cfg, e, h).0, None)
    case Nameless(v, sensitive) => EncodeState(e.last.value, Some((v, sensitive)))
  }

  /** Taking a field off the list makes its bytes owed, and nothing is lost or repeated. */
  lemma TakeField(w: Work, room: nat)
    requires w.Ok() && EncOk(w.e) && w.owed.None? && w.fields != []
    ensures var e', st := Step(w.cfg, w.e, w.fields[0]), Taken(w.cfg, w.e, w.fields[0]);
      var w' := Work(w.cfg, e', Some(st), w.fields[1..]);
      w'.Ok() && w'.Bytes() == w.Bytes() && w'.Final() == w.Final() && e'.last == Some(st.index) && e'.max == w.e.max
        && (w.Fits(room) ==> w'.Fits(room))
  {
    hide StrEncodable, FieldBytes, NamelessBytes, IndexIn, EntriesAfter, Get, EncOk;
    if w.fields[0].Named? {
      EncOkAnyLast(w.e);
      IndexingFinds(w.cfg, w.e, w.fields[0].header);
      IndexBounds();
    }
  }

  /** Once what is owed is written, the rest is still to be. */
  lemma PayOwed(w: Work, room: nat)
    requires w.Ok() && w.owed.Some?
    ensures var w' := Work(w.cfg, w.AfterOwed(), None, w.fields);
      && w'.Ok() && w.Bytes() == OwedBytes(w.cfg, w.e.entries, w.owed.value) + w'.Bytes()
      && w'.Final() == w.Final() && (w.Fits(room) ==> w'.Fits(room))
  {
    hide StrEncodable, OwedBytes, Pieces, FieldOk, PiecesFit;
  }

  /** What a piece of work promises about its parts. */
  lemma WorkParts(w: Work)
    requires w.Ok()
    ensures |w.cfg.code| == 257 && ResumeOk(w.cfg, w.e, w.owed)
    ensures w.owed.None? && w.fields != [] ==> FieldOk(w.cfg, w.fields[0]) && (w.fields[0].Nameless? ==> w.e.last.Some?)
  {
  }

  /** Once something is owed, or nothing is left, the last index no longer matters. */
  lemma ForgetLast(w: Work, room: nat)
    requires w.Ok() && (w.owed.Some? || w.fields == [])
    ensures var w' := Work(w.cfg, w.e.(last := None), w.owed, w.fields);
      w'.Ok() && w'.Bytes() == w.Bytes() && w'.Final() == w.Final() && (w.Fits(room) ==> w'.Fits(room))
  {
    hide IndexOk, FieldOk, OwedBytes;
  }

  lemma EncOkWithLast(e: Enc, last: Option<FifoTable.Index>)
    requires EncOk(e)
    ensures EncOk(e.(last := last))
  {
  }

  /** Two stretches of output joined: updates and paid debt, then more. */
  lemma Joined(before: Bytes, mid: Bytes, after: Bytes, work: Bytes, updates: Bytes, paid: Bytes, left: Bytes)
    requires mid == before + updates + paid && mid <= after && work == paid + (after[|mid|..] + left)
    ensures before <= after && updates + work == after[|before|..] + left
    ensures |after[|before|..]| == |updates| + |paid| + |after[|mid|..]|
  {
    var more := after[|mid|..];
    assert after == mid + more == before + (updates + paid + more);
    assert after[|before|..] == updates + paid + more;
    assert updates + work == updates + paid + more + left;
  }

  lemma NoUpdates()
    ensures UpdateBytes(None) == []
  {
  }

  lemma AnnounceNothing(e: Enc)
    ensures Announce(None, e) == e
  {
  }

  lemma NothingLeft(w: Work)
    requires w.Ok() && w.owed.None? && w.fields == []
    ensures w.Bytes() == [] && w.Final() == w.e.entries
  {
  }

  /** From work `w`, with `updates` to announce, `written` has been written and `w'` is left: nothing is lost or
      repeated, the table ends up the same, and what is owed did not fit into what was free. */
  ghost predicate Wrought(w: Work, updates: Bytes, written: Bytes, w': Work, free: nat, room: nat) {
    && w.Ok() && w'.Ok()
    && w'.Final() == w.Final()
    && updates + w.Bytes() == written + w'.Bytes()
    && |written| <= free
    && (w'.owed.None? ==> w'.fields == [])
    && (w'.owed.Some? ==>
          |written| + |OwedBytes(w'.cfg, w'.e.entries, w'.owed.value)|
            + OwedSlack(w'.cfg, w'.e.entries, w'.owed.value) > free)
    && (w.Fits(room) ==> w'.Fits(room))
  }

  /** Work done after updates were announced and a debt was paid is work done from the start. */
  lemma WroughtAfter(before: Bytes, mid: Bytes, after: Bytes, w: Work, updates: Bytes, paid: Bytes, w1: Work, w': Work,
                     free: nat, room: nat)
    requires w.Ok() && w1.Ok() && w.Bytes() == paid + w1.Bytes() && w1.Final() == w.Final()
      && (w.Fits(room) ==> w1.Fits(room))
    requires mid == before + updates + paid && mid <= after && |updates| + |paid| <= free
    requires Wrought(w1, [], after[|mid|..], w', free - |updates| - |paid|, room)
    ensures before <= after && Wrought(w, updates, after[|before|..], w', free, room)
  {
    hide Work.Ok, Work.Bytes, Work.Final, Work.Fits, OwedBytes, OwedSlack;
    var more := after[|mid|..];
    assert w1.Bytes() == more + w'.Bytes();
    Joined(before, mid, after, w.Bytes(), updates, paid, w'.Bytes());
  }

  /** Nothing of a debt could be paid. */
  lemma WroughtNothing(w: Work, updates: Bytes, free: nat, room: nat)
    requires w.Ok() && w.owed.Some? && |updates| <= free
    requires |OwedBytes(w.cfg, w.e.entries, w.owed.value)|
      + OwedSlack(w.cfg, w.e.entries, w.owed.value) > free - |updates|
    ensures Wrought(w, updates, updates, w, free, room)
  {
    hide Work.Ok, Work.Bytes, Work.Final, Work.Fits, OwedBytes, OwedSlack;
    WorkParts(w);
  }

  class Encoder {
    const cfg: Config
    const table: Table
    var sizeUpdate: Option<SizeUpdate>

    /** The state as the wire sees it. */
    ghost function State(): EncoderState
      reads this, table
    {
      EncoderState(table.Entries(), table.maxSize, sizeUpdate)
    }

    ghost function Now(last: Option<FifoTable.Index>): Enc
      reads this, table
    {
      Enc(table.Entries(), table.maxSize, last)
    }

    ghost predicate Valid()
      reads this, table
    {
      && |cfg.code| == 257 && ConfigOk(cfg)
      && table.Valid() && table.statics == cfg.statics && table.skipped == cfg.skipped
      && EncOk(Now(None))
      && UpdateWithin(sizeUpdate, MAX_TABLE)
    }

    constructor (cfg: Config, hasher: Bytes -> nat, maxSize: nat, capacity: nat)
      requires |cfg.code| == 257 && ConfigOk(cfg) && maxSize <= MAX_TABLE
      ensures Valid() && fresh(table) && this.cfg == cfg && State() == EncoderState([], maxSize, None)
    {
      this.cfg := cfg;
      table := new Table(hasher, cfg.statics, cfg.skipped, maxSize, capacity);
      sizeUpdate := None;
    }

    /** Takes note of a new maximum size, to be announced with the next block. */
    method UpdateMaxSize(val: nat)
      requires Valid() && val <= MAX_TABLE
      modifies this`sizeUpdate
      ensures Valid() && State() == old(State()).(pending := Coalesce(old(sizeUpdate), table.maxSize, val))
    {
      match sizeUpdate
      case Some(One(was)) =>
        if val > was {
          if was > table.maxSize {
            sizeUpdate := Some(One(val));
          } else {
            sizeUpdate := Some(Two(was, val));
          }
        } else {
          sizeUpdate := Some(One(val));
        }
      case Some(Two(min, _)) =>
        if val < min {
          sizeUpdate := Some(One(val));
        } else {
          sizeUpdate := Some(Two(min, val));
        }
      case None =>
        if val != table.maxSize {
          sizeUpdate := Some(One(val));
        }
    }

    /** Announces pending size changes and applies them. The source has no answer to a buffer too small. */
    method EncodeSizeUpdates(dst: Dst)
      requires Valid() && |UpdateBytes(sizeUpdate)| <= dst.remaining
      modifies this`sizeUpdate, table, dst
      ensures Valid() && sizeUpdate == None
      ensures Now(None) == old(Announced(State()))
      ensures Wrote(dst, old(UpdateBytes(sizeUpdate)), true, 0)
    {
      hide ConfigOk, IntBytes, Table.Valid, EncOk, LongestFit;
      ghost var s := State();
      AnnouncedOk(s, MAX_TABLE) by { assert EncoderOk(s, MAX_TABLE); }
      IndexBounds();
      Prefixes();
      var pending := sizeUpdate;
      sizeUpdate := None;
      match pending
      case Some(One(v)) =>
        table.Resize(v);
        var _ := EncodeInt(v, 5, 0x20, dst);
      case Some(Two(min, max)) =>
        table.Resize(min);
        table.Resize(max);
        var _ := EncodeInt(min, 5, 0x20, dst);
        var _ := EncodeInt(max, 5, 0x20, dst);
      case None =>
    }

    method EncodeHeader(index: FifoTable.Index, dst: Dst) returns (ok: bool)
      requires Valid() && IndexOk(cfg, table.Entries(), index)
      modifies dst
      ensures Wrote(dst, FieldBytes(cfg.code, index, table.Entries()), ok, FieldSlack(cfg.code, index, table.Entries()))
      ensures ok ==>
        && |dst.data| > |old(dst.data)|
        && Load(dst.data[|old(dst.data)|]) == Some(
             match index
             case Indexed(_, _) => IndexedField
             case Inserted(_) => LiteralWithIndexing
             case InsertedValue(_, _) => LiteralWithIndexing
             case Name(_, h) => if h.sensitive then LiteralNeverIndexed else LiteralWithoutIndexing
             case NotIndexed(h) => if h.sensitive then LiteralNeverIndexed else LiteralWithoutIndexing)
    {
      FieldKind(cfg.code, index, table.Entries());
      hide IsCode, Table.Valid, EncOk, StrEncodable, IntBytes, LiteralBytes, NamedBytes, Load;
      IndexBounds();
      Prefixes();
      match index
      case Indexed(idx, _) =>
        ok := EncodeInt(idx, 7, 0x80, dst);
      case Name(idx, h) =>
        ok := EncodeNotIndexed(cfg.code, idx, 4, LiteralFlags(h.sensitive), h.value, dst);
      case Inserted(slot) =>
        ok := EncodeLiteral(cfg.code, 0x40, table.slots[slot].header.name, table.slots[slot].header.value, dst);
      case InsertedValue(idx, slot) =>
        ok := EncodeNotIndexed(cfg.code, idx, 6, 0x40, table.slots[slot].header.value, dst);
      case NotIndexed(h) =>
        ok := EncodeLiteral(cfg.code, LiteralFlags(h.sensitive), h.name, h.value, dst);
    }

    method EncodeHeaderWithoutName(last: FifoTable.Index, value: Bytes, sensitive: bool, dst: Dst) returns (ok: bool)
      requires Valid() && IndexOk(cfg, table.Entries(), last) && StrEncodable(cfg.code, value)
      modifies dst
      ensures Wrote(dst, NamelessBytes(cfg.code, last, value, sensitive), ok, StrSlack(cfg.code, value))
      ensures ok ==>
        && |dst.data| > |old(dst.data)|
        && Load(dst.data[|old(dst.data)|]) == Some(if sensitive then LiteralNeverIndexed else LiteralWithoutIndexing)
    {
      NamelessKind(cfg.code, last, value, sensitive);
      hide IsCode, Table.Valid, EncOk, StrEncodable, IntBytes, LiteralBytes, NamedBytes, Load;
      IndexBounds();
      Prefixes();
      match last
      case NotIndexed(h) =>
        ok := EncodeLiteral(cfg.code, LiteralFlags(sensitive), h.name, value, dst);
      case _ =>
        ok := EncodeNotIndexed(cfg.code, ResolveIdx(last), 4, LiteralFlags(sensitive), value, dst);
    }

    method EncodeOwed(st: EncodeState, dst: Dst) returns (ok: bool)
      requires Valid() && ResumeOk(cfg, Now(None), Some(st))
      modifies dst
      ensures Wrote(dst, OwedBytes(cfg, table.Entries(), st), ok, OwedSlack(cfg, table.Entries(), st))
    {
      hide ConfigOk, Table.Valid, EncOk, IndexOk, StrEncodable, NamelessBytes, FieldBytes;
      match st.value
      case Some((value, sensitive)) => ok := EncodeHeaderWithoutName(st.index, value, sensitive, dst);
      case None => ok := EncodeHeader(st.index, dst);
    }

    /** Indexes a field and writes it; if it does not fit, takes back what was written of it. */
    method EncodeField(f: Field, last: Option<FifoTable.Index>, dst: Dst, ghost rest: seq<Field>, ghost room: nat)
      returns (ok: bool, st: EncodeState)
      requires Valid() && sizeUpdate == None && Work(cfg, Now(last), None, [f] + rest).Ok()
      modifies table, dst
      ensures Valid() && table.maxSize == old(table.maxSize)
      ensures var w, owing := old(Work(cfg, Now(last), None, [f] + rest)),
        Work(cfg, Now(Some(st.index)), Some(st), rest);
        owing.Ok() && owing.Bytes() == w.Bytes() && owing.Final() == w.Final()
          && ResumeOk(cfg, Now(None), Some(st)) && (w.Fits(room) ==> owing.Fits(room))
      ensures ok ==> Wrote(dst, OwedBytes(cfg, table.Entries(), st), true, OwedSlack(cfg, table.Entries(), st))
      ensures !ok ==> dst.data == old(dst.data)
      ensures !ok ==> |OwedBytes(cfg, table.Entries(), st)| + OwedSlack(cfg, table.Entries(), st) > old(dst.remaining)
    {
      hide ConfigOk, Table.Valid, EncOk, FieldOk, FieldsOk, OwedBytes, OwedSlack, Pieces, Work.Ok, Work.Bytes,
        Work.Final, Work.Fits;
      ghost var w := Work(cfg, Now(last), None, [f] + rest);
      var pos := |dst.data|;
      WorkParts(w);
      EncOkWithLast(Now(None), last);
      TakeField(w, room);
      assert w.fields[1..] == rest;
      EncOkWithLast(Step(cfg, w.e, f), None) by { EncStaysOk(cfg, w.e, f); }
      match f {
        case Named(h) =>
          var index := table.Index(h);
          st := EncodeState(index, None);
        case Nameless(v, sensitive) =>
          st := EncodeState(last.value, Some((v, sensitive)));
      }
      ghost var owing := Work(cfg, Now(Some(st.index)), Some(st), rest);
      assert owing == Work(cfg, Step(cfg, w.e, f), Some(st), rest);
      WorkParts(owing);
      ok := EncodeOwed(st, dst);
      if !ok {
        dst.Rewind(pos);
      }
    }

    /** What there is to write, once pending size changes are announced. */
    ghost function ToWrite(resume: Option<EncodeState>, fields: seq<Field>): Work
      reads this, table
    {
      Work(cfg, Announced(State()), resume, fields)
    }

    /** Writes field after field until all are written or one does not fit. */
    method EncodeFields(last0: Option<FifoTable.Index>, fields: seq<Field>, dst: Dst, ghost room: nat)
      returns (r: EncodeResult, rest: seq<Field>)
      requires Valid() && sizeUpdate == None && Work(cfg, Now(last0), None, fields).Ok()
      modifies table, dst
      ensures Valid() && table.maxSize == old(table.maxSize)
      ensures old(dst.data) <= dst.data
      ensures Wrought(old(Work(cfg, Now(last0), None, fields)), [], dst.data[|old(dst.data)|..],
        Work(cfg, Now(None), r.Owed(), rest), old(dst.remaining), room)
    {
      hide ConfigOk, Table.Valid, EncOk, FieldOk, FieldsOk, OwedBytes, OwedSlack, Pieces, Work.Ok, Work.Bytes,
        Work.Final, Work.Fits;
      ghost var w := Work(cfg, Now(last0), None, fields);
      WorkParts(w);
      var last := last0;
      rest := fields;
      ghost var todo, written: Bytes := w, [];
      while rest != []
        invariant Valid() && dst.data == old(dst.data) + written && table.maxSize == old(table.maxSize)
        invariant todo == Work(cfg, Now(last), None, rest) && todo.Ok() && todo.Final() == w.Final()
        invariant dst.remaining + |written| == old(dst.remaining)
        invariant w.Bytes() == written + todo.Bytes()
        invariant w.Fits(room) ==> todo.Fits(room)
      {
        assert rest == [rest[0]] + rest[1..];
        var ok, st := EncodeField(rest[0], last, dst, rest[1..], room);
        rest := rest[1..];
        ghost var owing := Work(cfg, Now(Some(st.index)), Some(st), rest);
        if !ok {
          ForgetLast(owing, room);
          return Partial(st), rest;
        }
        PayOwed(owing, room);
        written := written + OwedBytes(cfg, table.Entries(), st);
        last := Some(st.index);
        todo := Work(cfg, Now(last), None, rest);
      }
      ForgetLast(todo, room);
      return Full, rest;
    }

    /** Writes what is owed from before and then field after field, until all are written or one does not fit.
        That one is taken off the list and handed back, having been indexed already but leaving no byte behind.
        What is written and what remains are together what there was to write. */
    method Encode(resume: Option<EncodeState>, fields: seq<Field>, dst: Dst, ghost room: nat)
      returns (r: EncodeResult, rest: seq<Field>)
      requires Valid() && ToWrite(resume, fields).Ok()
      requires |UpdateBytes(sizeUpdate)| <= dst.remaining
      modifies this`sizeUpdate, table, dst
      ensures Valid() && sizeUpdate == None && table.maxSize == old(Announced(State())).max
      ensures old(dst.data) <= dst.data
      ensures Wrought(old(ToWrite(resume, fields)), old(UpdateBytes(sizeUpdate)), dst.data[|old(dst.data)|..],
        ToWrite(r.Owed(), rest), old(dst.remaining), room)
    {
      hide ConfigOk, Table.Valid, EncOk, FieldOk, FieldsOk, OwedBytes, OwedSlack, Pieces, UpdateBytes, Announce;
      hide Wrought, Work.Ok, Work.Bytes, Work.Final, Work.Fits;
      ghost var w, updates := ToWrite(resume, fields), UpdateBytes(sizeUpdate);
      WorkParts(w);
      EncodeSizeUpdates(dst);
      AnnounceNothing(Now(None));
      assert w == ToWrite(resume, fields);
      var last: Option<FifoTable.Index> := None;
      ghost var paid: Bytes, w1 := [], w;
      if resume.Some? {
        var pos := |dst.data|;
        var ok := EncodeOwed(resume.value, dst);
        if !ok {
          dst.Rewind(pos);
          NoUpdates();
          AnnounceNothing(Now(None));
          assert dst.data == old(dst.data) + updates;
          assert dst.data[|old(dst.data)|..] == updates;
          WroughtNothing(w, updates, old(dst.remaining), room);
          return Partial(resume.value), fields;
        }
        last := Some(resume.value.index);
        PayOwed(w, room);
        paid := OwedBytes(cfg, table.Entries(), resume.value);
        w1 := Work(cfg, w.AfterOwed(), None, fields);
      }
      assert w1 == Work(cfg, Now(last), None, fields);
      ghost var mid := dst.data;
      r, rest := EncodeFields(last, fields, dst, room);
      AnnounceNothing(Now(None));
      WroughtAfter(old(dst.data), mid, dst.data, w, updates, paid, w1, Work(cfg, Now(None), r.Owed(), rest),
                   old(dst.remaining), room);
    }
  }
}
