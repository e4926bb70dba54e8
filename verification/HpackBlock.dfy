/** Header blocks: what the encoder's table and its size updates make of a list of fields, what the decoder
    reads from the result, and that the two stay in step over any run. */
module HpackBlock {
  import opened Headers
  import opened FifoTable
  import opened Bits
  import opened HuffmanCode
  import opened HpackWire

  /** What both sides agree on beforehand, and the names whose values the encoder does not store. */
  datatype Config = Config(code: EncodeTable, statics: StaticTable, skipped: set<Bytes>)

  ghost predicate ConfigOk(cfg: Config) {
    IsCode(cfg.code)
  }

  /** A field to encode; a nameless one repeats the name of the field before it. */
  datatype Field = Named(header: Header) | Nameless(value: Bytes, sensitive: bool)

  /** The largest dynamic table for which every index and size can be written. */
  const MAX_TABLE: nat := 0x0fff_ffff

  // ----- encoding without a limit on the output

  datatype Enc = Enc(entries: Entries, max: nat, last: Option<Index>)

  /** Indexing a header. */
  function Indexing(cfg: Config, e: Enc, h: Header): (r: (Index, Entries))
    ensures r.0.Inserted? || r.0.InsertedValue? ==> r.0.slot == 0 && r.1 != [] && r.1[0] == h
  {
    var statik, skip := IndexStatic(cfg.statics, h), h.name in cfg.skipped;
    (IndexIn(statik, skip, h, e.entries, e.max), EntriesAfter(statik, skip, h, e.entries, e.max))
  }

  function Step(cfg: Config, e: Enc, f: Field): Enc {
    match f
    case Named(h) => var (i, es) := Indexing(cfg, e, h); Enc(es, e.max, Some(i))
    case Nameless(_, _) => e
  }

  /** The bytes of one field. */
  function Piece(cfg: Config, e: Enc, f: Field): (b: Bytes)
    requires |cfg.code| == 257 && (f.Nameless? ==> e.last.Some?)
    ensures b != []
  {
    match f
    case Named(h) => var (i, es) := Indexing(cfg, e, h); FieldBytes(cfg.code, i, es)
    case Nameless(v, sensitive) => NamelessBytes(cfg.code, e.last.value, v, sensitive)
  }

  /** A nameless field needs one before it. */
  predicate Startable(e: Enc, fields: seq<Field>) {
    e.last.Some? || fields == [] || fields[0].Named?
  }

  function Steps(cfg: Config, e: Enc, fields: seq<Field>): Enc
    decreases |fields|
  {
    if fields == [] then e else Steps(cfg, Step(cfg, e, fields[0]), fields[1..])
  }

  /** The bytes of a list of fields. */
  function Pieces(cfg: Config, e: Enc, fields: seq<Field>): Bytes
    requires |cfg.code| == 257 && Startable(e, fields)
    decreases |fields|
  {
    if fields == [] then []
    else Piece(cfg, e, fields[0]) + Pieces(cfg, Step(cfg, e, fields[0]), fields[1..])
  }

  // ----- decoding

  datatype Outcome = Done | Starved(rest: Bytes) | Failed(error: DecoderError)
  datatype Decoding = Decoding(headers: seq<Header>, state: DecState, outcome: Outcome)

  /** Reads representations until the input is used up, runs out within one, or is refused. Size updates are
      admitted only while `can` holds: before the first field. */
  ghost function Decode(cfg: Config, ds: DecState, b: Bytes, can: bool): Decoding
    requires |cfg.code| == 257
    decreases |b|
  {
    if b == [] then Decoding([], ds, Done)
    else
      match ReadItem(cfg.code, cfg.statics, ds, b, can)
      case NeedMore(dropped) => Decoding([], ds, Starved(b[dropped..]))
      case Bad(e) => Decoding([], ds, Failed(e))
      case Got((h, ds'), n) =>
        var d := Decode(cfg, ds', b[n..], can && h.None?);
        d.(headers := (if h.Some? then [h.value] else []) + d.headers)
  }

  /** Whatever bytes come, the table stays within its maximum, and that within the limit; and after the first field the
      maximum stays what it is. */
  lemma {:induction false} DecodeWithinLimit(cfg: Config, ds: DecState, b: Bytes, can: bool)
    requires |cfg.code| == 257 && Total(ds.entries) <= ds.max <= ds.limit
    ensures var s := Decode(cfg, ds, b, can).state;
      Total(s.entries) <= s.max <= s.limit == ds.limit && (!can ==> s.max == ds.max)
    decreases |b|
  {
    hide ReadItem;
    if b != [] {
      var r := ReadItem(cfg.code, cfg.statics, ds, b, can);
      ItemWithinLimit(cfg, ds, b, can);
      if r.Got? {
        DecodeWithinLimit(cfg, r.value.1, b[r.used..], can && r.value.0.None?);
      }
    }
  }

  lemma ItemWithinLimit(cfg: Config, ds: DecState, b: Bytes, can: bool)
    requires |cfg.code| == 257 && b != [] && Total(ds.entries) <= ds.max <= ds.limit
    ensures var r := ReadItem(cfg.code, cfg.statics, ds, b, can);
      r.Got? ==>
        var s := r.value.1;
        && Total(s.entries) <= s.max <= s.limit == ds.limit && (!can ==> s.max == ds.max)
        && (r.value.0.None? ==> can) && (r.value.0.Some? ==> s.max == ds.max)
  {
    hide ReadLiteral, ReadInt, Get, Add, Evict;
    var r := ReadItem(cfg.code, cfg.statics, ds, b, can);
    if r.Got? {
      var s := r.value.1;
      if s.max != ds.max || r.value.0.None? {
        EvictIsLongestFit(ds.entries, s.max);
      } else if r.value.0.Some? {
        AddIsLongestFit(r.value.0.value, ds.entries, ds.max);
      }
    }
  }

  /** The headers a decoder is to report: marks lost, names filled in. */
  function Expected(fields: seq<Field>, name: Bytes): (hs: seq<Header>)
    ensures |hs| == |fields|
  {
    if fields == [] then []
    else
      match fields[0]
      case Named(h) => [Unmarked(h)] + Expected(fields[1..], h.name)
      case Nameless(v, _) => [Header(name, v, false)] + Expected(fields[1..], name)
  }

  // ----- one field

  predicate FieldOk(cfg: Config, f: Field)
    requires |cfg.code| == 257
  {
    match f
    case Named(h) => h.name != [] && StrEncodable(cfg.code, h.name) && StrEncodable(cfg.code, h.value)
    case Nameless(v, _) => StrEncodable(cfg.code, v)
  }

  /** An encoder table as it can be: within bounds, holding no marked header. */
  ghost predicate EncOk(e: Enc) {
    && Total(e.entries) <= e.max <= MAX_TABLE
    && forall i :: 0 <= i < |e.entries| ==> !e.entries[i].sensitive
  }

  /** The last field's index still leads to its name. */
  ghost predicate LastNames(cfg: Config, e: Enc, name: Bytes) {
    e.last.Some? ==>
      if e.last.value.NotIndexed? then
        |cfg.code| == 257 && e.last.value.header.name == name && name != [] && StrEncodable(cfg.code, name)
      else
        var idx := ResolveIdx(e.last.value);
        && 0 < idx <= Largest(4)
        && Get(cfg.statics, e.entries, idx).Some?
        && Get(cfg.statics, e.entries, idx).value.name == name
  }

  lemma {:induction false} CountBound(es: Entries)
    ensures 32 * |es| <= Total(es)
  {
    if es != [] {
      CountBound(es[..|es| - 1]);
    }
  }

  lemma IndexBounds()
    ensures Largest(4) == 15 + MAX_EXCESS && Largest(5) == 31 + MAX_EXCESS
    ensures Largest(6) == 63 + MAX_EXCESS && Largest(7) == 127 + MAX_EXCESS
  {
    Prefixes();
  }

  lemma EncStaysOk(cfg: Config, e: Enc, f: Field)
    requires EncOk(e)
    ensures EncOk(Step(cfg, e, f))
  {
    if f.Named? {
      var h := f.header;
      if h.Len() <= e.max {
        EvictIsLongestFit(e.entries, e.max - h.Len());
        TotalPush(h, Evict(e.entries, e.max - h.Len()));
      }
    }
  }

  function StateOf(e: Enc, limit: nat): DecState {
    DecState(e.entries, e.max, limit)
  }

  /** Indexing finds what it says: the position it answers holds the header, or a header of its name. */
  lemma IndexingFinds(cfg: Config, e: Enc, h: Header)
    requires EncOk(e)
    ensures var (i, es) := Indexing(cfg, e, h);
      match i
      case Indexed(idx, h') => h' == h && Get(cfg.statics, e.entries, idx) == Some(Unmarked(h)) && es == e.entries
        && idx <= Largest(4)
      case Name(idx, h') =>
        && h' == h && es == e.entries && 0 < idx <= Largest(4)
        && Get(cfg.statics, e.entries, idx).Some? && Get(cfg.statics, e.entries, idx).value.name == h.name
      case Inserted(_) => es == Add(e.entries, h, e.max) && !h.sensitive
      case InsertedValue(idx, _) =>
        && es == Add(e.entries, h, e.max) && !h.sensitive && 0 < idx <= Largest(4)
        && Get(cfg.statics, e.entries, idx).Some? && Get(cfg.statics, e.entries, idx).value.name == h.name
      case NotIndexed(h') => h' == h && es == e.entries
  {
    CountBound(e.entries);
    IndexBounds();
  }

  /** A field read back is the field, and reading it changes the table as writing it did. */
  lemma FieldRoundTrip(cfg: Config, e: Enc, h: Header, limit: nat, rest: Bytes, can: bool)
    requires ConfigOk(cfg) && EncOk(e) && |cfg.code| == 257 && FieldOk(cfg, Named(h))
    ensures var b := Piece(cfg, e, Named(h));
      ReadItem(cfg.code, cfg.statics, StateOf(e, limit), b + rest, can) ==
        Got((Some(Unmarked(h)), StateOf(Step(cfg, e, Named(h)), limit)), |b|)
  {
    hide IsCode, IndexIn, EntriesAfter, ReadLiteral, ReadInt, StrEncodable, Get;
    var t, ds := cfg.code, StateOf(e, limit);
    var (i, es) := Indexing(cfg, e, h);
    IndexingFinds(cfg, e, h);
    IndexBounds();
    Prefixes();
    match i
    case Indexed(idx, _) =>
      ReadIndexedOfWritten(t, cfg.statics, ds, idx, Unmarked(h), rest, can);
    case Name(idx, _) =>
      var e' := Get(cfg.statics, e.entries, idx).value;
      NamedStart(t, idx, 4, LiteralFlags(h.sensitive), h.value, rest);
      ReadNamedOfWritten(t, cfg.statics, e.entries, idx, 4, LiteralFlags(h.sensitive), e', h.value, rest);
    case Inserted(_) =>
      LiteralStart(t, 0x40, h.name, h.value, rest);
      ReadFullOfWritten(t, cfg.statics, e.entries, 6, 0x40, h.name, h.value, rest);
    case InsertedValue(idx, _) =>
      var e' := Get(cfg.statics, e.entries, idx).value;
      NamedStart(t, idx, 6, 0x40, h.value, rest);
      ReadNamedOfWritten(t, cfg.statics, e.entries, idx, 6, 0x40, e', h.value, rest);
    case NotIndexed(_) =>
      LiteralStart(t, LiteralFlags(h.sensitive), h.name, h.value, rest);
      ReadFullOfWritten(t, cfg.statics, e.entries, 4, LiteralFlags(h.sensitive), h.name, h.value, rest);
  }

  lemma NamedStart(t: EncodeTable, idx: nat, prefix: nat, flags: nat, value: Bytes, rest: Bytes)
    requires |t| == 257 && 1 <= prefix && flags + Pow2(prefix) <= 256
    ensures flags <= (NamedBytes(t, idx, prefix, flags, value) + rest)[0] < flags + Pow2(prefix)
  {
    IntStart(idx, prefix, flags, StrBytes(t, value) + rest);
  }

  lemma LiteralStart(t: EncodeTable, flags: Byte, name: Bytes, value: Bytes, rest: Bytes)
    requires |t| == 257
    ensures (LiteralBytes(t, flags, name, value) + rest)[0] == flags
  {
  }

  lemma NamelessRoundTrip(cfg: Config, e: Enc, v: Bytes, sensitive: bool, name: Bytes, limit: nat, rest: Bytes,
                          can: bool)
    requires ConfigOk(cfg) && |cfg.code| == 257 && FieldOk(cfg, Nameless(v, sensitive))
    requires e.last.Some? && LastNames(cfg, e, name)
    ensures var b := Piece(cfg, e, Nameless(v, sensitive));
      ReadItem(cfg.code, cfg.statics, StateOf(e, limit), b + rest, can) ==
        Got((Some(Header(name, v, false)), StateOf(e, limit)), |b|)
  {
    hide IsCode, ReadLiteral, ReadInt, StrEncodable, Get;
    var t, flags := cfg.code, LiteralFlags(sensitive);
    Prefixes();
    if e.last.value.NotIndexed? {
      LiteralStart(t, flags, name, v, rest);
      ReadFullOfWritten(t, cfg.statics, e.entries, 4, flags, name, v, rest);
    } else {
      var idx := ResolveIdx(e.last.value);
      NamedStart(t, idx, 4, flags, v, rest);
      ReadNamedOfWritten(t, cfg.statics, e.entries, idx, 4, flags, Get(cfg.statics, e.entries, idx).value, v, rest);
    }
  }

  /** After a named field, its index leads to its name in the table as it then is. */
  lemma StepNames(cfg: Config, e: Enc, h: Header)
    requires EncOk(e) && |cfg.code| == 257 && FieldOk(cfg, Named(h))
    ensures LastNames(cfg, Step(cfg, e, Named(h)), h.name)
  {
    hide IndexIn, EntriesAfter, StrEncodable;
    IndexingFinds(cfg, e, h);
    IndexBounds();
  }

  // ----- a list of fields

  ghost predicate FieldsOk(cfg: Config, fields: seq<Field>)
    requires |cfg.code| == 257
  {
    forall i :: 0 <= i < |fields| ==> FieldOk(cfg, fields[i])
  }

  /** Decoding the bytes of a list of fields reports the fields and leaves the table the encoder has. */
  lemma {:induction false} FieldsRoundTrip(cfg: Config, e: Enc, fields: seq<Field>, name: Bytes, limit: nat, can: bool)
    requires ConfigOk(cfg) && EncOk(e) && |cfg.code| == 257 && FieldsOk(cfg, fields)
    requires Startable(e, fields) && LastNames(cfg, e, name)
    ensures Decode(cfg, StateOf(e, limit), Pieces(cfg, e, fields), can) ==
      Decoding(Expected(fields, name), StateOf(Steps(cfg, e, fields), limit), Done)
    decreases |fields|
  {
    hide ConfigOk, ReadItem, Indexing, LastNames, EncOk, FieldOk, Piece;
    if fields != [] {
      var f := fields[0];
      var e', b := Step(cfg, e, f), Piece(cfg, e, f);
      var rest := Pieces(cfg, e', fields[1..]);
      EncStaysOk(cfg, e, f);
      match f {
        case Named(h) =>
          FieldRoundTrip(cfg, e, h, limit, rest, can);
          StepNames(cfg, e, h);
          FieldsRoundTrip(cfg, e', fields[1..], h.name, limit, false);
        case Nameless(v, s) =>
          NamelessRoundTrip(cfg, e, v, s, name, limit, rest, can);
          FieldsRoundTrip(cfg, e', fields[1..], name, limit, false);
      }
      assert (b + rest)[|b|..] == rest;
    }
  }

  // ----- size updates

  /** Changes of the maximum size not yet announced. */
  datatype SizeUpdate = One(size: nat) | Two(min: nat, max: nat)

  /** Takes one more change into account, as `update_max_size` does. */
  function Coalesce(pending: Option<SizeUpdate>, tableMax: nat, val: nat): Option<SizeUpdate> {
    match pending
    case Some(One(was)) =>
      if val > was then
        if was > tableMax then Some(One(val)) else Some(Two(was, val))
      else Some(One(val))
    case Some(Two(min, _)) => if val < min then Some(One(val)) else Some(Two(min, val))
    case None => if val != tableMax then Some(One(val)) else None
  }

  function CoalesceAll(pending: Option<SizeUpdate>, tableMax: nat, vals: seq<nat>): Option<SizeUpdate> {
    if vals == [] then pending
    else Coalesce(CoalesceAll(pending, tableMax, vals[..|vals| - 1]), tableMax, vals[|vals| - 1])
  }

  /** What announcing the changes does to a table. */
  function Announce(pending: Option<SizeUpdate>, e: Enc): Enc {
    match pending
    case None => e
    case Some(One(v)) => e.(entries := Evict(e.entries, v), max := v)
    case Some(Two(a, b)) => e.(entries := Evict(Evict(e.entries, a), b), max := b)
  }

  /** What applying every change at once, as it comes, would have done. */
  function ResizeAll(e: Enc, vals: seq<nat>): Enc {
    if vals == [] then e
    else
      var e' := ResizeAll(e, vals[..|vals| - 1]);
      e'.(entries := Evict(e'.entries, vals[|vals| - 1]), max := vals[|vals| - 1])
  }

  /** The least size asked for, and the last. */
  function Least(vals: seq<nat>): nat
    requires vals != []
  {
    if |vals| == 1 then vals[0]
    else
      var m := Least(vals[..|vals| - 1]); if vals[|vals| - 1] < m then vals[|vals| - 1] else m
  }

  /** Section 4.2 of RFC 7541: of several changes the smallest must be announced, if it is below the size in
      force, and then the last. That is what coalescing leaves, but for a change back to the size in force. */
  lemma {:induction false} CoalesceAnnouncesLeastAndLast(tableMax: nat, vals: seq<nat>)
    requires vals != []
    ensures var last, least := vals[|vals| - 1], Least(vals);
      match CoalesceAll(None, tableMax, vals)
      case None => forall i :: 0 <= i < |vals| ==> vals[i] == tableMax
      case Some(One(v)) => v == last && (least == last || least >= tableMax)
      case Some(Two(a, b)) => a == least && b == last && least <= tableMax
  {
    var front := vals[..|vals| - 1];
    if front != [] {
      CoalesceAnnouncesLeastAndLast(tableMax, front);
      if CoalesceAll(None, tableMax, front).None? {
        LeastOfEqual(front, tableMax);
      }
    } else {
      assert CoalesceAll(None, tableMax, front) == None;
    }
  }

  lemma {:induction false} LeastOfEqual(vals: seq<nat>, x: nat)
    requires vals != [] && forall i :: 0 <= i < |vals| ==> vals[i] == x
    ensures Least(vals) == x
  {
    if |vals| > 1 {
      LeastOfEqual(vals[..|vals| - 1], x);
    }
  }

  /** Announcing the coalesced changes leaves the table that applying each change as it came would have left. */
  lemma {:induction false} CoalescingIsResizing(e: Enc, vals: seq<nat>)
    requires Total(e.entries) <= e.max
    ensures Announce(CoalesceAll(None, e.max, vals), e) == ResizeAll(e, vals)
  {
    if vals != [] {
      ResizedToLeast(e, vals);
      CoalesceAnnouncesLeastAndLast(e.max, vals);
      var least, last := Least(vals), vals[|vals| - 1];
      LeastBelowLast(vals);
      EvictTwice(e.entries, least, last);
      if CoalesceAll(None, e.max, vals).None? {
        LeastOfEqual(vals, e.max);
      }
    }
  }

  lemma LeastBelowLast(vals: seq<nat>)
    requires vals != []
    ensures Least(vals) <= vals[|vals| - 1]
  {
  }

  lemma {:induction false} ResizedToLeast(e: Enc, vals: seq<nat>)
    requires vals != []
    ensures ResizeAll(e, vals) == e.(entries := Evict(e.entries, Least(vals)), max := vals[|vals| - 1])
  {
    var front := vals[..|vals| - 1];
    if front != [] {
      ResizedToLeast(e, front);
      EvictTwice(e.entries, Least(front), vals[|vals| - 1]);
    } else {
      assert ResizeAll(e, front) == e;
    }
  }

  /** The bytes that announce pending changes. */
  function UpdateBytes(pending: Option<SizeUpdate>): Bytes {
    match pending
    case None => []
    case Some(One(v)) => SizeUpdateBytes(v)
    case Some(Two(a, b)) => SizeUpdateBytes(a) + SizeUpdateBytes(b)
  }

  predicate UpdateWithin(pending: Option<SizeUpdate>, limit: nat) {
    match pending
    case None => true
    case Some(One(v)) => v <= limit
    case Some(Two(a, b)) => a <= limit && b <= limit
  }

  /** The decoder's answer when the first representation is read and the rest decoded after it. */
  lemma DecodeFirst(cfg: Config, ds: DecState, b: Bytes, rest: Bytes, can: bool, h: Option<Header>, ds': DecState)
    requires |cfg.code| == 257 && b != []
    requires ReadItem(cfg.code, cfg.statics, ds, b + rest, can) == Got((h, ds'), |b|)
    ensures var d := Decode(cfg, ds', rest, can && h.None?);
      Decode(cfg, ds, b + rest, can) == d.(headers := (if h.Some? then [h.value] else []) + d.headers)
  {
    assert (b + rest)[|b|..] == rest;
  }

  lemma AnnounceRoundTrip(cfg: Config, e: Enc, pending: Option<SizeUpdate>, limit: nat, rest: Bytes)
    requires |cfg.code| == 257 && UpdateWithin(pending, limit) && limit <= MAX_TABLE
    ensures Decode(cfg, StateOf(e, limit), UpdateBytes(pending) + rest, true) ==
      Decode(cfg, StateOf(Announce(pending, e), limit), rest, true)
  {
    hide ReadItem, SizeUpdateBytes, Evict;
    IndexBounds();
    var ds := StateOf(e, limit);
    match pending
    case None => assert UpdateBytes(pending) + rest == rest;
    case Some(One(v)) =>
      ReadSizeOfWritten(cfg.code, cfg.statics, ds, v, rest);
      DecodeFirst(cfg, ds, SizeUpdateBytes(v), rest, true, None, StateOf(Announce(pending, e), limit));
    case Some(Two(a, b)) =>
      var mid := StateOf(Announce(Some(One(a)), e), limit);
      var tail := SizeUpdateBytes(b) + rest;
      ReadSizeOfWritten(cfg.code, cfg.statics, ds, a, tail);
      DecodeFirst(cfg, ds, SizeUpdateBytes(a), tail, true, None, mid);
      ReadSizeOfWritten(cfg.code, cfg.statics, mid, b, rest);
      DecodeFirst(cfg, mid, SizeUpdateBytes(b), rest, true, None, StateOf(Announce(pending, e), limit));
      assert UpdateBytes(pending) + rest == SizeUpdateBytes(a) + tail;
  }

  // ----- a header block, and a run of them

  datatype EncoderState = EncoderState(entries: Entries, max: nat, pending: Option<SizeUpdate>)

  /** The table a block's fields start from. */
  function Announced(s: EncoderState): Enc {
    Announce(s.pending, Enc(s.entries, s.max, None))
  }

  function BlockBytes(cfg: Config, s: EncoderState, fields: seq<Field>): Bytes
    requires |cfg.code| == 257 && (fields == [] || fields[0].Named?)
  {
    UpdateBytes(s.pending) + Pieces(cfg, Announced(s), fields)
  }

  function AfterBlock(cfg: Config, s: EncoderState, fields: seq<Field>): EncoderState {
    var e := Steps(cfg, Announced(s), fields); EncoderState(e.entries, e.max, None)
  }

  ghost predicate EncoderOk(s: EncoderState, limit: nat) {
    EncOk(Enc(s.entries, s.max, None)) && UpdateWithin(s.pending, limit) && limit <= MAX_TABLE
  }

  ghost predicate BlockOk(cfg: Config, fields: seq<Field>)
    requires |cfg.code| == 257
  {
    FieldsOk(cfg, fields) && (fields == [] || fields[0].Named?)
  }

  lemma AnnouncedOk(s: EncoderState, limit: nat)
    requires EncoderOk(s, limit)
    ensures EncOk(Announced(s))
  {
    match s.pending
    case None =>
    case Some(One(v)) => EvictIsLongestFit(s.entries, v);
    case Some(Two(a, b)) =>
      EvictIsLongestFit(s.entries, a);
      EvictIsLongestFit(Evict(s.entries, a), b);
  }

  lemma {:induction false} StepsStayOk(cfg: Config, e: Enc, fields: seq<Field>)
    requires EncOk(e)
    ensures EncOk(Steps(cfg, e, fields)) && Steps(cfg, e, fields).max == e.max
    decreases |fields|
  {
    if fields != [] {
      EncStaysOk(cfg, e, fields[0]);
      StepsStayOk(cfg, Step(cfg, e, fields[0]), fields[1..]);
    }
  }

  /** A block decodes to its fields, and leaves decoder and encoder with the same table. */
  lemma BlockRoundTrip(cfg: Config, s: EncoderState, fields: seq<Field>, limit: nat)
    requires ConfigOk(cfg) && |cfg.code| == 257 && EncoderOk(s, limit) && BlockOk(cfg, fields)
    ensures var s' := AfterBlock(cfg, s, fields);
      && Decode(cfg, DecState(s.entries, s.max, limit), BlockBytes(cfg, s, fields), true) ==
           Decoding(Expected(fields, []), DecState(s'.entries, s'.max, limit), Done)
      && EncoderOk(s', limit)
  {
    hide ConfigOk, EncOk, FieldOk, FieldsOk, Announce;
    var e := Announced(s);
    AnnouncedOk(s, limit);
    AnnounceRoundTrip(cfg, Enc(s.entries, s.max, None), s.pending, limit, Pieces(cfg, e, fields));
    NoLast(s);
    FieldsRoundTrip(cfg, e, fields, [], limit, true) by { assert LastNames(cfg, e, []); }
    StepsStayOk(cfg, e, fields);
    EncOkAnyLast(Steps(cfg, e, fields));
  }

  lemma NoLast(s: EncoderState)
    ensures Announced(s).last.None?
  {
  }

  lemma EncOkAnyLast(e: Enc)
    requires EncOk(e)
    ensures EncOk(Enc(e.entries, e.max, None))
  {
  }

  /** What happens to a connection's header coding: a new maximum size, or a block. */
  datatype Op = SetMax(val: nat) | Block(fields: seq<Field>)

  function EncodedOp(cfg: Config, s: EncoderState, op: Op): EncoderState {
    match op
    case SetMax(v) => s.(pending := Coalesce(s.pending, s.max, v))
    case Block(fields) => AfterBlock(cfg, s, fields)
  }

  function EncodedRun(cfg: Config, s: EncoderState, ops: seq<Op>): EncoderState {
    if ops == [] then s else EncodedOp(cfg, EncodedRun(cfg, s, ops[..|ops| - 1]), ops[|ops| - 1])
  }

  ghost predicate OpOk(cfg: Config, limit: nat, op: Op)
    requires |cfg.code| == 257
  {
    match op
    case SetMax(v) => v <= limit
    case Block(fields) => BlockOk(cfg, fields)
  }

  predicate RunStartable(ops: seq<Op>) {
    forall i :: 0 <= i < |ops| && ops[i].Block? ==> ops[i].fields == [] || ops[i].fields[0].Named?
  }

  /** A decoder that is fed every block as it is written: its state after the run, and what it reported. */
  ghost function DecodedRun(cfg: Config, s: EncoderState, ds: DecState, ops: seq<Op>): (DecState, seq<Decoding>)
    requires |cfg.code| == 257
    requires RunStartable(ops)
  {
    if ops == [] then (ds, [])
    else
      var front, op := ops[..|ops| - 1], ops[|ops| - 1];
      var (ds', reports) := DecodedRun(cfg, s, ds, front);
      match op
      case SetMax(_) => (ds', reports)
      case Block(fields) =>
        var d := Decode(cfg, ds', BlockBytes(cfg, EncodedRun(cfg, s, front), fields), true);
        (d.state, reports + [d])
  }

  /** The field lists of the blocks in a run. */
  function Blocks(ops: seq<Op>): seq<seq<Field>> {
    if ops == [] then []
    else
      match ops[|ops| - 1]
      case SetMax(_) => Blocks(ops[..|ops| - 1])
      case Block(fields) => Blocks(ops[..|ops| - 1]) + [fields]
  }

  /** Over every run of blocks and size changes within the decoder's limit, each block decodes to its fields,
      and after every step the decoder holds the encoder's entries and maximum size. */
  lemma {:induction false} RunRoundTrip(cfg: Config, s: EncoderState, ds: DecState, ops: seq<Op>)
    requires ConfigOk(cfg) && |cfg.code| == 257 && EncoderOk(s, ds.limit)
    requires ds.entries == s.entries && ds.max == s.max
    requires RunStartable(ops) && forall i :: 0 <= i < |ops| ==> OpOk(cfg, ds.limit, ops[i])
    ensures var s', (ds', reports) := EncodedRun(cfg, s, ops), DecodedRun(cfg, s, ds, ops);
      && ds' == DecState(s'.entries, s'.max, ds.limit)
      && |reports| == |Blocks(ops)|
      && (forall k :: 0 <= k < |reports| ==>
            reports[k].outcome == Done && reports[k].headers == Expected(Blocks(ops)[k], []))
      && EncoderOk(s', ds.limit)
  {
    hide ConfigOk, EncOk, FieldsOk, Decode, BlockBytes, AfterBlock, Expected;
    if ops != [] {
      var front, op := ops[..|ops| - 1], ops[|ops| - 1];
      RunRoundTrip(cfg, s, ds, front);
      var mid := EncodedRun(cfg, s, front);
      assert OpOk(cfg, ds.limit, op);
      match op {
        case SetMax(v) =>
        case Block(fields) => BlockRoundTrip(cfg, mid, fields, ds.limit);
      }
    }
  }

  /** What a field looks like on the wire. A sensitive one goes by the index of an entry equal to it or as a literal
      nobody may index; another one by index, or as a literal that enters both tables or neither. */
  lemma PieceKind(cfg: Config, e: Enc, f: Field)
    requires |cfg.code| == 257 && (f.Nameless? ==> e.last.Some?)
    ensures var kind := Load(Piece(cfg, e, f)[0]);
      match f
      case Nameless(_, sensitive) => kind == Some(if sensitive then LiteralNeverIndexed else LiteralWithoutIndexing)
      case Named(h) =>
        && (h.sensitive ==> kind == Some(IndexedField) || kind == Some(LiteralNeverIndexed))
        && (!h.sensitive ==> kind != Some(LiteralNeverIndexed) && kind != Some(SizeUpdateItem))
        && (kind == Some(LiteralWithIndexing) ==> Step(cfg, e, f).entries == Add(e.entries, h, e.max))
        && (kind != Some(LiteralWithIndexing) ==> Step(cfg, e, f).entries == e.entries)
  {
    hide FieldBytes, NamelessBytes, FindEqual, FindName, Load, Add, IndexStatic;
    match f
    case Nameless(v, sensitive) => NamelessKind(cfg.code, e.last.value, v, sensitive);
    case Named(h) =>
      var (i, es) := Indexing(cfg, e, h);
      FieldKind(cfg.code, i, es);
  }

  // ----- what may be in the table

  lemma StepStaysWorthy(cfg: Config, e: Enc, f: Field)
    requires AllWorthy(cfg.statics, cfg.skipped, e.entries)
    ensures AllWorthy(cfg.statics, cfg.skipped, Step(cfg, e, f).entries)
  {
    hide Answers, ListAfter, AllWorthy;
    if f.Named? {
      var (i, es) := Indexing(cfg, e, f.header);
      AnswersAre(cfg.statics, cfg.skipped, f.header, e.entries, e.max);
      StaysWorthy(cfg.statics, cfg.skipped, f.header, e.entries, e.max, i, es);
    }
  }

  lemma {:induction false} StepsStayWorthy(cfg: Config, e: Enc, fields: seq<Field>)
    requires AllWorthy(cfg.statics, cfg.skipped, e.entries)
    ensures AllWorthy(cfg.statics, cfg.skipped, Steps(cfg, e, fields).entries)
    decreases |fields|
  {
    hide AllWorthy, Step;
    if fields != [] {
      StepStaysWorthy(cfg, e, fields[0]);
      StepsStayWorthy(cfg, Step(cfg, e, fields[0]), fields[1..]);
    }
  }

  lemma EvictStaysWorthy(cfg: Config, es: Entries, max: nat)
    requires AllWorthy(cfg.statics, cfg.skipped, es)
    ensures AllWorthy(cfg.statics, cfg.skipped, Evict(es, max))
  {
    hide Worthy;
    EvictIsLongestFit(es, max);
  }

  lemma AnnouncedStaysWorthy(cfg: Config, s: EncoderState)
    requires AllWorthy(cfg.statics, cfg.skipped, s.entries)
    ensures AllWorthy(cfg.statics, cfg.skipped, Announced(s).entries)
  {
    hide AllWorthy, Evict;
    match s.pending
    case None =>
    case Some(One(v)) => EvictStaysWorthy(cfg, s.entries, v);
    case Some(Two(a, b)) =>
      EvictStaysWorthy(cfg, s.entries, a);
      EvictStaysWorthy(cfg, Evict(s.entries, a), b);
  }

  /** Over every run of blocks and size changes from an empty table, no sensitive header is ever held, nor one of a
      skipped name, nor one that the static table has with its value. */
  lemma RunHoldsWorthyOnly(cfg: Config, s: EncoderState, ops: seq<Op>)
    requires s.entries == []
    ensures forall e :: e in EncodedRun(cfg, s, ops).entries ==> Worthy(cfg.statics, cfg.skipped, e)
  {
    hide Worthy;
    EncodedStaysWorthy(cfg, s, ops);
  }

  lemma {:induction false} EncodedStaysWorthy(cfg: Config, s: EncoderState, ops: seq<Op>)
    requires AllWorthy(cfg.statics, cfg.skipped, s.entries)
    ensures AllWorthy(cfg.statics, cfg.skipped, EncodedRun(cfg, s, ops).entries)
  {
    hide AllWorthy, Announced, Steps;
    if ops != [] {
      var front, op := ops[..|ops| - 1], ops[|ops| - 1];
      EncodedStaysWorthy(cfg, s, front);
      var mid := EncodedRun(cfg, s, front);
      match op {
        case SetMax(_) =>
        case Block(fields) =>
          AnnouncedStaysWorthy(cfg, mid);
          StepsStayWorthy(cfg, Announced(mid), fields);
      }
    }
  }
}
