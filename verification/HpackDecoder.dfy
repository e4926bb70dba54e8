/** The decoder: a cursor over a buffer whose front is cut off as representations are completed, a deque with a
    running size, and the loop that feeds one from the other. */
module HpackDecoder {
  import opened Headers
  import opened FifoTable
  import opened Bits
  import opened HuffmanCode
  import HuffmanDecoder
  import opened HpackWire
  import opened HpackBlock

  datatype Result<+T> = Ok(value: T) | OutOfInput | Err(error: DecoderError) {
    /** The same failure for a caller with another kind of result. */
    function Carry<U>(): Result<U>
      requires !Ok?
    {
      if OutOfInput? then OutOfInput else Err(error)
    }
  }

  /** The same answer, as far as the caller of a reader sees it. */
  predicate Answers<T(==)>(p: Parse<T>, r: Result<T>) {
    match p
    case Got(v, _) => r == Ok(v)
    case NeedMore(_) => r == OutOfInput
    case Bad(e) => r == Err(e)
  }

  // ----- input

  /** A cursor over a byte buffer. */
  class Source {
    var data: Bytes
    var pos: nat

    ghost predicate Valid()
      reads this
    {
      pos <= |data|
    }

    ghost function Ahead(): Bytes
      requires Valid()
      reads this
    {
      data[pos..]
    }

    constructor (data: Bytes)
      ensures Valid() && this.data == data && pos == 0
    {
      this.data, pos := data, 0;
    }

    method GetU8() returns (b: Byte)
      requires Valid() && pos < |data|
      modifies this`pos
      ensures Valid() && b == data[old(pos)] && pos == old(pos) + 1
    {
      b := data[pos];
      pos := pos + 1;
    }

    /** Cuts off everything up to `n` bytes past the cursor and hands out those `n` bytes. */
    method Take(n: nat) returns (head: Bytes)
      requires Valid() && pos + n <= |data|
      modifies this
      ensures head == old(data)[old(pos)..old(pos) + n]
      ensures data == old(data)[old(pos) + n..] && pos == 0
    {
      head := data[..pos + n];
      data := data[pos + n..];
      head := head[pos..];
      pos := 0;
    }

    method Consume()
      requires Valid()
      modifies this
      ensures data == old(data)[old(pos)..] && pos == 0
    {
      var _ := Take(0);
    }
  }

  lemma ReadIntStart(b: Bytes, prefix: nat)
    requires b != []
    ensures var v, low := b[0] % Pow2(prefix), Pow2(prefix) - 1;
      ReadInt(b, prefix) == if v < low then Got(v, 1) else ReadCont(b, 1, v, 1)
  {
  }

  lemma NextShift(shift: nat)
    ensures Pow2(shift + 7) == Pow2(shift) * 128
  {
    PowAdd(shift, 7);
    assert Pow2(7) == 128;
  }

  /** Reads an integer. The cursor moves, the buffer stays. */
  method DecodeInt(src: Source, prefix: nat) returns (r: Result<nat>)
    requires src.Valid()
    modifies src`pos
    ensures src.Valid() && old(src.pos) <= src.pos
    ensures !(1 <= prefix <= 8) ==> r == Err(InvalidIntegerPrefix)
    ensures 1 <= prefix <= 8 ==>
      var p := ReadInt(old(src.Ahead()), prefix); Answers(p, r) && (p.Got? ==> src.pos == old(src.pos) + p.used)
  {
    hide Pow2, ReadInt;
    if prefix < 1 || prefix > 8 {
      return Err(InvalidIntegerPrefix);
    }
    ghost var b, start := src.Ahead(), src.pos;
    if src.pos == |src.data| {
      NoInput(prefix);
      return OutOfInput;
    }
    ReadIntStart(b, prefix);
    var mask := Pow2(prefix) - 1;
    var first := src.GetU8();
    var ret: nat := first % (mask + 1);
    if ret < mask {
      return Ok(ret);
    }
    var bytes, shift: nat := 1, 0;
    assert Pow2(0) == 1 by { PowZero(); }
    while src.pos < |src.data|
      invariant src.Valid() && src.pos == start + bytes && bytes < MAX_BYTES
      invariant ReadInt(b, prefix) == ReadCont(b, bytes, ret, Pow2(shift))
    {
      NextShift(shift);
      var next := src.GetU8();
      assert next == b[bytes];
      bytes := bytes + 1;
      ret := ret + (next % 128) * Pow2(shift);
      shift := shift + 7;
      if next < 128 {
        return Ok(ret);
      }
      if bytes == MAX_BYTES {
        return Err(IntegerOverflow);
      }
    }
    return OutOfInput;
  }

  lemma PowZero()
    ensures Pow2(0) == 1
  {
  }

  lemma NoInput(prefix: nat)
    ensures ReadInt([], prefix) == NeedMore(0)
  {
  }

  // ----- the table

  lemma {:induction false} EvictAll(es: Entries, max: int)
    requires max < 0
    ensures Evict(es, max) == []
  {
    if es != [] {
      EvictAll(es[..|es| - 1], max);
    }
  }

  /** The decoder's table: a deque, newest entry first, and its running size. */
  class EntryTable {
    var entries: Entries
    var size: nat
    var maxSize: nat

    ghost predicate Valid()
      reads this
    {
      size == Total(entries) <= maxSize
    }

    constructor (maxSize: nat)
      ensures Valid() && entries == [] && this.maxSize == maxSize
    {
      entries, size, this.maxSize := [], 0, maxSize;
    }

    method Insert(entry: Header)
      requires Valid()
      modifies this
      ensures Valid() && maxSize == old(maxSize)
      ensures entries == Add(old(entries), entry, maxSize)
      ensures LongestFit(entries, [entry] + old(entries), maxSize)
    {
      AddIsLongestFit(entry, entries, maxSize);
      var len: nat := entry.Len();
      Reserve(len);
      if len > maxSize {
        EvictAll(old(entries), maxSize - len);
      }
      if size + len <= maxSize {
        size := size + len;
        TotalPush(entry, entries);
        entries := [entry] + entries;
      }
    }

    method SetMaxSize(max: nat)
      requires Valid()
      modifies this
      ensures Valid() && maxSize == max && entries == Evict(old(entries), max)
      ensures LongestFit(entries, old(entries), max)
    {
      EvictIsLongestFit(entries, max);
      maxSize := max;
      Consolidate();
    }

    /** Makes room for `len` more, as far as dropping entries can. */
    method Reserve(len: nat)
      requires size == Total(entries)
      modifies this`entries, this`size
      ensures size == Total(entries) && entries == Evict(old(entries), maxSize - len)
      ensures size + len <= maxSize || entries == []
    {
      while size + len > maxSize
        invariant size == Total(entries) && Evict(entries, maxSize - len) == Evict(old(entries), maxSize - len)
        decreases |entries|
      {
        if entries == [] {
          return;
        }
        var last := entries[|entries| - 1];
        entries := entries[..|entries| - 1];
        size := size - last.Len();
      }
    }

    /** Drops entries until the size is within the maximum. The deque never runs dry before that. */
    method Consolidate()
      requires size == Total(entries)
      modifies this`entries, this`size
      ensures Valid() && entries == Evict(old(entries), maxSize)
    {
      while size > maxSize
        invariant size == Total(entries) && Evict(entries, maxSize) == Evict(old(entries), maxSize)
        decreases |entries|
      {
        var last := entries[|entries| - 1];
        size := size - last.Len();
        entries := entries[..|entries| - 1];
      }
    }
  }

  // ----- representations

  /** How a string read shows: the value, and what became of buffer and cursor. */
  ghost predicate StrTaken(p: Parse<Str>, r: Result<Bytes>, data: Bytes, pos: nat, data': Bytes, pos': nat) {
    match p
    case Got(s, n) =>
      && r == Ok(s.bytes) && pos + n <= |data|
      && if s.raw then data' == data[pos + n..] && pos' == 0 else data' == data && pos' == pos + n
    case NeedMore(_) => r == OutOfInput && data' == data
    case Bad(e) => r == Err(e)
  }

  /** How a literal read from the front of the buffer shows. */
  ghost predicate LiteralTaken(p: Parse<Header>, r: Result<Header>, data: Bytes, data': Bytes, pos': nat) {
    && pos' <= |data'|
    && match p
       case Got(h, n) => r == Ok(h) && n <= |data| && data'[pos'..] == data[n..]
       case NeedMore(d) => r == OutOfInput && d <= |data| && data' == data[d..]
       case Bad(e) => r == Err(e)
  }

  /** How a representation read from the front of the buffer shows, in the table too. */
  ghost predicate ItemTaken(p: Parse<(Option<Header>, DecState)>, r: Result<Option<Header>>, s: DecState, s': DecState,
                            data: Bytes, data': Bytes, pos': nat) {
    match p
    case Got((h, ds), n) => r == Ok(h) && s' == ds && n <= |data| && data' == data[n..] && pos' == 0
    case NeedMore(d) => r == OutOfInput && s' == s && d <= |data| && data' == data[d..]
    case Bad(e) => r == Err(e) && s' == s
  }

  class Decoder {
    const cfg: Config
    const huffman: HuffmanDecoder.DecodeTable
    ghost const node: seq<Bits>
    const table: EntryTable
    var maxSizeUpdate: Option<nat>
    var lastMaxUpdate: nat

    ghost predicate Valid()
      reads this, table
    {
      && |cfg.code| == 257 && ConfigOk(cfg)
      && HuffmanDecoder.Unrolls(cfg.code, huffman, node)
      && table.Valid()
    }

    ghost function State(): DecState
      reads this, table
    {
      DecState(table.entries, table.maxSize, lastMaxUpdate)
    }

    constructor (cfg: Config, huffman: HuffmanDecoder.DecodeTable, ghost node: seq<Bits>, size: nat)
      requires |cfg.code| == 257 && ConfigOk(cfg) && HuffmanDecoder.Unrolls(cfg.code, huffman, node)
      ensures Valid() && fresh(table) && this.cfg == cfg && State() == DecState([], size, size) && maxSizeUpdate == None
    {
      this.cfg, this.huffman, this.node := cfg, huffman, node;
      table := new EntryTable(size);
      maxSizeUpdate, lastMaxUpdate := None, size;
    }

    /** A new bound on what size updates may ask for, in force from the next block on: the largest queued. */
    method QueueSizeUpdate(size: nat)
      modifies this`maxSizeUpdate
      ensures maxSizeUpdate ==
        Some(if old(maxSizeUpdate).Some? && old(maxSizeUpdate).value > size then old(maxSizeUpdate).value else size)
    {
      if maxSizeUpdate.Some? && maxSizeUpdate.value > size {
        return;
      }
      maxSizeUpdate := Some(size);
    }

    method DecodeString(src: Source) returns (r: Result<Bytes>)
      requires Valid() && src.Valid()
      modifies src
      ensures src.Valid()
      ensures StrTaken(ReadStr(cfg.code, old(src.Ahead())), r, old(src.data), old(src.pos), src.data, src.pos)
    {
      hide ConfigOk, ReadInt, EntryTable.Valid, HuffmanDecoder.Unrolls, Decoded;
      ghost var b, data, pos := src.Ahead(), src.data, src.pos;
      if src.pos == |src.data| {
        NoInput(7);
        return OutOfInput;
      }
      var huff := src.data[src.pos] >= 0x80;
      assert b[0] == src.data[src.pos];
      var coded := DecodeInt(src, 7);
      if !coded.Ok? {
        return coded.Carry();
      }
      var len := coded.value;
      ghost var n := ReadInt(b, 7).used;
      if len > |src.data| - src.pos {
        return OutOfInput;
      }
      assert b[n..n + len] == src.data[src.pos..src.pos + len];
      if huff {
        var s := HuffmanDecoder.Decode(huffman, src.data[src.pos..src.pos + len], cfg.code, node) by {
          assert IsCode(cfg.code) by { ConfigIsCode(cfg); }
        }
        src.pos := src.pos + len;
        return if s.None? then Err(InvalidHuffmanCode) else Ok(s.value);
      }
      var s := src.Take(len);
      return Ok(s);
    }

    /** Reads name and value of a literal whose index, read already, is zero. */
    method DecodePair(src: Source) returns (r: Result<Header>)
      requires Valid() && src.Valid()
      modifies src
      ensures src.Valid()
      ensures LiteralTaken(ReadPair(cfg.code, old(src.data), old(src.pos)), r, old(src.data), src.data, src.pos)
    {
      hide ConfigOk, ReadStr, EntryTable.Valid, HuffmanDecoder.Unrolls;
      ghost var b, n := src.data, src.pos;
      var name := DecodeString(src);
      if !name.Ok? {
        return name.Carry();
      }
      ghost var m := ReadStr(cfg.code, b[n..]).used;
      assert src.Ahead() == b[n + m..];
      var value := DecodeString(src);
      if !value.Ok? {
        return value.Carry();
      }
      return if name.value == [] then OutOfInput else Ok(Header(name.value, value.value, false));
    }

    method DecodeLiteral(src: Source, index: bool) returns (r: Result<Header>)
      requires Valid() && src.Valid() && src.pos == 0
      modifies src
      ensures src.Valid()
      ensures LiteralTaken(ReadLiteral(cfg.code, cfg.statics, table.entries, old(src.data), if index then 6 else 4), r,
        old(src.data), src.data, src.pos)
    {
      hide ConfigOk, ReadInt, EntryTable.Valid, HuffmanDecoder.Unrolls, ReadStr, ReadPair, Get;
      var prefix := if index then 6 else 4;
      ghost var b := src.data;
      assert b[0..] == b;
      var idx := DecodeInt(src, prefix);
      if !idx.Ok? {
        return idx.Carry();
      }
      if idx.value == 0 {
        r := DecodePair(src);
      } else {
        var e := Get(cfg.statics, table.entries, idx.value);
        if e.None? {
          return Err(InvalidTableIndex);
        }
        var value := DecodeString(src);
        if !value.Ok? {
          return value.Carry();
        }
        return Ok(Header(e.value.name, value.value, false));
      }
    }

    method ProcessSizeUpdate(src: Source) returns (r: Result<()>)
      requires Valid() && src.Valid() && src.pos == 0
      modifies src`pos, table
      ensures Valid() && src.Valid()
      ensures match ReadInt(old(src.data), 5)
        case Got(size, n) =>
          if size > lastMaxUpdate then r == Err(InvalidMaxDynamicSize) && State() == old(State())
          else r == Ok(()) && src.pos == n && table.maxSize == size && table.entries == Evict(old(table.entries), size)
        case NeedMore(_) => r == OutOfInput && State() == old(State())
        case Bad(e) => r == Err(e) && State() == old(State())
    {
      hide ConfigOk, ReadInt, HuffmanDecoder.Unrolls, Evict;
      assert src.data[0..] == src.data;
      var size := DecodeInt(src, 5);
      if !size.Ok? {
        return size.Carry();
      }
      if size.value > lastMaxUpdate {
        return Err(InvalidMaxDynamicSize);
      }
      table.SetMaxSize(size.value);
      return Ok(());
    }

    /** One turn of the decoder's loop. */
    method DecodeItem(src: Source, canResize: bool) returns (r: Result<Option<Header>>)
      requires Valid() && src.Valid() && src.pos == 0 && src.data != []
      modifies src, table
      ensures Valid() && src.Valid()
      ensures ItemTaken(ReadItem(cfg.code, cfg.statics, old(State()), old(src.data), canResize), r, old(State()),
                        State(), old(src.data), src.data, src.pos)
    {
      hide ConfigOk, ReadInt, ReadLiteral, HuffmanDecoder.Unrolls, Evict, Add, Get;
      ghost var b := src.data;
      assert b[0..] == b;
      match Load(src.data[src.pos]).value
      case IndexedField =>
        var idx := DecodeInt(src, 7);
        if !idx.Ok? {
          return idx.Carry();
        }
        var h := Get(cfg.statics, table.entries, idx.value);
        if h.None? {
          return Err(InvalidTableIndex);
        }
        src.Consume();
        return Ok(Some(h.value));
      case LiteralWithIndexing =>
        var h := DecodeLiteral(src, true);
        if !h.Ok? {
          return h.Carry();
        }
        table.Insert(h.value);
        src.Consume();
        return Ok(Some(h.value));
      case LiteralWithoutIndexing =>
        r := DecodeUnindexed(src);
      case LiteralNeverIndexed =>
        r := DecodeUnindexed(src);
      case SizeUpdateItem =>
        if !canResize {
          return Err(InvalidMaxDynamicSize);
        }
        var ok := ProcessSizeUpdate(src);
        if !ok.Ok? {
          return ok.Carry();
        }
        src.Consume();
        return Ok(None);
    }

    method DecodeUnindexed(src: Source) returns (r: Result<Option<Header>>)
      requires Valid() && src.Valid() && src.pos == 0
      modifies src
      ensures src.Valid()
      ensures match ReadLiteral(cfg.code, cfg.statics, table.entries, old(src.data), 4)
        case Got(h, n) => r == Ok(Some(h)) && src.data == old(src.data)[n..] && src.pos == 0
        case NeedMore(d) => r == OutOfInput && src.data == old(src.data)[d..]
        case Bad(e) => r == Err(e)
    {
      hide ConfigOk, ReadLiteral, HuffmanDecoder.Unrolls;
      var h := DecodeLiteral(src, false);
      if !h.Ok? {
        return h.Carry();
      }
      src.Consume();
      return Ok(Some(h.value));
    }

    /** Decodes a buffer: reports the headers of all representations in it, or stops at an error. When the input
        runs out within a representation, the buffer is left with what remains to be completed. */
    method Decode(src: Source) returns (headers: seq<Header>, r: Result<()>)
      requires Valid() && src.Valid() && src.pos == 0
      modifies this, table, src
      ensures Valid() && maxSizeUpdate == None
      ensures var limit := if old(maxSizeUpdate).Some? then old(maxSizeUpdate).value else old(lastMaxUpdate);
        var d := HpackBlock.Decode(cfg, old(State()).(limit := limit), old(src.data), true);
        && headers == d.headers && State() == d.state
        && match d.outcome
           case Done => r == Ok(()) && src.data == []
           case Starved(rest) => r == OutOfInput && src.data == rest
           case Failed(e) => r == Err(e)
    {
      hide ConfigOk, ReadItem, HuffmanDecoder.Unrolls, HpackBlock.Decode, EntryTable.Valid, Ends;
      var canResize := true;
      if maxSizeUpdate.Some? {
        lastMaxUpdate := maxSizeUpdate.value;
        maxSizeUpdate := None;
      }
      ghost var whole := HpackBlock.Decode(cfg, State(), src.data, true);
      headers := [];
      NothingYet(cfg, State(), src.data, whole);
      while src.data != []
        invariant Valid() && src.Valid() && src.pos == 0 && maxSizeUpdate == None
        invariant Ends(cfg, State(), src.data, canResize, headers, whole)
        decreases |src.data|
      {
        NextItem(cfg, State(), src.data, canResize, headers, whole);
        var item := DecodeItem(src, canResize);
        if !item.Ok? {
          return headers, item.Carry();
        }
        if item.value.Some? {
          headers := headers + [item.value.value];
          canResize := false;
        }
      }
      EmptyInput(cfg, State(), canResize, headers, whole);
      return headers, Ok(());
    }
  }

  /** What is still ahead completes what has been reported to the whole. */
  ghost predicate Ends(cfg: Config, ds: DecState, b: Bytes, can: bool, headers: seq<Header>, whole: Decoding)
    requires |cfg.code| == 257
  {
    var d := HpackBlock.Decode(cfg, ds, b, can);
    whole == d.(headers := headers + d.headers)
  }

  lemma NothingYet(cfg: Config, ds: DecState, b: Bytes, whole: Decoding)
    requires |cfg.code| == 257 && whole == HpackBlock.Decode(cfg, ds, b, true)
    ensures Ends(cfg, ds, b, true, [], whole)
  {
    hide HpackBlock.Decode;
    assert [] + whole.headers == whole.headers;
  }

  lemma EmptyInput(cfg: Config, ds: DecState, can: bool, headers: seq<Header>, whole: Decoding)
    requires |cfg.code| == 257 && Ends(cfg, ds, [], can, headers, whole)
    ensures whole == Decoding(headers, ds, Done)
  {
    hide ReadItem;
  }

  lemma NextItem(cfg: Config, ds: DecState, b: Bytes, can: bool, headers: seq<Header>, whole: Decoding)
    requires |cfg.code| == 257 && b != [] && Ends(cfg, ds, b, can, headers, whole)
    ensures match ReadItem(cfg.code, cfg.statics, ds, b, can)
      case NeedMore(dropped) => whole == Decoding(headers, ds, Starved(b[dropped..]))
      case Bad(e) => whole == Decoding(headers, ds, Failed(e))
      case Got((h, ds'), n) =>
        Ends(cfg, ds', b[n..], can && h.None?, if h.Some? then headers + [h.value] else headers, whole)
  {
    hide ReadItem, HpackBlock.Decode;
    DecodeUnfolds(cfg, ds, b, can);
    var r := ReadItem(cfg.code, cfg.statics, ds, b, can);
    if r.Got? {
      var (h, ds') := r.value;
      var d := HpackBlock.Decode(cfg, ds', b[r.used..], can && h.None?);
      if h.Some? {
        assert headers + [h.value] + d.headers == headers + ([h.value] + d.headers);
      }
    }
  }

  lemma ConfigIsCode(cfg: Config)
    requires ConfigOk(cfg)
    ensures IsCode(cfg.code)
  {
  }

  lemma DecodeUnfolds(cfg: Config, ds: DecState, b: Bytes, can: bool)
    requires |cfg.code| == 257
    ensures HpackBlock.Decode(cfg, ds, b, can) ==
      if b == [] then Decoding([], ds, Done)
      else
        match ReadItem(cfg.code, cfg.statics, ds, b, can)
        case NeedMore(dropped) => Decoding([], ds, Starved(b[dropped..]))
        case Bad(e) => Decoding([], ds, Failed(e))
        case Got((h, ds'), n) =>
          var d := HpackBlock.Decode(cfg, ds', b[n..], can && h.None?);
          d.(headers := (if h.Some? then [h.value] else []) + d.headers)
  {
  }
}
