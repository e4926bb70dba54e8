/** The payload bytes of every stream followed through cutting and putting back: what was given, what was sent,
    what is in flight, and what is queued. */
module SendBooks {
  import opened Headers
  import opened FlowControl
  import opened StreamState
  import opened StreamStore
  import opened SendFlow

  /** The DATA frame the codec is working on, or has yet to hand back: of a stream, or of one that was reset. */
  datatype InFlight = Nothing | DataFrame(stream: Key) | Drop

  /** That frame: the rest of the payload after the slice that is sent, and whether the payload ends the stream. */
  datatype Prioritized = Prioritized(stream: Key, rest: Bytes, endOfStream: bool)

  /** The history of a stream: the bytes given to be sent, whether END_STREAM was given with the last of them, the
      bytes handed to the codec, whether any were given up, and whether END_STREAM went out. */
  datatype Book = Book(given: Bytes, closing: bool, sent: Bytes, dropped: bool, ended: bool) {
    /** More is given. */
    function Give(payload: Bytes, eos: bool): Book {
      this.(given := given + payload, closing := closing || eos)
    }
  }

  const BLANK := Book([], false, [], false, false)

  predicate DataFree(frames: seq<Frame>) {
    forall i :: 0 <= i < |frames| ==> !frames[i].Data?
  }

  predicate NoEos(frames: seq<Frame>) {
    forall i :: 0 <= i < |frames| && frames[i].Data? ==> !frames[i].eos
  }

  /** After the payload that ends the stream there is no other. */
  predicate EosLast(frames: seq<Frame>) {
    forall i, j :: 0 <= i < j < |frames| && frames[i].Data? && frames[i].eos ==> !frames[j].Data?
  }

  /** END_STREAM is queued with a payload. */
  predicate EosQueued(frames: seq<Frame>) {
    exists i :: 0 <= i < |frames| && frames[i].Data? && frames[i].eos
  }

  function RestOf(inFlight: InFlight, held: Option<Prioritized>, k: Key): Bytes {
    if inFlight == DataFrame(k) && held.Some? then held.value.rest else []
  }

  predicate RestEnds(inFlight: InFlight, held: Option<Prioritized>, k: Key) {
    inFlight == DataFrame(k) && held.Some? && held.value.endOfStream
  }

  /** What was sent, what is in flight and what is queued make up what was given, in order; what is buffered is
      counted right; END_STREAM is on the last payload only; and once it went out everything given was sent. */
  predicate Booked(s: Stream, rest: Bytes, restEnds: bool, b: Book) {
    && s.buffered == |DataOf(s.frames)| + |rest|
    && b.sent + rest + DataOf(s.frames) <= b.given
    && (!b.dropped ==> b.sent + rest + DataOf(s.frames) == b.given)
    && EosLast(s.frames) && (restEnds ==> DataFree(s.frames))
    && (!s.state.IsSendClosed() ==> NoEos(s.frames) && !restEnds && !b.ended && !b.dropped)
    && (b.ended ==> b.sent == b.given && DataFree(s.frames) && rest == [])
    && (b.dropped ==> DataFree(s.frames) && rest == [])
    && (restEnds && rest == [] ==> b.ended)
    && (b.closing && !b.dropped ==> b.ended || restEnds || EosQueued(s.frames))
  }

  ghost predicate AllBooked(m: map<Key, Stream>, inFlight: InFlight, held: Option<Prioritized>, books: map<Key, Book>,
                            but: Option<Key>) {
    forall k :: k in m && Some(k) != but ==>
      k in books && Booked(m[k], RestOf(inFlight, held, k), RestEnds(inFlight, held, k), books[k])
  }

  /** The codec and the scheduler agree on what is in flight; if anything is left of it the stream still exists. */
  ghost predicate HeldOk(m: map<Key, Stream>, inFlight: InFlight, held: Option<Prioritized>) {
    && (held.None? <==> inFlight == Nothing)
    && (inFlight.DataFrame? ==> held.value.stream == inFlight.stream)
    && (inFlight.DataFrame? && held.value.rest != [] ==> inFlight.stream in m)
  }

  /** The stream whose payload is in flight and will be put back. */
  function InTheAir(inFlight: InFlight, held: Option<Prioritized>): Option<Key> {
    if inFlight.DataFrame? && held.Some? && held.value.rest != [] then Some(inFlight.stream) else None
  }

  lemma {:induction false} DataOfSnoc(frames: seq<Frame>, f: Frame)
    ensures DataOf(frames + [f]) == DataOf(frames) + if f.Data? then f.payload else []
  {
    if frames == [] {
      assert frames + [f] == [f];
      assert DataOf([f][1..]) == [];
    } else {
      assert (frames + [f])[1..] == frames[1..] + [f];
      DataOfSnoc(frames[1..], f);
    }
  }

  lemma DataOfCons(f: Frame, frames: seq<Frame>)
    ensures DataOf([f] + frames) == (if f.Data? then f.payload else []) + DataOf(frames)
  {
    assert ([f] + frames)[1..] == frames;
  }

  lemma {:induction false} DataFreeIsEmpty(frames: seq<Frame>)
    requires DataFree(frames)
    ensures DataOf(frames) == []
  {
    if frames != [] {
      DataFreeIsEmpty(frames[1..]);
    }
  }

  /** Streams changed only in what they ask for and hold. */
  ghost predicate SameData(m: map<Key, Stream>, m': map<Key, Stream>, but: Option<Key>) {
    && m'.Keys == m.Keys
    && forall k :: k in m && Some(k) != but ==>
      m'[k].state == m[k].state && m'[k].frames == m[k].frames && m'[k].buffered == m[k].buffered
  }

  lemma GrantsSameData(m: map<Key, Stream>, m': map<Key, Stream>)
    requires Grants(m, m')
    ensures SameData(m, m', None)
  {
  }

  lemma AdjustedSameData(m: map<Key, Stream>, m': map<Key, Stream>, k: Key, s: Stream)
    requires Adjusted(m, m', k, s)
    ensures SameData(m, m', Some(k))
    ensures m'[k].state == s.state && m'[k].frames == s.frames && m'[k].buffered == s.buffered
  {
  }

  lemma BooksStay(m: map<Key, Stream>, m': map<Key, Stream>, inFlight: InFlight, held: Option<Prioritized>,
                  books: map<Key, Book>, but: Option<Key>)
    requires AllBooked(m, inFlight, held, books, but) && SameData(m, m', but)
    ensures AllBooked(m', inFlight, held, books, but)
  {
    hide Booked;
    forall k | k in m' && Some(k) != but
      ensures k in books && Booked(m'[k], RestOf(inFlight, held, k), RestEnds(inFlight, held, k), books[k])
    {
      BookedBy(m[k], m'[k], RestOf(inFlight, held, k), RestEnds(inFlight, held, k), books[k]);
    }
  }

  lemma BookedBy(s: Stream, s': Stream, rest: Bytes, restEnds: bool, b: Book)
    requires Booked(s, rest, restEnds, b) && s'.state == s.state && s'.frames == s.frames && s'.buffered == s.buffered
    ensures Booked(s', rest, restEnds, b)
  {
  }

  /** A payload queued behind the others. */
  lemma BookGiven(s: Stream, s': Stream, rest: Bytes, restEnds: bool, b: Book, payload: Bytes, eos: bool)
    requires Booked(s, rest, restEnds, b) && !s.state.IsSendClosed()
    requires s'.frames == s.frames + [Data(payload, eos)] && s'.buffered == s.buffered + |payload|
    requires if eos then s'.state.IsSendClosed() else s'.state == s.state
    ensures Booked(s', rest, restEnds, b.Give(payload, eos))
  {
    DataOfSnoc(s.frames, Data(payload, eos));
    assert s'.frames[|s.frames|] == Data(payload, eos);
  }

  /** A frame without payload queued behind the others. */
  lemma BookControl(s: Stream, s': Stream, rest: Bytes, restEnds: bool, b: Book, f: Frame)
    requires Booked(s, rest, restEnds, b) && !f.Data?
    requires s'.frames == s.frames + [f] && s'.buffered == s.buffered
    requires s.state.IsSendClosed() ==> s'.state.IsSendClosed()
    ensures Booked(s', rest, restEnds, b)
  {
    DataOfSnoc(s.frames, f);
    assert forall i :: 0 <= i < |s.frames| ==> s'.frames[i] == s.frames[i];
  }

  /** A stream that moves on in its life. */
  lemma BookState(s: Stream, s': Stream, rest: Bytes, restEnds: bool, b: Book)
    requires Booked(s, rest, restEnds, b) && s'.frames == s.frames && s'.buffered == s.buffered
    requires s.state.IsSendClosed() ==> s'.state.IsSendClosed()
    ensures Booked(s', rest, restEnds, b)
  {
  }

  /** The first frame, which carries no payload, taken off. */
  lemma BookControlSent(s: Stream, s': Stream, b: Book)
    requires Booked(s, [], false, b) && s.frames != [] && !s.frames[0].Data?
    requires s'.frames == s.frames[1..] && s'.buffered == s.buffered && s'.state == s.state
    ensures Booked(s', [], false, b)
  {
    assert forall i :: 0 < i < |s.frames| ==> s'.frames[i - 1] == s.frames[i];
  }

  /** The first payload taken off: a slice of it goes out, the rest is in the air. END_STREAM goes out just when
      the slice finishes the last payload, and then everything given has been sent. */
  lemma BookSlice(s: Stream, s': Stream, b: Book, n: nat)
    requires Booked(s, [], false, b) && s.frames != [] && s.frames[0].Data? && n <= |s.frames[0].payload|
    requires s'.frames == s.frames[1..] && s'.buffered == s.buffered - n && s'.state == s.state
    ensures !b.ended && !b.dropped && |DataOf(s.frames[1..])| + n <= s.buffered
    ensures var (payload, eos) := (s.frames[0].payload, s.frames[0].eos);
      var b' := b.(sent := b.sent + payload[..n], ended := eos && n == |payload|);
      Booked(s', payload[n..], eos, b') && (b'.ended ==> b'.sent == b.given)
  {
    var payload, eos := s.frames[0].payload, s.frames[0].eos;
    assert payload == payload[..n] + payload[n..];
    assert forall i :: 0 < i < |s.frames| ==> s'.frames[i - 1] == s.frames[i];
    assert b.sent + [] + DataOf(s.frames) == b.sent + payload[..n] + payload[n..] + DataOf(s.frames[1..]);
    if eos {
      DataFreeIsEmpty(s.frames[1..]);
    }
  }

  /** The rest of a payload put back in front. */
  lemma BookPutBack(s: Stream, s': Stream, rest: Bytes, eos: bool, b: Book)
    requires Booked(s, rest, eos, b) && rest != [] && s'.buffered == s.buffered && s'.state == s.state
    requires s'.frames == [Data(rest, eos)] + s.frames
    ensures Booked(s', [], false, b)
  {
    DataOfCons(Data(rest, eos), s.frames);
    assert s'.frames[0] == Data(rest, eos) && forall i :: 0 <= i < |s.frames| ==> s'.frames[i + 1] == s.frames[i];
    assert b.sent + rest + DataOf(s.frames) == b.sent + [] + (rest + DataOf(s.frames));
  }

  /** Everything given has been sent, and END_STREAM with it, or was given up. */
  predicate Finished(b: Book) {
    b.dropped || (b.sent == b.given && (b.closing ==> b.ended))
  }

  /** Once nothing is queued or in flight, all that was given has been sent, and END_STREAM with it, unless given up. */
  lemma AllSent(s: Stream, b: Book)
    requires Booked(s, [], false, b) && s.frames == []
    ensures Finished(b)
  {
  }

  /** Everything queued given up. */
  lemma BookDropped(s: Stream, rest: Bytes, restEnds: bool, b: Book, s': Stream)
    requires Booked(s, rest, restEnds, b) && s'.buffered == 0 && s'.state.IsSendClosed() && DataFree(s'.frames)
    ensures Booked(s', [], false, b.(dropped := true))
  {
    DataFreeIsEmpty(s'.frames);
  }

  /** Only `k` was changed in what the books are about, and its page was brought up to date. */
  lemma PageTurned(m: map<Key, Stream>, m': map<Key, Stream>, inFlight: InFlight, held: Option<Prioritized>,
                   books: map<Key, Book>, k: Key, b: Book, inFlight': InFlight, held': Option<Prioritized>)
    requires AllBooked(m, inFlight, held, books, Some(k)) && SameData(m, m', Some(k)) && k in m'
    requires forall j :: j in m && j != k ==>
      RestOf(inFlight', held', j) == RestOf(inFlight, held, j)
        && RestEnds(inFlight', held', j) == RestEnds(inFlight, held, j)
    requires Booked(m'[k], RestOf(inFlight', held', k), RestEnds(inFlight', held', k), b)
    ensures AllBooked(m', inFlight', held', books[k := b], None)
  {
    hide Booked, RestOf, RestEnds;
    forall j | j in m'
      ensures j in books[k := b]
        && Booked(m'[j], RestOf(inFlight', held', j), RestEnds(inFlight', held', j), books[k := b][j])
    {
      if j != k {
        BookedBy(m[j], m'[j], RestOf(inFlight, held, j), RestEnds(inFlight, held, j), books[j]);
      }
    }
  }

  lemma PageOf(m: map<Key, Stream>, inFlight: InFlight, held: Option<Prioritized>, books: map<Key, Book>, k: Key)
    requires k in m && AllBooked(m, inFlight, held, books, None)
    ensures k in books && Booked(m[k], RestOf(inFlight, held, k), RestEnds(inFlight, held, k), books[k])
    ensures AllBooked(m, inFlight, held, books, Some(k))
  {
  }

  lemma HeldStays(m: map<Key, Stream>, m': map<Key, Stream>, inFlight: InFlight, held: Option<Prioritized>)
    requires HeldOk(m, inFlight, held) && m'.Keys == m.Keys
    ensures HeldOk(m', inFlight, held)
  {
  }

  /** A payload queued without capacity to send it stands behind another, or is not empty, or waits for the one
      in the air. */
  lemma NotReadyYet(s: Stream, payload: Bytes, eos: bool, inFlight: InFlight, held: Option<Prioritized>, k: Key,
                    restEnds: bool, b: Book)
    requires s.flow.available == 0 && s.buffered > 0
      && s.buffered == |DataOf(s.frames)| + |payload| + |RestOf(inFlight, held, k)|
    ensures var s' := WithFrame(s, Data(payload, eos)); s'.Ready() && Some(k) != InTheAir(inFlight, held) ==> s.Ready()
  {
  }

  /** With nothing in flight no stream has a rest. */
  lemma NothingInTheAir(m: map<Key, Stream>, inFlight: InFlight, held: Option<Prioritized>, k: Key)
    requires HeldOk(m, inFlight, held) && held == None
    ensures inFlight == Nothing && InTheAir(inFlight, held) == None
    ensures RestOf(inFlight, held, k) == [] && !RestEnds(inFlight, held, k)
  {
  }

  /** The frame in flight taken back with nothing left of it, or no longer wanted. */
  lemma BooksLanded(m: map<Key, Stream>, inFlight: InFlight, held: Option<Prioritized>, books: map<Key, Book>)
    requires HeldOk(m, inFlight, held) && AllBooked(m, inFlight, held, books, None) && InTheAir(inFlight, held) == None
    ensures HeldOk(m, Nothing, None) && AllBooked(m, Nothing, None, books, None)
  {
    hide DataOf;
    forall k | k in m ensures k in books && Booked(m[k], [], false, books[k]) {
      assert Booked(m[k], RestOf(inFlight, held, k), RestEnds(inFlight, held, k), books[k]);
    }
  }

  /** The rest of the payload in flight put back in front of its stream's queue. */
  lemma BooksPutBack(m: map<Key, Stream>, inFlight: InFlight, held: Option<Prioritized>, books: map<Key, Book>)
    requires HeldOk(m, inFlight, held) && AllBooked(m, inFlight, held, books, None) && InTheAir(inFlight, held).Some?
    ensures var (k, rest, eos) := (held.value.stream, held.value.rest, held.value.endOfStream);
      && Some(k) == InTheAir(inFlight, held) && k in m
      && m[k].buffered == |DataOf([Data(rest, eos)] + m[k].frames)|
      && var m' := m[k := m[k].(frames := [Data(rest, eos)] + m[k].frames)];
      HeldOk(m', Nothing, None) && AllBooked(m', Nothing, None, books, None)
  {
    hide DataOf, Booked, AllBooked;
    var (k, rest, eos) := (held.value.stream, held.value.rest, held.value.endOfStream);
    var m' := m[k := m[k].(frames := [Data(rest, eos)] + m[k].frames)];
    PageOf(m, inFlight, held, books, k);
    BookPutBack(m[k], m'[k], rest, eos, books[k]);
    BufferedIs(m'[k], books[k]);
    PageTurned(m, m', inFlight, held, books, k, books[k], Nothing, None);
    assert books[k := books[k]] == books;
  }

  lemma BufferedIs(s: Stream, b: Book)
    requires Booked(s, [], false, b)
    ensures s.buffered == |DataOf(s.frames)|
  {
  }

  lemma HeldTogether(m: map<Key, Stream>, inFlight: InFlight, held: Option<Prioritized>)
    requires HeldOk(m, inFlight, held)
    ensures held.None? ==> inFlight == Nothing && InTheAir(inFlight, held) == None
    ensures held.Some? ==> inFlight.Drop? || inFlight == DataFrame(held.value.stream)
    ensures held.Some? && !inFlight.Drop? && held.value.rest != [] ==>
      InTheAir(inFlight, held) == Some(held.value.stream) && held.value.stream in m
    ensures held.Some? && (inFlight.Drop? || held.value.rest == []) ==> InTheAir(inFlight, held) == None
  {
  }

  /** The books after stream `k` gave up what it had queued and in flight. */
  lemma BooksCleared(m: map<Key, Stream>, m': map<Key, Stream>, inFlight: InFlight, held: Option<Prioritized>,
                     books: map<Key, Book>, k: Key, inFlight': InFlight)
    requires HeldOk(m, inFlight, held) && AllBooked(m, inFlight, held, books, None) && k in m
    requires m' == m[k := m[k].(frames := [], buffered := 0, requested := 0)] && m[k].state.Closed?
    requires inFlight' == if inFlight == DataFrame(k) then Drop else inFlight
    ensures HeldOk(m', inFlight', held) && k in books
    ensures AllBooked(m', inFlight', held, books[k := books[k].(dropped := true)], None)
  {
    hide DataOf, Booked, AllBooked;
    PageOf(m, inFlight, held, books, k);
    BookDropped(m[k], RestOf(inFlight, held, k), RestEnds(inFlight, held, k), books[k], m'[k]);
    PageTurned(m, m', inFlight, held, books, k, books[k].(dropped := true), inFlight', held);
  }

  /** What was given and sent stays on record; streams may have been added, and data given up. */
  ghost predicate SamePages(books: map<Key, Book>, books': map<Key, Book>) {
    && (forall k :: k in books ==>
        k in books' && books'[k] == books[k].(dropped := books'[k].dropped) && (books[k].dropped ==> books'[k].dropped))
    && (forall k :: k in books' && k !in books ==>
        books'[k].given == books'[k].sent == [] && !books'[k].closing && !books'[k].ended)
  }
}
