/** What the send side keeps of every stream, and the arithmetic of sharing one connection window among them. */
module SendFlow {
  import opened Headers
  import opened FlowControl
  import opened StreamState
  import opened StreamStore
  import opened Sums

  /** A queued frame. Of HEADERS only END_STREAM matters here. */
  datatype Frame = Data(payload: Bytes, eos: bool) | HeadersFrame(eos: bool) | ResetFrame

  /** The payload bytes queued, first to last. */
  function DataOf(frames: seq<Frame>): Bytes {
    if frames == [] then []
    else (if frames[0].Data? then frames[0].payload else []) + DataOf(frames[1..])
  }

  datatype Stream = Stream(state: State, isCounted: bool, refs: nat, flow: Flow, requested: nat, buffered: nat,
                           frames: seq<Frame>) {
    /** Nothing more can come of the stream. */
    predicate IsClosed() {
      state.Closed? && frames == [] && buffered == 0
    }

    /** The stream takes part in sharing out capacity. */
    predicate Active() {
      state.IsSendStreaming() || buffered > 0
    }

    /** The most capacity that may be assigned: what is asked for and what its own window admits. */
    function Want(): nat {
      Min(requested, flow.WindowSize())
    }

    predicate WithinWindow() {
      flow.available <= flow.WindowSize() && flow.window <= MAX_WINDOW_SIZE
    }

    /** Assigned capacity is within the window and within what was asked for, and at least what is buffered is
        asked for; a stream not yet open asks for nothing, and one that has not closed owes nothing. If capacity is
        accounted for exactly, none owes anything, and one closed for sending asks for no more than is buffered. */
    predicate Bounded(exact: bool) {
      && WithinWindow() && flow.available <= requested && |DataOf(frames)| <= buffered <= requested
      && (state.BeforeSending() ==> requested == 0)
      && (exact || !state.Closed? ==> flow.available >= 0)
      && (exact && state.IsSendClosed() ==> requested == buffered || (buffered == 0 && flow.available == 0))
    }

    /** More capacity would be of use. */
    predicate Starved() {
      Active() && flow.available < Want()
    }

    /** The first queued frame can go out. */
    predicate Ready() {
      frames != [] && !(frames[0].Data? && frames[0].payload != [] && flow.available == 0)
    }
  }

  // ----- sums over the slab

  /** What each stream holds. */
  ghost function Holdings(m: map<Key, Stream>): map<Key, int> {
    map k | k in m :: m[k].flow.available
  }

  /** The capacity all streams hold together. */
  ghost function Total(m: map<Key, Stream>): int {
    Sum(Holdings(m))
  }

  lemma TotalPut(m: map<Key, Stream>, k: Key, s: Stream)
    ensures Total(m[k := s]) == (if k in m then Total(m) - m[k].flow.available else Total(m)) + s.flow.available
  {
    assert Holdings(m[k := s]) == Holdings(m)[k := s.flow.available];
    SumPut(Holdings(m), k, s.flow.available);
  }

  lemma TotalWithout(m: map<Key, Stream>, k: Key)
    requires k in m
    ensures Total(m) == m[k].flow.available + Total(m - {k})
  {
    assert Holdings(m - {k}) == Holdings(m) - {k};
    SumWithout(Holdings(m), k);
  }

  lemma TotalAtLeast(m: map<Key, Stream>, k: Key)
    requires k in m && forall j :: j in m ==> m[j].flow.available >= 0
    ensures m[k].flow.available <= Total(m)
  {
    SumAtLeast(Holdings(m), k);
  }

  // ----- the state of all streams together

  /** Connection capacity is neither created nor lost: what is not assigned and what the streams hold make up
      the connection window. So it is while capacity is accounted for exactly. */
  ghost predicate Balanced(exact: bool, m: map<Key, Stream>, conn: Flow) {
    && conn.available >= 0 && 0 <= conn.window <= MAX_WINDOW_SIZE
    && (exact ==> conn.available + Total(m) == conn.window)
  }

  ghost predicate AllBounded(exact: bool, m: map<Key, Stream>) {
    forall k :: k in m ==> m[k].Bounded(exact)
  }

  /** Whoever could use more capacity waits in the queue for it (`but` may be about to). */
  ghost predicate AllFed(m: map<Key, Stream>, waiting: seq<Key>, but: Option<Key>) {
    forall k :: k in m && m[k].Starved() && Some(k) != but ==> k in waiting
  }

  /** Whoever can send is in the queue for sending, or still waits to be opened (`but` may be about to). */
  ghost predicate AllScheduled(m: map<Key, Stream>, sending: seq<Key>, opening: seq<Key>, but: Option<Key>) {
    forall k :: k in m && m[k].Ready() && k !in opening && Some(k) != but ==> k in sending
  }

  predicate Apart(sending: seq<Key>, opening: seq<Key>) {
    forall k :: k in sending ==> k !in opening
  }

  /** Everything about the sharing of capacity, `unfed` and `unscheduled` being streams yet to be queued. That nobody is
      left out holds while capacity is accounted for exactly. */
  ghost predicate Fit(exact: bool, m: map<Key, Stream>, conn: Flow, waiting: seq<Key>, sending: seq<Key>,
                      opening: seq<Key>, unfed: Option<Key>, unscheduled: Option<Key>) {
    && Balanced(exact, m, conn) && AllBounded(exact, m) && Apart(sending, opening)
    && (exact ==> AllFed(m, waiting, unfed) && AllScheduled(m, sending, opening, unscheduled))
  }

  lemma FitParts(exact: bool, m: map<Key, Stream>, conn: Flow, waiting: seq<Key>, sending: seq<Key>, opening: seq<Key>,
                 unfed: Option<Key>, unscheduled: Option<Key>, k: Key)
    requires Fit(exact, m, conn, waiting, sending, opening, unfed, unscheduled)
    ensures Apart(sending, opening) && conn.available >= 0
    ensures k in m ==> m[k].Bounded(exact) && m[k].WithinWindow() && m[k].flow.available <= m[k].requested
    ensures k in m && k in sending ==> k !in opening
  {
    hide Total;
  }

  /** What holds with exact accounting holds without. */
  lemma FitAnyhow(m: map<Key, Stream>, conn: Flow, waiting: seq<Key>, sending: seq<Key>, opening: seq<Key>,
                  unfed: Option<Key>, unscheduled: Option<Key>)
    requires Fit(true, m, conn, waiting, sending, opening, unfed, unscheduled)
    ensures Fit(false, m, conn, waiting, sending, opening, unfed, unscheduled)
  {
  }

  lemma ApartStill(sending: seq<Key>, opening: seq<Key>, k: Key)
    requires Apart(sending, opening) && k !in opening
    ensures Apart(sending + [k], opening)
  {
  }

  /** Capacity is left over only when nobody waits for it. */
  predicate NoSpare(conn: Flow, waiting: seq<Key>) {
    conn.available > 0 ==> waiting == []
  }

  /** The allocation is work-conserving: while any connection capacity is unassigned, every stream that takes
      part has all it asks for or all its window admits. */
  lemma WorkConserving(m: map<Key, Stream>, conn: Flow, waiting: seq<Key>, k: Key)
    requires AllBounded(true, m) && AllFed(m, waiting, None) && NoSpare(conn, waiting)
    requires k in m && m[k].Active() && conn.available > 0
    ensures m[k].flow.available == m[k].Want()
  {
  }

  /** No stream holds more than the connection window, so no DATA frame exceeds it. */
  lemma WithinConnection(m: map<Key, Stream>, conn: Flow, k: Key)
    requires Balanced(true, m, conn) && AllBounded(true, m) && k in m
    ensures m[k].flow.available <= conn.window
  {
    TotalAtLeast(m, k);
  }

  /** A stream that can be removed holds nothing. */
  lemma ClosedHoldsNothing(s: Stream)
    requires s.Bounded(true) && s.IsClosed()
    ensures s.flow.available == 0
  {
  }

  // ----- steps

  /** Some streams were assigned capacity, and nothing else happened to any. */
  ghost predicate Grants(m: map<Key, Stream>, m': map<Key, Stream>) {
    && m'.Keys == m.Keys
    && forall k :: k in m ==> Granted(m[k], m'[k])
  }

  predicate Granted(s: Stream, s': Stream) {
    s' == s.(flow := Flow(s.flow.window, s'.flow.available)) && s.flow.available <= s'.flow.available
  }

  lemma NothingGranted(m: map<Key, Stream>)
    ensures Grants(m, m)
  {
  }

  /** Taking the first off the queue for capacity leaves at most that one unfed, and not if it takes no part. */
  lemma PoppedUnfed(exact: bool, m: map<Key, Stream>, conn: Flow, waiting: seq<Key>, waiting': seq<Key>,
                    sending: seq<Key>, opening: seq<Key>, k: Key, unscheduled: Option<Key>)
    requires Fit(exact, m, conn, waiting, sending, opening, None, unscheduled) && waiting == [k] + waiting'
    ensures Fit(exact, m, conn, waiting', sending, opening, Some(k), unscheduled)
    ensures k in m && !m[k].Active() ==> Fit(exact, m, conn, waiting', sending, opening, None, unscheduled)
  {
    hide Balanced, AllBounded, AllScheduled, Apart;
  }

  /** Nobody new waits for capacity, and whoever is newly in line for sending takes part. */
  ghost predicate NobodyNew(m: map<Key, Stream>, waiting: seq<Key>, waiting': seq<Key>, sending: seq<Key>,
                            sending': seq<Key>) {
    && (forall j :: j in waiting' ==> j in waiting)
    && (forall j :: j in sending' ==> j in sending || (j in m && m[j].Active()))
  }

  lemma NobodyNewWaits(m: map<Key, Stream>, waiting: seq<Key>, waiting': seq<Key>, sending: seq<Key>,
                       sending': seq<Key>)
    requires NobodyNew(m, waiting, waiting', sending, sending')
    ensures forall j :: j in waiting' ==> j in waiting
  {
  }

  lemma NobodyNewYet(m: map<Key, Stream>, waiting: seq<Key>, sending: seq<Key>)
    ensures NobodyNew(m, waiting, waiting, sending, sending)
  {
  }

  lemma NobodyNewStill(m: map<Key, Stream>, m': map<Key, Stream>, waiting: seq<Key>, mid: seq<Key>, waiting': seq<Key>,
                       sending: seq<Key>, sending1: seq<Key>, sending': seq<Key>)
    requires NobodyNew(m, waiting, mid, sending, sending1) && NobodyNew(m', mid, waiting', sending1, sending')
      && Grants(m, m')
    ensures NobodyNew(m', waiting, waiting', sending, sending')
  {
  }

  /** Whoever is newly in line, for capacity or for sending, takes part; nothing is said of `but`. */
  ghost predicate NewTakePart(m: map<Key, Stream>, waiting: seq<Key>, waiting': seq<Key>, sending: seq<Key>,
                              sending': seq<Key>, but: Option<Key>) {
    && (forall j: Key :: Some(j) != but && j in waiting' ==> j in waiting || (j in m && m[j].Active()))
    && (forall j: Key :: Some(j) != but && j in sending' ==> j in sending || (j in m && m[j].Active()))
  }

  lemma NobodyNewTakePart(m: map<Key, Stream>, waiting: seq<Key>, waiting': seq<Key>, sending: seq<Key>,
                          sending': seq<Key>, but: Option<Key>)
    requires NobodyNew(m, waiting, waiting', sending, sending')
      || NewTakePart(m, waiting, waiting', sending, sending', None)
    ensures NewTakePart(m, waiting, waiting', sending, sending', but)
  {
  }

  lemma NewTakePartAgain(m: map<Key, Stream>, m': map<Key, Stream>, k: Key, s: Stream, waiting: seq<Key>, mid: seq<Key>,
                         waiting': seq<Key>, sending: seq<Key>, sending1: seq<Key>, sending': seq<Key>)
    requires NewTakePart(m, waiting, mid, sending, sending1, Some(k))
      && NewTakePart(m', mid, waiting', sending1, sending', Some(k))
    requires Adjusted(m, m', k, s)
    ensures NewTakePart(m', waiting, waiting', sending, sending', Some(k))
  {
  }

  lemma GrantsTransitive(a: map<Key, Stream>, b: map<Key, Stream>, c: map<Key, Stream>)
    requires Grants(a, b) && Grants(b, c)
    ensures Grants(a, c)
  {
  }

  /** What a stream wants beyond what it holds. */
  function Additional(s: Stream): (n: nat)
    requires s.WithinWindow() && s.flow.available <= s.requested
    ensures s.flow.available + n <= s.Want() && (s.flow.available >= 0 ==> s.flow.available + n == s.Want())
  {
    s.Want() - AsSize(s.flow.available)
  }

  /** What a stream gets when capacity is assigned. */
  function Share(s: Stream, conn: Flow): (n: nat)
    requires s.WithinWindow() && s.flow.available <= s.requested && conn.available >= 0
    ensures n <= conn.available && s.flow.available + n <= s.Want()
    ensures n > 0 <==> Additional(s) > 0 && conn.available > 0
    ensures s.flow.available >= 0 && s.flow.available + n < s.Want() ==> n == conn.available
  {
    Min(conn.available, Additional(s))
  }

  /** The share as the source computes it, and when more is still wanted. */
  lemma ShareSteps(s: Stream, conn: Flow)
    requires s.WithinWindow() && s.flow.available <= s.requested && conn.available >= 0
    ensures Additional(s) == Min(s.requested - AsSize(s.flow.available), s.flow.WindowSize() - AsSize(s.flow.available))
    ensures Share(s, conn) == Min(AsSize(conn.available), Additional(s))
    ensures var s' := s.(flow := s.flow.Assign(Share(s, conn)));
      && (Additional(s) > 0 ==>
          ((s'.flow.available < s.requested && s'.flow.HasUnavailable()) <==> s'.flow.available < s'.Want()))
      && s'.Want() == s.Want()
      && (s.flow.available >= 0 && s'.flow.available < s'.Want() ==> conn.available == Share(s, conn))
      && (s.flow.available >= 0 && Additional(s) == 0 ==> s'.flow.available == s'.Want())
  {
  }

  lemma ShareKeeps(exact: bool, m: map<Key, Stream>, conn: Flow, k: Key)
    requires k in m && Balanced(exact, m, conn) && m[k].Bounded(exact) && (m[k].Active() || Additional(m[k]) == 0)
    ensures var n := Share(m[k], conn);
      var s' := m[k].(flow := m[k].flow.Assign(n));
      Balanced(exact, m[k := s'], conn.Claim(n)) && s'.Bounded(exact) && Grants(m, m[k := s'])
  {
    TotalPut(m, k, m[k].(flow := m[k].flow.Assign(Share(m[k], conn))));
  }

  /** A stream given its share, and queued where it should be: no gap is left. */
  lemma ShareFits(exact: bool, m: map<Key, Stream>, conn: Flow, waiting: seq<Key>, sending: seq<Key>, opening: seq<Key>,
                  waiting': seq<Key>, sending': seq<Key>, k: Key, unscheduled: Option<Key>)
    requires k in m && m[k].Bounded(exact) && Fit(exact, m, conn, waiting, sending, opening, Some(k), unscheduled)
    requires m[k].Active() || Additional(m[k]) == 0
    requires forall j :: j in waiting ==> j in waiting'
    requires forall j :: j in sending ==> j in sending'
    requires Apart(sending', opening)
    requires exact && m[k].flow.available + Share(m[k], conn) < m[k].Want() ==> k in waiting'
    requires exact && m[k].flow.available < m[k].Want() && m[k].buffered > 0 && k !in opening ==> k in sending'
    ensures var n := Share(m[k], conn);
      var s' := m[k].(flow := m[k].flow.Assign(n));
      Fit(exact, m[k := s'], conn.Claim(n), waiting', sending', opening, None, unscheduled) && Grants(m, m[k := s'])
  {
    ShareKeeps(exact, m, conn, k);
  }

  /** While capacity is accounted for exactly, what is assigned passes the assertions on both windows. */
  lemma WindowsSuffice(m: map<Key, Stream>, conn: Flow, k: Key, n: nat)
    requires k in m && Balanced(true, m, conn) && AllBounded(true, m) && n <= m[k].flow.available
    requires n > 0 || m[k].flow.window >= 0
    ensures m[k].flow.CanSend(n) && conn.Assign(n).CanSend(n)
  {
    WithinConnection(m, conn, k);
  }

  /** Sending takes the same amount off the stream, the connection window, and what is asked for and buffered. */
  lemma SendKeeps(exact: bool, m: map<Key, Stream>, conn: Flow, k: Key, n: nat, rest: seq<Frame>)
    requires k in m && Balanced(exact, m, conn) && AllBounded(exact, m) && n <= AsSize(m[k].flow.available)
      && n + |DataOf(rest)| <= m[k].buffered
    requires m[k].flow.CanSend(n) && conn.Assign(n).CanSend(n)
    ensures n <= m[k].requested
    ensures var s' := Sent(m[k], n, rest);
      && Balanced(exact, m[k := s'], conn.Assign(n).SendData(n)) && AllBounded(exact, m[k := s'])
      && (s'.Starved() ==> m[k].Starved())
  {
    hide Total, Stream.Bounded;
    SentBounded(exact, m[k], n, rest);
    TotalPut(m, k, Sent(m[k], n, rest));
  }

  lemma SentBounded(exact: bool, s: Stream, n: nat, rest: seq<Frame>)
    requires s.Bounded(exact) && n <= AsSize(s.flow.available) && n + |DataOf(rest)| <= s.buffered && s.flow.CanSend(n)
    ensures n <= s.requested
    ensures var s' := Sent(s, n, rest); s'.Bounded(exact) && (s'.Starved() ==> s.Starved())
  {
  }

  /** A stream after `n` of its bytes were sent, with `rest` still queued. */
  function Sent(s: Stream, n: nat, rest: seq<Frame>): Stream
    requires s.flow.CanSend(n) && n <= s.requested && n <= s.buffered
  {
    s.(flow := s.flow.SendData(n), requested := s.requested - n, buffered := s.buffered - n, frames := rest)
  }

  // ----- one stream out of line

  /** Everything is as it should be for all streams but `k`. */
  ghost predicate FitOthers(exact: bool, m: map<Key, Stream>, conn: Flow, waiting: seq<Key>, sending: seq<Key>,
                            opening: seq<Key>, k: Key, unscheduled: Option<Key>) {
    && Balanced(exact, m, conn) && Apart(sending, opening)
    && (forall j :: j in m && j != k ==> m[j].Bounded(exact))
    && (exact ==>
         && (forall j :: j in m && j != k && m[j].Starved() ==> j in waiting)
         && (forall j :: j in m && j != k && m[j].Ready() && j !in opening && Some(j) != unscheduled ==> j in sending))
  }

  lemma FitIsFitOthers(exact: bool, m: map<Key, Stream>, conn: Flow, waiting: seq<Key>, sending: seq<Key>,
                       opening: seq<Key>, k: Key, unscheduled: Option<Key>)
    requires Fit(exact, m, conn, waiting, sending, opening, None, unscheduled)
    ensures FitOthers(exact, m, conn, waiting, sending, opening, k, unscheduled)
    ensures k in m ==> m[k].Bounded(exact) && (exact && m[k].Starved() ==> k in waiting)
    ensures exact && k in m && m[k].Ready() && k !in opening && Some(k) != unscheduled ==> k in sending
  {
    hide Total;
  }

  /** Putting stream `k` right, and giving back what it no longer holds, puts everything right. */
  lemma Mended(exact: bool, m: map<Key, Stream>, conn: Flow, waiting: seq<Key>, sending: seq<Key>, opening: seq<Key>,
               sending': seq<Key>, k: Key, s': Stream, n: nat, unfed: Option<Key>, unscheduled: Option<Key>)
    requires k in m && FitOthers(exact, m, conn, waiting, sending, opening, k, unscheduled) && s'.Bounded(exact)
    requires s'.flow.available == m[k].flow.available - n && conn.available + n >= 0
    requires forall j :: j in sending ==> j in sending'
    requires Apart(sending', opening)
    requires exact && s'.Starved() && Some(k) != unfed ==> k in waiting
    requires exact && s'.Ready() && k !in opening && Some(k) != unscheduled ==> k in sending'
    ensures Fit(exact, m[k := s'], conn.Assign(n), waiting, sending', opening, unfed, unscheduled)
  {
    TotalPut(m, k, s');
  }

  /** The same while `k` is still out of line. */
  lemma StillOthers(exact: bool, m: map<Key, Stream>, conn: Flow, waiting: seq<Key>, sending: seq<Key>,
                    opening: seq<Key>, sending': seq<Key>, k: Key, s': Stream, unscheduled: Option<Key>)
    requires k in m && FitOthers(exact, m, conn, waiting, sending, opening, k, unscheduled)
    requires s'.flow.available == m[k].flow.available && (forall j :: j in sending ==> j in sending')
      && Apart(sending', opening)
    ensures FitOthers(exact, m[k := s'], conn, waiting, sending', opening, k, unscheduled)
  {
    TotalPut(m, k, s');
  }

  /** What a stream must keep to even while it is being changed. */
  predicate Loose(exact: bool, s: Stream) {
    && (exact || !s.state.Closed? ==> s.flow.available >= 0)
    && s.WithinWindow() && s.flow.available <= s.requested && |DataOf(s.frames)| <= s.buffered <= s.requested
    && !s.state.BeforeSending()
  }

  /** Others were at most granted capacity, and `k` became `s` but for the capacity it holds. */
  ghost predicate Adjusted(m: map<Key, Stream>, m': map<Key, Stream>, k: Key, s: Stream) {
    && k in m && m'.Keys == m.Keys
    && (forall j :: j in m && j != k ==> Granted(m[j], m'[j]))
    && m'[k] == s.(flow := Flow(s.flow.window, m'[k].flow.available))
  }

  lemma AdjustedTransitive(m: map<Key, Stream>, mid: map<Key, Stream>, m': map<Key, Stream>, k: Key, s: Stream,
                           s': Stream)
    requires Adjusted(m, mid, k, s) && Adjusted(mid, m', k, s')
    ensures Adjusted(m, m', k, s')
  {
  }

  lemma AdjustedSet(m: map<Key, Stream>, k: Key, s: Stream)
    requires k in m
    ensures Adjusted(m, m[k := s], k, s)
  {
  }

  lemma SetThenGranted(m: map<Key, Stream>, k: Key, s: Stream, m': map<Key, Stream>)
    requires k in m && Grants(m[k := s], m')
    ensures Adjusted(m, m', k, s)
  {
  }

  function WithFrame(s: Stream, f: Frame): Stream {
    s.(frames := s.frames + [f])
  }

  /** A stream with a payload taken in. */
  function Taken(s: Stream, payload: Bytes, eos: bool): Stream
    requires s.state.IsSendStreaming()
  {
    WithFrame(if eos then Closing(Buffered(s, |payload|)) else Buffered(s, |payload|), Data(payload, eos))
  }

  /** A stream with `n` more bytes buffered, asking for no less than that. */
  function Buffered(s: Stream, n: nat): Stream {
    s.(buffered := s.buffered + n, requested := if s.requested < s.buffered + n then s.buffered + n else s.requested)
  }

  /** A stream closed for sending, asking for no more than is buffered. */
  function Closing(s: Stream): Stream
    requires s.state.IsSendStreaming()
  {
    s.(state := s.state.SendClose(), requested := s.buffered)
  }

  /** A stream asking for `capacity` beyond what is buffered. */
  function Asking(s: Stream, capacity: nat): Stream {
    if capacity + s.buffered > s.requested && s.state.IsSendClosed() then s else s.(requested := capacity + s.buffered)
  }

  lemma AdjustedAt(m: map<Key, Stream>, m': map<Key, Stream>, k: Key, s: Stream)
    requires Adjusted(m, m', k, s)
    ensures k in m && m'.Keys == m.Keys && m'[k] == s.(flow := Flow(s.flow.window, m'[k].flow.available))
    ensures m'[k].IsClosed() <==> s.IsClosed()
  {
  }

  lemma SameButAvailable(m: map<Key, Stream>, m': map<Key, Stream>, k: Key, s: Stream, s': Stream)
    requires Adjusted(m, m', k, s) && s' == s.(flow := Flow(s.flow.window, s'.flow.available))
    ensures Adjusted(m, m', k, s')
  {
  }

  // ----- sending

  /** The first stream taken off the queue for sending: the others are still as they should be. */
  lemma PoppedOthers(exact: bool, m: map<Key, Stream>, conn: Flow, waiting: seq<Key>, sending: seq<Key>,
                     opening: seq<Key>, k: Key)
    requires k in m && Fit(exact, m, conn, waiting, [k] + sending, opening, None, None)
    ensures FitOthers(exact, m, conn, waiting, sending, opening, k, None)
    ensures k !in opening && Apart(sending, opening)
    ensures m[k].Bounded(exact) && m[k].WithinWindow() && m[k].flow.available <= m[k].requested
      && m[k].buffered <= m[k].requested
    ensures exact && m[k].Starved() ==> k in waiting
  {
    hide Total;
    assert forall j :: j in sending ==> j in [k] + sending;
    assert k in [k] + sending;
  }

  /** A stream that has nothing it can send stays off the queue. */
  lemma NotSendingFits(exact: bool, m: map<Key, Stream>, conn: Flow, waiting: seq<Key>, sending: seq<Key>,
                       opening: seq<Key>, k: Key)
    requires k in m && Fit(exact, m, conn, waiting, [k] + sending, opening, None, None) && !m[k].Ready()
    ensures Fit(exact, m, conn, waiting, sending, opening, None, None)
  {
    hide Stream.Ready, Stream.Starved, Stream.Bounded;
    PoppedOthers(exact, m, conn, waiting, sending, opening, k);
    Mended(exact, m, conn, waiting, sending, opening, sending, k, m[k], 0, None, None);
    assert m[k := m[k]] == m;
  }

  /** A slice sent: all is well, the windows were wide enough, and the stream is queued again if it has more. */
  lemma SliceFits(exact: bool, m: map<Key, Stream>, conn: Flow, waiting: seq<Key>, sending: seq<Key>, opening: seq<Key>,
                  sending': seq<Key>, k: Key, n: nat, rest: seq<Frame>, unscheduled: Option<Key>)
    requires k in m && Fit(exact, m, conn, waiting, [k] + sending, opening, None, None)
    requires n <= AsSize(m[k].flow.available) && n + |DataOf(rest)| <= m[k].buffered
    requires m[k].flow.CanSend(n) && conn.Assign(n).CanSend(n)
    requires (forall j :: j in sending ==> j in sending') && Apart(sending', opening) && (rest != [] ==> k in sending')
    ensures n <= m[k].requested
    ensures Fit(exact, m[k := Sent(m[k], n, rest)], conn.Assign(n).SendData(n), waiting, sending', opening, None,
                unscheduled)
  {
    hide Total;
    PoppedOthers(exact, m, conn, waiting, sending, opening, k);
    SendKeeps(exact, m, conn, k, n, rest);
  }

  /** A frame without payload sent, or a reset at last. */
  lemma ControlFits(exact: bool, m: map<Key, Stream>, conn: Flow, waiting: seq<Key>, sending: seq<Key>,
                    opening: seq<Key>, sending': seq<Key>, k: Key, s': Stream)
    requires k in m && Fit(exact, m, conn, waiting, [k] + sending, opening, None, None)
    requires s' == m[k].(frames := s'.frames, state := s'.state) && DataOf(s'.frames) == DataOf(m[k].frames)
    requires s'.state == m[k].state || (m[k].state.Closed? && s'.state.Closed?)
    requires (forall j :: j in sending ==> j in sending') && Apart(sending', opening)
      && (s'.frames != [] ==> k in sending')
    ensures Fit(exact, m[k := s'], conn, waiting, sending', opening, None, None)
  {
    hide Total, DataOf;
    PoppedOthers(exact, m, conn, waiting, sending, opening, k);
    Mended(exact, m, conn, waiting, sending, opening, sending', k, s', 0, None, None);
  }

  lemma HeadFits(exact: bool, s: Stream)
    requires s.Bounded(exact) && s.frames != [] && s.frames[0].Data?
    ensures |s.frames[0].payload| + |DataOf(s.frames[1..])| <= s.buffered
  {
  }

  // ----- streams that come, go on and go

  function NewStream(window: nat): Stream {
    Stream(Idle, false, 0, Flow(window, 0), 0, 0, [])
  }

  lemma NewFits(exact: bool, m: map<Key, Stream>, conn: Flow, waiting: seq<Key>, sending: seq<Key>, opening: seq<Key>,
                k: Key, window: nat, unscheduled: Option<Key>)
    requires k !in m && window <= MAX_WINDOW_SIZE && Fit(exact, m, conn, waiting, sending, opening, None, unscheduled)
    ensures Fit(exact, m[k := NewStream(window)], conn, waiting, sending, opening, None, unscheduled)
  {
    TotalPut(m, k, NewStream(window));
  }

  /** A closed stream holds nothing, so taking it away upsets nothing. */
  lemma GoneFits(exact: bool, m: map<Key, Stream>, conn: Flow, waiting: seq<Key>, sending: seq<Key>, opening: seq<Key>,
                 k: Key, unscheduled: Option<Key>)
    requires k in m && m[k].IsClosed() && Fit(exact, m, conn, waiting, sending, opening, None, unscheduled)
    ensures Fit(exact, m - {k}, conn, waiting, sending, opening, None, unscheduled)
      && m[k].flow.available <= m[k].requested
    ensures exact ==> m[k].flow.available == 0
  {
    if exact {
      ClosedHoldsNothing(m[k]);
    }
    TotalWithout(m, k);
  }

  // ----- implicit reset

  /** What becomes of a stream nobody is interested in any more: a reset is scheduled, and what was asked for
      beyond the buffered data is taken back, whether or not it had been assigned. */
  function ImplicitlyReset(s: Stream): Stream {
    var reserved := if s.requested > s.buffered then s.requested - s.buffered else 0;
    s.(state := Closed(Scheduled), flow := s.flow.Claim(reserved))
  }

  /** The bounds survive that exactly if nothing was asked for beyond the buffered data, or all of it had been
      assigned and nothing is buffered. */
  lemma ImplicitResetKeepsBounds(s: Stream)
    requires s.Bounded(true)
    ensures ImplicitlyReset(s).Bounded(true) <==> Reclaimable(s)
  {
  }

  predicate Reclaimable(s: Stream) {
    s.requested == s.buffered || (s.buffered == 0 && s.flow.available == s.requested)
  }

  /** Otherwise, if less had been assigned than is taken back, the stream is left owing the rest, and what the
      connection and the other streams have to send exceeds the window by as much. */
  lemma ImplicitResetOwes(m: map<Key, Stream>, conn: Flow, k: Key)
    requires Balanced(true, m, conn) && k in m && m[k].Bounded(true)
      && m[k].flow.available < m[k].requested - m[k].buffered
    ensures var s, reserved := ImplicitlyReset(m[k]), m[k].requested - m[k].buffered;
      && s.flow.available < 0
      && conn.Assign(reserved).available + Total(m[k := s]) == conn.window
      && conn.Assign(reserved).available + Total(m - {k}) == conn.window - s.flow.available > conn.window
  {
    TotalPut(m, k, ImplicitlyReset(m[k]));
    TotalWithout(m, k);
  }

  /** It can come to that. A stream asks for 50 while its own window is
      empty; after the reset the connection believes it may send 150, its window being 100. */
  lemma ImplicitResetOverdraws(k: Key)
    ensures var s := Stream(Open(Streaming, Streaming), true, 0, Flow(0, 0), 50, 0, []);
      var conn := Flow(100, 100);
      && Fit(true, map[k := s], conn, [], [], [], None, None) && NoSpare(conn, [])
      && ImplicitlyReset(s).flow.available == -50
      && var conn' := conn.Assign(50);
      && conn'.available + Total(map[k := ImplicitlyReset(s)]) == conn'.window
      && !Balanced(true, map[], conn') && conn'.available == conn'.window + 50
  {
    var s := Stream(Open(Streaming, Streaming), true, 0, Flow(0, 0), 50, 0, []);
    TotalPut(map[], k, s);
    TotalPut(map[], k, ImplicitlyReset(s));
    assert map[][k := s] == map[k := s] && map[][k := ImplicitlyReset(s)] == map[k := ImplicitlyReset(s)];
  }

  /** A stream whose window was widened. */
  function Widened(s: Stream, inc: nat): Stream {
    s.(flow := s.flow.(window := s.flow.window + inc))
  }

  /** A stream closed by trailers. */
  function Trailing(s: Stream): Stream
    requires s.state.IsSendStreaming()
  {
    WithFrame(Closing(s), HeadersFrame(true))
  }

  /** A stream opened by HEADERS. */
  function Opened(s: Stream, eos: bool): Stream
    requires s.state.SendOpen(eos).Some?
  {
    WithFrame(s.(state := s.state.SendOpen(eos).value), HeadersFrame(eos))
  }

  lemma OpeningGrew(exact: bool, m: map<Key, Stream>, conn: Flow, waiting: seq<Key>, sending: seq<Key>,
                    opening: seq<Key>, k: Key, unscheduled: Option<Key>)
    requires FitOthers(exact, m, conn, waiting, sending, opening, k, unscheduled) && k !in sending
    ensures FitOthers(exact, m, conn, waiting, sending, opening + [k], k, unscheduled)
  {
    hide Total;
  }

  /** The first stream that waits to be opened moves on to the queue for sending. */
  lemma OpenFits(exact: bool, m: map<Key, Stream>, conn: Flow, waiting: seq<Key>, sending: seq<Key>, opening: seq<Key>,
                 k: Key, sending': seq<Key>, unscheduled: Option<Key>)
    requires Fit(exact, m, conn, waiting, sending, [k] + opening, None, unscheduled)
    requires (forall j :: j in sending' <==> j in sending || j == k) && k !in opening
    ensures Fit(exact, m, conn, waiting, sending', opening, None, unscheduled)
  {
    hide Balanced;
    assert forall j :: j in opening ==> j in [k] + opening;
  }

  // ----- settings

  /** A window made smaller by `dec`; what was assigned beyond it is given back. */
  function Shrunk(s: Stream, dec: nat): Stream {
    var f := s.flow.DecSendWindow(dec);
    s.(flow := if AsSize(f.available) > f.WindowSize() then f.Claim(AsSize(f.available) - f.WindowSize()) else f)
  }

  /** The windows of the listed streams were made smaller, and the others left alone. */
  ghost predicate AllShrunk(m: map<Key, Stream>, m': map<Key, Stream>, ids: seq<Key>, dec: nat) {
    && m'.Keys == m.Keys
    && forall k :: k in m ==> m'[k] == if k in ids then Shrunk(m[k], dec) else m[k]
  }

  /** A larger window is of no use to a stream that has sent all it ever will. */
  predicate DoneSending(s: Stream) {
    s.state.IsSendClosed() && s.buffered == 0
  }

  predicate TooWide(s: Stream, inc: nat) {
    !DoneSending(s) && s.flow.window + inc > MAX_WINDOW_SIZE
  }

  predicate WidenedTo(s: Stream, s': Stream, inc: nat) {
    if DoneSending(s) then Granted(s, s')
      else s' == Widened(s, inc).(flow := Flow(s.flow.window + inc, s'.flow.available))
  }

  /** The windows of the listed streams were made larger, those done with sending excepted, and what the connection
      had to give was given out. */
  ghost predicate AllWidened(m: map<Key, Stream>, m': map<Key, Stream>, ids: seq<Key>, inc: nat) {
    && m'.Keys == m.Keys
    && forall k :: k in m ==> if k in ids then WidenedTo(m[k], m'[k], inc) else Granted(m[k], m'[k])
  }

  lemma NoneWidened(m: map<Key, Stream>, inc: nat)
    ensures AllWidened(m, m, [], inc)
  {
  }

  lemma GrantedMore(s: Stream, mid: Stream, s': Stream, inc: nat)
    requires Granted(mid, s')
    ensures Granted(s, mid) ==> Granted(s, s')
    ensures WidenedTo(s, mid, inc) ==> WidenedTo(s, s', inc)
  {
  }

  lemma WidenedNow(s: Stream, mid: Stream, s': Stream, inc: nat)
    requires Granted(s, mid)
    ensures (DoneSending(mid) <==> DoneSending(s)) && (TooWide(mid, inc) <==> TooWide(s, inc))
    ensures DoneSending(mid) && s' == mid ==> WidenedTo(s, s', inc)
    ensures !DoneSending(mid) && s' == Widened(mid, inc).(flow := Flow(mid.flow.window + inc, s'.flow.available)) ==>
      WidenedTo(s, s', inc)
  {
  }

  lemma OneMoreWidened(m: map<Key, Stream>, mid: map<Key, Stream>, m': map<Key, Stream>, ids: seq<Key>, i: nat,
                       inc: nat)
    requires i < |ids| && NoDup(ids) && ids[i] in m && AllWidened(m, mid, ids[..i], inc)
    ensures ids[i] in mid && (DoneSending(mid[ids[i]]) <==> DoneSending(m[ids[i]]))
      && (TooWide(mid[ids[i]], inc) <==> TooWide(m[ids[i]], inc))
    ensures var k := ids[i];
      (if DoneSending(mid[k]) then m' == mid else Adjusted(mid, m', k, Widened(mid[k], inc))) ==>
        AllWidened(m, m', ids[..i + 1], inc)
  {
    var now := ids[i];
    assert forall k :: k in ids[..i + 1] <==> k in ids[..i] || k == now;
    assert now !in ids[..i];
    WidenedNow(m[now], mid[now], if now in m' then m'[now] else mid[now], inc);
    if if DoneSending(mid[now]) then m' == mid else Adjusted(mid, m', now, Widened(mid[now], inc)) {
      forall k | k in m ensures if k in ids[..i + 1] then WidenedTo(m[k], m'[k], inc) else Granted(m[k], m'[k]) {
        hide WidenedTo, Granted, DoneSending, TooWide;
        if k != now {
          AdjustedOther(mid, m', now, k, DoneSending(mid[now]), inc);
          GrantedMore(m[k], mid[k], m'[k], inc);
        }
      }
    }
  }

  lemma AdjustedOther(m: map<Key, Stream>, m': map<Key, Stream>, k: Key, j: Key, same: bool, inc: nat)
    requires k in m && j in m && j != k
    requires if same then m' == m else Adjusted(m, m', k, Widened(m[k], inc))
    ensures j in m' && Granted(m[j], m'[j])
  {
  }

  lemma ShrinkFits(exact: bool, m: map<Key, Stream>, conn: Flow, waiting: seq<Key>, sending: seq<Key>,
                   opening: seq<Key>, k: Key, dec: nat, unscheduled: Option<Key>)
    requires k in m && Fit(exact, m, conn, waiting, sending, opening, None, unscheduled)
    ensures var s' := Shrunk(m[k], dec);
      && s'.flow.available <= m[k].flow.available
      && Fit(exact, m[k := s'], conn.Assign(m[k].flow.available - s'.flow.available), waiting, sending, opening, None,
             unscheduled)
  {
    hide Total;
    var s' := Shrunk(m[k], dec);
    FitIsFitOthers(exact, m, conn, waiting, sending, opening, k, unscheduled);
    Mended(exact, m, conn, waiting, sending, opening, sending, k, s', m[k].flow.available - s'.flow.available, None,
           unscheduled);
  }

  /** A window made smaller and then wider again by the same amount is what it was, except on a stream that is
      closed for sending with nothing buffered: its window is left behind. */
  lemma ShrinkThenWiden(s: Stream, d: nat)
    requires d > 0
    ensures var shrunk := Shrunk(s, d);
      var after := if shrunk.state.IsSendClosed() && shrunk.buffered == 0 then shrunk else Widened(shrunk, d);
      (after.flow.window == s.flow.window) <==> !(s.state.IsSendClosed() && s.buffered == 0)
  {
  }

  /** So a peer that moves its initial window to and fro takes such a window below what 32 bits hold. */
  lemma LeftBehindForGood(s: Stream)
    requires DoneSending(s) && s.flow.window <= MAX_WINDOW_SIZE
    ensures var thrice := Shrunk(Shrunk(Shrunk(s, MAX_WINDOW_SIZE), MAX_WINDOW_SIZE), MAX_WINDOW_SIZE);
      DoneSending(thrice) && !InI32(thrice.flow.window)
  {
  }

  ghost predicate AllClosed(m: map<Key, Stream>) {
    forall k :: k in m ==> m[k].IsClosed()
  }

  lemma TotalOfClosed(m: map<Key, Stream>)
    requires AllBounded(true, m) && AllClosed(m)
    ensures Total(m) == 0
  {
    forall k | k in m ensures m[k].flow.available == 0 {
      ClosedHoldsNothing(m[k]);
    }
    SumBounds(Holdings(m));
  }

  /** Once all streams are closed the queues do not matter: nobody wants capacity and nobody has a frame. */
  lemma ClosedFits(exact: bool, m: map<Key, Stream>, conn: Flow, waiting: seq<Key>, sending: seq<Key>,
                   opening: seq<Key>, waiting': seq<Key>, sending': seq<Key>, opening': seq<Key>,
                   unscheduled: Option<Key>)
    requires Fit(exact, m, conn, waiting, sending, opening, None, unscheduled) && AllClosed(m)
    requires (forall k :: k in sending' ==> k in sending) && (forall k :: k in opening' ==> k in opening)
    ensures Fit(exact, m, conn, waiting', sending', opening', None, unscheduled)
  {
  }
}
