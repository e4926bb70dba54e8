/** Whole runs of a connection: whatever the user, the peer and the codec do, in whatever order. */
module StreamRuns {
  import opened Headers
  import opened FlowControl
  import opened StreamState
  import opened StreamStore
  import opened SendFlow
  import opened Sharing
  import opened SendBooks
  import opened Prioritize
  import opened Streams
  import opened StreamCourse
  import StreamLife

  /** What can happen to a connection. */
  datatype Event =
    | Request(eos: bool, pending: Option<Key>, sendable: bool)
    | Incoming(k: Key, eos: bool, bad: bool)
    | Accept
    | Clone(k: Key)
    | DropHandle(k: Key)
    | Respond(k: Key, eos: bool)
    | Send(k: Key, payload: Bytes, eos: bool)
    | Trailers(k: Key)
    | Reserve(k: Key, capacity: nat)
    | Reset(k: Key)
    | PeerHeaders(k: Key, eos: bool, bad: bool)
    | PeerEndsStream(k: Key)
    | PeerResets(k: Key)
    | StreamError(k: Key)
    | StreamWindow(k: Key, inc: nat)
    | ConnectionWindow(inc: nat)
    | InitialWindow(val: nat)
    | MaxStreams(max: nat)
    | ResetExpires
    | GoAway(last: nat)
    | AnnounceLast(last: nat)
    | Failure(cause: Cause)
    | Eof(clearPendingAccept: bool)
    | Write(maxLen: nat)
  {
    /** The stream it is about, if it is about one. */
    function OnStream(): Option<Key> {
      match this
      case Incoming(k, _, _) => Some(k)
      case DropHandle(k) => Some(k)
      case Send(k, _, _) => Some(k)
      case Trailers(k) => Some(k)
      case Reserve(k, _) => Some(k)
      case Reset(k) => Some(k)
      case PeerHeaders(k, _, _) => Some(k)
      case PeerResets(k) => Some(k)
      case StreamError(k) => Some(k)
      case StreamWindow(k, _) => Some(k)
      case _ => None
    }
  }

  /** What came of it. `Upset`: the last handle was dropped of an open stream that was not `Reclaimable`. `Panicked`:
      the assertion of a window failed on sending from `stream`. */
  datatype Outcome =
    | Quiet
    | Accepted(k: Key, payload: Bytes, eos: bool)
    | Written(slice: Outgoing)
    | Upset(k: Key)
    | Panicked(stream: Stream, maxLen: nat, conn: Flow)

  /** An event that can happen: it is about a stream that exists, and a handle is dropped or cloned by whom has one. */
  predicate CanHappen(c: Connection, e: Event)
    reads c, c.store
  {
    match e
    case Request(_, pending, _) => pending.Some? ==> pending.value in c.store.slab
    case Incoming(k, _, _) => c.isServer && k > 0 && k !in c.store.ids
    case Clone(k) => k in c.store.slab && c.store.slab[k].refs > 0
    case DropHandle(k) => k in c.store.slab && c.store.slab[k].refs > 0
    case Respond(k, _) => k in c.store.slab && !StreamLife.Local(c.isServer, k)
    case Send(k, _, _) => k in c.store.slab
    case Trailers(k) => k in c.store.slab
    case Reserve(k, _) => k in c.store.slab && !c.store.slab[k].state.BeforeSending()
    case Reset(k) => k in c.store.slab
    case PeerHeaders(k, _, _) => k in c.store.slab && !c.store.slab[k].state.Idle?
    case PeerEndsStream(k) => k in c.store.slab
    case PeerResets(k) => k in c.store.slab
    case StreamError(k) => k in c.store.slab
    case StreamWindow(k, _) => k in c.store.slab
    case InitialWindow(val) => val <= MAX_WINDOW_SIZE
    case AnnounceLast(last) => last <= c.maxRecvId
    case Write(maxLen) => maxLen > 0
    case _ => true
  }

  /** An event that may hand on connection capacity. */
  predicate Shares(e: Event) {
    match e
    case Request(_, _, _) => false
    case Incoming(_, _, bad) => bad
    case Accept => false
    case Clone(_) => false
    case Respond(_, _) => false
    case PeerEndsStream(_) => false
    case MaxStreams(_) => false
    case ResetExpires => false
    case AnnounceLast(_) => false
    case Write(_) => false
    case _ => true
  }

  /** Which marks an event may leave on streams. */
  predicate Admits(e: Event, mark: Mark) {
    match mark
    case Neither => true
    case Sender(k, to) =>
      to != Waiting && (e == Respond(k, to == Done) || (e.Request? && e.eos == (to == Done))
                        || (e.Send? && e.k == k && e.eos == (to == Done)) || (e == Trailers(k) && to == Done))
    case Receiver(k, to) =>
      to != Waiting && (e == Incoming(k, to == Done, false) || e == PeerHeaders(k, to == Done, false)
                        || (e == PeerEndsStream(k) && to == Done))
    case GivenUp(k) =>
      || e == Reset(k) || e == PeerResets(k) || e == StreamError(k) || e == DropHandle(k)
      || e.InitialWindow? || (e.StreamWindow? && e.k == k) || (e.Incoming? && e.k == k && e.bad)
      || (e.PeerHeaders? && e.k == k && (e.bad || !e.eos))
    case GivenUpBeyond(last) => (e.GoAway? && e.last == last) || (last == -1 && (e.Failure? || e.Eof?))
  }

  /** How the books go on with an outcome. */
  ghost predicate Continues(books: map<Key, Book>, books': map<Key, Book>, o: Outcome) {
    match o
    case Quiet => SamePages(books, books')
    case Upset(_) => SamePages(books, books')
    case Accepted(k, payload, eos) =>
      k in books && !books[k].ended && books' == books[k := books[k].Give(payload, eos)]
    case Written(slice) => slice.Slice? && Entered(books, books', slice)
    case Panicked(_, _, _) => true
  }

  /** A panic: a window is too small for a slice, or negative under an empty payload; only the latter while capacity
      is accounted for exactly. */
  ghost predicate Explained(o: Outcome, exact: bool) {
    o.Panicked? ==> Fails(o.stream, o.maxLen, o.conn) && (exact ==> EmptyOnNegative(o.stream))
  }

  lemma SameIsSame(books: map<Key, Book>)
    ensures SamePages(books, books)
  {
  }

  /** All that is promised of every event. */
  twostate predicate Handled(c: Connection, e: Event, o: Outcome)
    reads c, c.store, c.prio, c.prio.store
  {
    && (o.Panicked? || c.Valid())
    && Continues(old(c.prio.books), c.prio.books, o)
    && (o.Accepted? <==>
         && e.Send? && |e.payload| <= MAX_WINDOW_SIZE && e.k in old(c.store.slab)
         && old(c.store.slab)[e.k].state.IsSendStreaming())
    && (o.Accepted? ==> o.k == e.k && o.payload == e.payload && o.eos == e.eos)
    && (o.Written? || o.Panicked? ==> e.Write?)
    && (o.Upset? <==> e.DropHandle? && e.k in old(c.store.slab) && c.Upsets(old(c.store.slab)[e.k]))
    && c.prio.exact == (old(c.prio.exact) && !o.Upset?) && Explained(o, c.prio.exact)
    && (!o.Panicked? ==>
         if !Shares(e) then c.LosesNone()
         else if EndsAll(e) then c.LosesOnlyWaiters()
         else c.LosesServed() || (e.OnStream().Some? && c.LosesExactly(e.OnStream().value)))
    && ToldBefore(c, e)
  }

  /** After an update of the connection window, or the reset of a stream by either side, which streams get lost can be
      told from the state before. */
  twostate predicate ToldBefore(c: Connection, e: Event)
    reads c, c.store, c.prio
  {
    var m, available := old(c.store.slab), old(c.prio.flow).available;
    c.prio.exact ==>
      match e
      case ConnectionWindow(inc) =>
        old(c.prio.flow).window + inc <= MAX_WINDOW_SIZE ==> c.LosesInTurn(m, available + inc, None)
      case PeerResets(k) =>
        k in m ==> c.LosesInTurn(m[k := Relieved(Ended(m[k], m[k].state.RecvReset(k in old(c.store.Queue(NextSend))),
                                                       []))], available + AsSize(m[k].flow.available), Some(k))
      case Reset(k) => k in m ==> c.LosesInTurn(m[k := Prioritize.Reset(m[k])], available + Reclaimed(m[k]), Some(k))
      case StreamError(k) => k in m ==>
        c.LosesInTurn(m[k := Prioritize.Reset(m[k])], available + Reclaimed(m[k]), Some(k))
      case _ => true
  }

  /** An event that may close all streams, or all beyond some. */
  predicate EndsAll(e: Event) {
    e.GoAway? || e.Failure? || e.Eof?
  }

  predicate FromUser(e: Event) {
    e.Request? || e.Accept? || e.Clone?
  }

  predicate Leaves(e: Event) {
    e.DropHandle? || e.Reset?
  }

  predicate Sends(e: Event) {
    e.Respond? || e.Send? || e.Trailers? || e.Reserve?
  }

  predicate AboutStream(e: Event) {
    e.PeerEndsStream? || e.PeerResets? || e.StreamError? || e.StreamWindow?
  }

  predicate BringsHeaders(e: Event) {
    e.Incoming? || e.PeerHeaders?
  }

  predicate Others(e: Event) {
    e.ConnectionWindow? || e.InitialWindow? || e.MaxStreams? || e.ResetExpires?
  }

  /** No closed stream is left that nothing refers to. */
  ghost predicate NoneLost(c: Connection)
    reads c.store
  {
    forall k :: !StreamLife.Lost(c.store.slab, c.store.contents, k)
  }

  method Handle(c: Connection, e: Event) returns (o: Outcome, ghost mark: Mark)
    requires c.Valid() && CanHappen(c, e)
    modifies c, c.store, c.prio
    ensures Handled(c, e, o)
    ensures !o.Panicked? ==>
      Admits(e, mark) && AllStep(old(c.prio.books).Keys, old(c.store.slab), c.store.slab, mark)
    ensures !o.Panicked? ==> c.Valid()
    ensures Continues(old(c.prio.books), c.prio.books, o)
    ensures c.prio.exact == (old(c.prio.exact) && !o.Upset?) && Explained(o, c.prio.exact)
    ensures !o.Panicked? && !Shares(e) && old(NoneLost(c)) ==> NoneLost(c)
    ensures ToldBefore(c, e)
    ensures !o.Panicked? && Shares(e) && !EndsAll(e) && old(NoneLost(c)) ==>
      StreamLife.OnlyServedLost(old(c.store.slab), old(c.store.contents), c.store.slab, c.store.contents, e.OnStream())
  {
    hide Connection.Valid, CanHappen, Continues, Explained, Shares, NoneLost, Reclaimable,
      StreamLife.NoneGetsLost, StreamLife.OnlyWaitersGetLost, StreamLife.OnlyServedLost, StreamLife.NothingLostIn,
      StreamLife.LosesAs, StreamLife.Lost, Event.OnStream, ToldBefore, AllStep, Admits;
    ghost var m, queues := c.store.slab, c.store.contents;
    NoneLostIs(c);
    o, mark := Dispatch(c, e);
    if !o.Panicked? && !Shares(e) {
      NoneLostStill(c);
    }
    if !o.Panicked? && Shares(e) && !EndsAll(e) {
      StreamLife.ServedGetLost(m, queues, c.store.slab, c.store.contents, e.OnStream());
    }
  }

  method Dispatch(c: Connection, e: Event) returns (o: Outcome, ghost mark: Mark)
    requires c.Valid() && CanHappen(c, e)
    modifies c, c.store, c.prio
    ensures Handled(c, e, o)
    ensures !o.Panicked? ==>
      Admits(e, mark) && AllStep(old(c.prio.books).Keys, old(c.store.slab), c.store.slab, mark)
  {
    hide Connection.Valid, CanHappen, Handled, AllStep, Admits;
    if FromUser(e) {
      o, mark := HandleUser(c, e);
    } else if Leaves(e) {
      o, mark := HandleLeaving(c, e);
    } else if Sends(e) {
      o, mark := HandleSending(c, e);
    } else if BringsHeaders(e) {
      o, mark := HandleHeaders(c, e);
    } else if AboutStream(e) {
      o, mark := HandlePeer(c, e);
    } else if Others(e) {
      o, mark := HandleConnection(c, e);
    } else if e.Write? {
      o, mark := HandleWrite(c, e);
    } else {
      o, mark := HandleEnding(c, e);
    }
  }

  method HandleUser(c: Connection, e: Event) returns (o: Outcome, ghost mark: Mark)
    requires c.Valid() && CanHappen(c, e) && FromUser(e)
    modifies c, c.store, c.prio
    ensures Handled(c, e, o)
    ensures !o.Panicked? ==>
      Admits(e, mark) && AllStep(old(c.prio.books).Keys, old(c.store.slab), c.store.slab, mark)
  {
    hide Connection.Valid, SamePages, Entered, Reclaimable, Stream.IsClosed, Fails, EmptyOnNegative, StreamLife.LosesAs,
      StreamLife.Lost, StreamLife.NoneGetsLost, StreamLife.OnlyWaitersGetLost, StreamLife.InTurn, Relieved,
      Prioritize.Reset, Reclaimed, Ended, StreamLife.Kept, StreamLife.AllKept,
      StreamLife.Becomes, StreamLife.StandsAt, StreamLife.Moves, AllStep, Connection.Became;
    SameIsSame(c.prio.books);
    o, mark := Quiet, Neither;
    ghost var known, m := c.prio.books.Keys, c.store.slab;
    match e {
      case Request(eos, pending, sendable) =>
        c.KnownIds(c.nextLocal);
        var r := c.SendRequest(eos, pending, sendable);
        mark := if r.Got? then Sender(r.key, Onward(eos)) else Neither;
        RequestSteps(known, m, c.store.slab, r, eos);
      case Accept =>
        var _ := c.NextIncoming();
        HandlesStep(known, m, c.store.slab);
      case Clone(k) =>
        c.CloneRef(k);
        HandlesStep(known, m, c.store.slab);
    }
  }

  method HandleLeaving(c: Connection, e: Event) returns (o: Outcome, ghost mark: Mark)
    requires c.Valid() && CanHappen(c, e) && Leaves(e)
    modifies c, c.store, c.prio
    ensures Handled(c, e, o)
    ensures !o.Panicked? ==>
      Admits(e, mark) && AllStep(old(c.prio.books).Keys, old(c.store.slab), c.store.slab, mark)
  {
    hide Connection.Valid, SamePages, Entered, Reclaimable, Stream.IsClosed, Fails, EmptyOnNegative, StreamLife.LosesAs,
      StreamLife.Lost, StreamLife.NoneGetsLost, StreamLife.OnlyWaitersGetLost, StreamLife.InTurn, Relieved,
      Prioritize.Reset, Reclaimed, Ended, StreamLife.Kept, StreamLife.AllKept,
      StreamLife.Becomes, StreamLife.StandsAt, StreamLife.Moves, AllStep, Connection.Became;
    SameIsSame(c.prio.books);
    o, mark := Quiet, Neither;
    ghost var known, m := c.prio.books.Keys, c.store.slab;
    match e {
      case DropHandle(k) =>
        if c.Upsets(c.store.slab[k]) {
          o := Upset(k);
        }
        mark := if m[k].refs == 1 && !m[k].state.Closed? then GivenUp(k) else Neither;
        c.DropRef(k);
        DropSteps(c, known, m, k, mark);
      case Reset(k) =>
        mark := GivenUp(k);
        c.SendReset(k);
        ResetSteps(known, m, c.store.slab, k);
    }
  }

  method HandleSending(c: Connection, e: Event) returns (o: Outcome, ghost mark: Mark)
    requires c.Valid() && CanHappen(c, e) && Sends(e)
    modifies c, c.store, c.prio
    ensures Handled(c, e, o)
    ensures !o.Panicked? ==>
      Admits(e, mark) && AllStep(old(c.prio.books).Keys, old(c.store.slab), c.store.slab, mark)
  {
    hide Connection.Valid, SamePages, Entered, Reclaimable, Stream.IsClosed, Fails, EmptyOnNegative, StreamLife.LosesAs,
      StreamLife.Lost, StreamLife.NoneGetsLost, StreamLife.OnlyWaitersGetLost, StreamLife.InTurn, Relieved,
      Prioritize.Reset, Reclaimed, Ended, StreamLife.Kept, StreamLife.AllKept,
      StreamLife.Becomes, StreamLife.StandsAt, StreamLife.Moves, AllStep, Connection.Became;
    SameIsSame(c.prio.books);
    o, mark := Quiet, Neither;
    ghost var known, m := c.prio.books.Keys, c.store.slab;
    match e {
      case Respond(k, eos) =>
        var ok := c.SendResponse(k, eos);
        mark := if ok then Sender(k, Onward(eos)) else Neither;
        SentSteps(known, m, c.store.slab, k, if ok then Opened(m[k], eos).state else m[k].state, mark);
      case Send(k, payload, eos) =>
        var r := c.SendData(k, payload, eos);
        if r.None? {
          o, mark := Accepted(k, payload, eos), Sender(k, Onward(eos));
        }
        SentSteps(known, m, c.store.slab, k, if r.None? then Taken(m[k], payload, eos).state else m[k].state, mark);
      case Trailers(k) =>
        var ok := c.SendTrailers(k);
        mark := if ok then Sender(k, Done) else Neither;
        SentSteps(known, m, c.store.slab, k, if ok then Trailing(m[k]).state else m[k].state, mark);
      case Reserve(k, capacity) =>
        c.ReserveCapacity(k, capacity);
        AdjustedSteps(known, m, c.store.slab, k, Asking(m[k], capacity));
    }
  }

  method HandleHeaders(c: Connection, e: Event) returns (o: Outcome, ghost mark: Mark)
    requires c.Valid() && CanHappen(c, e) && BringsHeaders(e)
    modifies c, c.store, c.prio
    ensures Handled(c, e, o)
    ensures !o.Panicked? ==>
      Admits(e, mark) && AllStep(old(c.prio.books).Keys, old(c.store.slab), c.store.slab, mark)
  {
    hide Connection.Valid, SamePages, Entered, Reclaimable, Stream.IsClosed, Fails, EmptyOnNegative, StreamLife.LosesAs,
      StreamLife.Lost, StreamLife.NoneGetsLost, StreamLife.OnlyWaitersGetLost, StreamLife.InTurn, Relieved,
      Prioritize.Reset, Reclaimed, Ended, Adjusted, StreamLife.LeftBy, Widened, ResetOf, StreamLife.Kept,
      StreamLife.AllKept, StreamLife.Becomes, StreamLife.StandsAt, StreamLife.Moves, AllStep, Connection.Became;
    SameIsSame(c.prio.books);
    o, mark := Quiet, Neither;
    ghost var known, m := c.prio.books.Keys, c.store.slab;
    match e {
      case Incoming(k, eos, bad) =>
        NeverSeen(c, k);
        ghost var ignored, window := k > c.maxRecvId, c.initWindow;
        var r := c.RecvRequest(k, eos, bad);
        mark := if r.Some? || ignored then Neither else if bad then GivenUp(k) else Receiver(k, Onward(eos));
        IncomingSteps(known, m, c.store.slab, k, window, eos, bad, r.Some? || ignored);
      case PeerHeaders(k, eos, bad) =>
        var r := c.RecvHeaders(k, eos, bad);
        mark := HeadersMark(m[k].state, k, eos, bad);
        HeadersSteps(c, known, m, k, eos, bad, r.Some?);
    }
  }

  method HandlePeer(c: Connection, e: Event) returns (o: Outcome, ghost mark: Mark)
    requires c.Valid() && CanHappen(c, e) && AboutStream(e)
    modifies c, c.store, c.prio
    ensures Handled(c, e, o)
    ensures !o.Panicked? ==>
      Admits(e, mark) && AllStep(old(c.prio.books).Keys, old(c.store.slab), c.store.slab, mark)
  {
    hide Connection.Valid, SamePages, Entered, Reclaimable, Stream.IsClosed, Fails, EmptyOnNegative, StreamLife.LosesAs,
      StreamLife.Lost, StreamLife.NoneGetsLost, StreamLife.OnlyWaitersGetLost, StreamLife.InTurn, Relieved,
      Prioritize.Reset, Reclaimed, Ended, Adjusted, StreamLife.LeftBy, Widened, ResetOf, StreamLife.Kept,
      StreamLife.AllKept, StreamLife.Becomes, StreamLife.StandsAt, StreamLife.Moves, AllStep, Connection.Became;
    SameIsSame(c.prio.books);
    o, mark := Quiet, Neither;
    ghost var known, m := c.prio.books.Keys, c.store.slab;
    match e {
      case PeerEndsStream(k) =>
        var r := c.RecvEndStream(k);
        mark := if r.None? then Receiver(k, Done) else Neither;
        EndSteps(known, m, c.store.slab, k, r);
      case PeerResets(k) =>
        mark := GivenUp(k);
        ghost var to := m[k].state.RecvReset(k in c.store.Queue(NextSend));
        c.RecvReset(k);
        OneSteps(known, m, c.store.slab, k, to, mark);
      case StreamError(k) =>
        mark := GivenUp(k);
        c.RecvStreamError(k);
        ResetSteps(known, m, c.store.slab, k);
      case StreamWindow(k, inc) =>
        var ok := c.RecvStreamWindowUpdate(k, inc);
        mark := if ok then Neither else GivenUp(k);
        WindowSteps(known, m, c.store.slab, k, inc, ok);
    }
  }

  method HandleConnection(c: Connection, e: Event) returns (o: Outcome, ghost mark: Mark)
    requires c.Valid() && CanHappen(c, e) && Others(e)
    modifies c, c.store, c.prio
    ensures Handled(c, e, o)
    ensures !o.Panicked? ==>
      Admits(e, mark) && AllStep(old(c.prio.books).Keys, old(c.store.slab), c.store.slab, mark)
  {
    hide Connection.Valid, SamePages, Entered, Reclaimable, Stream.IsClosed, Fails, EmptyOnNegative, StreamLife.LosesAs,
      StreamLife.Lost, StreamLife.NoneGetsLost, StreamLife.OnlyWaitersGetLost, StreamLife.InTurn, Relieved,
      Prioritize.Reset, Reclaimed, Ended, StreamLife.Kept, StreamLife.AllKept,
      StreamLife.Becomes, StreamLife.StandsAt, StreamLife.Moves, AllStep, Connection.Became;
    SameIsSame(c.prio.books);
    o, mark := Quiet, Neither;
    ghost var known, m := c.prio.books.Keys, c.store.slab;
    match e {
      case ConnectionWindow(inc) =>
        var _ := c.RecvConnectionWindowUpdate(inc);
        GrantSteps(known, m, c.store.slab);
      case InitialWindow(val) =>
        ghost var was, ids := c.initWindow, c.store.ids;
        var r := c.ApplyInitialWindow(val);
        mark := SettingSteps(c, known, m, c.store.slab, ids, c.store.ids, was, val, r.Some?);
      case MaxStreams(max) =>
        c.ApplyMaxStreams(max);
        HandlesStep(known, m, c.store.slab);
      case ResetExpires =>
        ghost var expiring := c.store.Queue(NextResetExpire);
        c.Expire();
        ExpirySteps(c, known, m, expiring);
    }
  }

  method HandleWrite(c: Connection, e: Event) returns (o: Outcome, ghost mark: Mark)
    requires c.Valid() && CanHappen(c, e) && e.Write?
    modifies c, c.store, c.prio
    ensures Handled(c, e, o)
    ensures !o.Panicked? ==>
      Admits(e, mark) && AllStep(old(c.prio.books).Keys, old(c.store.slab), c.store.slab, mark)
  {
    hide Connection.Valid, SamePages, Entered, Reclaimable, Stream.IsClosed, Fails, EmptyOnNegative, StreamLife.LosesAs,
      StreamLife.Lost, StreamLife.NoneGetsLost, StreamLife.OnlyWaitersGetLost, StreamLife.InTurn, Relieved,
      Prioritize.Reset, Reclaimed, Ended, StreamLife.Kept, StreamLife.AllKept,
      StreamLife.Becomes, StreamLife.StandsAt, StreamLife.Moves, AllStep, Connection.Became;
    SameIsSame(c.prio.books);
    o, mark := Quiet, Neither;
    ghost var known, m := c.prio.books.Keys, c.store.slab;
    match e {
      case Write(maxLen) =>
        var r := c.WriteOne(maxLen);
        if !r.Panic? {
          NothingSteps(known, m, c.store.slab);
        }
        if r.Panic? {
          o := Panicked(r.stream, maxLen, r.conn);
        } else if r.Wrote? && r.frame.Slice? {
          o := Written(r.frame);
        }
    }
  }

  method HandleEnding(c: Connection, e: Event) returns (o: Outcome, ghost mark: Mark)
    requires c.Valid() && CanHappen(c, e) && (EndsAll(e) || e.AnnounceLast?)
    modifies c, c.store, c.prio
    ensures Handled(c, e, o)
    ensures !o.Panicked? ==>
      Admits(e, mark) && AllStep(old(c.prio.books).Keys, old(c.store.slab), c.store.slab, mark)
  {
    hide Connection.Valid, SamePages, Entered, Reclaimable, Stream.IsClosed, Fails, EmptyOnNegative, StreamLife.LosesAs,
      StreamLife.Lost, StreamLife.NoneGetsLost, StreamLife.OnlyWaitersGetLost, StreamLife.InTurn, Relieved,
      Prioritize.Reset, Reclaimed, Ended, StreamLife.Kept, StreamLife.AllKept,
      StreamLife.Becomes, StreamLife.StandsAt, StreamLife.Moves, AllStep, Connection.Became;
    SameIsSame(c.prio.books);
    o, mark := Quiet, Neither;
    ghost var known, m := c.prio.books.Keys, c.store.slab;
    match e {
      case GoAway(last) =>
        var ok := c.RecvGoAway(last);
        mark := if ok then GivenUpBeyond(last) else Neither;
        GoAwaySteps(c, known, m, last, ok);
      case AnnounceLast(last) =>
        c.SendGoAway(last);
        HandlesStep(known, m, c.store.slab);
      case Failure(cause) =>
        mark := GivenUpBeyond(-1);
        c.RecvErr(cause);
        FailureSteps(c, known, m);
      case Eof(clearPendingAccept) =>
        mark := GivenUpBeyond(-1);
        c.RecvEof(clearPendingAccept);
        FailureSteps(c, known, m);
    }
  }

  // ----- what events make of the halves of streams

  lemma RequestSteps(known: set<Key>, m: map<Key, Stream>, m': map<Key, Stream>, r: Requested, eos: bool)
    requires r.Denied? ==> m' == m
    requires r.Got? ==>
      && r.key !in m && r.key !in known && r.key in m' && m' == m[r.key := m'[r.key]]
      && StreamLife.StandsAt(m', r.key, Onward(eos), Waiting)
    ensures AllStep(known, m, m', if r.Got? then Sender(r.key, Onward(eos)) else Neither)
  {
    if r.Denied? {
      HandlesStep(known, m, m');
    } else {
      NewSteps(known, m, m', r.key, Sender(r.key, Onward(eos)));
    }
  }

  /** Handles coming and going move no stream on. */
  lemma HandlesStep(known: set<Key>, m: map<Key, Stream>, m': map<Key, Stream>)
    requires m'.Keys == m.Keys && forall k :: k in m ==> m'[k].state == m[k].state
    ensures AllStep(known, m, m', Neither)
  {
    NothingSteps(known, m, m');
  }

  lemma DropSteps(c: Connection, known: set<Key>, m: map<Key, Stream>, k: Key, mark: Mark)
    requires k in m && m[k].refs > 0 && StreamLife.LeftBy(m, c.store.slab, k, c.WithoutHandle(m[k]))
    requires mark == if m[k].refs == 1 && !m[k].state.Closed? then GivenUp(k) else Neither
    ensures AllStep(known, m, c.store.slab, mark)
  {
    hide StreamLife.LeftBy, AllStep;
    var s := c.WithoutHandle(m[k]);
    StreamLife.LeftByBecomes(m, c.store.slab, k, s);
    if mark == Neither {
      NoneSteps(known, m, c.store.slab, k, s.state);
    } else {
      OneSteps(known, m, c.store.slab, k, s.state, mark);
    }
  }

  lemma ResetSteps(known: set<Key>, m: map<Key, Stream>, m': map<Key, Stream>, k: Key)
    requires k in m && StreamLife.LeftBy(m, m', k, ResetOf(m[k]))
    ensures AllStep(known, m, m', GivenUp(k))
  {
    hide StreamLife.LeftBy, AllStep;
    StreamLife.LeftByBecomes(m, m', k, ResetOf(m[k]));
    OneSteps(known, m, m', k, ResetOf(m[k]).state, GivenUp(k));
  }

  lemma SentSteps(known: set<Key>, m: map<Key, Stream>, m': map<Key, Stream>, k: Key, to: State, mark: Mark)
    requires k in m && StreamLife.Becomes(m, m', k, to)
    requires mark == Neither ==> to == m[k].state
    requires mark != Neither ==>
      mark.Sender? && mark.k == k && mark.to != Waiting && StreamLife.Moves(m, m', k, true, mark.to)
    ensures AllStep(known, m, m', mark)
  {
    hide AllStep, StreamLife.Becomes, StreamLife.Moves;
    if mark == Neither {
      NoneSteps(known, m, m', k, to);
    } else {
      OneSteps(known, m, m', k, to, mark);
    }
  }

  lemma AdjustedSteps(known: set<Key>, m: map<Key, Stream>, m': map<Key, Stream>, k: Key, s: Stream)
    requires Adjusted(m, m', k, s) && s.state == m[k].state
    ensures AllStep(known, m, m', Neither)
  {
    NothingSteps(known, m, m');
  }

  lemma NeverSeen(c: Connection, k: Key)
    requires c.Valid()
    ensures !StreamLife.Local(c.isServer, k) && k >= c.nextRemote ==> k !in c.prio.books
  {
  }

  lemma IncomingSteps(known: set<Key>, m: map<Key, Stream>, m': map<Key, Stream>, k: Key, window: nat, eos: bool,
                      bad: bool, refused: bool)
    requires if refused then m' == m else
      && k !in m && k !in known
      && var s := NewStream(window).(state := State.Idle.RecvOpen(eos).value.0, isCounted := true);
      && if bad then StreamLife.LeftBy(m[k := s], m', k, ResetOf(s)) else m' == m[k := s]
    ensures AllStep(known, m, m', if refused then Neither else if bad then GivenUp(k) else Receiver(k, Onward(eos)))
  {
    if refused {
      HandlesStep(known, m, m');
    } else if bad {
      var s := NewStream(window).(state := State.Idle.RecvOpen(eos).value.0, isCounted := true);
      StreamLife.LeftByBecomes(m[k := s], m', k, ResetOf(s));
      forall j: Key | j != k ensures StreamLife.Kept(m, m', j) {
        assert StreamLife.Kept(m[k := s], m', j);
      }
      NewSteps(known, m, m', k, GivenUp(k));
    } else {
      NewSteps(known, m, m', k, Receiver(k, Onward(eos)));
    }
  }

  /** What HEADERS, taken or not, do to a stream that was opened before. */
  ghost function HeadersMark(s: State, k: Key, eos: bool, bad: bool): Mark {
    if s.IsReset() || (s.RecvHalf() == Done && eos) then Neither
    else if bad || (s.RecvHalf() != Waiting && !eos) then GivenUp(k) else Receiver(k, Onward(eos))
  }

  lemma HeadersSteps(c: Connection, known: set<Key>, m: map<Key, Stream>, k: Key, eos: bool, bad: bool, failed: bool)
    requires k in m && !m[k].state.Idle? && c.HeadersMove(m, c.store.slab, k, eos, bad, failed)
    requires m[k].state.IsLocalReset() ==> c.store.slab == m
    requires !m[k].state.IsLocalReset() ==>
      && (failed <==> c.HeadersLeave(m[k], eos, bad).None?)
      && StreamLife.LeftBy(m, c.store.slab, k, if failed then m[k] else c.HeadersLeave(m[k], eos, bad).value)
    ensures AllStep(known, m, c.store.slab, HeadersMark(m[k].state, k, eos, bad))
  {
    hide StreamLife.LeftBy, AllStep, StreamLife.Becomes, StreamLife.Moves;
    var s := m[k].state;
    HalvesDecide(s);
    if s.IsLocalReset() {
      HandlesStep(known, m, m);
    } else {
      var to := if failed then m[k] else c.HeadersLeave(m[k], eos, bad).value;
      StreamLife.LeftByBecomes(m, c.store.slab, k, to);
      if HeadersMark(s, k, eos, bad) == Neither {
        NoneSteps(known, m, c.store.slab, k, to.state);
      } else {
        OneSteps(known, m, c.store.slab, k, to.state, HeadersMark(s, k, eos, bad));
      }
    }
  }

  lemma EndSteps(known: set<Key>, m: map<Key, Stream>, m': map<Key, Stream>, k: Key, r: Option<RecvError>)
    requires k in m
    requires r.Some? ==> m' == m
    requires r.None? ==>
      && m[k].state.RecvClose().Some? && StreamLife.Becomes(m, m', k, m[k].state.RecvClose().value)
      && StreamLife.Moves(m, m', k, false, Done)
    ensures AllStep(known, m, m', if r.None? then Receiver(k, Done) else Neither)
  {
    hide AllStep, StreamLife.Becomes, StreamLife.Moves;
    if r.Some? {
      HandlesStep(known, m, m');
    } else {
      OneSteps(known, m, m', k, m[k].state.RecvClose().value, Receiver(k, Done));
    }
  }

  lemma WindowSteps(known: set<Key>, m: map<Key, Stream>, m': map<Key, Stream>, k: Key, inc: nat, ok: bool)
    requires k in m
    requires ok ==> m' == m || Adjusted(m, m', k, Widened(m[k], inc))
    requires !ok ==> Adjusted(m, m', k, ResetOf(m[k]))
    ensures AllStep(known, m, m', if ok then Neither else GivenUp(k))
  {
    hide AllStep, StreamLife.Becomes;
    if !ok {
      StreamLife.AdjustedBecomes(m, m', k, ResetOf(m[k]));
      OneSteps(known, m, m', k, ResetOf(m[k]).state, GivenUp(k));
    } else if m' == m {
      HandlesStep(known, m, m');
    } else {
      AdjustedSteps(known, m, m', k, Widened(m[k], inc));
    }
  }

  lemma GrantSteps(known: set<Key>, m: map<Key, Stream>, m': map<Key, Stream>)
    requires Grants(m, m')
    ensures AllStep(known, m, m', Neither)
  {
    HandlesStep(known, m, m');
  }

  /** A new initial window moves no stream on, except that one whose window would be too large is given up. */
  lemma SettingSteps(c: Connection, known: set<Key>, m: map<Key, Stream>, m': map<Key, Stream>, ids: seq<Key>,
                     ids': seq<Key>, was: nat, val: nat, failed: bool)
      returns (mark: Mark)
    requires val <= was ==> !failed
    requires val < was ==> exists mid :: AllShrunk(m, mid, ids, was - val) && Grants(mid, m')
    requires val == was ==> m' == m
    requires val > was && !failed ==> AllWidened(m, m', ids', val - was)
    requires val > was && failed ==> var inc: nat := val - was; exists k :: c.ResetFor(m, m', k, inc)
    ensures AllStep(known, m, m', mark) && (mark == Neither || mark.GivenUp?)
  {
    hide AllStep;
    mark := Neither;
    if val < was {
      ghost var mid :| AllShrunk(m, mid, ids, was - val) && Grants(mid, m');
      HandlesStep(known, m, m');
    } else if val > was && failed {
      var inc: nat := val - was;
      var k :| c.ResetFor(m, m', k, inc);
      mark := GivenUp(k);
      OneSteps(known, m, m', k, m'[k].state, mark);
    } else {
      HandlesStep(known, m, m');
    }
  }

  lemma ExpirySteps(c: Connection, known: set<Key>, m: map<Key, Stream>, expiring: seq<Key>)
    requires expiring == [] ==> c.store.slab == m
    requires expiring != [] ==>
      && expiring[0] in m
      && exists unreferenced :: c.store.slab == StreamLife.Transitioned(m, expiring[0], unreferenced)
    ensures AllStep(known, m, c.store.slab, Neither)
  {
    hide AllStep;
    if expiring == [] {
      HandlesStep(known, m, m);
    } else {
      ghost var unreferenced :| c.store.slab == StreamLife.Transitioned(m, expiring[0], unreferenced);
      StreamLife.TransitionKeeps(m, expiring[0], unreferenced);
      NothingSteps(known, m, c.store.slab);
    }
  }

  lemma GoAwaySteps(c: Connection, known: set<Key>, m: map<Key, Stream>, last: nat, ok: bool)
    requires ok ==> c.ClosedBeyond(m, c.store.slab, last, LocallyReset) && c.HandlesHold(m, c.store.slab)
    requires !ok ==> c.store.slab == m
    ensures AllStep(known, m, c.store.slab, if ok then GivenUpBeyond(last) else Neither)
  {
    if ok {
      BeyondSteps(known, m, c.store.slab, last);
    } else {
      HandlesStep(known, m, m);
    }
  }

  lemma FailureSteps(c: Connection, known: set<Key>, m: map<Key, Stream>)
    requires AllClosed(c.store.slab) && c.HandlesHold(m, c.store.slab)
    ensures AllStep(known, m, c.store.slab, GivenUpBeyond(-1))
  {
    BeyondSteps(known, m, c.store.slab, -1);
  }

  // ----- what a run amounts to

  function GivenTo(log: seq<Outcome>, k: Key): Bytes {
    if log == [] then []
    else
      var o := log[|log| - 1];
      GivenTo(log[..|log| - 1], k) + if o.Accepted? && o.k == k then o.payload else []
  }

  function SentOn(log: seq<Outcome>, k: Key): Bytes {
    if log == [] then []
    else
      var o := log[|log| - 1];
      SentOn(log[..|log| - 1], k) + if o.Written? && o.slice.Slice? && o.slice.stream == k then o.slice.bytes else []
  }

  /** `o` is a slice of stream `k` with END_STREAM. */
  predicate Ends(o: Outcome, k: Key) {
    o.Written? && o.slice.Slice? && o.slice.stream == k && o.slice.eos
  }

  /** No slice of a stream is written after one with END_STREAM. */
  predicate NothingAfterEnd(log: seq<Outcome>) {
    forall i, j :: 0 <= i < j < |log| && log[i].Written? && log[i].slice.Slice? && log[i].slice.eos ==>
      !(log[j].Written? && log[j].slice.Slice? && log[j].slice.stream == log[i].slice.stream)
  }

  predicate NeverUpset(log: seq<Outcome>) {
    forall i :: 0 <= i < |log| ==> !log[i].Upset?
  }

  /** The books agree with the log. */
  ghost predicate Agree(books: map<Key, Book>, log: seq<Outcome>) {
    && (forall k :: (k in books ==> books[k].given == GivenTo(log, k) && books[k].sent == SentOn(log, k)))
    && (forall k :: k !in books ==> GivenTo(log, k) == [] && SentOn(log, k) == [])
    && NothingAfterEnd(log)
    && (forall k :: k in books && books[k].ended ==> books[k].sent == books[k].given)
    && (forall i, k :: 0 <= i < |log| && Ends(log[i], k) ==> k in books && books[k].ended)
  }

  lemma Logged(log: seq<Outcome>, o: Outcome, k: Key)
    ensures GivenTo(log + [o], k) == GivenTo(log, k) + if o.Accepted? && o.k == k then o.payload else []
    ensures SentOn(log + [o], k) == SentOn(log, k) + if o.Written? && o.slice.Slice? && o.slice.stream == k then
      o.slice.bytes else []
  {
    assert (log + [o])[..|log + [o]| - 1] == log;
  }

  lemma LogGrows(books: map<Key, Book>, books': map<Key, Book>, log: seq<Outcome>, o: Outcome)
    requires Agree(books, log) && Continues(books, books', o) && !o.Panicked?
    ensures Agree(books', log + [o])
  {
    hide GivenTo, SentOn, NothingAfterEnd, Ends, Continues;
    forall k
      ensures k in books' ==> books'[k].given == GivenTo(log + [o], k) && books'[k].sent == SentOn(log + [o], k)
      ensures k !in books' ==> GivenTo(log + [o], k) == [] && SentOn(log + [o], k) == []
      ensures k in books' && books'[k].ended ==> books'[k].sent == books'[k].given
    {
      PageGrows(books, books', log, o, k);
    }
    EndsGrow(books, books', log, o);
  }

  lemma PageGrows(books: map<Key, Book>, books': map<Key, Book>, log: seq<Outcome>, o: Outcome, k: Key)
    requires Agree(books, log) && Continues(books, books', o) && !o.Panicked?
    ensures k in books' ==> books'[k].given == GivenTo(log + [o], k) && books'[k].sent == SentOn(log + [o], k)
    ensures k !in books' ==> GivenTo(log + [o], k) == [] && SentOn(log + [o], k) == []
    ensures k in books' && books'[k].ended ==> books'[k].sent == books'[k].given
  {
    hide GivenTo, SentOn, NothingAfterEnd, Ends;
    Logged(log, o, k);
  }

  lemma EndsGrow(books: map<Key, Book>, books': map<Key, Book>, log: seq<Outcome>, o: Outcome)
    requires Agree(books, log) && Continues(books, books', o) && !o.Panicked?
    ensures NothingAfterEnd(log + [o])
    ensures forall i, k :: 0 <= i < |log + [o]| && Ends((log + [o])[i], k) ==> k in books' && books'[k].ended
  {
    hide GivenTo, SentOn;
    var log' := log + [o];
    forall i, k | 0 <= i < |log'| && Ends(log'[i], k) ensures k in books' && books'[k].ended {
      if i < |log| {
        assert Ends(log[i], k);
      }
    }
    forall i, j | 0 <= i < j < |log'| && log'[i].Written? && log'[i].slice.Slice? && log'[i].slice.eos
      ensures !(log'[j].Written? && log'[j].slice.Slice? && log'[j].slice.stream == log'[i].slice.stream)
    {
      assert Ends(log[i], log'[i].slice.stream);
    }
  }

  /** Over every run, in every order of events, until the assertion of a window fails: the invariants hold; what was
      written for a stream is a prefix of what its user gave, in order and once; with END_STREAM everything given has
      been written, and nothing of the stream follows. The halves of every stream are as far as what was sent and
      received moved them: unless it was given up, a stream is closed, or gone, exactly if END_STREAM was both taken
      from its user and received. Capacity stays accounted for exactly just as long as no dropped handle upset the
      sharing, and so long only an empty payload on a negative window makes an assertion fail. An event that cannot
      happen is passed over. */
  method Run(c: Connection, events: seq<Event>) returns (log: seq<Outcome>, panicked: bool, ghost marks: seq<Mark>)
    requires c.Valid() && c.prio.books == map[] && c.prio.exact
    modifies c, c.store, c.prio
    ensures panicked || c.Valid()
    ensures !panicked ==> NothingAfterEnd(log) && forall k :: k in c.store.slab ==> SentOn(log, k) <= GivenTo(log, k)
    ensures !panicked ==> forall i, k :: 0 <= i < |log| && Ends(log[i], k) ==> SentOn(log, k) == GivenTo(log, k)
    ensures c.prio.exact <==> NeverUpset(log)
    ensures panicked ==> log != [] && log[|log| - 1].Panicked? && Explained(log[|log| - 1], NeverUpset(log))
    ensures !panicked && (forall e :: e in events ==> !Shares(e)) ==> NoneLost(c)
    ensures !panicked ==> AllAdmitted(events, marks)
    ensures !panicked ==> forall k: Key :: k in c.store.slab ==> Shows(c.store.slab, k, CourseOf(marks, k))
    ensures !panicked ==> forall k: Key :: !EverGivenUp(marks, k) ==> ClosedByEnds(c.store.slab, k, marks)
  {
    hide Connection.Valid, CanHappen, Continues, Agree, GivenTo, SentOn, Explained, NoneLost, Shares, Ends, AllTold,
      AllStep, AllAdmitted, Admits;
    log, marks := [], [];
    ghost var known: set<Key> := {};
    NothingLogged();
    NoneLostYet(c);
    NothingKnown(c);
    for i := 0 to |events|
      invariant c.Valid() && Agree(c.prio.books, log) && (c.prio.exact <==> NeverUpset(log))
      invariant (forall e :: e in events[..i] ==> !Shares(e)) ==> NoneLost(c)
      invariant AllAdmitted(events[..i], marks) && AllTold(known, c.store.slab, marks) && known <= c.prio.books.Keys
    {
      assert events[..i + 1] == events[..i] + [events[i]];
      ghost var m, mark := c.store.slab, Neither;
      if CanHappen(c, events[i]) {
        ghost var books := c.prio.books;
        var o;
        o, mark := Handle(c, events[i]);
        if o.Panicked? {
          UpsetNow(log, o);
          return log + [o], true, marks;
        }
        FewerKnown(books.Keys, known, m, c.store.slab, mark);
        BooksGrow(books, c.prio.books, o);
        UpsetNow(log, o);
        LogGrows(books, c.prio.books, log, o);
        log := log + [o];
      } else {
        HandlesStep(known, m, m);
      }
      OneMoreTold(known, m, c.store.slab, marks, mark);
      OneMoreAdmitted(events[..i], marks, events[i], mark);
      known, marks := known + c.store.slab.Keys, marks + [mark];
      OnTheBooks(c);
    }
    assert events[..|events|] == events;
    forall k | k in c.store.slab ensures SentOn(log, k) <= GivenTo(log, k) {
      OnRecord(c, log, k);
    }
    LogInOrder(c.prio.books, log);
    EndsTold(known, c.store.slab, marks);
    return log, false, marks;
  }

  ghost predicate AllAdmitted(events: seq<Event>, marks: seq<Mark>) {
    |marks| == |events| && forall i :: 0 <= i < |events| ==> Admits(events[i], marks[i])
  }

  ghost predicate EverGivenUp(marks: seq<Mark>, k: Key) {
    exists i :: 0 <= i < |marks| && marks[i].GivesUp(k)
  }

  lemma OneMoreAdmitted(events: seq<Event>, marks: seq<Mark>, e: Event, mark: Mark)
    requires AllAdmitted(events, marks) && Admits(e, mark)
    ensures AllAdmitted(events + [e], marks + [mark])
  {
  }

  lemma NothingKnown(c: Connection)
    requires c.Valid() && c.prio.books == map[]
    ensures AllTold({}, c.store.slab, []) && AllAdmitted([], [])
  {
    forall k | k in c.store.slab ensures false {
      c.Guarantees(k);
    }
    assert c.store.slab == map[];
    NothingTold();
  }

  lemma OnTheBooks(c: Connection)
    requires c.Valid()
    ensures c.store.slab.Keys <= c.prio.books.Keys
  {
    forall k | k in c.store.slab ensures k in c.prio.books {
      c.Guarantees(k);
    }
  }

  lemma BooksGrow(books: map<Key, Book>, books': map<Key, Book>, o: Outcome)
    requires Continues(books, books', o) && !o.Panicked?
    ensures books.Keys <= books'.Keys
  {
  }

  lemma FewerKnown(books: set<Key>, known: set<Key>, m: map<Key, Stream>, m': map<Key, Stream>, mark: Mark)
    requires AllStep(books, m, m', mark) && known <= books
    ensures AllStep(known, m, m', mark)
  {
    forall k: Key ensures Step(known, m, m', k, mark) {
      assert Step(books, m, m', k, mark);
    }
  }

  lemma EndsTold(known: set<Key>, m: map<Key, Stream>, marks: seq<Mark>)
    requires AllTold(known, m, marks)
    ensures forall k: Key :: k in m ==> Shows(m, k, CourseOf(marks, k))
    ensures forall k: Key :: !EverGivenUp(marks, k) ==> ClosedByEnds(m, k, marks)
  {
    hide ClosedByEnds, Shows, CourseOf;
    forall k: Key | !EverGivenUp(marks, k) ensures ClosedByEnds(m, k, marks) {
      ClosedExactly(known, m, k, marks);
    }
    forall k: Key | k in m ensures Shows(m, k, CourseOf(marks, k)) {
      assert Told(known, m, k, marks);
    }
  }

  lemma NothingLogged()
    ensures Agree(map[], [])
  {
  }

  lemma NoneLostIs(c: Connection)
    ensures NoneLost(c) <==> StreamLife.NothingLostIn(c.store.slab, c.store.contents)
  {
  }

  lemma NoneLostYet(c: Connection)
    requires c.Valid() && c.prio.books == map[]
    ensures NoneLost(c)
  {
    forall k | k in c.store.slab ensures false {
      c.Guarantees(k);
    }
  }

  twostate lemma NoneLostStill(c: Connection)
    requires c.LosesNone()
    ensures old(NoneLost(c)) ==> NoneLost(c)
  {
  }

  lemma UpsetNow(log: seq<Outcome>, o: Outcome)
    ensures NeverUpset(log + [o]) <==> NeverUpset(log) && !o.Upset?
  {
    if NeverUpset(log + [o]) {
      assert (log + [o])[|log|] == o;
      assert forall i :: 0 <= i < |log| ==> (log + [o])[i] == log[i];
    }
  }

  lemma LogInOrder(books: map<Key, Book>, log: seq<Outcome>)
    requires Agree(books, log)
    ensures NothingAfterEnd(log)
    ensures forall i, k :: 0 <= i < |log| && Ends(log[i], k) ==> SentOn(log, k) == GivenTo(log, k)
  {
  }

  lemma OnRecord(c: Connection, log: seq<Outcome>, k: Key)
    requires c.Valid() && k in c.store.slab && Agree(c.prio.books, log)
    ensures SentOn(log, k) <= GivenTo(log, k)
  {
    hide Connection.Valid, GivenTo, SentOn, NothingAfterEnd;
    c.Guarantees(k);
  }

  // ----- progress

  /** Writing goes on until nothing more can be written, or the assertion of a window fails, and it ends. Then whatever
      was given to a stream that was opened has been sent, END_STREAM with it, unless it was given up, its own window is
      used up, or the connection had no capacity to assign. */
  method WriteAll(c: Connection, maxLen: nat) returns (frames: seq<Outgoing>, failed: Option<(Stream, Flow)>)
    requires c.Valid() && c.prio.exact && maxLen > 0
    modifies c, c.store, c.prio
    ensures failed.None? ==> c.Valid() && c.prio.held == None
    ensures failed.None? ==> forall k :: k in c.store.slab && k !in c.store.Queue(NextOpen) ==>
      && k in c.prio.books
      && if c.store.slab[k].frames == [] then Finished(c.prio.books[k])
         else c.store.slab[k].flow.window <= 0 || old(c.prio.flow).available == 0
    ensures old(c.counts).send + |old(c.store.Queue(NextOpen))| <= old(c.counts).maxSend ==>
      c.store.Queue(NextOpen) == []
    ensures failed.Some? ==> Fails(failed.value.0, maxLen, failed.value.1) && EmptyOnNegative(failed.value.0)
  {
    hide Connection.Valid, Entered, Fails, EmptyOnNegative, Connection.Burden, Finished, StreamLife.NoneGetsLost;
    frames := [];
    ghost var first := true;
    while true
      invariant c.Valid() && c.prio.exact && c.prio.flow.available == old(c.prio.flow).available
      invariant first ==> c.counts == old(c.counts) && c.store.Queue(NextOpen) == old(c.store.Queue(NextOpen))
      invariant !first && old(c.counts).send + |old(c.store.Queue(NextOpen))| <= old(c.counts).maxSend ==>
        c.store.Queue(NextOpen) == []
      decreases c.Burden()
    {
      ghost var opening := c.store.Queue(NextOpen);
      var r := c.WriteOne(maxLen);
      assert opening == [] ==> |c.store.Queue(NextOpen)| == 0;
      first := false;
      match r {
        case Wrote(f) => frames := frames + [f];
        case NothingToSend =>
          AllQuiescent(c);
          return frames, None;
        case Panic(s, conn) => return frames, Some((s, conn));
      }
    }
  }

  lemma AllQuiescent(c: Connection)
    requires c.Valid() && c.prio.exact && c.prio.held == None
    requires forall k :: k in c.store.slab && c.store.slab[k].Ready() ==> k in c.store.Queue(NextOpen)
    ensures forall k :: k in c.store.slab && k !in c.store.Queue(NextOpen) ==>
      && k in c.prio.books
      && if c.store.slab[k].frames == [] then Finished(c.prio.books[k])
         else c.store.slab[k].flow.window <= 0 || c.prio.flow.available == 0
  {
    hide Connection.Valid, Stream.Ready, Finished;
    forall k | k in c.store.slab && k !in c.store.Queue(NextOpen)
      ensures k in c.prio.books && if c.store.slab[k].frames == [] then Finished(c.prio.books[k])
        else c.store.slab[k].flow.window <= 0 || c.prio.flow.available == 0
    {
      c.Quiescent(k);
    }
  }
}
