/** The scheduler: one connection window shared out among streams, payloads cut into DATA frames, and what the
    codec did not take put back (sections 5.2 and 6.9 of RFC 7540). */
module Prioritize {
  import opened Headers
  import opened FlowControl
  import opened StreamState
  import opened StreamStore
  import opened SendFlow
  import opened Sharing
  import opened SendBooks

  datatype UserError = PayloadTooBig | InactiveStreamId | UnexpectedFrameType

  /** What goes to the codec: a slice of a payload, or a frame without payload. */
  datatype Outgoing = Slice(stream: Key, bytes: Bytes, eos: bool) | Control(stream: Key, frame: Frame)

  /** What became of the first stream in the queue for sending. `Panics` is an assertion on a window. */
  datatype Popped = Empty | Blocked(key: Key) | Dangling(key: Key) | Out(frame: Outgoing) | Panics(key: Key) {
    function Key(): Key
      requires !Empty?
    {
      if Out? then frame.stream else key
    }
  }

  /** A stream at its end, with at most a reset queued. */
  function Ended(s: Stream, state: State, frames: seq<Frame>): Stream {
    s.(state := state, frames := frames, buffered := 0, requested := 0)
  }

  /** A stream whose capacity was taken back. */
  function Relieved(s: Stream): Stream {
    s.(flow := s.flow.Claim(AsSize(s.flow.available)))
  }

  /** A stream that its user resets: one that was reset is left alone, and one that ended by itself and has nothing
      queued needs no frame to say so. */
  function ResetOf(s: Stream): Stream {
    if s.state.IsReset() then s
    else if s.state.Closed? && s.frames == [] then s.(state := Closed(LocallyReset))
    else Ended(s, Closed(LocallyReset), [ResetFrame])
  }

  /** What resetting a stream gives back to the connection. */
  function Reclaimed(s: Stream): nat {
    if s.state.IsReset() || (s.state.Closed? && s.frames == []) then 0 else AsSize(s.flow.available)
  }

  /** A reset stream before anything is shared out again. */
  function Reset(s: Stream): Stream {
    ResetOf(s).(flow := s.flow.Claim(Reclaimed(s)))
  }

  /** What taking the first stream off the queue for sending does; it goes to the back of the queue if it has more
      to send. */
  ghost predicate PopDone(r: Popped, maxLen: nat, sending: seq<Key>, sending': seq<Key>, m: map<Key, Stream>,
                          m': map<Key, Stream>, conn: Flow, conn': Flow) {
    if r.Empty? then sending == sending' == [] && m' == m && conn' == conn
    else
      && sending != [] && r.Key() == sending[0] && r.Key() in m
      && Dispatched(r, m[r.Key()], maxLen, m, m', conn, conn')
      && (!r.Panics? ==> r.Key() in m' && sending' == Added(sending[1..], r.Key(), r.Out? && MoreToSend(m'[r.Key()])))
  }

  /** A slice entered in the books: it continues what was sent, nothing of the stream came after END_STREAM, and
      with END_STREAM everything given has been sent. */
  ghost predicate Entered(books: map<Key, Book>, books': map<Key, Book>, slice: Outgoing)
    requires slice.Slice?
  {
    var k := slice.stream;
    && k in books
    && var b := books[k];
    var b' := b.(sent := b.sent + slice.bytes, ended := slice.eos);
    && !b.ended && !b.dropped && books' == books[k := b']
    && (slice.eos ==> b'.sent == b'.given)
  }

  /** Whether a stream goes back to the queue for sending after one of its frames went out. */
  predicate MoreToSend(s: Stream) {
    s.frames != [] || s.state.IsScheduledReset()
  }

  /** How much of the first payload of `s` goes into a frame. */
  function SliceLen(s: Stream, maxLen: nat): nat
    requires s.frames != [] && s.frames[0].Data?
  {
    Min(Min(|s.frames[0].payload|, maxLen), AsSize(s.flow.available))
  }

  /** A payload that waits for capacity. */
  predicate Stalled(s: Stream) {
    s.frames != [] && s.frames[0].Data? && s.frames[0].payload != [] && SizeEq(s.flow.available, 0)
  }

  /** An assertion fails on sending from `s`: its window is negative, or that of the connection too small. */
  predicate Fails(s: Stream, maxLen: nat, conn: Flow) {
    s.frames != [] && s.frames[0].Data? && !Stalled(s) && (s.flow.window < 0 || SliceLen(s, maxLen) > conn.window)
  }

  /** An empty payload on a negative window. */
  predicate EmptyOnNegative(s: Stream) {
    s.frames != [] && s.frames[0].Data? && s.frames[0].payload == [] && s.flow.window < 0
  }

  /** While capacity is accounted for exactly, nothing else fails. */
  lemma FailsExactly(m: map<Key, Stream>, conn: Flow, k: Key, maxLen: nat)
    requires k in m && Balanced(true, m, conn) && AllBounded(true, m)
    ensures Fails(m[k], maxLen, conn) <==> EmptyOnNegative(m[k])
  {
    WithinConnection(m, conn, k);
  }

  /** What sending from stream `s` does to it and to the connection window. It panics exactly where an assertion on a
      window fails. */
  ghost predicate Dispatched(r: Popped, s: Stream, maxLen: nat, m: map<Key, Stream>, m': map<Key, Stream>, conn: Flow,
                             conn': Flow)
    requires !r.Empty?
  {
    var k := r.Key();
    && (r.Panics? <==> Fails(s, maxLen, conn))
    && match r
       case Blocked(_) => Stalled(s) && m' == m && conn' == conn
       case Dangling(_) => s.frames == [] && !s.state.IsScheduledReset() && m' == m && conn' == conn
       case Panics(_) => m' == m && conn' == conn
       case Out(Slice(_, bytes, eos)) =>
         && s.frames != [] && s.frames[0].Data? && !Stalled(s)
         && var payload := s.frames[0].payload;
         && |bytes| == SliceLen(s, maxLen) && bytes == payload[..|bytes|]
         && eos == (s.frames[0].eos && bytes == payload)
         && s.flow.CanSend(|bytes|) && conn.Assign(|bytes|).CanSend(|bytes|) && |bytes| <= s.requested
         && |bytes| <= s.buffered
         && m' == m[k := Sent(s, |bytes|, s.frames[1..])] && conn' == conn.Assign(|bytes|).SendData(|bytes|)
       case Out(Control(_, f)) =>
         && conn' == conn
         && if s.frames != [] then !f.Data? && f == s.frames[0] && m' == m[k := s.(frames := s.frames[1..])]
            else s.state.IsScheduledReset() && f == ResetFrame && m' == m[k := s.(state := Closed(LocallyReset))]
  }

  /** What is in flight after sending from stream `s`: the remainder of the payload a slice was cut from. */
  predicate Flies(r: Popped, s: Stream, inFlight: InFlight, held: Option<Prioritized>)
    requires !r.Empty?
  {
    if r.Out? && r.frame.Slice? then
      && s.frames != [] && s.frames[0].Data? && |r.frame.bytes| <= |s.frames[0].payload|
      && inFlight == DataFrame(r.Key())
      && held == Some(Prioritized(r.Key(), s.frames[0].payload[|r.frame.bytes|..], s.frames[0].eos))
    else held == None
  }

  class Scheduler {
    const store: Store<Stream>
    var flow: Flow
    var inFlight: InFlight
    var held: Option<Prioritized>
    ghost var books: map<Key, Book>
    /** No handle was ever dropped that upset the sharing: the last one of an open stream that was not `Reclaimable`. */
    ghost var exact: bool

    /** The books are in order, and so are the queues. While capacity is accounted for exactly it is shared out as it
        should be, and nothing is left over that anybody waits for. */
    ghost predicate Valid()
      reads this, store
    {
      && Fits(None, InTheAir(inFlight, held)) && NothingSpare()
      && Recorded(None) && AirOpened()
    }

    ghost predicate NothingSpare()
      reads this, store`contents
    {
      exact ==> NoSpare(flow, store.Queue(NextSendCapacity))
    }

    /** A stream of which a payload is in flight is on the books, and does not wait to be opened. */
    ghost predicate AirOpened()
      reads this, store`contents
    {
      && (inFlight.DataFrame? ==> inFlight.stream in books)
      && (InTheAir(inFlight, held).Some? ==> InTheAir(inFlight, held).value !in store.Queue(NextOpen))
    }

    /** The books of all streams but one are in order. */
    ghost predicate Recorded(but: Option<Key>)
      reads this, store`slab
    {
      HeldOk(store.slab, inFlight, held) && AllBooked(store.slab, inFlight, held, books, but)
    }

    /** Capacity is shared out as it should be, but for what is still to be done for the two streams named. */
    ghost predicate Fits(unfed: Option<Key>, unscheduled: Option<Key>)
      reads this, store
    {
      FitsWith(flow, unfed, unscheduled)
    }

    ghost predicate FitsWith(conn: Flow, unfed: Option<Key>, unscheduled: Option<Key>)
      reads this, store
    {
      && store.Valid()
      && Fit(exact, store.slab, conn, store.Queue(NextSendCapacity), store.Queue(NextSend), store.Queue(NextOpen),
             unfed, unscheduled)
    }

    /** The queues of others are as they were; those of this one have at most grown at the end. */
    twostate predicate QueuesGrew()
      reads store
    {
      && old(store.Queue(NextSend)) <= store.Queue(NextSend)
      && forall q :: q != NextSend && q != NextSendCapacity ==> store.Queue(q) == old(store.Queue(q))
    }

    twostate predicate NobodyNewHere()
      reads store
    {
      NobodyNew(store.slab, old(store.Queue(NextSendCapacity)), store.Queue(NextSendCapacity),
                old(store.Queue(NextSend)), store.Queue(NextSend))
    }

    twostate predicate NewTakePartHere(but: Option<Key>)
      reads store
    {
      NewTakePart(store.slab, old(store.Queue(NextSendCapacity)), store.Queue(NextSendCapacity),
                  old(store.Queue(NextSend)), store.Queue(NextSend), but)
    }

    constructor (store: Store<Stream>, initWindow: nat)
      requires store.Valid() && store.slab == map[] && initWindow <= MAX_WINDOW_SIZE
      requires store.Queue(NextSend) == store.Queue(NextOpen) == store.Queue(NextSendCapacity) == []
      ensures Valid() && this.store == store && flow == Flow(initWindow, initWindow) && held == None && books == map[]
        && exact
    {
      this.store, flow := store, Flow(initWindow, initWindow);
      inFlight, held, books, exact := Nothing, None, map[], true;
    }

    predicate IsSendReady(k: Key)
      reads this, store`queued
    {
      !store.IsQueued(NextOpen, k)
    }

    /** Gives a stream as much as it wants and the connection has, and puts it in the queues that go with it. */
    method TryAssignCapacity(k: Key, ghost unscheduled: Option<Key>)
      requires k in store.slab && Fits(Some(k), unscheduled)
      requires var s := store.slab[k];
        s.WithinWindow() && s.flow.available <= s.requested && (s.Active() || Additional(s) == 0)
      modifies this`flow, store`slab, store`queued, store`next, store`indices, store`contents
      ensures Fits(None, unscheduled) && QueuesGrew() && NewTakePartHere(None)
      ensures var s := old(store.slab[k]);
        && s.Bounded(exact) && old(flow).available >= 0
        && var n := Share(s, old(flow));
          store.slab == old(store.slab)[k := s.(flow := s.flow.Assign(n))] && flow == old(flow).Claim(n)
      ensures Grants(old(store.slab), store.slab)
      ensures var s, short := store.slab[k], old(Additional(store.slab[k])) > 0;
        && store.Queue(NextSendCapacity) ==
          Added(old(store.Queue(NextSendCapacity)), k, short && s.flow.available < s.Want())
        && store.Queue(NextSend) ==
          Added(old(store.Queue(NextSend)), k, short && s.buffered > 0 && k !in store.Queue(NextOpen))
        && (exact && s.flow.available < s.Want() ==> flow.available == 0)
        && (short && old(flow).available > 0 ==> flow.available < old(flow).available)
    {
      hide Fit, Store.Valid, Stream.Bounded, Apart, Grants, Added, DataOf, Share, Flow.HasUnavailable, Flow.WindowSize,
        Stream.Want, Additional;
      FitParts(exact, store.slab, flow, store.Queue(NextSendCapacity), store.Queue(NextSend), store.Queue(NextOpen),
               Some(k), unscheduled, k);
      ShareSteps(store.slab[k], flow);
      Owes(store.slab[k]);
      var s := store.slab[k];
      ghost var n := Share(s, flow);
      var additional := Min(s.requested - AsSize(s.flow.available), s.flow.WindowSize() - AsSize(s.flow.available));
      if additional == 0 {
        ShareFits(exact, store.slab, flow, store.Queue(NextSendCapacity), store.Queue(NextSend), store.Queue(NextOpen),
                  store.Queue(NextSendCapacity), store.Queue(NextSend), k, unscheduled);
        assert store.slab[k := s.(flow := s.flow.Assign(n))] == store.slab;
        return;
      }
      GiveAndQueue(k, additional, unscheduled);
    }

    /** Gives a stream up to `additional`, and puts it in the queues that go with it. */
    method GiveAndQueue(k: Key, additional: nat, ghost unscheduled: Option<Key>)
      requires k in store.slab && Fits(Some(k), unscheduled) && store.slab[k].Bounded(exact) && flow.available >= 0
      requires var s := store.slab[k];
        s.WithinWindow() && s.flow.available <= s.requested && s.Active() && additional == Additional(s) > 0
      modifies this`flow, store`slab, store`queued, store`next, store`indices, store`contents
      ensures Fits(None, unscheduled) && QueuesGrew() && Grants(old(store.slab), store.slab) && NewTakePartHere(None)
      ensures var s := old(store.slab[k]);
        var n := Share(s, old(flow));
          store.slab == old(store.slab)[k := s.(flow := s.flow.Assign(n))] && flow == old(flow).Claim(n)
      ensures var s := store.slab[k];
        && store.Queue(NextSendCapacity) == Added(old(store.Queue(NextSendCapacity)), k, s.flow.available < s.Want())
        && store.Queue(NextSend) == Added(old(store.Queue(NextSend)), k, s.buffered > 0 && k !in store.Queue(NextOpen))
    {
      hide Fit, Store.Valid, Stream.Bounded, Apart, Grants, Added, DataOf, Share, Flow.HasUnavailable, Flow.WindowSize,
        Stream.Want, Additional, Stream.WithinWindow, Stream.Active;
      ghost var m, conn := store.slab, flow;
      ghost var waiting, sending, opening := store.Queue(NextSendCapacity), store.Queue(NextSend),
        store.Queue(NextOpen);
      ShareSteps(m[k], flow);
      FitParts(exact, m, flow, waiting, sending, opening, Some(k), unscheduled, k);
      Grant(k, additional);
      var s := store.slab[k];
      store.IsMember(NextOpen, k);
      QueueUp(k, s.flow.available < s.requested && s.flow.HasUnavailable(), s.buffered > 0 && IsSendReady(k));
      AddedApart(sending, opening, k, s.buffered > 0 && k !in opening);
      ShareFits(exact, m, conn, waiting, sending, opening, store.Queue(NextSendCapacity), store.Queue(NextSend), k,
                unscheduled);
      AddedTakesPart(m, store.slab, waiting, sending, k, s.flow.available < s.Want(), s.buffered > 0 && k !in opening);
    }

    /** Only a closed stream can owe capacity, and none while capacity is accounted for exactly. */
    lemma Owes(s: Stream)
      requires s.Bounded(exact)
      ensures s.WithinWindow() && s.flow.available <= s.requested
        && (exact || !s.state.Closed? ==> s.flow.available >= 0)
    {
    }

    /** Moves up to `additional` from the connection to a stream, as far as the connection has it. */
    method Grant(k: Key, additional: nat)
      requires store.Valid() && k in store.slab
      modifies this`flow, store`slab
      ensures store.Valid()
      ensures var n: nat := Min(AsSize(old(flow).available), additional);
        && flow == old(flow).Claim(n)
        && store.slab == old(store.slab)[k := old(store.slab)[k].(flow := old(store.slab)[k].flow.Assign(n))]
    {
      hide Store.Valid;
      var s, available := store.slab[k], AsSize(flow.available);
      if available > 0 {
        var assign: nat := Min(available, additional);
        store.Set(k, s.(flow := s.flow.Assign(assign)));
        flow := flow.Claim(assign);
      } else {
        assert store.slab[k := s] == store.slab;
      }
    }

    /** Gives the connection `inc` more and shares it out among those who wait, first come first served, until
        either runs out. */
    method AssignConnectionCapacity(inc: nat, ghost unscheduled: Option<Key>)
      requires FitsWith(flow.Assign(inc), None, unscheduled)
      modifies this`flow, store`slab, store`queued, store`next, store`indices, store`contents
      ensures Fits(None, unscheduled) && NothingSpare() && QueuesGrew() && NobodyNewHere()
      ensures Grants(old(store.slab), store.slab) && flow.window == old(flow.window)
      ensures exact ==> SharedOut(old(store.slab), old(flow).available + inc)
    {
      hide Fit, Store.Valid, Stream.Bounded, Apart, Grants, DataOf, Share, Stream.Want, HadTurns, Turns,
        Stream.WithinWindow, Additional, NobodyNew;
      flow := flow.Assign(inc);
      NothingGranted(store.slab);
      ghost var waiting, sending, n: nat := store.Queue(NextSendCapacity), store.Queue(NextSend), 0;
      QueueOnce(unscheduled);
      ghost var a: nat := flow.available;
      NobodyServed(store.slab, waiting, a);
      NobodyNewYet(store.slab, waiting, sending);
      while SizeAbove(flow.available, 0)
        invariant Fits(None, unscheduled) && QueuesGrew() && NobodyNewHere()
        invariant Grants(old(store.slab), store.slab) && flow.window == old(flow.window)
        invariant exact ==>
          HadTurns(old(store.slab), store.slab, waiting, store.Queue(NextSendCapacity), a, flow.available, n)
        invariant exact ==> n <= |waiting| && (flow.available > 0 ==> store.Queue(NextSendCapacity) == waiting[n..])
        decreases flow.available, |store.Queue(NextSendCapacity)|
      {
        ghost var m, conn, mine, line := store.slab, flow, store.Queue(NextSendCapacity), store.Queue(NextSend);
        var k := ServeNext(unscheduled);
        GrantsTransitive(old(store.slab), m, store.slab);
        NobodyNewStill(m, store.slab, waiting, mine, store.Queue(NextSendCapacity), sending, line,
                       store.Queue(NextSend));
        if k.None? {
          break;
        }
        if exact {
          assert mine == waiting[n..] && waiting[n] == mine[0] && mine[1..] == waiting[n + 1..];
          OneMoreServed(old(store.slab), m, store.slab, waiting, store.Queue(NextSendCapacity), a, conn.available,
                        flow.available, n);
        }
        n := n + 1;
      }
      if exact {
        AllServed(old(store.slab), store.slab, waiting, store.Queue(NextSendCapacity), a, flow.available, n);
      }
    }

    /** When there were `a` to give, those who waited had their turn among streams `m`, and nobody else got anything. */
    twostate predicate SharedOut(m: map<Key, Stream>, a: int)
      reads this`flow, store
    {
      a >= 0 && Served(m, store.slab, old(store.Queue(NextSendCapacity)), store.Queue(NextSendCapacity), a,
                       flow.available)
    }

    lemma QueueOnce(unscheduled: Option<Key>)
      requires Fits(None, unscheduled)
      ensures NoDup(store.Queue(NextSendCapacity)) && flow.available >= 0
    {
      hide Total;
      assert Chain(NextSendCapacity, ListOf(store.contents, NextSendCapacity), EndsOf(store.indices, NextSendCapacity),
                   store.queued, store.next);
    }

    /** Serves the first who waits. Streams that take no part in the sharing are passed over. */
    method ServeNext(ghost unscheduled: Option<Key>) returns (k: Option<Key>)
      requires Fits(None, unscheduled) && flow.available > 0
      modifies this`flow, store`slab, store`queued, store`next, store`indices, store`contents
      ensures Fits(None, unscheduled) && QueuesGrew() && NobodyNewHere()
      ensures Grants(old(store.slab), store.slab) && flow.window == old(flow.window)
      ensures k.None? <==> old(store.Queue(NextSendCapacity)) == []
      ensures k.None? ==> store.slab == old(store.slab) && flow == old(flow) && store.Queue(NextSendCapacity) == []
      ensures k.Some? ==>
        var (waiting, waiting') := (old(store.Queue(NextSendCapacity)), store.Queue(NextSendCapacity));
        && waiting[0] == k.value && k.value in store.slab && store.slab.Keys == old(store.slab).Keys
        && (forall j :: j in store.slab && j != k.value ==> store.slab[j] == old(store.slab)[j])
        && (if waiting' == waiting[1..] then flow.available <= old(flow).available
            else flow.available < old(flow).available)
        && (exact ==>
            OneTurn(old(store.slab), store.slab, old(flow).available, flow.available, waiting, waiting', k.value))
    {
      hide Fit, Store.Valid, Stream.Bounded, Apart, Grants, DataOf, Share, Stream.Want, Stream.WithinWindow, Additional,
        Stream.Active;
      ghost var mine := store.Queue(NextSendCapacity);
      NothingGranted(store.slab);
      QueueOnce(unscheduled);
      k := store.Pop(NextSendCapacity);
      if k.None? {
        return;
      }
      PoppedUnfed(exact, store.slab, flow, mine, store.Queue(NextSendCapacity), store.Queue(NextSend),
                  store.Queue(NextOpen), k.value, unscheduled);
      if TakesPart(k.value) {
        ghost var m := store.slab;
        HoldsLess(k.value, unscheduled);
        ghost var conn := flow;
        TryAssignCapacity(k.value, unscheduled);
        TurnTaken(m[k.value], conn, mine, k.value);
      } else {
        assert store.slab[k.value := Given(store.slab[k.value], 0)] == store.slab;
      }
    }

    /** What a stream whose turn has come gets, and when it waits again. */
    lemma TurnTaken(s: Stream, conn: Flow, mine: seq<Key>, k: Key)
      requires s.Bounded(exact) && s.Active() && conn.available > 0 && mine != [] && mine[0] == k && NoDup(mine)
      ensures exact ==>
        var n := Share(s, conn);
        && n == Min(Lack(s), conn.available)
        && Added(mine[1..], k, Additional(s) > 0 && s.flow.available + n < Given(s, n).Want()) ==
             mine[1..] + if conn.available < Lack(s) then [k] else []
    {
      assert forall i :: 0 <= i < |mine[1..]| ==> mine[1..][i] == mine[i + 1];
    }

    predicate TakesPart(k: Key)
      requires k in store.slab
      reads store`slab
      ensures TakesPart(k) <==> store.slab[k].Active()
    {
      store.slab[k].state.IsSendStreaming() || store.slab[k].buffered > 0
    }

    lemma HoldsLess(k: Key, unscheduled: Option<Key>)
      requires k in store.slab && Fits(Some(k), unscheduled)
      ensures store.slab[k].WithinWindow() && store.slab[k].flow.available <= store.slab[k].requested
    {
      hide Store.Valid, Total;
      FitParts(exact, store.slab, flow, store.Queue(NextSendCapacity), store.Queue(NextSend), store.Queue(NextOpen),
               Some(k), unscheduled, k);
    }

    ghost predicate OthersFit(k: Key, unscheduled: Option<Key>)
      reads this, store
    {
      && store.Valid()
      && FitOthers(exact, store.slab, flow, store.Queue(NextSendCapacity), store.Queue(NextSend), store.Queue(NextOpen),
                   k, unscheduled)
    }

    /** Nothing but what is asked for keeps `k` from being as it should be. */
    ghost predicate InLine(k: Key, unscheduled: Option<Key>)
      reads this, store
      requires k in store.slab
    {
      var s := store.slab[k];
      exact ==>
        && (s.Starved() ==> k in store.Queue(NextSendCapacity))
        && (s.Ready() && k !in store.Queue(NextOpen) && Some(k) != unscheduled ==> k in store.Queue(NextSend))
    }

    /** What a stream asks for beyond its buffered data. Asking for less gives back what it has too much; asking
        for more is ignored once it is closed for sending. */
    method ReserveCapacity(k: Key, capacity: nat, ghost unscheduled: Option<Key>)
      requires OthersFit(k, unscheduled) && k in store.slab && Loose(exact, store.slab[k]) && InLine(k, unscheduled)
      requires store.slab[k].state.IsSendClosed() ==> capacity == 0 || store.slab[k].Bounded(exact)
      modifies this`flow, store`slab, store`queued, store`next, store`indices, store`contents
      ensures Fits(None, unscheduled) && QueuesGrew() && NewTakePartHere(None) && flow.window == old(flow.window)
      ensures old(NothingSpare()) ==> NothingSpare()
      ensures Adjusted(old(store.slab), store.slab, k, Asking(old(store.slab[k]), capacity))
    {
      hide Fit, FitOthers, Store.Valid, Apart, Grants, Adjusted, DataOf;
      ghost var m := store.slab;
      var s := store.slab[k];
      var total := capacity + s.buffered;
      if total == s.requested {
        Unchanged(m, k);
        AlreadyInLine(k, unscheduled);
      } else if total < s.requested {
        var available := AsSize(s.flow.available);
        s := s.(requested := total);
        if available > total {
          var diff: nat := available - total;
          s := s.(flow := s.flow.Claim(diff));
          Settle(k, s, diff, unscheduled);
          SetThenGranted(m, k, s, store.slab);
          SameButAvailable(m, store.slab, k, s, Asking(m[k], capacity));
        } else {
          SetInLine(k, s, None, unscheduled);
          AdjustedSet(m, k, s);
        }
      } else {
        if s.state.IsSendClosed() {
          Unchanged(m, k);
          AlreadyInLine(k, unscheduled);
          return;
        }
        s := s.(requested := total);
        SetInLine(k, s, Some(k), unscheduled);
        TryAssignCapacity(k, unscheduled);
        SetThenGranted(m, k, s, store.slab);
      }
    }

    /** Sets a stream right, to be given more capacity afterwards if it is `unfed`. */
    method SetInLine(k: Key, s: Stream, ghost unfed: Option<Key>, ghost unscheduled: Option<Key>)
      requires OthersFit(k, unscheduled) && k in store.slab && s.Bounded(exact)
      requires s.flow.available == store.slab[k].flow.available
      requires exact && s.Starved() && Some(k) != unfed ==> k in store.Queue(NextSendCapacity)
      requires exact && s.Ready() && k !in store.Queue(NextOpen) && Some(k) != unscheduled ==>
        k in store.Queue(NextSend)
      modifies store`slab
      ensures Fits(unfed, unscheduled) && store.slab == old(store.slab)[k := s]
    {
      hide Fit, FitOthers, Store.Valid, Apart, Stream.Bounded, Stream.Starved, Stream.Ready;
      OthersApart(k, unscheduled);
      Mended(exact, store.slab, flow, store.Queue(NextSendCapacity), store.Queue(NextSend), store.Queue(NextOpen),
             store.Queue(NextSend), k, s, 0, unfed, unscheduled);
      store.Set(k, s);
    }

    /** Sets a stream right and shares out the `n` it gives back. */
    method Settle(k: Key, s: Stream, n: nat, ghost unscheduled: Option<Key>)
      requires OthersFit(k, unscheduled) && k in store.slab && s.Bounded(exact)
      requires s.flow.available == store.slab[k].flow.available - n
      requires exact && s.Starved() ==> k in store.Queue(NextSendCapacity)
      requires exact && s.Ready() && k !in store.Queue(NextOpen) && Some(k) != unscheduled ==>
        k in store.Queue(NextSend)
      modifies this`flow, store`slab, store`queued, store`next, store`indices, store`contents
      ensures Fits(None, unscheduled) && NothingSpare() && QueuesGrew() && NobodyNewHere()
      ensures Grants(old(store.slab)[k := s], store.slab) && flow.window == old(flow.window)
      ensures exact ==> SharedOut(old(store.slab)[k := s], old(flow).available + n)
    {
      hide Fit, FitOthers, Store.Valid, Apart, Grants, Stream.Bounded, Stream.Starved, Stream.Ready, Served;
      OthersApart(k, unscheduled);
      Mended(exact, store.slab, flow, store.Queue(NextSendCapacity), store.Queue(NextSend), store.Queue(NextOpen),
             store.Queue(NextSend), k, s, n, None, unscheduled);
      store.Set(k, s);
      AssignConnectionCapacity(n, unscheduled);
    }

    lemma AlreadyInLine(k: Key, unscheduled: Option<Key>)
      requires OthersFit(k, unscheduled) && k in store.slab && store.slab[k].Bounded(exact) && InLine(k, unscheduled)
      ensures Fits(None, unscheduled)
    {
      hide Total, Store.Valid, Stream.Bounded, Stream.Ready, Stream.Starved;
    }

    lemma OthersApart(k: Key, unscheduled: Option<Key>)
      requires OthersFit(k, unscheduled)
      ensures Apart(store.Queue(NextSend), store.Queue(NextOpen)) && flow.available >= 0
    {
      hide Total;
    }

    lemma Unchanged(m: map<Key, Stream>, k: Key)
      requires k in m
      ensures m[k := m[k]] == m && Adjusted(m, m, k, m[k])
    {
    }

    // ----- frames

    /** Queues a frame and the stream with it, unless it still waits to be opened. */
    method QueueFrame(k: Key, f: Frame)
      requires store.Valid() && k in store.slab
      modifies store`slab, store`queued, store`next, store`indices, store`contents
      ensures store.Valid()
      ensures store.slab == old(store.slab)[k := WithFrame(old(store.slab)[k], f)]
      ensures store.Queue(NextSend) == Added(old(store.Queue(NextSend)), k, k !in store.Queue(NextOpen))
      ensures forall q :: q != NextSend ==> store.Queue(q) == old(store.Queue(q))
    {
      hide Store.Valid;
      store.Set(k, WithFrame(store.slab[k], f));
      ScheduleSend(k);
    }

    method ScheduleSend(k: Key)
      requires store.Valid() && k in store.slab
      modifies store`queued, store`next, store`indices, store`contents
      ensures store.Valid()
      ensures store.Queue(NextSend) == Added(old(store.Queue(NextSend)), k, k !in store.Queue(NextOpen))
      ensures forall q :: q != NextSend ==> store.Queue(q) == old(store.Queue(q))
    {
      hide Store.Valid;
      store.IsMember(NextOpen, k);
      if IsSendReady(k) {
        var _ := store.Push(NextSend, k);
      }
    }

    /** Takes a payload to be sent. On an error nothing changes; otherwise the payload is queued, at least as much
        capacity is asked for as is buffered, and END_STREAM closes the stream for sending and gives back what
        was asked for beyond that. */
    method SendData(k: Key, payload: Bytes, eos: bool) returns (r: Option<UserError>)
      requires Valid() && k in store.slab
      modifies this`flow, this`books, store`slab, store`queued, store`next, store`indices, store`contents
      ensures Valid() && QueuesGrew() && NewTakePartHere(Some(k)) && flow.window == old(flow.window)
      ensures var s := old(store.slab[k]);
        r == if |payload| > MAX_WINDOW_SIZE then Some(PayloadTooBig)
             else if s.state.IsSendStreaming() then None
             else if s.state.Closed? then Some(InactiveStreamId) else Some(UnexpectedFrameType)
      ensures r.Some? ==> store.slab == old(store.slab) && books == old(books)
      ensures r.None? ==>
        var s := old(store.slab[k]);
        && Adjusted(old(store.slab), store.slab, k, Taken(s, payload, eos))
        && k in old(books) && !old(books)[k].ended
        && books == old(books)[k := old(books)[k].Give(payload, eos)]
    {
      hide Fit, FitOthers, Store.Valid, Apart, Grants, Adjusted, DataOf, Booked, AllBooked, HeldOk, Stream.Bounded,
        Stream.Ready;
      if |payload| > MAX_WINDOW_SIZE {
        return Some(PayloadTooBig);
      }
      ghost var m := store.slab;
      var s0 := store.slab[k];
      if !s0.state.IsSendStreaming() {
        return Some(if s0.state.Closed? then InactiveStreamId else UnexpectedFrameType);
      }
      Accept(k, payload, eos);
      TookIn(m, store.slab, k, payload, eos);
      books := books[k := books[k].Give(payload, eos)];
      return None;
    }

    /** Asks for capacity for a payload, closes the stream if it is the last, and queues it. */
    method Accept(k: Key, payload: Bytes, eos: bool)
      requires Fits(None, InTheAir(inFlight, held)) && Recorded(None) && k in store.slab
        && store.slab[k].state.IsSendStreaming()
      modifies this`flow, store`slab, store`queued, store`next, store`indices, store`contents
      ensures Fits(None, InTheAir(inFlight, held)) && QueuesGrew() && NewTakePartHere(Some(k))
        && flow.window == old(flow.window)
      ensures old(NothingSpare()) ==> NothingSpare()
      ensures Adjusted(old(store.slab), store.slab, k, Taken(old(store.slab[k]), payload, eos))
    {
      hide Fit, FitOthers, Store.Valid, Apart, Grants, Adjusted, DataOf, AllBooked, HeldOk, Stream.Bounded,
        Stream.Ready, InTheAir, NewTakePart;
      var s0, f := store.slab[k], Data(payload, eos);
      ghost var m, u, w0, q0 := store.slab, InTheAir(inFlight, held), store.Queue(NextSendCapacity),
        store.Queue(NextSend);
      Buffer(k, |payload|, u);
      ghost var m1, w1, q1 := store.slab, store.Queue(NextSendCapacity), store.Queue(NextSend);
      AdjustedAt(m, m1, k, Buffered(s0, |payload|));
      ghost var s1 := m1[k];
      if eos {
        CloseForSending(k, u);
        AdjustedTransitive(m, m1, store.slab, k, Buffered(s0, |payload|), Closing(s1));
        NewTakePartAgain(m1, store.slab, k, Closing(s1), w0, w1, store.Queue(NextSendCapacity), q0, q1,
                         store.Queue(NextSend));
      }
      ghost var m2, w2, q2 := store.slab, store.Queue(NextSendCapacity), store.Queue(NextSend);
      AdjustedAt(m, m2, k, if eos then Closing(s1) else Buffered(s0, |payload|));
      ghost var s2 := m2[k];
      LeaveLine(k, u);
      ReadyToTake(m, s2, k, payload, eos);
      if store.slab[k].flow.available > 0 || store.slab[k].buffered == 0 {
        Enqueue(k, f, true, u);
      } else {
        Enqueue(k, f, false, u);
      }
      AdjustedSet(m2, k, WithFrame(s2, f));
      NewTakePartAgain(m2, store.slab, k, WithFrame(s2, f), w0, w2, store.Queue(NextSendCapacity), q0, q2,
                       store.Queue(NextSend));
      AdjustedTransitive(m, m2, store.slab, k, if eos then Closing(s1) else Buffered(s0, |payload|), WithFrame(s2, f));
      SameButAvailable(m, store.slab, k, WithFrame(s2, f), Taken(s0, payload, eos));
    }

    /** Counts bytes as buffered and asks for capacity for them. */
    method Buffer(k: Key, n: nat, ghost unscheduled: Option<Key>)
      requires Fits(None, unscheduled) && k in store.slab && store.slab[k].state.IsSendStreaming()
      modifies this`flow, store`slab, store`queued, store`next, store`indices, store`contents
      ensures Fits(None, unscheduled) && QueuesGrew() && NewTakePartHere(Some(k)) && flow.window == old(flow.window)
      ensures old(NothingSpare()) ==> NothingSpare()
      ensures Adjusted(old(store.slab), store.slab, k, Buffered(old(store.slab[k]), n))
    {
      hide Fit, FitOthers, Store.Valid, Apart, Grants, Adjusted, DataOf;
      ghost var m := store.slab;
      LeaveLine(k, unscheduled);
      var s := store.slab[k];
      s := s.(buffered := s.buffered + n);
      if s.requested < s.buffered {
        s := s.(requested := s.buffered);
        SetInLine(k, s, Some(k), unscheduled);
        TryAssignCapacity(k, unscheduled);
        SetThenGranted(m, k, s, store.slab);
      } else {
        SetInLine(k, s, None, unscheduled);
        AdjustedSet(m, k, s);
      }
    }

    lemma LeaveLine(k: Key, unscheduled: Option<Key>)
      requires Fits(None, unscheduled) && k in store.slab
      ensures OthersFit(k, unscheduled) && store.slab[k].Bounded(exact) && InLine(k, unscheduled)
      ensures store.slab[k].flow.available >= 0 || !(exact || !store.slab[k].state.Closed?)
    {
      hide FitOthers, Fit, Store.Valid, Stream.Ready, Stream.Starved;
      FitIsFitOthers(exact, store.slab, flow, store.Queue(NextSendCapacity), store.Queue(NextSend),
                     store.Queue(NextOpen), k, unscheduled);
    }

    /** Closes a stream for sending; what it asked for beyond its buffered data goes back. */
    method CloseForSending(k: Key, ghost unscheduled: Option<Key>)
      requires Fits(None, unscheduled) && k in store.slab && store.slab[k].state.IsSendStreaming()
      modifies this`flow, store`slab, store`queued, store`next, store`indices, store`contents
      ensures Fits(None, unscheduled) && QueuesGrew() && NewTakePartHere(Some(k)) && flow.window == old(flow.window)
      ensures old(NothingSpare()) ==> NothingSpare()
      ensures Adjusted(old(store.slab), store.slab, k, Closing(old(store.slab[k])))
    {
      hide Fit, FitOthers, Store.Valid, Apart, Grants, Adjusted, DataOf;
      ghost var m := store.slab;
      LeaveLine(k, unscheduled);
      var s := store.slab[k];
      s := s.(state := s.state.SendClose());
      OthersApart(k, unscheduled);
      StillOthers(exact, m, flow, store.Queue(NextSendCapacity), store.Queue(NextSend), store.Queue(NextOpen),
                  store.Queue(NextSend), k, s, unscheduled);
      store.Set(k, s);
      ghost var mid := store.slab;
      ReserveCapacity(k, 0, unscheduled);
      AdjustedSet(m, k, s);
      AdjustedTransitive(m, mid, store.slab, k, s, Asking(s, 0));
    }

    /** Queues a frame, and the stream too if it is to be `scheduled`. */
    method Enqueue(k: Key, f: Frame, scheduled: bool, ghost unscheduled: Option<Key>)
      requires Fits(None, unscheduled) && k in store.slab && WithFrame(store.slab[k], f).Bounded(exact)
      requires exact && !scheduled ==>
        (WithFrame(store.slab[k], f).Ready() && Some(k) != unscheduled ==> store.slab[k].Ready())
      modifies store`slab, store`queued, store`next, store`indices, store`contents
      ensures Fits(None, unscheduled) && QueuesGrew() && NewTakePartHere(Some(k))
        && store.Queue(NextSendCapacity) == old(store.Queue(NextSendCapacity))
      ensures store.slab == old(store.slab)[k := WithFrame(old(store.slab[k]), f)]
    {
      hide Fit, FitOthers, Store.Valid, Apart, DataOf, Stream.Ready, Stream.Bounded, Added;
      LeaveLine(k, unscheduled);
      OthersApart(k, unscheduled);
      ghost var m, sending, s := store.slab, store.Queue(NextSend), WithFrame(store.slab[k], f);
      AddedApart(sending, store.Queue(NextOpen), k, k !in store.Queue(NextOpen));
      SameHunger(store.slab[k], f);
      if scheduled {
        QueueFrame(k, f);
      } else {
        store.Set(k, WithFrame(store.slab[k], f));
      }
      Mended(exact, m, flow, store.Queue(NextSendCapacity), sending, store.Queue(NextOpen), store.Queue(NextSend), k, s,
             0, None, unscheduled);
    }

    lemma SameHunger(s: Stream, f: Frame)
      ensures WithFrame(s, f).Starved() <==> s.Starved()
    {
    }

    /** Before a payload is queued: the stream has room for it in its bounds. */
    lemma ReadyToTake(m: map<Key, Stream>, s: Stream, k: Key, payload: Bytes, eos: bool)
      requires HeldOk(m, inFlight, held) && AllBooked(m, inFlight, held, books, None)
      requires k in m && s.Bounded(exact) && s.frames == m[k].frames && s.buffered == m[k].buffered + |payload|
      ensures WithFrame(s, Data(payload, eos)).Bounded(exact)
      ensures s.flow.available == 0 && s.buffered != 0 ==>
        (WithFrame(s, Data(payload, eos)).Ready() && Some(k) != InTheAir(inFlight, held) ==> s.Ready())
    {
      PageOf(m, inFlight, held, books, k);
      DataOfSnoc(s.frames, Data(payload, eos));
      if s.flow.available == 0 && s.buffered != 0 {
        NotReadyYet(s, payload, eos, inFlight, held, k, RestEnds(inFlight, held, k), books[k]);
      }
    }

    lemma NotEnded(s: Stream, rest: Bytes, restEnds: bool, b: Book)
      requires Booked(s, rest, restEnds, b) && s.state.IsSendStreaming()
      ensures !b.ended
    {
    }

    lemma TookIn(m: map<Key, Stream>, m': map<Key, Stream>, k: Key, payload: Bytes, eos: bool)
      requires HeldOk(m, inFlight, held) && AllBooked(m, inFlight, held, books, None)
      requires k in m && m[k].state.IsSendStreaming() && Adjusted(m, m', k, Taken(m[k], payload, eos))
      ensures HeldOk(m', inFlight, held) && k in books && !books[k].ended
      ensures AllBooked(m', inFlight, held, books[k := books[k].Give(payload, eos)], None)
    {
      hide Booked, RestOf, RestEnds, AllBooked, DataOf, HeldOk;
      PageOf(m, inFlight, held, books, k);
      NotEnded(m[k], RestOf(inFlight, held, k), RestEnds(inFlight, held, k), books[k]);
      AdjustedSameData(m, m', k, Taken(m[k], payload, eos));
      HeldStays(m, m', inFlight, held);
      BookGiven(m[k], m'[k], RestOf(inFlight, held, k), RestEnds(inFlight, held, k), books[k], payload, eos);
      PageTurned(m, m', inFlight, held, books, k, books[k].Give(payload, eos), inFlight, held);
    }

    // ----- sending

    /** Takes the first stream off the queue for sending and sends what it can of its first frame: of a payload as
        much as the frame size and the capacity assigned to the stream admit. The rest is in the air until the
        codec is done with the slice. */
    method PopStream(maxLen: nat) returns (r: Popped)
      requires Valid() && held == None && maxLen > 0
      modifies this`flow, this`inFlight, this`held, this`books, store`slab, store`queued, store`next, store`indices,
        store`contents
      ensures r.Panics? || Valid()
      ensures forall q :: q != NextSend ==> store.Queue(q) == old(store.Queue(q))
      ensures PopDone(r, maxLen, old(store.Queue(NextSend)), store.Queue(NextSend), old(store.slab), store.slab,
                      old(flow), flow)
      ensures if r.Out? && r.frame.Slice? then Entered(old(books), books, r.frame)
        else books == old(books) && held == None
      ensures !r.Empty? ==> Flies(r, old(store.slab)[r.Key()], inFlight, held)
    {
      hide Fit, Store.Valid, HeldOk, AllBooked, Added, InTheAir, Dispatched, Popping, Entered;
      ghost var m, sending := store.slab, store.Queue(NextSend);
      NothingInTheAir(m, inFlight, held, 0);
      var popped := store.Pop(NextSend);
      if popped.None? {
        return Empty;
      }
      PoppedSoon(popped.value, sending);
      assert sending[1..] == store.Queue(NextSend);
      r := Dispatch(popped.value, maxLen);
    }

    /** Sends what can be sent of the first frame of a stream just taken off the queue. */
    method Dispatch(k: Key, maxLen: nat) returns (r: Popped)
      requires Popping(k) && maxLen > 0
      modifies this`flow, this`inFlight, this`held, this`books, store`slab, store`queued, store`next, store`indices,
        store`contents
      ensures r.Panics? || Valid()
      ensures forall q :: q != NextSend ==> store.Queue(q) == old(store.Queue(q))
      ensures !r.Empty? && r.Key() == k
        && Dispatched(r, old(store.slab)[k], maxLen, old(store.slab), store.slab, old(flow), flow)
      ensures !r.Panics? ==> k in store.slab
      ensures !r.Panics? ==>
        store.Queue(NextSend) == Added(old(store.Queue(NextSend)), k, r.Out? && MoreToSend(store.slab[k]))
      ensures if r.Out? && r.frame.Slice? then Entered(old(books), books, r.frame) else books == old(books)
      ensures Flies(r, old(store.slab)[k], inFlight, held)
    {
      hide Fit, FitOthers, Store.Valid, Apart, DataOf, Booked, AllBooked, HeldOk, Stream.Bounded, Added, InTheAir;
      var s := store.slab[k];
      if s.frames == [] {
        if s.state.IsScheduledReset() {
          SendControl(k, s.(state := Closed(LocallyReset)));
          return Out(Control(k, ResetFrame));
        }
        StaysOff(k);
        return Dangling(k);
      }
      match s.frames[0] {
        case Data(payload, eos) =>
          if |payload| > 0 && SizeEq(s.flow.available, 0) {
            StaysOff(k);
            return Blocked(k);
          }
          r := SendSlice(k, payload, eos, maxLen);
        case f =>
          NoPayload(s);
          SendControl(k, s.(frames := s.frames[1..]));
          return Out(Control(k, f));
      }
    }

    /** The queue for sending once `k` was taken off it, everything else being as it should be. */
    ghost predicate Popping(k: Key)
      reads this, store
    {
      && store.Valid() && k in store.slab && k !in store.Queue(NextSend)
      && Fit(exact, store.slab, flow, store.Queue(NextSendCapacity), [k] + store.Queue(NextSend), store.Queue(NextOpen),
             None, None)
      && NothingSpare() && Recorded(None) && held == None
    }

    lemma PoppedSoon(k: Key, sending: seq<Key>)
      requires store.Valid() && sending == [k] + store.Queue(NextSend) && NothingSpare()
      requires Fit(exact, store.slab, flow, store.Queue(NextSendCapacity), sending, store.Queue(NextOpen), None, None)
      requires k in store.slab && !store.IsQueued(NextSend, k) && Recorded(None) && held == None
      ensures Popping(k)
    {
      hide Fit, Store.Valid;
      store.IsMember(NextSend, k);
    }

    lemma StaysOff(k: Key)
      requires Popping(k) && !store.slab[k].Ready()
      ensures Valid()
    {
      hide Fit, Store.Valid, Stream.Ready, AllBooked, HeldOk, InTheAir;
      NothingInTheAir(store.slab, inFlight, held, k);
      NotSendingFits(exact, store.slab, flow, store.Queue(NextSendCapacity), store.Queue(NextSend),
                     store.Queue(NextOpen), k);
    }

    lemma NoPayload(s: Stream)
      requires s.frames != [] && !s.frames[0].Data?
      ensures DataOf(s.frames[1..]) == DataOf(s.frames)
    {
    }

    /** After a frame without payload: queues the stream again if it has more. */
    method SendControl(k: Key, s: Stream)
      requires Popping(k)
      requires var s0 := store.slab[k];
        && s == s0.(frames := s.frames, state := s.state) && DataOf(s.frames) == DataOf(s0.frames)
        && (s.frames == s0.frames || (s0.frames != [] && !s0.frames[0].Data? && s.frames == s0.frames[1..]))
        && (s.state == s0.state || (s0.state.Closed? && s.state.Closed?))
      modifies store`slab, store`queued, store`next, store`indices, store`contents
      ensures Valid() && held == None && store.slab == old(store.slab)[k := s]
      ensures store.Queue(NextSend) == Added(old(store.Queue(NextSend)), k, MoreToSend(s))
      ensures forall q :: q != NextSend ==> store.Queue(q) == old(store.Queue(q))
    {
      hide Fit, FitOthers, Store.Valid, Apart, DataOf, Booked, AllBooked, HeldOk, Stream.Bounded, Added, InTheAir;
      ghost var m, sending := store.slab, store.Queue(NextSend);
      PoppedOthers(exact, m, flow, store.Queue(NextSendCapacity), sending, store.Queue(NextOpen), k);
      NothingInTheAir(m, inFlight, held, k);
      PageOf(m, inFlight, held, books, k);
      store.Set(k, s);
      SendAgain(k);
      AddedApart(sending, store.Queue(NextOpen), k, MoreToSend(s));
      ControlFits(exact, m, flow, store.Queue(NextSendCapacity), sending, store.Queue(NextOpen), store.Queue(NextSend),
                  k, s);
      ControlBooked(m[k], s, books[k]);
      PageTurned(m, store.slab, inFlight, held, books, k, books[k], inFlight, held);
      assert books[k := books[k]] == books;
      HeldStays(m, store.slab, inFlight, held);
    }

    /** Sends a slice of the first payload, as much as frame size and capacity admit. */
    method SendSlice(k: Key, payload: Bytes, eos: bool, maxLen: nat) returns (r: Popped)
      requires Popping(k) && maxLen > 0
      requires store.slab[k].frames != [] && store.slab[k].frames[0] == Data(payload, eos) && !Stalled(store.slab[k])
      modifies this`flow, this`inFlight, this`held, this`books, store`slab, store`queued, store`next, store`indices,
        store`contents
      ensures r.Panics? || (r.Out? && r.frame.Slice? && Valid())
      ensures r.Key() == k && Dispatched(r, old(store.slab[k]), maxLen, old(store.slab), store.slab, old(flow), flow)
      ensures forall q :: q != NextSend ==> store.Queue(q) == old(store.Queue(q))
      ensures r.Out? ==> store.Queue(NextSend) == Added(old(store.Queue(NextSend)), k, MoreToSend(store.slab[k]))
      ensures if r.Panics? then books == old(books) else Entered(old(books), books, r.frame)
      ensures Flies(r, old(store.slab)[k], inFlight, held)
    {
      hide Fit, FitOthers, Store.Valid, Apart, DataOf, Booked, AllBooked, HeldOk, Stream.Bounded, Added, InTheAir,
        Dispatched;
      ghost var m := store.slab;
      SliceSize(k);
      var s := store.slab[k];
      var len: nat := Min(|payload|, maxLen);
      len := Min(len, AsSize(s.flow.available));
      SliceDispatched(s, k, len, maxLen, m, flow);
      if flow.WindowSize() < len || !s.flow.CanSend(len) {
        return Panics(k);
      }
      SpendCapacity(k, len, if payload[len..] != [] then Some(k) else None);
      var frame := Slice(k, payload[..len], eos && !(|payload| > len));
      SliceBooked(m, store.slab, k, len);
      books := books[k := books[k].(sent := books[k].sent + payload[..len], ended := eos && len == |payload|)];
      inFlight, held := DataFrame(k), Some(Prioritized(k, payload[len..], eos));
      InTheAirIs(k, payload[len..], eos);
      return Out(frame);
    }

    lemma SliceSize(k: Key)
      requires Popping(k) && store.slab[k].frames != [] && store.slab[k].frames[0].Data?
      ensures var s := store.slab[k];
        && s.WithinWindow() && s.flow.available <= s.requested && s.buffered <= s.requested
        && |s.frames[0].payload| + |DataOf(s.frames[1..])| <= s.buffered
        && flow.window >= 0 && k !in store.Queue(NextOpen)
    {
      hide Store.Valid, Stream.Ready, Stream.Starved;
      PoppedOthers(exact, store.slab, flow, store.Queue(NextSendCapacity), store.Queue(NextSend), store.Queue(NextOpen),
                   k);
      HeadFits(exact, store.slab[k]);
    }

    lemma SliceDispatched(s: Stream, k: Key, len: nat, maxLen: nat, m: map<Key, Stream>, conn: Flow)
      requires s.frames != [] && s.frames[0].Data? && s.WithinWindow() && conn.window >= 0 && !Stalled(s)
      requires |s.frames[0].payload| <= s.buffered <= s.requested && len == SliceLen(s, maxLen)
      ensures var (payload, eos) := (s.frames[0].payload, s.frames[0].eos);
        if conn.WindowSize() < len || !s.flow.CanSend(len) then Dispatched(Panics(k), s, maxLen, m, m, conn, conn)
        else
          && conn.Assign(len).CanSend(len) && len <= s.requested && len <= s.buffered
          && Dispatched(Out(Slice(k, payload[..len], eos && !(|payload| > len))), s, maxLen, m,
                        m[k := Sent(s, len, s.frames[1..])], conn, conn.Assign(len).SendData(len))
    {
      assert len == |s.frames[0].payload| ==> s.frames[0].payload[..len] == s.frames[0].payload;
    }

    /** Takes a slice of `len` bytes off the windows, off what is asked for and off what is buffered, and its frame
        off the stream. */
    method SpendCapacity(k: Key, len: nat, ghost unscheduled: Option<Key>)
      requires Popping(k) && store.slab[k].frames != []
        && len + |DataOf(store.slab[k].frames[1..])| <= store.slab[k].buffered
      requires len <= AsSize(store.slab[k].flow.available)
      requires store.slab[k].flow.CanSend(len) && flow.Assign(len).CanSend(len) && len <= store.slab[k].requested
      modifies this`flow, store`slab, store`queued, store`next, store`indices, store`contents
      ensures Fits(None, unscheduled) && NothingSpare()
      ensures store.slab == old(store.slab)[k := Sent(old(store.slab[k]), len, old(store.slab[k]).frames[1..])]
      ensures flow == old(flow).Assign(len).SendData(len)
      ensures store.Queue(NextSend) == Added(old(store.Queue(NextSend)), k, MoreToSend(store.slab[k]))
      ensures forall q :: q != NextSend ==> store.Queue(q) == old(store.Queue(q))
    {
      hide Fit, FitOthers, Store.Valid, Apart, DataOf, Recorded, Stream.Bounded, Added, InTheAir, Stream.Ready;
      ghost var m, conn, sending := store.slab, flow, store.Queue(NextSend);
      PoppedOthers(exact, m, flow, store.Queue(NextSendCapacity), sending, store.Queue(NextOpen), k);
      var s := store.slab[k];
      s := s.(flow := s.flow.SendData(len), frames := s.frames[1..]);
      s := s.(buffered := s.buffered - len, requested := s.requested - len);
      store.Set(k, s);
      flow := flow.Assign(len);
      flow := flow.SendData(len);
      SendAgain(k);
      AddedApart(sending, store.Queue(NextOpen), k, MoreToSend(s));
      SliceFits(exact, m, conn, store.Queue(NextSendCapacity), sending, store.Queue(NextOpen), store.Queue(NextSend), k,
                len, s.frames, unscheduled);
    }

    lemma InTheAirIs(k: Key, rest: Bytes, eos: bool)
      ensures InTheAir(DataFrame(k), Some(Prioritized(k, rest, eos))) == if rest != [] then Some(k) else None
    {
    }

    lemma SliceBooked(m: map<Key, Stream>, m': map<Key, Stream>, k: Key, n: nat)
      requires HeldOk(m, inFlight, held) && AllBooked(m, inFlight, held, books, None) && held == None && k in m
      requires m[k].frames != [] && m[k].frames[0].Data? && n <= |m[k].frames[0].payload|
      requires m[k].flow.CanSend(n) && n <= m[k].requested && n <= m[k].buffered
        && m' == m[k := Sent(m[k], n, m[k].frames[1..])]
      ensures k in books && !books[k].ended && !books[k].dropped
      ensures var (payload, eos) := (m[k].frames[0].payload, m[k].frames[0].eos);
        var b := books[k].(sent := books[k].sent + payload[..n], ended := eos && n == |payload|);
        var h := Some(Prioritized(k, payload[n..], eos));
        && HeldOk(m', DataFrame(k), h) && AllBooked(m', DataFrame(k), h, books[k := b], None)
        && (b.ended ==> b.sent == b.given)
    {
      hide Booked, DataOf, AllBooked;
      NothingInTheAir(m, inFlight, held, k);
      PageOf(m, inFlight, held, books, k);
      BookSlice(m[k], m'[k], books[k], n);
      var (payload, eos) := (m[k].frames[0].payload, m[k].frames[0].eos);
      var b := books[k].(sent := books[k].sent + payload[..n], ended := eos && n == |payload|);
      PageTurned(m, m', inFlight, held, books, k, b, DataFrame(k), Some(Prioritized(k, payload[n..], eos)));
    }

    lemma ControlBooked(s0: Stream, s: Stream, b: Book)
      requires Booked(s0, [], false, b) && s == s0.(frames := s.frames, state := s.state)
      requires s.frames == s0.frames || (s0.frames != [] && !s0.frames[0].Data? && s.frames == s0.frames[1..])
      requires s.state == s0.state || (s0.state.Closed? && s.state.Closed?)
      ensures Booked(s, [], false, b)
    {
      hide Booked;
      var mid := s0.(frames := s.frames);
      if s.frames != s0.frames {
        BookControlSent(s0, mid, b);
      }
      BookState(mid, s, [], false, b);
    }

    method SendAgain(k: Key)
      requires store.Valid() && k in store.slab
      modifies store`queued, store`next, store`indices, store`contents
      ensures store.Valid() && store.Queue(NextSend) == Added(old(store.Queue(NextSend)), k, MoreToSend(store.slab[k]))
      ensures forall q :: q != NextSend ==> store.Queue(q) == old(store.Queue(q))
    {
      hide Store.Valid;
      if store.slab[k].frames != [] || store.slab[k].state.IsScheduledReset() {
        var _ := store.Push(NextSend, k);
      }
    }

    // ----- taking back

    /** Takes back the DATA frame the codec is done with. What is left of its payload goes to the front of the
        queue of its stream, unless the stream was reset meanwhile. */
    method ReclaimFrame() returns (again: bool)
      requires Valid()
      modifies this`inFlight, this`held, store`slab, store`queued, store`next, store`indices, store`contents
      ensures Valid() && held == None && QueuesGrew()
        && store.Queue(NextSendCapacity) == old(store.Queue(NextSendCapacity))
      ensures again == old(InTheAir(inFlight, held)).Some?
      ensures again ==>
        var (k, rest, eos) := (old(held).value.stream, old(held).value.rest, old(held).value.endOfStream);
        && k in old(store.slab)
        && store.slab ==
          old(store.slab)[k := old(store.slab)[k].(frames := [Data(rest, eos)] + old(store.slab)[k].frames)]
      ensures !again ==> store.slab == old(store.slab)
    {
      hide Fit, FitOthers, Store.Valid, Apart, DataOf, AllBooked, HeldOk, Added;
      HeldTogether(store.slab, inFlight, held);
      if held.None? {
        return false;
      }
      var frame := held.value;
      ghost var m, u := store.slab, InTheAir(inFlight, held);
      if inFlight.Drop? || frame.rest == [] {
        BooksLanded(m, inFlight, held, books);
        inFlight, held := Nothing, None;
        FewerExempt(u);
        return false;
      }
      BooksPutBack(m, inFlight, held, books);
      PushBackFrame(frame.stream, Data(frame.rest, frame.endOfStream));
      inFlight, held := Nothing, None;
      return true;
    }

    /** Puts a payload to the front of the queue of its stream. */
    method PushBackFrame(k: Key, f: Frame)
      requires Fits(None, Some(k)) && k in store.slab && k !in store.Queue(NextOpen)
      requires f.Data? && f.payload != [] && store.slab[k].buffered == |DataOf([f] + store.slab[k].frames)|
      modifies store`slab, store`queued, store`next, store`indices, store`contents
      ensures Fits(None, None) && QueuesGrew() && store.Queue(NextSendCapacity) == old(store.Queue(NextSendCapacity))
      ensures store.slab == old(store.slab)[k := old(store.slab)[k].(frames := [f] + old(store.slab)[k].frames)]
    {
      hide Fit, FitOthers, Store.Valid, Apart, DataOf;
      ghost var m, sending := store.slab, store.Queue(NextSend);
      LeaveLine(k, Some(k));
      OthersApart(k, Some(k));
      OthersWithout(k);
      var s := store.slab[k];
      s := s.(frames := [f] + s.frames);
      store.Set(k, s);
      if s.flow.available > 0 {
        var _ := store.Push(NextSend, k);
      }
      ApartStill(sending, store.Queue(NextOpen), k);
      Mended(exact, m, flow, store.Queue(NextSendCapacity), sending, store.Queue(NextOpen), store.Queue(NextSend), k, s,
             0, None, None);
    }

    lemma FewerExempt(u: Option<Key>)
      requires u.None? && Fits(None, u)
      ensures Fits(None, InTheAir(Nothing, None))
    {
    }

    lemma OthersWithout(k: Key)
      requires OthersFit(k, Some(k))
      ensures OthersFit(k, None)
    {
      hide Total, Stream.Ready, Stream.Starved, Stream.Bounded, Store.Valid;
    }

    // ----- the end of a stream

    /** A stream that is closed but may still ask for capacity and hold frames. */
    ghost predicate Ending(k: Key)
      reads this, store
    {
      && OthersFit(k, InTheAir(inFlight, held)) && Recorded(None) && AirOpened()
      && k in store.slab && store.slab[k].state.Closed? && store.slab[k].WithinWindow()
      && (exact ==> store.slab[k].flow.available >= 0)
    }

    method CloseStream(k: Key, state: State)
      requires Valid() && k in store.slab && state.Closed?
      modifies store`slab
      ensures Ending(k) && store.slab == old(store.slab)[k := old(store.slab)[k].(state := state)]
    {
      hide Fit, FitOthers, Store.Valid, Apart, DataOf, Booked, AllBooked, HeldOk, RestOf, RestEnds, Stream.Ready,
        Stream.Starved;
      ghost var m, u, b := store.slab, InTheAir(inFlight, held), books;
      var s := store.slab[k];
      s := s.(state := state);
      LeaveLine(k, u);
      OthersApart(k, u);
      PageOf(m, inFlight, held, books, k);
      BookState(m[k], s, RestOf(inFlight, held, k), RestEnds(inFlight, held, k), books[k]);
      store.Set(k, s);
      StillOthers(exact, m, flow, store.Queue(NextSendCapacity), store.Queue(NextSend), store.Queue(NextOpen),
                  store.Queue(NextSend), k, s, u);
      PageTurned(m, store.slab, inFlight, held, books, k, books[k], inFlight, held);
      assert books[k := books[k]] == books;
      HeldStays(m, store.slab, inFlight, held);
    }

    /** Gives up what a stream has queued, and what it has in the air. */
    method ClearQueue(k: Key)
      requires Ending(k)
      modifies this`inFlight, this`books, store`slab
      ensures Ending(k) && InTheAir(inFlight, held) != Some(k)
      ensures store.slab == old(store.slab)[k := old(store.slab)[k].(frames := [], buffered := 0, requested := 0)]
      ensures inFlight == if old(inFlight) == DataFrame(k) then Drop else old(inFlight)
      ensures k in old(books) && books == old(books)[k := old(books)[k].(dropped := true)]
    {
      hide Fit, FitOthers, Store.Valid, Apart, DataOf, Booked, AllBooked, HeldOk, RestOf, RestEnds, Stream.Ready,
        Stream.Starved;
      ghost var m, u := store.slab, InTheAir(inFlight, held);
      ghost var fly, page := inFlight, books;
      var s := store.slab[k];
      while s.frames != []
        invariant s == m[k].(frames := s.frames)
      {
        s := s.(frames := s.frames[1..]);
      }
      s := s.(buffered := 0, requested := 0);
      OthersApart(k, u);
      store.Set(k, s);
      StillOthers(exact, m, flow, store.Queue(NextSendCapacity), store.Queue(NextSend), store.Queue(NextOpen),
                  store.Queue(NextSend), k, s, u);
      if inFlight.DataFrame? && inFlight.stream == k {
        inFlight := Drop;
      }
      BooksCleared(m, store.slab, fly, held, books, k, inFlight);
      books := books[k := books[k].(dropped := true)];
      if u == Some(k) {
        OthersWithout(k);
      }
      StillInTheAir(fly, held, k, inFlight);
    }

    lemma StillInTheAir(fly: InFlight, held: Option<Prioritized>, k: Key, fly': InFlight)
      requires fly' == if fly == DataFrame(k) then Drop else fly
      ensures InTheAir(fly', held) == if InTheAir(fly, held) == Some(k) then None else InTheAir(fly, held)
    {
    }

    /** A stream that holds no capacity any more; if capacity is accounted for exactly, it owes none either. */
    ghost predicate Returned(s: Stream)
      reads this`exact
    {
      s.flow.available <= 0 && (exact ==> s.flow.available == 0)
    }

    twostate predicate WasRelieved(k: Key)
      requires k in old(store.slab)
      reads this, store
    {
      var s := old(store.slab)[k];
      && Adjusted(old(store.slab), store.slab, k, s) && Returned(store.slab[k])
      && (exact ==> SharedOut(old(store.slab)[k := Relieved(s)], old(flow).available + AsSize(s.flow.available)))
    }

    /** Returns all capacity of a stream that is done with. */
    method ReclaimAllCapacity(k: Key)
      requires Ending(k) && store.slab[k].buffered == store.slab[k].requested == 0 && DataFree(store.slab[k].frames)
      requires store.slab[k].frames != [] && k !in store.Queue(NextOpen) ==> k in store.Queue(NextSend)
      modifies this`flow, store`slab, store`queued, store`next, store`indices, store`contents
      ensures Valid() && QueuesGrew() && NobodyNewHere() && flow.window == old(flow.window)
      ensures WasRelieved(k)
    {
      hide Fit, FitOthers, Store.Valid, Apart, Grants, Adjusted, Booked, AllBooked, HeldOk, RestOf, RestEnds, Served;
      ghost var m := store.slab;
      var s := store.slab[k];
      var available := AsSize(s.flow.available);
      s := s.(flow := s.flow.Claim(available));
      DataFreeIsEmpty(s.frames);
      Settle(k, s, available, InTheAir(inFlight, held));
      SetThenGranted(m, k, s, store.slab);
      SameButAvailable(m, store.slab, k, s, m[k]);
      AdjustedAt(m, store.slab, k, m[k]);
      NothingMore(k);
      AdjustedSameData(m, store.slab, k, m[k]);
      SameDataAt(m, store.slab, k);
      BooksStay(m, store.slab, inFlight, held, books, None);
      HeldStays(m, store.slab, inFlight, held);
    }

    lemma SameDataAt(m: map<Key, Stream>, m': map<Key, Stream>, k: Key)
      requires SameData(m, m', Some(k)) && k in m
      requires m'[k].state == m[k].state && m'[k].frames == m[k].frames && m'[k].buffered == m[k].buffered
      ensures SameData(m, m', None)
    {
    }

    lemma NothingMore(k: Key)
      requires Fits(None, InTheAir(inFlight, held)) && k in store.slab && store.slab[k].requested == 0
      ensures Returned(store.slab[k])
    {
      hide Total, Store.Valid, Stream.Ready, Stream.Starved;
      assert store.slab[k].Bounded(exact);
    }

    /** The peer, or the connection, ended a stream: what it had queued is given up, and its capacity returned. */
    method RecvErr(k: Key, state: State)
      requires Valid() && k in store.slab && state.Closed?
      modifies this`flow, this`inFlight, this`held, this`books, store`slab, store`queued, store`next, store`indices,
        store`contents
      ensures Valid() && QueuesGrew() && flow.window == old(flow.window) && held == old(held)
      ensures Adjusted(old(store.slab), store.slab, k, Ended(old(store.slab)[k], state, [])) && Returned(store.slab[k])
        && NobodyNewHere()
      ensures k in old(books) && books == old(books)[k := old(books)[k].(dropped := true)]
      ensures exact ==> SharedOut(old(store.slab)[k := Relieved(Ended(old(store.slab)[k], state, []))],
                                  old(flow).available + AsSize(old(store.slab)[k].flow.available))
    {
      hide Fit, FitOthers, Store.Valid, Apart, Grants, Adjusted, DataOf, Booked, AllBooked, HeldOk, Valid, Ending,
        Served;
      ghost var m := store.slab;
      CloseStream(k, state);
      ClearQueue(k);
      ghost var mid := store.slab;
      ReclaimAllCapacity(k);
      assert mid == m[k := Ended(m[k], state, [])];
      assert mid[k := Relieved(mid[k])] == m[k := Relieved(Ended(m[k], state, []))];
      AdjustedSet(m, k, Ended(m[k], state, []));
      AdjustedTransitive(m, mid, store.slab, k, mid[k], mid[k]);
    }

    /** What a reset of stream `k` comes to, and what is shared out by it. */
    twostate predicate WasReset(k: Key)
      requires k in old(store.slab)
      reads this, store
    {
      var s := old(store.slab)[k];
      && SharedByReset(k)
      && if s.state.IsReset() then store.slab == old(store.slab) && books == old(books)
         else if s.state.Closed? && s.frames == [] then
           store.slab == old(store.slab)[k := s.(state := Closed(LocallyReset))] && books == old(books)
         else WasResetNow(k)
    }

    twostate predicate SharedByReset(k: Key)
      requires k in old(store.slab)
      reads this, store
    {
      var s := old(store.slab)[k];
      exact ==> SharedOut(old(store.slab)[k := Reset(s)], old(flow).available + Reclaimed(s))
    }

    twostate predicate WasResetNow(k: Key)
      requires k in old(store.slab)
      reads this, store
    {
      var s := old(store.slab)[k];
      && Adjusted(old(store.slab), store.slab, k, Ended(s, Closed(LocallyReset), [ResetFrame]))
      && Returned(store.slab[k])
      && k in old(books) && books == old(books)[k := old(books)[k].(dropped := true)]
      && (exact ==> SharedOut(old(store.slab)[k := Reset(s)], old(flow).available + AsSize(s.flow.available)))
    }

    /** Resets a stream: RST_STREAM takes the place of all it had queued. A stream that was reset is left alone,
        and one that ended by itself with nothing queued is only marked. */
    method SendReset(k: Key)
      requires Valid() && k in store.slab
      modifies this`flow, this`inFlight, this`held, this`books, store`slab, store`queued, store`next, store`indices,
        store`contents
      ensures Valid() && QueuesGrew() && NewTakePartHere(Some(k)) && flow.window == old(flow.window)
        && held == old(held)
      ensures WasReset(k)
    {
      hide Fit, FitOthers, Store.Valid, Apart, Grants, Adjusted, DataOf, Booked, AllBooked, HeldOk, NewTakePart,
        NobodyNew, Served;
      var s := store.slab[k];
      ghost var w0, q0 := store.Queue(NextSendCapacity), store.Queue(NextSend);
      NobodyInLine(store.slab, w0, q0, k);
      if s.state.IsReset() {
        NobodyShares(store.slab[k := Reset(s)], store.slab);
        return;
      }
      if s.state.Closed? && s.frames == [] {
        NobodyShares(store.slab, store.slab);
        MarkReset(k);
        NobodyInLine(store.slab, w0, q0, k);
        NobodyShares(store.slab, store.slab);
        return;
      }
      ResetNow(k);
    }

    /** All that a stream had queued is given up for RST_STREAM, and its capacity returned. */
    method ResetNow(k: Key)
      requires Valid() && k in store.slab && !store.slab[k].state.IsReset()
      requires !store.slab[k].state.Closed? || store.slab[k].frames != []
      modifies this`flow, this`inFlight, this`held, this`books, store`slab, store`queued, store`next, store`indices,
        store`contents
      ensures Valid() && QueuesGrew() && NewTakePartHere(Some(k)) && flow.window == old(flow.window)
        && held == old(held)
      ensures WasResetNow(k)
    {
      hide Fit, FitOthers, Store.Valid, Apart, Grants, Adjusted, DataOf, Booked, AllBooked, HeldOk, NewTakePart,
        NobodyNew, Served, ResetOf, Ending, Valid, Relieved, Reset, Returned;
      ghost var w0, q0 := store.Queue(NextSendCapacity), store.Queue(NextSend);
      ghost var m := store.slab;
      CloseStream(k, Closed(LocallyReset));
      ClearQueue(k);
      ReplaceByReset(k);
      ghost var mid, w1, q1 := store.slab, store.Queue(NextSendCapacity), store.Queue(NextSend);
      ReclaimAllCapacity(k);
      NobodyNewTakePart(store.slab, w1, store.Queue(NextSendCapacity), q1, store.Queue(NextSend), Some(k));
      NewTakePartAgain(mid, store.slab, k, mid[k], w0, w1, store.Queue(NextSendCapacity), q0, q1,
                       store.Queue(NextSend));
      ResetStep(m, mid, store.slab, k);
    }

    lemma ResetStep(m: map<Key, Stream>, mid: map<Key, Stream>, m': map<Key, Stream>, k: Key)
      requires k in m && !m[k].state.IsReset() && (!m[k].state.Closed? || m[k].frames != [])
      requires mid ==
        m[k := m[k].(state := Closed(LocallyReset), frames := [ResetFrame], buffered := 0, requested := 0)]
      requires Adjusted(mid, m', k, mid[k])
      ensures mid[k := Relieved(mid[k])] == m[k := Reset(m[k])]
      ensures Adjusted(m, m', k, Ended(m[k], Closed(LocallyReset), [ResetFrame]))
    {
    }

    lemma NobodyShares(m: map<Key, Stream>, m': map<Key, Stream>)
      requires Valid() && m' == m
      ensures exact ==>
        && flow.available >= 0
        && Served(m, m', store.Queue(NextSendCapacity), store.Queue(NextSendCapacity), flow.available, flow.available)
    {
      hide Total, Served, Recorded, AirOpened;
      if exact {
        NobodyServed(m, store.Queue(NextSendCapacity), flow.available);
      }
    }

    /** A stream that has ended, now counted as reset. */
    method MarkReset(k: Key)
      requires Valid() && k in store.slab && store.slab[k].state.Closed?
      modifies store`slab
      ensures Valid() && store.slab == old(store.slab)[k := old(store.slab)[k].(state := Closed(LocallyReset))]
    {
      hide Fit, FitOthers, Store.Valid, Apart, DataOf, Recorded;
      LeaveLine(k, InTheAir(inFlight, held));
      OthersApart(k, InTheAir(inFlight, held));
      ghost var m := store.slab;
      CloseStream(k, Closed(LocallyReset));
      OthersApart(k, InTheAir(inFlight, held));
      Mended(exact, m, flow, store.Queue(NextSendCapacity), store.Queue(NextSend), store.Queue(NextOpen),
             store.Queue(NextSend), k, store.slab[k], 0, None, InTheAir(inFlight, held));
    }

    /** Queues a reset for a stream that has nothing else queued. */
    method ReplaceByReset(k: Key)
      requires Ending(k) && store.slab[k].frames == []
      modifies store`slab, store`queued, store`next, store`indices, store`contents
      ensures Ending(k) && QueuesGrew() && NewTakePartHere(Some(k))
        && store.Queue(NextSendCapacity) == old(store.Queue(NextSendCapacity))
      ensures store.slab == old(store.slab)[k := old(store.slab)[k].(frames := [ResetFrame])]
      ensures k !in store.Queue(NextOpen) ==> k in store.Queue(NextSend)
    {
      hide Fit, FitOthers, Store.Valid, Apart, DataOf, Booked, AllBooked, HeldOk, RestOf, RestEnds, Added, Stream.Ready,
        Stream.Starved;
      ghost var m, u, sending := store.slab, InTheAir(inFlight, held), store.Queue(NextSend);
      ghost var s := m[k].(frames := [ResetFrame]);
      OthersApart(k, u);
      PageOf(m, inFlight, held, books, k);
      assert m[k].frames + [ResetFrame] == [ResetFrame];
      BookControl(m[k], s, RestOf(inFlight, held, k), RestEnds(inFlight, held, k), books[k], ResetFrame);
      QueueFrame(k, ResetFrame);
      AddedApart(sending, store.Queue(NextOpen), k, k !in store.Queue(NextOpen));
      StillOthers(exact, m, flow, store.Queue(NextSendCapacity), sending, store.Queue(NextOpen), store.Queue(NextSend),
                  k, s, u);
      PageTurned(m, store.slab, inFlight, held, books, k, books[k], inFlight, held);
      assert books[k := books[k]] == books;
      HeldStays(m, store.slab, inFlight, held);
    }

    // ----- windows

    /** The peer admits more data on a stream. Fails if the window would become too large. */
    method RecvStreamWindowUpdate(k: Key, inc: nat) returns (ok: bool)
      requires Valid() && k in store.slab
      modifies this`flow, store`slab, store`queued, store`next, store`indices, store`contents
      ensures Valid() && QueuesGrew() && NewTakePartHere(None) && flow.window == old(flow.window)
      ensures var s := old(store.slab)[k];
        if s.state.IsSendClosed() && s.buffered == 0 then ok && store.slab == old(store.slab)
        else
          && ok == (s.flow.window + inc <= MAX_WINDOW_SIZE)
          && Adjusted(old(store.slab), store.slab, k, if ok then Widened(s, inc) else s)
          && (!ok ==> store.slab == old(store.slab))
    {
      hide Fit, FitOthers, Store.Valid, Apart, DataOf, Booked, AllBooked, HeldOk, Grants, Adjusted, NewTakePart;
      var s := store.slab[k];
      ghost var m, u := store.slab, InTheAir(inFlight, held);
      NothingNew(m, store.Queue(NextSendCapacity), store.Queue(NextSend));
      if s.state.IsSendClosed() && s.buffered == 0 {
        return true;
      }
      var f := s.flow.IncWindow(inc);
      if f.None? {
        Unchanged(m, k);
        return false;
      }
      s := s.(flow := f.value);
      LeaveLine(k, u);
      SetInLine(k, s, Some(k), u);
      NothingAsked(s);
      TryAssignCapacity(k, u);
      SetThenGranted(m, k, s, store.slab);
      StillRecorded(m, k, s);
      return true;
    }

    lemma NothingAsked(s: Stream)
      requires s.Bounded(exact) && !(s.state.IsSendClosed() && s.buffered == 0)
      ensures s.WithinWindow() && s.flow.available <= s.requested && (s.Active() || Additional(s) == 0)
    {
    }

    /** The books do not mind changes to what a stream asks for and holds. */
    lemma StillRecorded(m: map<Key, Stream>, k: Key, s: Stream)
      requires HeldOk(m, inFlight, held) && AllBooked(m, inFlight, held, books, None)
      requires Adjusted(m, store.slab, k, s) && s.state == m[k].state && s.frames == m[k].frames
        && s.buffered == m[k].buffered
      ensures Recorded(None)
    {
      hide Booked, AllBooked, HeldOk, Adjusted;
      AdjustedSameData(m, store.slab, k, s);
      AdjustedAt(m, store.slab, k, s);
      SameDataAt(m, store.slab, k);
      BooksStay(m, store.slab, inFlight, held, books, None);
      HeldStays(m, store.slab, inFlight, held);
    }

    /** The peer admits more data on the connection: it is shared out at once. */
    method RecvConnectionWindowUpdate(inc: nat) returns (ok: bool)
      requires Valid()
      modifies this`flow, store`slab, store`queued, store`next, store`indices, store`contents
      ensures Valid() && QueuesGrew() && NobodyNewHere()
      ensures ok == (old(flow).window + inc <= MAX_WINDOW_SIZE)
      ensures flow.window == (if ok then old(flow).window + inc else old(flow).window)
      ensures Grants(old(store.slab), store.slab)
      ensures exact && ok ==> SharedOut(old(store.slab), old(flow).available + inc)
      ensures !ok ==> store.slab == old(store.slab) && flow == old(flow) && store.contents == old(store.contents)
    {
      hide FitOthers, Store.Valid, Apart, DataOf, Booked, AllBooked, HeldOk, Grants, AllBounded, AllFed, AllScheduled,
        Served;
      var f := flow.IncWindow(inc);
      NothingGranted(store.slab);
      if f.None? {
        return false;
      }
      flow := f.value;
      AssignConnectionCapacity(inc, InTheAir(inFlight, held));
      GrantsSameData(old(store.slab), store.slab);
      BooksStay(old(store.slab), store.slab, inFlight, held, books, None);
      HeldStays(old(store.slab), store.slab, inFlight, held);
      return true;
    }

    /** What a stream asks for beyond its buffered data, set by its user. Only a stream that has been opened for
        sending has a user that can. */
    method Reserve(k: Key, capacity: nat)
      requires Valid() && k in store.slab && !store.slab[k].state.BeforeSending()
      modifies this`flow, store`slab, store`queued, store`next, store`indices, store`contents
      ensures Valid() && QueuesGrew() && NewTakePartHere(None) && flow.window == old(flow.window)
      ensures Adjusted(old(store.slab), store.slab, k, Asking(old(store.slab[k]), capacity))
    {
      hide Fit, FitOthers, Store.Valid, Apart, DataOf, Booked, AllBooked, HeldOk, Grants, Adjusted;
      ghost var m := store.slab;
      LeaveLine(k, InTheAir(inFlight, held));
      ReserveCapacity(k, capacity, InTheAir(inFlight, held));
      StillRecorded(m, k, Asking(m[k], capacity));
    }

    // ----- the life of a stream

    /** A new stream, of which nothing has been said yet. */
    method AddStream(k: Key, window: nat)
      requires Valid() && k !in store.slab && k !in books && window <= MAX_WINDOW_SIZE
      modifies this`books, store`slab, store`ids
      ensures Valid() && store.slab == old(store.slab)[k := NewStream(window)] && store.ids == old(store.ids) + [k]
      ensures forall q :: k !in store.Queue(q)
      ensures books == old(books)[k := BLANK]
    {
      hide Fit, Store.Valid, DataOf, Booked, AllBooked, HeldOk, RestOf, RestEnds;
      ghost var m := store.slab;
      NewFits(exact, m, flow, store.Queue(NextSendCapacity), store.Queue(NextSend), store.Queue(NextOpen), k, window,
              InTheAir(inFlight, held));
      NotMember(k);
      NewPage(m, k, window);
      store.Insert(k, NewStream(window));
      books := books[k := BLANK];
    }

    lemma NotMember(k: Key)
      requires store.Valid() && k !in store.slab
      ensures forall q :: k !in store.Queue(q)
    {
      hide Store.Valid;
      forall q ensures k !in store.Queue(q) {
        store.IsMember(q, k);
      }
    }

    lemma NewPage(m: map<Key, Stream>, k: Key, window: nat)
      requires HeldOk(m, inFlight, held) && AllBooked(m, inFlight, held, books, None) && k !in m && k !in books
      requires inFlight != DataFrame(k)
      ensures HeldOk(m[k := NewStream(window)], inFlight, held)
      ensures AllBooked(m[k := NewStream(window)], inFlight, held, books[k := BLANK], None)
    {
    }

    /** A closed stream, referred to by nothing, is freed. It held no capacity. */
    method RemoveStream(k: Key)
      requires Valid() && k in store.slab && store.slab[k].IsClosed() && k !in store.ids
        && forall q :: !store.IsQueued(q, k)
      modifies store`slab
      ensures Valid() && store.slab == old(store.slab) - {k} && (exact ==> old(store.slab)[k].flow.available == 0)
    {
      hide Fit, Store.Valid, DataOf, AllBooked, Booked;
      GoneFits(exact, store.slab, flow, store.Queue(NextSendCapacity), store.Queue(NextSend), store.Queue(NextOpen), k,
               InTheAir(inFlight, held));
      GonePage(store.slab, k);
      store.Remove(k);
    }

    lemma GonePage(m: map<Key, Stream>, k: Key)
      requires HeldOk(m, inFlight, held) && AllBooked(m, inFlight, held, books, None) && k in m && m[k].IsClosed()
      ensures HeldOk(m - {k}, inFlight, held) && AllBooked(m - {k}, inFlight, held, books, None)
    {
      hide Booked;
      PageOf(m, inFlight, held, books, k);
      NoRest(m[k], RestOf(inFlight, held, k), RestEnds(inFlight, held, k), books[k]);
    }

    lemma NoRest(s: Stream, rest: Bytes, restEnds: bool, b: Book)
      requires Booked(s, rest, restEnds, b) && s.buffered == 0
      ensures rest == []
    {
    }

    /** A stream moves on in its life without anything happening to its data. */
    method Advance(k: Key, s: Stream)
      requires Valid() && k in store.slab
      requires var s0 := store.slab[k];
        && s == s0.(state := s.state, isCounted := s.isCounted, refs := s.refs) && s.Bounded(exact)
        && (s0.state.IsSendClosed() ==> s.state.IsSendClosed()) && (exact && s.Starved() ==> s0.Starved())
      modifies store`slab
      ensures Valid() && store.slab == old(store.slab)[k := s]
    {
      hide Fit, FitOthers, Store.Valid, Apart, DataOf, Booked, AllBooked, HeldOk, RestOf, RestEnds, Stream.Bounded,
        Stream.Starved;
      ghost var m, u := store.slab, InTheAir(inFlight, held);
      LeaveLine(k, u);
      PageOf(m, inFlight, held, books, k);
      BookState(m[k], s, RestOf(inFlight, held, k), RestEnds(inFlight, held, k), books[k]);
      SetInLine(k, s, None, u);
      PageTurned(m, store.slab, inFlight, held, books, k, books[k], inFlight, held);
      assert books[k := books[k]] == books;
      HeldStays(m, store.slab, inFlight, held);
    }

    /** Queues the HEADERS that open a stream for sending; without leave to open the stream waits for it. */
    method SendHeaders(k: Key, eos: bool, leave: bool)
      requires Valid() && k in store.slab && store.slab[k].state.SendOpen(eos).Some?
      requires !leave ==> k !in store.Queue(NextSend) && InTheAir(inFlight, held) != Some(k)
      modifies store`slab, store`queued, store`next, store`indices, store`contents
      ensures Valid() && store.slab == old(store.slab)[k := Opened(old(store.slab)[k], eos)]
      ensures store.Queue(NextOpen) == Added(old(store.Queue(NextOpen)), k, !leave)
      ensures store.Queue(NextSend) == Added(old(store.Queue(NextSend)), k, k !in store.Queue(NextOpen))
      ensures forall q :: q != NextSend && q != NextOpen ==> store.Queue(q) == old(store.Queue(q))
    {
      hide Fit, FitOthers, Store.Valid, Apart, DataOf, Booked, AllBooked, HeldOk, RestOf, RestEnds, Stream.Bounded;
      ghost var m, u, sending := store.slab, InTheAir(inFlight, held), store.Queue(NextSend);
      ghost var s' := Opened(m[k], eos);
      LeaveLine(k, u);
      OpenedBounded(m[k], eos);
      if !leave {
        OpeningGrew(exact, m, flow, store.Queue(NextSendCapacity), sending, store.Queue(NextOpen), k, u);
        var _ := store.Push(NextOpen, k);
      }
      store.Set(k, store.slab[k].(state := store.slab[k].state.SendOpen(eos).value));
      OthersApart2(m, k, u);
      QueueFrame(k, HeadersFrame(eos));
      AddedApart(sending, store.Queue(NextOpen), k, k !in store.Queue(NextOpen));
      Mended(exact, m, flow, store.Queue(NextSendCapacity), sending, store.Queue(NextOpen), store.Queue(NextSend), k,
             s', 0, None, u);
      OpenedBooked(m, k, eos);
      assert store.slab == m[k := s'];
    }

    lemma OthersApart2(m: map<Key, Stream>, k: Key, unscheduled: Option<Key>)
      requires FitOthers(exact, m, flow, store.Queue(NextSendCapacity), store.Queue(NextSend), store.Queue(NextOpen), k,
                         unscheduled)
      ensures Apart(store.Queue(NextSend), store.Queue(NextOpen)) && flow.available >= 0
    {
      hide Total;
    }

    lemma OpenedBounded(s: Stream, eos: bool)
      requires s.Bounded(exact) && s.state.SendOpen(eos).Some?
      ensures Opened(s, eos).Bounded(exact) && !Opened(s, eos).Starved()
        && Opened(s, eos).flow.available == s.flow.available
    {
      DataOfSnoc(s.frames, HeadersFrame(eos));
    }

    lemma OpenedBooked(m: map<Key, Stream>, k: Key, eos: bool)
      requires HeldOk(m, inFlight, held) && AllBooked(m, inFlight, held, books, None)
      requires k in m && m[k].state.SendOpen(eos).Some?
      ensures var m' := m[k := Opened(m[k], eos)];
        HeldOk(m', inFlight, held) && AllBooked(m', inFlight, held, books, None)
    {
      hide Booked, AllBooked, RestOf, RestEnds, DataOf;
      var m' := m[k := Opened(m[k], eos)];
      PageOf(m, inFlight, held, books, k);
      BookControl(m[k], m'[k], RestOf(inFlight, held, k), RestEnds(inFlight, held, k), books[k], HeadersFrame(eos));
      PageTurned(m, m', inFlight, held, books, k, books[k], inFlight, held);
      assert books[k := books[k]] == books;
    }

    /** The first stream that waits to be opened may be. */
    method OpenNext() returns (k: Option<Key>)
      requires Valid()
      modifies store`queued, store`next, store`indices, store`contents
      ensures Valid() && (k.None? <==> old(store.Queue(NextOpen)) == [])
      ensures k.None? ==> store.Queue(NextOpen) == [] && store.Queue(NextSend) == old(store.Queue(NextSend))
      ensures k.Some? ==>
        && k.value in store.slab && old(store.Queue(NextOpen)) == [k.value] + store.Queue(NextOpen)
        && store.Queue(NextSend) == Added(old(store.Queue(NextSend)), k.value, true)
      ensures forall q :: q != NextSend && q != NextOpen ==> store.Queue(q) == old(store.Queue(q))
    {
      hide Fit, Store.Valid, Recorded;
      ghost var m, sending, u := store.slab, store.Queue(NextSend), InTheAir(inFlight, held);
      k := store.Pop(NextOpen);
      if k.Some? {
        store.IsMember(NextOpen, k.value);
        var _ := store.Push(NextSend, k.value);
        OpenFits(exact, m, flow, store.Queue(NextSendCapacity), sending, store.Queue(NextOpen), k.value,
                 store.Queue(NextSend), u);
      }
    }

    /** Trailers end a stream: what it asked for beyond its buffered data goes back. */
    method SendTrailers(k: Key)
      requires Valid() && k in store.slab && store.slab[k].state.IsSendStreaming()
      modifies this`flow, store`slab, store`queued, store`next, store`indices, store`contents
      ensures Valid() && QueuesGrew() && NewTakePartHere(Some(k)) && flow.window == old(flow.window)
      ensures Adjusted(old(store.slab), store.slab, k, Trailing(old(store.slab)[k]))
    {
      hide Fit, FitOthers, Store.Valid, Apart, DataOf, Booked, AllBooked, HeldOk, RestOf, RestEnds, Adjusted, Added,
        Grants, NewTakePart;
      ghost var m, u, sending, w0 := store.slab, InTheAir(inFlight, held), store.Queue(NextSend),
        store.Queue(NextSendCapacity);
      LeaveLine(k, u);
      OthersApart(k, u);
      DataOfSnoc(m[k].frames, HeadersFrame(true));
      store.Set(k, store.slab[k].(state := store.slab[k].state.SendClose()));
      QueueFrame(k, HeadersFrame(true));
      ghost var mid, s := store.slab, WithFrame(m[k].(state := m[k].state.SendClose()), HeadersFrame(true));
      assert mid == m[k := s];
      AddedApart(sending, store.Queue(NextOpen), k, k !in store.Queue(NextOpen));
      StillOthers(exact, m, flow, store.Queue(NextSendCapacity), sending, store.Queue(NextOpen), store.Queue(NextSend),
                  k, s, u);
      ghost var q1 := store.Queue(NextSend);
      AddedBut(mid, w0, sending, k, k !in store.Queue(NextOpen));
      ReserveCapacity(k, 0, u);
      NobodyNewTakePart(store.slab, w0, store.Queue(NextSendCapacity), q1, store.Queue(NextSend), Some(k));
      NewTakePartAgain(mid, store.slab, k, Asking(s, 0), w0, w0, store.Queue(NextSendCapacity), sending, q1,
                       store.Queue(NextSend));
      AdjustedSet(m, k, s);
      AdjustedTransitive(m, mid, store.slab, k, s, Asking(s, 0));
      TrailingBooked(m, k);
    }

    lemma TrailingBooked(m: map<Key, Stream>, k: Key)
      requires HeldOk(m, inFlight, held) && AllBooked(m, inFlight, held, books, None)
      requires k in m && m[k].state.IsSendStreaming() && Adjusted(m, store.slab, k, Trailing(m[k]))
      ensures Recorded(None)
    {
      hide Booked, AllBooked, RestOf, RestEnds, DataOf, Adjusted;
      AdjustedSameData(m, store.slab, k, Trailing(m[k]));
      AdjustedAt(m, store.slab, k, Trailing(m[k]));
      PageOf(m, inFlight, held, books, k);
      BookControl(m[k], store.slab[k], RestOf(inFlight, held, k), RestEnds(inFlight, held, k), books[k],
                  HeadersFrame(true));
      PageTurned(m, store.slab, inFlight, held, books, k, books[k], inFlight, held);
      assert books[k := books[k]] == books;
      HeldStays(m, store.slab, inFlight, held);
    }

    /** Nobody is interested in a stream any more: a reset is scheduled behind what it has queued, and what was asked
        for beyond that is taken back, whether or not it had been assigned. Capacity stays accounted for exactly if the
        stream is `Reclaimable`; what may come of it otherwise is told in `ImplicitReset`. */
    method ScheduleImplicitReset(k: Key)
      requires Valid() && k in store.slab
      modifies this`flow, this`exact, store`slab, store`queued, store`next, store`indices, store`contents
      ensures Valid() && QueuesGrew() && NewTakePartHere(Some(k)) && flow.window == old(flow.window)
      ensures exact == (old(exact) && (old(store.slab)[k].state.Closed? || Reclaimable(old(store.slab)[k])))
      ensures var s := old(store.slab)[k];
        if s.state.Closed? then store.slab == old(store.slab)
        else
          && Adjusted(old(store.slab), store.slab, k, ImplicitlyReset(s))
          && (k in store.Queue(NextSend) || k in store.Queue(NextOpen))
    {
      hide Fit, FitOthers, Store.Valid, Apart, DataOf, Booked, AllBooked, HeldOk, RestOf, RestEnds, Adjusted, Grants,
        Stream.Bounded;
      var s := store.slab[k];
      if s.state.Closed? {
        return;
      }
      ghost var m, u := store.slab, InTheAir(inFlight, held);
      if exact && !Reclaimable(s) {
        FitAnyhow(store.slab, flow, store.Queue(NextSendCapacity), store.Queue(NextSend), store.Queue(NextOpen), None,
                  u);
        exact := false;
      }
      LeaveLine(k, u);
      ResetBounded(s);
      s := s.(state := Closed(Scheduled));
      if s.requested > s.buffered {
        var reserved: nat := s.requested - s.buffered;
        s := s.(flow := s.flow.Claim(reserved));
        Settle(k, s, reserved, u);
        SetThenGranted(m, k, s, store.slab);
      } else {
        SetInLine(k, s, None, u);
        AdjustedSet(m, k, s);
      }
      ghost var mid := store.slab;
      ScheduleBeside(k, u);
      ResetBooked(m, k);
    }

    lemma ResetBounded(s: Stream)
      requires s.Bounded(exact) && (exact ==> Reclaimable(s))
      ensures ImplicitlyReset(s).Bounded(exact)
      ensures exact && ImplicitlyReset(s).Starved() ==> s.Starved()
      ensures exact && ImplicitlyReset(s).Ready() ==> s.Ready()
    {
    }

    /** Schedules a stream, everything being as it should be already. */
    method ScheduleBeside(k: Key, ghost unscheduled: Option<Key>)
      requires Fits(None, unscheduled) && k in store.slab
      modifies store`queued, store`next, store`indices, store`contents
      ensures Fits(None, unscheduled) && QueuesGrew() && NewTakePartHere(Some(k))
        && store.Queue(NextSendCapacity) == old(store.Queue(NextSendCapacity))
        && (k in store.Queue(NextSend) || k in store.Queue(NextOpen))
    {
      hide Fit, FitOthers, Store.Valid, Apart, DataOf, Stream.Bounded, Stream.Ready, Stream.Starved, Added;
      ghost var m, sending := store.slab, store.Queue(NextSend);
      LeaveLine(k, unscheduled);
      OthersApart(k, unscheduled);
      ScheduleSend(k);
      AddedApart(sending, store.Queue(NextOpen), k, k !in store.Queue(NextOpen));
      Mended(exact, m, flow, store.Queue(NextSendCapacity), sending, store.Queue(NextOpen), store.Queue(NextSend), k,
             m[k], 0, None, unscheduled);
      assert m[k := m[k]] == m;
    }

    lemma ResetBooked(m: map<Key, Stream>, k: Key)
      requires HeldOk(m, inFlight, held) && AllBooked(m, inFlight, held, books, None)
      requires k in m && Adjusted(m, store.slab, k, ImplicitlyReset(m[k]))
      ensures Recorded(None)
    {
      hide Booked, AllBooked, RestOf, RestEnds, DataOf, Adjusted;
      AdjustedSameData(m, store.slab, k, ImplicitlyReset(m[k]));
      AdjustedAt(m, store.slab, k, ImplicitlyReset(m[k]));
      PageOf(m, inFlight, held, books, k);
      BookState(m[k], store.slab[k], RestOf(inFlight, held, k), RestEnds(inFlight, held, k), books[k]);
      PageTurned(m, store.slab, inFlight, held, books, k, books[k], inFlight, held);
      assert books[k := books[k]] == books;
      HeldStays(m, store.slab, inFlight, held);
    }

    // ----- settings

    /** The peer made every window smaller by `dec`: windows may become negative; what was assigned beyond them is
        collected and then shared out. */
    method ShrinkWindows(dec: nat)
      requires Valid()
      modifies this`flow, store`slab, store`queued, store`next, store`indices, store`contents
      ensures Valid() && QueuesGrew() && NobodyNewHere() && flow.window == old(flow.window)
      ensures exists mid :: AllShrunk(old(store.slab), mid, store.ids, dec) && Grants(mid, store.slab)
    {
      hide Fit, Store.Valid, DataOf, Booked, AllBooked, HeldOk, Grants, Shrunk, AllShrunk;
      ghost var m, u := store.slab, InTheAir(inFlight, held);
      var total: nat := 0;
      StoreIds();
      NoneShrunk(m, dec);
      for i := 0 to |store.ids|
        invariant FitsWith(flow.Assign(total), None, u) && AllShrunk(m, store.slab, store.ids[..i], dec)
        modifies store`slab
      {
        var k := store.ids[i];
        OneMoreShrunk(m, store.slab, store.ids, i, dec);
        var reclaimed := Shrink(k, dec, total, u);
        total := total + reclaimed;
      }
      assert store.ids[..|store.ids|] == store.ids;
      ghost var mid := store.slab;
      AssignConnectionCapacity(total, u);
      ShrunkBooked(m, mid, dec);
    }

    lemma StoreIds()
      requires store.Valid()
      ensures NoDup(store.ids) && forall k :: k in store.ids ==> k in store.slab
    {
    }

    lemma NoneShrunk(m: map<Key, Stream>, dec: nat)
      ensures AllShrunk(m, m, store.ids[..0], dec)
    {
    }

    lemma OneMoreShrunk(m: map<Key, Stream>, mid: map<Key, Stream>, ids: seq<Key>, i: nat, dec: nat)
      requires i < |ids| && NoDup(ids) && ids[i] in m && AllShrunk(m, mid, ids[..i], dec)
      ensures ids[i] in mid && mid[ids[i]] == m[ids[i]]
      ensures AllShrunk(m, mid[ids[i] := Shrunk(m[ids[i]], dec)], ids[..i + 1], dec)
    {
      hide Shrunk;
      assert ids[..i + 1] == ids[..i] + [ids[i]];
    }

    /** Makes one window smaller and answers what was assigned beyond it. */
    method Shrink(k: Key, dec: nat, ghost total: nat, ghost unscheduled: Option<Key>) returns (reclaimed: nat)
      requires FitsWith(flow.Assign(total), None, unscheduled) && k in store.slab
      modifies store`slab
      ensures FitsWith(flow.Assign(total + reclaimed), None, unscheduled)
      ensures store.slab == old(store.slab)[k := Shrunk(old(store.slab)[k], dec)]
    {
      hide Fit, Store.Valid, DataOf;
      ShrinkFits(exact, store.slab, flow.Assign(total), store.Queue(NextSendCapacity), store.Queue(NextSend),
                 store.Queue(NextOpen), k, dec, unscheduled);
      FitParts(exact, store.slab, flow.Assign(total), store.Queue(NextSendCapacity), store.Queue(NextSend),
               store.Queue(NextOpen), None, unscheduled, k);
      var s := store.slab[k];
      s := s.(flow := s.flow.DecSendWindow(dec));
      var windowSize, available := s.flow.WindowSize(), AsSize(s.flow.available);
      reclaimed := 0;
      if available > windowSize {
        reclaimed := available - windowSize;
        s := s.(flow := s.flow.Claim(reclaimed));
      }
      store.Set(k, s);
    }

    lemma ShrunkBooked(m: map<Key, Stream>, mid: map<Key, Stream>, dec: nat)
      requires HeldOk(m, inFlight, held) && AllBooked(m, inFlight, held, books, None)
      requires AllShrunk(m, mid, store.ids, dec) && Grants(mid, store.slab)
      ensures Recorded(None)
    {
      hide Booked, AllBooked;
      GrantsSameData(mid, store.slab);
      assert SameData(m, mid, None);
      BooksStay(m, mid, inFlight, held, books, None);
      BooksStay(mid, store.slab, inFlight, held, books, None);
    }

    method QueueUp(k: Key, forCapacity: bool, forSending: bool)
      requires store.Valid() && k in store.slab
      modifies store`queued, store`next, store`indices, store`contents
      ensures store.Valid()
      ensures store.Queue(NextSendCapacity) == Added(old(store.Queue(NextSendCapacity)), k, forCapacity)
      ensures store.Queue(NextSend) == Added(old(store.Queue(NextSend)), k, forSending)
      ensures forall q :: q != NextSend && q != NextSendCapacity ==> store.Queue(q) == old(store.Queue(q))
    {
      hide Store.Valid;
      if forCapacity {
        var _ := store.Push(NextSendCapacity, k);
      }
      if forSending {
        var _ := store.Push(NextSend, k);
      }
    }
  }

  /** A queue after one more was pushed on a condition. */
  function Added(s: seq<Key>, k: Key, cond: bool): (r: seq<Key>)
    ensures s <= r && (cond ==> k in r) && (!cond ==> r == s) && |r| <= |s| + 1
    ensures forall j :: j in s ==> j in r
    ensures forall j :: j in r ==> j in s || j == k
  {
    if cond && k !in s then s + [k] else s
  }

  lemma AddedTakesPart(m: map<Key, Stream>, m': map<Key, Stream>, waiting: seq<Key>, sending: seq<Key>, k: Key,
                       c1: bool, c2: bool)
    requires Grants(m, m') && k in m && m[k].Active()
    ensures NewTakePart(m', waiting, Added(waiting, k, c1), sending, Added(sending, k, c2), None)
  {
  }

  lemma AddedBut(m: map<Key, Stream>, waiting: seq<Key>, sending: seq<Key>, k: Key, cond: bool)
    ensures NewTakePart(m, waiting, waiting, sending, Added(sending, k, cond), Some(k))
  {
  }

  lemma NothingNew(m: map<Key, Stream>, waiting: seq<Key>, sending: seq<Key>)
    ensures NewTakePart(m, waiting, waiting, sending, sending, None)
  {
  }

  lemma NobodyInLine(m: map<Key, Stream>, waiting: seq<Key>, sending: seq<Key>, k: Key)
    ensures NewTakePart(m, waiting, waiting, sending, sending, Some(k))
  {
  }

  lemma AddedApart(sending: seq<Key>, opening: seq<Key>, k: Key, cond: bool)
    requires Apart(sending, opening) && (cond ==> k !in opening)
    ensures Apart(Added(sending, k, cond), opening)
  {
  }
}
