/** The streams of a connection: every event of their lives driven through the scheduler and the counters, and a
    stream freed when nothing refers to it any more. */
module Streams {
  import opened Headers
  import opened FlowControl
  import opened StreamState
  import opened StreamStore
  import opened SendFlow
  import opened Sharing
  import opened SendBooks
  import opened Prioritize
  import opened Backlog
  import opened StreamLife

  /** The largest stream identifier. */
  const MAX_STREAM_ID: nat := 0x7fff_ffff

  datatype RecvError = ProtocolError | FlowControlError | RefusedStream

  datatype SendError = ConnectionError | OverflowedStreamId | Rejected | NotAClient | MalformedHeaders

  datatype Requested = Got(key: Key) | Denied(error: SendError)

  /** What sending came to: a frame, or nothing to send, or the assertion of a window that failed on a stream. */
  datatype Sending = Wrote(frame: Outgoing) | NothingToSend | Panic(stream: Stream, conn: Flow)

  class Connection {
    const isServer: bool
    const store: Store<Stream>
    const prio: Scheduler
    var counts: Counters
    var initWindow: nat
    var nextLocal: nat
    var nextRemote: nat
    /** The largest identifiers that either side still accepts. */
    var maxSendId: nat
    var maxRecvId: nat
    var connError: bool

    ghost predicate Valid()
      reads this, store, prio, prio.store
    {
      prio.store == store && prio.Valid() && Alive() && initWindow <= MAX_WINDOW_SIZE && IdsKnown()
    }

    /** The counters are right, and what is missing from the index is closed. */
    ghost predicate Alive()
      reads this, store
    {
      Living(store.slab, store.ids, store.Queue(NextOpen), store.Queue(NextResetExpire), isServer, counts)
    }

    /** Identifiers are given out once. */
    ghost predicate IdsKnown()
      reads this, prio
    {
      && Local(isServer, nextLocal) && !Local(isServer, nextRemote)
      && forall k :: k in prio.books ==> k < if Local(isServer, k) then nextLocal else nextRemote
    }

    constructor (isServer: bool, initWindow: nat, counts: Counters)
      requires initWindow <= MAX_WINDOW_SIZE && counts.send == counts.recv == counts.reset == 0
      ensures Valid() && fresh(store) && fresh(prio) && store.slab == map[] && prio.flow == Flow(initWindow, initWindow)
      ensures this.isServer == isServer && nextLocal == (if isServer then 2 else 1)
        && nextRemote == if isServer then 1 else 2
    {
      hide Living, Scheduler.Valid, Store.Valid;
      LivingNone(isServer, counts);
      this.isServer, this.initWindow, this.counts := isServer, initWindow, counts;
      nextLocal, nextRemote := if isServer then 2 else 1, if isServer then 1 else 2;
      maxSendId, maxRecvId, connError := MAX_STREAM_ID, MAX_STREAM_ID, false;
      var s := new Store<Stream>();
      var p := new Scheduler(s, initWindow);
      store, prio := s, p;
    }

    // ----- the end of an event

    predicate IsReleased(k: Key)
      requires k in store.slab
      reads store`slab, store`queued
    {
      && store.slab[k].IsClosed() && store.slab[k].refs == 0
      && !store.IsQueued(NextSend, k) && !store.IsQueued(NextSendCapacity, k) && !store.IsQueued(NextAccept, k)
      && !store.IsQueued(NextWindowUpdate, k) && !store.IsQueued(NextOpen, k) && !store.IsQueued(NextResetExpire, k)
    }

    /** Nothing refers to a stream: no handle and none of the queues. */
    ghost predicate Unreferenced(k: Key)
      requires k in store.slab
      reads store`slab, store`contents
    {
      store.slab[k].refs == 0 && Unqueued(k)
    }

    ghost predicate Unqueued(k: Key)
      reads store`contents
    {
      forall q :: k !in store.Queue(q)
    }

    lemma UnqueuedIs(k: Key)
      ensures Unqueued(k) <==> forall q :: !InQueue(store.contents, q, k)
    {
      forall q ensures k in store.Queue(q) <==> InQueue(store.contents, q, k) {
      }
      if Unqueued(k) {
        forall q ensures !InQueue(store.contents, q, k) {
          assert k !in store.Queue(q);
        }
      }
      if forall q :: !InQueue(store.contents, q, k) {
        forall q ensures k !in store.Queue(q) {
          assert !InQueue(store.contents, q, k);
        }
      }
    }

    /** Exactly those get lost, `k` aside, that only waited for capacity and were taken off the queue for it. */
    twostate predicate LosesExactly(k: Key)
      reads store
    {
      LosesAs(old(store.slab), old(store.contents), store.slab, store.contents, Some(k))
        && !Lost(store.slab, store.contents, k)
    }

    /** The same of all streams. */
    twostate predicate LosesServed()
      reads store
    {
      LosesAs(old(store.slab), old(store.contents), store.slab, store.contents, None)
    }

    /** And that can be told beforehand: when there were `a` to share out among streams `m`, a stream that only waited
        for capacity gets lost exactly if those in front of it in the queue lack less than that. */
    twostate predicate LosesInTurn(m: map<Key, Stream>, a: int, but: Option<Key>)
      reads store
    {
      InTurn(old(store.slab), old(store.contents), store.slab, store.contents, m, a, but)
    }

    /** So it is of what stream `k` gives back on ending in `state`. */
    twostate predicate LosesEnding(k: Key, state: State)
      requires k in old(store.slab)
      reads this, store, prio
    {
      var s := old(store.slab)[k];
      prio.exact ==> LosesInTurn(old(store.slab)[k := Relieved(Ended(s, state, []))],
                                 old(prio.flow).available + AsSize(s.flow.available), Some(k))
    }

    /** And on being reset. */
    twostate predicate LosesResetting(k: Key)
      requires k in old(store.slab)
      reads this, store, prio
    {
      var s := old(store.slab)[k];
      prio.exact ==> LosesInTurn(old(store.slab)[k := Reset(s)], old(prio.flow).available + Reclaimed(s), Some(k))
    }

    twostate predicate SameLostHere(but: Option<Key>)
      reads store
    {
      SameLost(old(store.slab), old(store.contents), store.slab, store.contents, but)
    }

    twostate predicate SharedOnlyHere(but: Option<Key>)
      reads store
    {
      SharedOnly(old(store.slab), old(store.contents), store.slab, store.contents, but)
    }

    /** A step of the scheduler about stream `k`, from streams `m` and `queues`. */
    lemma SharedBy(m: map<Key, Stream>, queues: map<QueueName, seq<Key>>, k: Key, s: Stream)
      requires Adjusted(m, store.slab, k, s) && ListOf(queues, NextSend) <= store.Queue(NextSend)
      requires forall q :: q != NextSend && q != NextSendCapacity ==> store.Queue(q) == ListOf(queues, q)
      requires NewTakePart(store.slab, ListOf(queues, NextSendCapacity), store.Queue(NextSendCapacity),
                           ListOf(queues, NextSend), store.Queue(NextSend), Some(k))
      ensures SharedOnly(m, queues, store.slab, store.contents, Some(k))
    {
      hide NewTakePart, Adjusted, SharedOnly, Dead;
      AdjustedDead(m, store.slab, k, s);
      SameLists(queues);
      SharedDead(m, queues, store.slab, store.contents, Some(k));
    }

    /** One that leaves `k` dead or alive. */
    lemma SharedAll(m: map<Key, Stream>, queues: map<QueueName, seq<Key>>, k: Key, s: Stream)
      requires Adjusted(m, store.slab, k, s) && (s.IsClosed() && s.refs == 0 <==> Dead(m, k))
      requires ListOf(queues, NextSend) <= store.Queue(NextSend)
      requires forall q :: q != NextSend && q != NextSendCapacity ==> store.Queue(q) == ListOf(queues, q)
      requires NewTakePart(store.slab, ListOf(queues, NextSendCapacity), store.Queue(NextSendCapacity),
                           ListOf(queues, NextSend), store.Queue(NextSend), None)
      ensures SharedOnly(m, queues, store.slab, store.contents, None)
        && LosesAs(m, queues, store.slab, store.contents, None)
    {
      hide NewTakePart, Adjusted, SharedOnly, Dead, LosesAs, Stream.IsClosed;
      AdjustedDead(m, store.slab, k, s);
      SharedAmong(m, queues);
    }

    lemma SharedAmong(m: map<Key, Stream>, queues: map<QueueName, seq<Key>>)
      requires forall j: Key :: Dead(m, j) <==> Dead(store.slab, j)
      requires ListOf(queues, NextSend) <= store.Queue(NextSend)
      requires forall q :: q != NextSend && q != NextSendCapacity ==> store.Queue(q) == ListOf(queues, q)
      requires NewTakePart(store.slab, ListOf(queues, NextSendCapacity), store.Queue(NextSendCapacity),
                           ListOf(queues, NextSend), store.Queue(NextSend), None)
      ensures SharedOnly(m, queues, store.slab, store.contents, None)
        && LosesAs(m, queues, store.slab, store.contents, None)
    {
      hide NewTakePart, SharedOnly, Dead, LosesAs;
      SameLists(queues);
      SharedDead(m, queues, store.slab, store.contents, None);
      SharedOnlyLoses(m, queues, store.slab, store.contents, None);
    }

    lemma SameLists(queues: map<QueueName, seq<Key>>)
      requires forall q :: q != NextSend && q != NextSendCapacity ==> store.Queue(q) == ListOf(queues, q)
      ensures forall q :: q != NextSend && q != NextSendCapacity ==> ListOf(store.contents, q) == ListOf(queues, q)
    {
      forall q | q != NextSend && q != NextSendCapacity ensures ListOf(store.contents, q) == ListOf(queues, q) {
        assert store.Queue(q) == ListOf(queues, q);
      }
    }

    /** Whoever was in a queue is in one still. */
    twostate lemma QueuesStay()
      requires old(store.Queue(NextSend)) <= store.Queue(NextSend)
      requires old(store.Queue(NextSendCapacity)) <= store.Queue(NextSendCapacity)
      requires forall q :: q != NextSend && q != NextSendCapacity ==> store.Queue(q) == old(store.Queue(q))
      ensures StaysQueued(old(store.contents), store.contents)
    {
      forall q, j | InQueue(old(store.contents), q, j) ensures InQueue(store.contents, q, j) {
        assert j in old(store.Queue(q));
        if q != NextSend && q != NextSendCapacity {
          assert store.Queue(q) == old(store.Queue(q));
        }
      }
    }

    /** No stream gets lost. */
    twostate predicate LosesNone()
      reads store
    {
      NoneGetsLost(old(store.slab), old(store.contents), store.slab, store.contents, None)
    }

    /** No stream gets lost, except one that waited for capacity. */
    twostate predicate LosesOnlyWaiters()
      reads store
    {
      OnlyWaitersGetLost(old(store.slab), old(store.contents), store.slab, store.contents, None)
    }

    /** The queues only grew. */
    twostate lemma QueuesGrewOnly()
      requires forall q, j :: j in old(store.Queue(q)) ==> j in store.Queue(q)
      ensures StaysQueued(old(store.contents), store.contents)
    {
      forall q, j | InQueue(old(store.contents), q, j) ensures InQueue(store.contents, q, j) {
        assert j in old(store.Queue(q));
      }
    }

    twostate lemma OthersStayHere(k: Key)
      requires forall q, j :: j != k && j in old(store.Queue(q)) ==> j in store.Queue(q)
      ensures OthersStay(old(store.contents), store.contents, k)
    {
      forall q, j | j != k && InQueue(old(store.contents), q, j) ensures InQueue(store.contents, q, j) {
        assert j in old(store.Queue(q));
      }
    }

    /** Only `k` was taken off a queue. */
    twostate lemma TakenOff(k: Option<Key>)
      requires forall q, j: Key :: Some(j) != k && j in old(store.Queue(q)) ==> j in store.Queue(q)
      ensures NoneGetsLost(store.slab, old(store.contents), store.slab, store.contents, k)
    {
      if k.Some? {
        forall q, j | j != k.value && j in old(store.Queue(q)) ensures j in store.Queue(q) {
          assert Some(j) != k;
        }
        OthersStayHere(k.value);
        OneParted(store.slab, old(store.contents), store.slab, store.contents, k.value);
      } else {
        forall q, j | j in old(store.Queue(q)) ensures j in store.Queue(q) {
          assert Some(j) != k;
        }
        QueuesGrewOnly();
        NoneLostBy(store.slab, old(store.contents), store.slab, store.contents, None);
      }
    }

    twostate lemma OthersSame(p: QueueName)
      requires forall q :: q != p ==> store.Queue(q) == old(store.Queue(q))
      ensures forall q :: q != p ==> ListOf(store.contents, q) == ListOf(old(store.contents), q)
    {
      forall q | q != p ensures ListOf(store.contents, q) == ListOf(old(store.contents), q) {
        assert store.Queue(q) == old(store.Queue(q));
      }
    }

    lemma ReleasedIsUnreferenced(k: Key)
      requires store.Valid() && k in store.slab
      ensures IsReleased(k) <==> store.slab[k].IsClosed() && Unreferenced(k)
      ensures IsReleased(k) ==> forall q :: !store.IsQueued(q, k)
    {
      hide Store.Valid, Stream.IsClosed;
      forall q ensures store.IsQueued(q, k) <==> k in store.Queue(q) {
        store.IsMember(q, k);
      }
      if IsReleased(k) {
        forall q ensures !store.IsQueued(q, k) {
          match q
          case NextSend => case NextSendCapacity => case NextOpen =>
          case NextAccept => case NextWindowUpdate => case NextResetExpire =>
        }
      }
      assert Unreferenced(k) ==>
        k !in store.Queue(NextSend) && k !in store.Queue(NextSendCapacity) && k !in store.Queue(NextOpen);
      assert Unreferenced(k) ==>
        k !in store.Queue(NextAccept) && k !in store.Queue(NextWindowUpdate) && k !in store.Queue(NextResetExpire);
    }

    /** After every event on a stream: one that has closed leaves the index and is no longer counted, and one that
        nothing refers to any more is freed, exactly then. */
    method TransitionAfter(k: Key, isResetCounted: bool)
      requires Valid() && k in store.slab
      requires isResetCounted && k !in store.Queue(NextResetExpire) ==> counts.reset > |store.Queue(NextResetExpire)|
      modifies this`counts, store`slab, store`ids
      ensures Valid()
      ensures var s := old(store.slab)[k];
        store.slab == if s.IsClosed() && old(Unreferenced(k)) then old(store.slab) - {k}
          else if s.IsClosed() then old(store.slab)[k := s.(isCounted := false)] else old(store.slab)
      ensures store.ids ==
        if old(store.slab)[k].IsClosed() && k !in store.Queue(NextResetExpire) then SwapRemove(old(store.ids), k)
          else old(store.ids)
      ensures counts == old(counts).(send := counts.send, recv := counts.recv, reset := counts.reset)
      ensures var s, local := old(store.slab)[k], Local(isServer, k);
        var off := s.IsClosed() && s.isCounted;
        && old(counts).send - counts.send == (if off && local then 1 else 0)
        && old(counts).recv - counts.recv == (if off && !local then 1 else 0)
        && old(counts).reset - counts.reset ==
          (if s.IsClosed() && isResetCounted && k !in store.Queue(NextResetExpire) then 1 else 0)
      ensures LosesNone() && !Lost(store.slab, store.contents, k) && SameLostHere(Some(k))
    {
      hide Living, Scheduler.Valid, Store.Valid, Stream.Bounded, DataOf, NoneGetsLost, Lost, SameLost;
      ghost var m := store.slab;
      UnqueuedIs(k);
      TransitionLosesNone(m, store.contents, k, m[k].refs == 0 && Unqueued(k));
      TransitionSameLost(m, store.contents, k, m[k].refs == 0 && Unqueued(k));
      ResetBound();
      ReleasedIsUnreferenced(k) by { SchedulerStore(); }
      if store.slab[k].IsClosed() {
        LeaveIndex(k, isResetCounted);
        ReleasedIsUnreferenced(k) by { SchedulerStore(); }
      }
      if IsReleased(k) {
        RemoveReleased(k);
      }
    }

    /** A closed stream leaves the index, unless it is remembered, and is no longer counted. */
    method LeaveIndex(k: Key, isResetCounted: bool)
      requires Valid() && k in store.slab && store.slab[k].IsClosed()
      requires isResetCounted && k !in store.Queue(NextResetExpire) ==> counts.reset > |store.Queue(NextResetExpire)|
      modifies this`counts, store`slab, store`ids
      ensures Valid() && store.slab == old(store.slab)[k := old(store.slab)[k].(isCounted := false)]
      ensures k in store.slab && store.slab[k].IsClosed() && (k !in store.Queue(NextResetExpire) ==> k !in store.ids)
      ensures store.ids == if k !in store.Queue(NextResetExpire) then SwapRemove(old(store.ids), k) else old(store.ids)
      ensures counts == old(counts).(send := counts.send, recv := counts.recv, reset := counts.reset)
      ensures var s, local := old(store.slab)[k], Local(isServer, k);
        && old(counts).send - counts.send == (if s.isCounted && local then 1 else 0)
        && old(counts).recv - counts.recv == (if s.isCounted && !local then 1 else 0)
        && old(counts).reset - counts.reset == (if isResetCounted && k !in store.Queue(NextResetExpire) then 1 else 0)
    {
      hide Living, Scheduler.Valid, Store.Valid, Stream.Bounded, DataOf;
      ResetBound();
      store.IsMember(NextResetExpire, k) by { SchedulerStore(); }
      if !store.IsQueued(NextResetExpire, k) {
        Unlink(k, isResetCounted);
      }
      if store.slab[k].isCounted {
        DecNumStreams(k);
      } else {
        assert store.slab[k := store.slab[k].(isCounted := false)] == store.slab;
      }
    }

    lemma SchedulerStore()
      requires prio.store == store && prio.Valid()
      ensures store.Valid()
    {
    }

    method Unlink(k: Key, isResetCounted: bool)
      requires Valid() && k in store.slab && store.slab[k].IsClosed() && k !in store.Queue(NextResetExpire)
      requires isResetCounted ==> counts.reset > |store.Queue(NextResetExpire)|
      modifies this`counts, store`ids
      ensures Valid() && store.ids == SwapRemove(old(store.ids), k) && k !in store.ids
      ensures counts == old(counts).(reset := if isResetCounted then old(counts).reset - 1 else old(counts).reset)
    {
      hide Living, Fit, AllBooked, HeldOk, Stream.IsClosed, Store.Valid;
      prio.StoreIds();
      SwapRemoved(store.ids, k);
      LivingUnlinked(store.slab, store.ids, store.Queue(NextOpen), store.Queue(NextResetExpire), isServer, counts, k);
      store.Unlink(k);
      if isResetCounted {
        ResetBound();
        LivingQueues(store.slab, store.ids, store.Queue(NextOpen), store.Queue(NextResetExpire), isServer, counts,
                     store.Queue(NextOpen), store.Queue(NextResetExpire), counts.reset - 1);
        counts := counts.(reset := counts.reset - 1);
      }
    }

    lemma ResetBound()
      requires Alive()
      ensures |store.Queue(NextResetExpire)| <= counts.reset <= counts.maxReset
    {
    }

    method DecNumStreams(k: Key)
      requires Valid() && k in store.slab && store.slab[k].isCounted
      modifies this`counts, store`slab
      ensures Valid() && store.slab == old(store.slab)[k := old(store.slab)[k].(isCounted := false)]
      ensures (if Local(isServer, k) then old(counts).send > 0 else old(counts).recv > 0)
        && counts == CountDown(old(counts), Local(isServer, k))
    {
      hide Living, Scheduler.Valid, Stream.Bounded, DataOf;
      var s := store.slab[k];
      LivingUncounted(store.slab, store.ids, store.Queue(NextOpen), store.Queue(NextResetExpire), isServer, counts, k);
      s := s.(isCounted := false);
      SameBounds(k, s);
      prio.Advance(k, s);
      counts := CountDown(counts, Local(isServer, k));
    }

    /** Counting and handles are nothing to the scheduler. */
    lemma SameBounds(k: Key, s: Stream)
      requires prio.store == store && prio.Valid() && k in store.slab
      requires s == store.slab[k].(isCounted := s.isCounted, refs := s.refs)
      ensures s.Bounded(prio.exact) && (prio.exact && s.Starved() ==> store.slab[k].Starved())
    {
      prio.LeaveLine(k, InTheAir(prio.inFlight, prio.held));
    }

    /** Frees a released stream. It holds no capacity, and no key that is queued or in flight refers to it. */
    method RemoveReleased(k: Key)
      requires Valid() && k in store.slab && IsReleased(k) && !store.slab[k].isCounted && k !in store.ids
      modifies store`slab
      ensures Valid() && store.slab == old(store.slab) - {k} && (prio.exact ==> old(store.slab)[k].flow.available == 0)
    {
      hide Living, Scheduler.Valid, Stream.Bounded, DataOf, Store.Valid;
      ReleasedIsUnreferenced(k) by { SchedulerStore(); }
      LivingGone(store.slab, store.ids, store.Queue(NextOpen), store.Queue(NextResetExpire), isServer, counts, k);
      prio.RemoveStream(k);
    }

    // ----- opening

    /** A scheduler step that opened, closed, counted and freed nothing. */
    lemma AliveStill(m: map<Key, Stream>, ids: seq<Key>, opening: seq<Key>, expiring: seq<Key>)
      requires Living(m, ids, opening, expiring, isServer, counts) && LifeKept(m, store.slab)
      requires ids == store.ids && opening == store.Queue(NextOpen) && expiring == store.Queue(NextResetExpire)
      ensures Alive()
    {
      LivingKept(m, store.slab, ids, opening, expiring, isServer, counts);
    }

    /** Registers a new stream of either side. */
    method NewStreamEntry(k: Key)
      requires Valid() && k == if Local(isServer, k) then nextLocal else nextRemote
      requires k !in store.slab
      modifies this`nextLocal, this`nextRemote, store`slab, store`ids, prio`books
      ensures Valid() && store.slab == old(store.slab)[k := NewStream(initWindow)] && k in store.ids
      ensures if Local(isServer, k) then nextLocal == k + 2 && nextRemote == old(nextRemote)
        else nextRemote == k + 2 && nextLocal == old(nextLocal)
      ensures forall q :: k !in store.Queue(q)
      ensures k in prio.books
      ensures SamePages(old(prio.books), prio.books)
    {
      hide Living, Scheduler.Valid, Fit, Store.Valid;
      LivingNew(store.slab, store.ids, store.Queue(NextOpen), store.Queue(NextResetExpire), isServer, counts, k,
                initWindow);
      prio.AddStream(k, initWindow);
      if Local(isServer, k) {
        nextLocal := k + 2;
      } else {
        nextRemote := k + 2;
      }
    }

    method CountStream(k: Key)
      requires Valid() && k in store.slab && !store.slab[k].isCounted && k !in store.Queue(NextOpen)
      requires Local(isServer, k) || counts.recv < counts.maxRecv
      modifies this`counts, store`slab
      ensures Valid() && store.slab == old(store.slab)[k := old(store.slab)[k].(isCounted := true)]
      ensures counts == CountUp(old(counts), Local(isServer, k))
    {
      hide Living, Scheduler.Valid, Stream.Bounded, DataOf;
      var s := store.slab[k];
      LivingCounted(store.slab, store.ids, store.Queue(NextOpen), store.Queue(NextResetExpire), isServer, counts, k);
      s := s.(isCounted := true);
      SameBounds(k, s);
      prio.Advance(k, s);
      counts := CountUp(counts, Local(isServer, k));
    }

    /** Sets the number of handles of a stream. */
    method SetRefs(k: Key, refs: nat)
      requires Valid() && k in store.slab
      modifies store`slab
      ensures Valid() && store.slab == old(store.slab)[k := old(store.slab)[k].(refs := refs)]
    {
      hide Living, Scheduler.Valid, Stream.Bounded, DataOf;
      var s := store.slab[k];
      s := s.(refs := refs);
      SameBounds(k, s);
      RefsLife(store.slab, k, refs);
      prio.Advance(k, s);
    }

    lemma RefsLife(m: map<Key, Stream>, k: Key, refs: nat)
      requires k in m && Living(m, store.ids, store.Queue(NextOpen), store.Queue(NextResetExpire), isServer, counts)
      ensures Living(m[k := m[k].(refs := refs)], store.ids, store.Queue(NextOpen), store.Queue(NextResetExpire),
                     isServer, counts)
    {
      var m' := m[k := m[k].(refs := refs)];
      assert Counted(m', isServer, true) == Counted(m, isServer, true);
      assert Counted(m', isServer, false) == Counted(m, isServer, false);
    }

    /** Opens a stream with a request. Over the limit of the peer it waits to be opened. A request is denied after the
        connection failed, when the identifiers are used up, while the stream `pending` still waits to be opened, on
        a server, and if its headers cannot be sent: then its identifier is used up. */
    method SendRequest(eos: bool, pending: Option<Key>, sendable: bool) returns (r: Requested)
      requires Valid() && (pending.Some? ==> pending.value in store.slab)
      modifies this`counts, this`nextLocal, this`nextRemote, store, prio`books
      ensures Valid()
      ensures SamePages(old(prio.books), prio.books)
      ensures r == if connError then Denied(ConnectionError)
        else if old(nextLocal) > MAX_STREAM_ID then Denied(OverflowedStreamId)
        else if pending.Some? && pending.value in old(store.Queue(NextOpen)) then Denied(Rejected)
        else if isServer then Denied(NotAClient)
        else if !sendable then Denied(MalformedHeaders) else Got(old(nextLocal))
      ensures nextLocal == if r.Got? || r.error == MalformedHeaders then old(nextLocal) + 2 else old(nextLocal)
      ensures r.Denied? ==> store.slab == old(store.slab) && counts == old(counts)
      ensures r.Got? ==>
        && r.key !in old(store.slab)
        && var leave := old(counts.send) < old(counts.maxSend);
        && (if leave then r.key !in store.Queue(NextOpen) else r.key in store.Queue(NextOpen))
        && store.slab ==
          old(store.slab)[r.key := Opened(NewStream(old(initWindow)), eos).(isCounted := leave, refs := 1)]
        && counts == if leave then old(counts).(send := old(counts).send + 1) else old(counts)
      ensures r.Got? ==>
        && StandsAt(store.slab, r.key, Onward(eos), Waiting)
        && r.key in store.slab && store.slab[r.key].frames == [HeadersFrame(eos)]
      ensures LosesNone()
    {
      hide Living, Scheduler.Valid, Fit, Store.Valid, Stream.Bounded, DataOf, Added, NoneGetsLost;
      NothingLost(store.slab, store.contents);
      if connError {
        return Denied(ConnectionError);
      }
      if nextLocal > MAX_STREAM_ID {
        return Denied(OverflowedStreamId);
      }
      if pending.Some? {
        var waits := PendingOpen(pending.value);
        if waits {
          return Denied(Rejected);
        }
      }
      if isServer {
        return Denied(NotAClient);
      }
      if !sendable {
        SkipLocal();
        return Denied(MalformedHeaders);
      }
      var id := nextLocal;
      OpenRequest(id, eos);
      return Got(id);
    }

    method OpenRequest(id: Key, eos: bool)
      requires Valid() && !isServer && id == nextLocal
      modifies this`counts, this`nextLocal, this`nextRemote, store, prio`books
      ensures Valid() && SamePages(old(prio.books), prio.books) && nextLocal == id + 2
      ensures var leave := old(counts.send) < old(counts.maxSend);
        && id !in old(store.slab) && (if leave then id !in store.Queue(NextOpen) else id in store.Queue(NextOpen))
        && store.slab == old(store.slab)[id := Opened(NewStream(old(initWindow)), eos).(isCounted := leave, refs := 1)]
        && counts == if leave then old(counts).(send := old(counts).send + 1) else old(counts)
      ensures LosesNone()
    {
      hide Living, Scheduler.Valid, Fit, Store.Valid, Stream.Bounded, DataOf, Added, NoneGetsLost, StaysQueued;
      ghost var m, queues := store.slab, store.contents;
      KnownIds(id);
      NewStreamEntry(id);
      var leave := counts.send < counts.maxSend;
      OpenLocal(id, eos, leave);
      if leave {
        CountStream(id);
      }
      SetRefs(id, 1);
      QueuesGrewOnly();
      NewLosesNone(m, queues, store.slab, store.contents, id);
    }

    /** An identifier used up without a stream. */
    method SkipLocal()
      requires Valid()
      modifies this`nextLocal
      ensures Valid() && nextLocal == old(nextLocal) + 2
    {
      hide Living, Scheduler.Valid;
      nextLocal := nextLocal + 2;
    }

    method PendingOpen(k: Key) returns (waits: bool)
      requires Valid()
      ensures waits == (k in store.Queue(NextOpen))
    {
      hide Store.Valid, Fit, Living;
      store.IsMember(NextOpen, k);
      waits := store.IsQueued(NextOpen, k);
    }

    /** A stream with the next identifier is not there yet. */
    lemma KnownIds(k: Key)
      requires Valid() && (k == nextLocal || k == nextRemote)
      ensures InTheAir(prio.inFlight, prio.held) != Some(k)
      ensures k !in store.slab && k !in prio.books && (k == if Local(isServer, k) then nextLocal else nextRemote)
    {
      hide Living, Fit, Booked, Store.Valid, HeldOk;
      if k in store.slab {
        PageOf(store.slab, prio.inFlight, prio.held, prio.books, k);
      }
    }

    /** Sends the HEADERS that open a stream, or has it wait. */
    method OpenLocal(k: Key, eos: bool, leave: bool)
      requires Valid() && k in store.slab && store.slab[k].state.SendOpen(eos).Some?
      requires !leave ==>
        k !in store.Queue(NextSend) && InTheAir(prio.inFlight, prio.held) != Some(k) && !store.slab[k].isCounted
      requires !leave ==> Local(isServer, k)
      modifies store`slab, store`queued, store`next, store`indices, store`contents
      ensures Valid() && store.slab == old(store.slab)[k := Opened(old(store.slab)[k], eos)]
      ensures store.Queue(NextOpen) == Added(old(store.Queue(NextOpen)), k, !leave)
      ensures k in store.Queue(NextOpen) || k in store.Queue(NextSend)
      ensures old(store.Queue(NextSend)) <= store.Queue(NextSend)
      ensures forall q :: q != NextSend && q != NextOpen ==> store.Queue(q) == old(store.Queue(q))
    {
      hide Living, Scheduler.Valid, Fit, Store.Valid, Stream.Bounded, DataOf;
      ghost var m, opening := store.slab, store.Queue(NextOpen);
      LivingQueues(m, store.ids, opening, store.Queue(NextResetExpire), isServer, counts,
                   Added(opening, k, !leave), store.Queue(NextResetExpire), counts.reset) by { ResetBound(); }
      assert counts.(reset := counts.reset) == counts;
      prio.SendHeaders(k, eos, leave);
      OpenedLife(m, k, eos);
      AliveStill(m, store.ids, store.Queue(NextOpen), store.Queue(NextResetExpire));
    }

    lemma OpenedLife(m: map<Key, Stream>, k: Key, eos: bool)
      requires k in m && m[k].state.SendOpen(eos).Some?
      ensures LifeKept(m, m[k := Opened(m[k], eos)])
    {
    }

    /** The peer opens a stream. Beyond what was announced as the last one it is ignored; over the limit it is refused;
        if its headers are `bad` it is reset. A handle comes with `NextIncoming`. */
    method RecvRequest(k: Key, eos: bool, bad: bool) returns (r: Option<RecvError>)
      requires Valid() && isServer && k > 0 && k !in store.ids
      modifies this`counts, this`nextLocal, this`nextRemote, store, prio`flow, prio`inFlight, prio`held, prio`books
      ensures Valid()
      ensures SamePages(old(prio.books), prio.books)
      ensures r == if k > maxRecvId then None
        else if Local(isServer, k) || k < old(nextRemote) then Some(ProtocolError)
        else if old(counts.recv) >= old(counts.maxRecv) then Some(RefusedStream) else None
      ensures r.Some? || k > maxRecvId ==> store.slab == old(store.slab) && counts == old(counts)
      ensures nextRemote == if k > maxRecvId || r == Some(ProtocolError) then old(nextRemote) else k + 2
      ensures r.None? && k <= maxRecvId ==>
        var s := NewStream(old(initWindow)).(state := State.Idle.RecvOpen(eos).value.0, isCounted := true);
        && k !in old(store.slab)
        && if bad then LeftBy(old(store.slab)[k := s], store.slab, k, ResetOf(s))
           else
             && store.slab == old(store.slab)[k := s] && counts == old(counts).(recv := old(counts).recv + 1)
             && k in store.Queue(NextAccept) && StandsAt(store.slab, k, Waiting, Onward(eos))
      ensures !bad ==> LosesNone()
      ensures bad ==> if r.None? && k <= maxRecvId then LosesExactly(k) else LosesServed()
    {
      hide Living, Scheduler.Valid, Fit, Store.Valid, Stream.Bounded, DataOf, NoneGetsLost, LeftBy, SamePages,
        StaysQueued, LosesAs, Lost, SharedOnly;
      ghost var m, queues := store.slab, store.contents;
      NothingLost(m, queues);
      NothingShared(m, queues);
      SamePagesAlways(prio.books);
      if k > maxRecvId {
        return None;
      }
      if Local(isServer, k) || k < nextRemote {
        return Some(ProtocolError);
      }
      SkipTo(k);
      if counts.recv >= counts.maxRecv {
        SkipTo(k + 2);
        return Some(RefusedStream);
      }
      OpenRemote(k, eos);
      ghost var mid, between, books := store.slab, store.contents, prio.books;
      if bad {
        RecvStreamError(k);
        SameThenLoses(m, queues, mid, store.slab, store.contents, k);
        PagesOn(old(prio.books), books, prio.books);
        return None;
      }
      AcceptLater(k);
      AcceptLosesNone(m, queues, mid, between);
      return None;
    }

    /** Registers a stream opened by the peer. */
    method OpenRemote(k: Key, eos: bool)
      requires Valid() && k == nextRemote && counts.recv < counts.maxRecv
      modifies this`counts, this`nextLocal, this`nextRemote, store`slab, store`ids, prio`books
      ensures Valid() && SamePages(old(prio.books), prio.books) && nextRemote == k + 2
      ensures k !in old(store.slab)
      ensures store.slab ==
        old(store.slab)[k := NewStream(initWindow).(state := State.Idle.RecvOpen(eos).value.0, isCounted := true)]
      ensures counts == old(counts).(recv := old(counts).recv + 1)
      ensures LosesNone()
    {
      hide Living, Scheduler.Valid, Fit, Store.Valid, Stream.Bounded, DataOf, NoneGetsLost;
      ghost var m := store.slab;
      KnownIds(k);
      NewStreamEntry(k);
      Receive(k, store.slab[k].state.RecvOpen(eos).value.0);
      CountStream(k);
      NewLosesNone(m, store.contents, store.slab, store.contents, k);
    }

    lemma AcceptLosesNone(m: map<Key, Stream>, queues: map<QueueName, seq<Key>>, mid: map<Key, Stream>,
                          between: map<QueueName, seq<Key>>)
      requires NoneGetsLost(m, queues, mid, between, None) && mid == store.slab
      requires forall q :: q != NextAccept ==> store.Queue(q) == ListOf(between, q)
      requires ListOf(between, NextAccept) <= store.Queue(NextAccept)
      ensures NoneGetsLost(m, queues, store.slab, store.contents, None)
    {
      forall q | q != NextAccept ensures ListOf(store.contents, q) == ListOf(between, q) {
        assert store.Queue(q) == ListOf(between, q);
      }
      PushedLosesNone(m, queues, mid, between, store.contents, NextAccept);
    }

    /** Identifiers may be left out. */
    method SkipTo(k: Key)
      requires Valid() && !Local(isServer, k) && nextRemote <= k
      modifies this`nextRemote
      ensures Valid() && nextRemote == k
    {
      hide Living, Scheduler.Valid;
      nextRemote := k;
    }

    /** A stream moves on because of what was received on it. */
    method Receive(k: Key, state: State)
      requires Valid() && k in store.slab
      requires store.slab[k].state.Receives(state)
      modifies store`slab
      ensures Valid() && store.slab == old(store.slab)[k := old(store.slab)[k].(state := state)]
    {
      hide Living, Scheduler.Valid, Fit, Store.Valid, DataOf;
      var s := store.slab[k];
      ghost var m := store.slab;
      s := s.(state := state);
      InBounds(k);
      ReceivingKeepsBounds(prio.exact, store.slab[k], state);
      prio.Advance(k, s);
      AdjustedSet(m, k, s);
      AdjustedLife(m, store.slab, k, s);
      AliveStill(m, store.ids, store.Queue(NextOpen), store.Queue(NextResetExpire));
    }

    lemma InBounds(k: Key)
      requires prio.store == store && prio.Valid() && k in store.slab
      ensures store.slab[k].Bounded(prio.exact)
    {
      hide Store.Valid, FitOthers, Stream.Starved, Stream.Ready;
      prio.LeaveLine(k, InTheAir(prio.inFlight, prio.held));
    }

    method AcceptLater(k: Key)
      requires Valid() && k in store.slab
      modifies store`queued, store`next, store`indices, store`contents
      ensures Valid() && k in store.Queue(NextAccept) && old(store.Queue(NextAccept)) <= store.Queue(NextAccept)
      ensures forall q :: q != NextAccept ==> store.Queue(q) == old(store.Queue(q))
    {
      hide Living, Fit, Store.Valid;
      var _ := store.Push(NextAccept, k);
    }

    /** The next stream the peer opened, with a handle. */
    method NextIncoming() returns (k: Option<Key>)
      requires Valid()
      modifies store`slab, store`queued, store`next, store`indices, store`contents
      ensures Valid() && (k.None? <==> old(store.Queue(NextAccept)) == [])
      ensures k.None? ==> store.slab == old(store.slab)
      ensures k.Some? ==>
        && old(store.Queue(NextAccept)) == [k.value] + store.Queue(NextAccept) && k.value in old(store.slab)
        && store.slab ==
          old(store.slab)[k.value := old(store.slab)[k.value].(refs := old(store.slab)[k.value].refs + 1)]
      ensures LosesNone()
    {
      hide Living, Scheduler.Valid, Store.Valid, NoneGetsLost, OthersStay;
      ghost var m, queues := store.slab, store.contents;
      NothingLost(m, queues);
      k := PopAccept();
      if k.Some? {
        OthersStayHere(k.value);
        SetRefs(k.value, store.slab[k.value].refs + 1);
        OneParted(m, queues, store.slab, store.contents, k.value);
      } else {
        OthersSame(NextAccept);
        PushedLosesNone(m, queues, m, queues, store.contents, NextAccept);
      }
    }

    method PopAccept() returns (k: Option<Key>)
      requires Valid()
      modifies store`queued, store`next, store`indices, store`contents
      ensures Valid() && (k.None? <==> old(store.Queue(NextAccept)) == [])
      ensures k.None? ==> store.Queue(NextAccept) == []
      ensures k.Some? ==> old(store.Queue(NextAccept)) == [k.value] + store.Queue(NextAccept) && k.value in store.slab
      ensures forall q :: q != NextAccept ==> store.Queue(q) == old(store.Queue(q))
    {
      hide Living, Fit, Store.Valid, AllBooked, HeldOk;
      k := store.Pop(NextAccept);
    }

    /** A handle is cloned. */
    method CloneRef(k: Key)
      requires Valid() && k in store.slab && store.slab[k].refs > 0
      modifies store`slab
      ensures Valid() && store.slab == old(store.slab)[k := old(store.slab)[k].(refs := old(store.slab)[k].refs + 1)]
      ensures LosesNone()
    {
      hide Living, Scheduler.Valid, Store.Valid, NoneGetsLost, Lost;
      HandleLosesNone(store.slab, store.contents, k);
      SetRefs(k, store.slab[k].refs + 1);
    }

    // ----- sending and receiving

    /** What an event made of stream `k`: it became `s`, others were at most granted capacity, and if that closed
        it, it is no longer counted, and gone if nothing refers to it. */
    twostate predicate Became(k: Key, s: Stream)
      reads store
    {
      exists mid :: Adjusted(old(store.slab), mid, k, s)
        && store.slab == Transitioned(mid, k, s.refs == 0 && Unqueued(k))
    }

    /** The scheduler is done with an event that made `s` of stream `k`. */
    method Finish(k: Key, ghost s: Stream, was: bool, ghost m: map<Key, Stream>)
      requires prio.store == store && prio.Valid() && initWindow <= MAX_WINDOW_SIZE && IdsKnown()
      requires Living(m, store.ids, store.Queue(NextOpen), store.Queue(NextResetExpire), isServer, counts)
      requires Adjusted(m, store.slab, k, s) && s.isCounted == m[k].isCounted && s.refs == m[k].refs
        && (m[k].IsClosed() ==> s.IsClosed())
      requires was ==> k in store.Queue(NextResetExpire)
      modifies this`counts, store`slab, store`ids
      ensures Valid()
      ensures Adjusted(m, old(store.slab), k, s)
        && store.slab == Transitioned(old(store.slab), k, s.refs == 0 && Unqueued(k))
      ensures store.ids == if s.IsClosed() && k !in store.Queue(NextResetExpire) then SwapRemove(old(store.ids), k)
        else old(store.ids)
      ensures LosesNone() && !Lost(store.slab, store.contents, k) && SameLostHere(Some(k))
    {
      hide Living, Scheduler.Valid, Store.Valid, Stream.IsClosed, Adjusted, NoneGetsLost, Lost, SameLost;
      AdjustedLife(m, store.slab, k, s);
      AdjustedAt(m, store.slab, k, s);
      AliveStill(m, store.ids, store.Queue(NextOpen), store.Queue(NextResetExpire));
      ghost var mid := store.slab;
      TransitionAfter(k, was);
      assert Adjusted(m, mid, k, s) && store.slab == Transitioned(mid, k, s.refs == 0 && Unqueued(k));
    }

    method SendData(k: Key, payload: Bytes, eos: bool) returns (r: Option<UserError>)
      requires Valid() && k in store.slab
      modifies this`counts, store, prio`flow, prio`books
      ensures Valid()
      ensures var s := old(store.slab)[k];
        r == if |payload| > MAX_WINDOW_SIZE then Some(PayloadTooBig)
             else if s.state.IsSendStreaming() then None
             else if s.state.Closed? then Some(InactiveStreamId) else Some(UnexpectedFrameType)
      ensures r.None? ==> Became(k, Taken(old(store.slab)[k], payload, eos))
      ensures r.None? ==>
        && Moves(old(store.slab), store.slab, k, true, Onward(eos))
        && QueuesUp(old(store.slab), store.slab, k, Data(payload, eos))
        && AsksFor(old(store.slab)[k], store.slab[k], |payload|, eos)
      ensures Becomes(old(store.slab), store.slab, k,
                      if r.None? then Taken(old(store.slab)[k], payload, eos).state else old(store.slab)[k].state)
      ensures r.Some? ==> Became(k, old(store.slab)[k])
      ensures r.None? ==>
        && k in old(prio.books) && !old(prio.books)[k].ended
        && prio.books == old(prio.books)[k := old(prio.books)[k].Give(payload, eos)]
      ensures r.Some? ==> prio.books == old(prio.books)
      ensures LosesExactly(k)
    {
      hide Living, Scheduler.Valid, Store.Valid, Fit, DataOf, Adjusted, Taken, Entered, NoneGetsLost, Lost, NewTakePart,
        SharedOnly, SameLost, LosesAs, Transitioned, Becomes, StandsAt;
      ghost var m, queues := store.slab, store.contents;
      var was := PendingReset(k);
      r := prio.SendData(k, payload, eos);
      ghost var mid, s := store.slab, if r.None? then Taken(m[k], payload, eos) else m[k];
      if r.None? {
        TakenLife(m[k], payload, eos);
      } else {
        prio.Unchanged(m, k);
      }
      SharedBy(m, queues, k, s);
      Finish(k, s, was, m);
      SharedThenSame(m, queues, mid, store.contents, store.slab, store.contents, Some(k));
      PartedAt(m, mid, store.slab, k, s, s.refs == 0 && Unqueued(k));
    }

    /** How far a stream has come after its transition. */
    lemma PartedAt(m: map<Key, Stream>, mid: map<Key, Stream>, m': map<Key, Stream>, k: Key, s: Stream,
                   unreferenced: bool)
      requires Adjusted(m, mid, k, s) && m' == Transitioned(mid, k, unreferenced)
      ensures Becomes(m, m', k, s.state)
      ensures !s.state.IsReset() ==> StandsAt(m', k, s.state.SendHalf(), s.state.RecvHalf())
      ensures s.frames != [] ==>
        k in m' && m'[k].frames == s.frames && m'[k].buffered == s.buffered && m'[k].requested == s.requested
    {
      PartedBecomes(m, mid, k, s, unreferenced);
      BecomesAt(m, m', k, s.state);
    }

    /** A payload of `n` bytes is buffered, and asks for as much as is buffered unless the stream asks for more already;
        a stream that ends asks for no more than that. */
    predicate AsksFor(s: Stream, s': Stream, n: nat, eos: bool) {
      && s'.buffered == s.buffered + n
      && s'.requested == if eos || s.requested < s.buffered + n then s.buffered + n else s.requested
    }

    lemma TakenLife(s: Stream, payload: Bytes, eos: bool)
      requires s.state.IsSendStreaming()
      ensures var s' := Taken(s, payload, eos); s'.isCounted == s.isCounted && s'.refs == s.refs && !s.IsClosed()
      ensures !s.state.IsReset() && Taken(s, payload, eos).state.Stands(Onward(eos), s.state.RecvHalf())
      ensures Taken(s, payload, eos).frames == s.frames + [Data(payload, eos)]
      ensures AsksFor(s, Taken(s, payload, eos), |payload|, eos)
    {
      SendCloses(s.state);
    }

    method PendingReset(k: Key) returns (was: bool)
      requires Valid() && k in store.slab
      ensures was == (k in store.Queue(NextResetExpire))
    {
      hide Store.Valid, Fit, Living;
      store.IsMember(NextResetExpire, k);
      was := store.IsQueued(NextResetExpire, k);
    }

    method SendTrailers(k: Key) returns (ok: bool)
      requires Valid() && k in store.slab
      modifies this`counts, store, prio`flow
      ensures Valid() && ok == old(store.slab)[k].state.IsSendStreaming()
      ensures Became(k, if ok then Trailing(old(store.slab)[k]) else old(store.slab)[k])
      ensures ok ==>
        && Moves(old(store.slab), store.slab, k, true, Done)
        && QueuesUp(old(store.slab), store.slab, k, HeadersFrame(true))
      ensures Becomes(old(store.slab), store.slab, k,
                      if ok then Trailing(old(store.slab)[k]).state else old(store.slab)[k].state)
      ensures LosesExactly(k)
    {
      hide Living, Scheduler.Valid, Store.Valid, Fit, DataOf, Adjusted, Stream.Bounded, NoneGetsLost, Lost,
        NewTakePart, SharedOnly, SameLost, LosesAs, Transitioned, Becomes, StandsAt;
      ghost var m, queues := store.slab, store.contents;
      var was := PendingReset(k);
      ok := store.slab[k].state.IsSendStreaming();
      if ok {
        SendCloses(m[k].state);
        prio.SendTrailers(k);
      } else {
        prio.Unchanged(m, k);
        NobodyInLine(m, store.Queue(NextSendCapacity), store.Queue(NextSend), k);
      }
      ghost var mid, s := store.slab, if ok then Trailing(m[k]) else m[k];
      SharedBy(m, queues, k, s);
      Finish(k, s, was, m);
      SharedThenSame(m, queues, mid, store.contents, store.slab, store.contents, Some(k));
      PartedAt(m, mid, store.slab, k, s, s.refs == 0 && Unqueued(k));
    }

    /** The HEADERS of a response. */
    method SendResponse(k: Key, eos: bool) returns (ok: bool)
      requires Valid() && k in store.slab && !Local(isServer, k)
      modifies this`counts, store
      ensures Valid() && ok == old(store.slab)[k].state.SendOpen(eos).Some?
      ensures Became(k, if ok then Opened(old(store.slab)[k], eos) else old(store.slab)[k])
      ensures ok ==>
        && Moves(old(store.slab), store.slab, k, true, Onward(eos))
        && QueuesUp(old(store.slab), store.slab, k, HeadersFrame(eos))
      ensures Becomes(old(store.slab), store.slab, k,
                      if ok then Opened(old(store.slab)[k], eos).state else old(store.slab)[k].state)
      ensures LosesNone()
    {
      hide Living, Scheduler.Valid, Store.Valid, Fit, DataOf, Adjusted, Stream.Bounded, Added, NoneGetsLost,
        OnlyWaitersGetLost, StaysQueued, Lost, Transitioned, Becomes, StandsAt;
      ghost var m, queues := store.slab, store.contents;
      var was := PendingReset(k);
      ok := store.slab[k].state.SendOpen(eos).Some?;
      if ok {
        OpenLocal(k, eos, true);
        AdjustedSet(m, k, Opened(m[k], eos));
        OpenedLife(m, k, eos);
      } else {
        prio.Unchanged(m, k);
      }
      QueuesStay();
      ghost var mid, s := store.slab, if ok then Opened(m[k], eos) else m[k];
      Finish(k, s, was, m);
      PartedAt(m, mid, store.slab, k, s, s.refs == 0 && Unqueued(k));
      StayedThenParted(m, queues, mid, store.contents, store.slab, store.contents, k, s);
    }

    /** A change of the capacity asked for. Only a stream opened for sending has a user who can. */
    method ReserveCapacity(k: Key, capacity: nat)
      requires Valid() && k in store.slab && !store.slab[k].state.BeforeSending()
      modifies store, prio`flow
      ensures Valid() && Adjusted(old(store.slab), store.slab, k, Asking(old(store.slab)[k], capacity))
      ensures k in store.slab
        && Asks(old(store.slab)[k], store.slab[k], capacity, prio.exact && prio.flow.available > 0)
      ensures LosesServed()
    {
      hide Living, Scheduler.Valid, Store.Valid, Fit, DataOf, Adjusted, Stream.Bounded, NoneGetsLost, Lost,
        NewTakePart, SharedOnly, LosesAs;
      ghost var m, queues := store.slab, store.contents;
      prio.Reserve(k, capacity);
      SharedAll(m, queues, k, Asking(m[k], capacity));
      AdjustedLife(m, store.slab, k, Asking(m[k], capacity));
      AliveStill(m, store.ids, store.Queue(NextOpen), store.Queue(NextResetExpire));
      AskedFor(m, k, capacity);
    }

    /** What is asked for comes on top of what is buffered, unless more is asked for of a stream closed for sending.
        While the connection has some to spare, the stream then holds as much as its own window admits. */
    ghost predicate Asks(s: Stream, s': Stream, capacity: nat, spare: bool) {
      var all := s.buffered + capacity;
      && s'.buffered == s.buffered
      && if s.state.IsSendClosed() && s.requested < all then s'.requested == s.requested
         else
           && s'.requested == all
           && (spare && s'.Active() ==>
               s'.flow.available == if all < s.flow.WindowSize() then all else s.flow.WindowSize())
    }

    lemma AskedFor(m: map<Key, Stream>, k: Key, capacity: nat)
      requires prio.store == store && prio.Valid()
      requires k in m && Adjusted(m, store.slab, k, Asking(m[k], capacity))
      ensures k in store.slab && Asks(m[k], store.slab[k], capacity, prio.exact && prio.flow.available > 0)
    {
      hide Store.Valid, Stream.Starved, Stream.Ready, Stream.Active, DataOf;
      if prio.exact && prio.flow.available > 0 && store.slab[k].Active() {
        WorkConserving(store.slab, prio.flow, store.Queue(NextSendCapacity), k);
      }
    }

    /** END_STREAM received. */
    method RecvEndStream(k: Key) returns (r: Option<RecvError>)
      requires Valid() && k in store.slab
      modifies this`counts, store
      ensures Valid()
      ensures r == if old(store.slab)[k].state.RecvClose().None? then Some(ProtocolError) else None
      ensures r.Some? ==> store.slab == old(store.slab)
      ensures var s := old(store.slab)[k].state; r.None? <==> !s.IsReset() && !s.Idle? && s.RecvHalf() != Done
      ensures r.None? ==>
        && Moves(old(store.slab), store.slab, k, false, Done)
        && Becomes(old(store.slab), store.slab, k, old(store.slab)[k].state.RecvClose().value)
      ensures r.None? ==> Became(k, old(store.slab)[k].(state := old(store.slab)[k].state.RecvClose().value))
      ensures LosesNone()
    {
      hide Living, Scheduler.Valid, Store.Valid, Fit, DataOf, Adjusted, Stream.Bounded, NoneGetsLost,
        OnlyWaitersGetLost, StaysQueued, Lost, Transitioned, Becomes, StandsAt;
      ghost var m, queues := store.slab, store.contents;
      QueuesStay();
      var was := PendingReset(k);
      var to := store.slab[k].state.RecvClose();
      if to.None? {
        NothingLost(m, queues);
        return Some(ProtocolError);
      }
      Receive(k, to.value);
      ghost var mid, s := store.slab, m[k].(state := to.value);
      AdjustedSet(m, k, s);
      Finish(k, s, was, m);
      PartedAt(m, mid, store.slab, k, s, s.refs == 0 && Unqueued(k));
      StayedThenParted(m, queues, mid, store.contents, store.slab, store.contents, k, s);
      return None;
    }

    /** RST_STREAM received: whatever was queued is given up, and the stream holds nothing any more. */
    method RecvReset(k: Key)
      requires Valid() && k in store.slab
      modifies this`counts, store, prio`flow, prio`inFlight, prio`held, prio`books
      ensures Valid()
      ensures SamePages(old(prio.books), prio.books)
      ensures Became(k,
                     Ended(old(store.slab)[k], old(store.slab)[k].state.RecvReset(k in old(store.Queue(NextSend))), []))
      ensures Becomes(old(store.slab), store.slab, k,
                      old(store.slab)[k].state.RecvReset(k in old(store.Queue(NextSend))))
      ensures k in store.slab ==> store.slab[k].IsClosed() && prio.Returned(store.slab[k])
      ensures LosesExactly(k)
      ensures LosesEnding(k, old(store.slab)[k].state.RecvReset(k in old(store.Queue(NextSend))))
    {
      hide Living, Scheduler.Valid, Store.Valid, Became, LosesEnding, LosesExactly, SamePages, Becomes;
      store.IsMember(NextSend, k) by { SchedulerStore(); }
      EndStream(k, store.slab[k].state.RecvReset(store.IsQueued(NextSend, k)));
    }

    /** The peer has done with a stream, or the connection has: what it had queued and held is given up. */
    method EndStream(k: Key, state: State)
      requires Valid() && k in store.slab && state.Closed?
      modifies this`counts, store, prio`flow, prio`inFlight, prio`held, prio`books
      ensures Valid() && prio.flow.window == old(prio.flow).window && SamePages(old(prio.books), prio.books)
      ensures store.ids == old(store.ids) || store.ids == SwapRemove(old(store.ids), k)
      ensures Became(k, Ended(old(store.slab)[k], state, []))
      ensures Becomes(old(store.slab), store.slab, k, state)
      ensures k in store.slab ==> store.slab[k].IsClosed() && prio.Returned(store.slab[k])
      ensures store.Queue(NextAccept) == old(store.Queue(NextAccept))
      ensures forall j :: j in store.Queue(NextSendCapacity) ==> j in old(store.Queue(NextSendCapacity))
      ensures LosesExactly(k)
      ensures LosesEnding(k, state)
    {
      hide Living, Scheduler.Valid, Store.Valid, Fit, DataOf, Adjusted, Stream.Bounded, Entered, NoneGetsLost, Lost,
        NewTakePart, NobodyNew, SharedOnly, SameLost, LosesAs, SamePages, Served, Relieved, InTurn, AsSize, Becomes,
        StandsAt;
      WaitsOnce();
      ghost var m, queues, books, s := store.slab, store.contents, prio.books, Ended(store.slab[k], state, []);
      ghost var conn := prio.flow;
      var was := PendingReset(k);
      prio.RecvErr(k, state);
      PageDropped(books, k);
      ghost var mid := store.slab;
      AdjustedAt(m, mid, k, s);
      NobodyNewTakePart(mid, ListOf(queues, NextSendCapacity), store.Queue(NextSendCapacity), ListOf(queues, NextSend),
                        store.Queue(NextSend), Some(k));
      NobodyNewWaits(mid, ListOf(queues, NextSendCapacity), store.Queue(NextSendCapacity), ListOf(queues, NextSend),
                     store.Queue(NextSend));
      SharedBy(m, queues, k, s);
      Finish(k, s, was, m);
      PartedAt(m, mid, store.slab, k, s, s.refs == 0 && Unqueued(k));
      SharedThenSame(m, queues, mid, store.contents, store.slab, store.contents, Some(k));
      if prio.exact {
        LostBeside(m, queues, store.slab, store.contents, k, Relieved(s), mid,
                   conn.available + AsSize(m[k].flow.available), prio.flow.available);
      }
    }

    /** Stream `k` is reset: RST_STREAM is all it still has to send, unless it was reset before, or had come to its end
        and sent everything. */
    ghost predicate ResetQueued(m: map<Key, Stream>, m': map<Key, Stream>, k: Key)
      requires k in m
    {
      && (k in m' ==> m'[k].state.IsReset())
      && (!m[k].state.Closed? || (!m[k].state.IsReset() && m[k].frames != []) ==>
          k in m' && m'[k].frames == [ResetFrame] && m'[k].buffered == 0 && m'[k].requested == 0)
      && (m[k].state.IsReset() && k in m' ==> m'[k].frames == m[k].frames && m'[k].state == m[k].state)
    }

    lemma ClosedAlike(m: map<Key, Stream>, mid: map<Key, Stream>, k: Key, s: Stream, j: Key)
      requires Adjusted(m, mid, k, s) && j != k
      ensures j in m <==> j in mid
      ensures j in m ==> (m[j].IsClosed() <==> mid[j].IsClosed())
    {
    }

    lemma ResetIsQueued(m: map<Key, Stream>, m': map<Key, Stream>, k: Key)
      requires k in m && LeftBy(m, m', k, ResetOf(m[k]))
      ensures ResetQueued(m, m', k)
    {
    }

    /** A frame that is an error of its stream: the stream is reset, but not remembered. */
    method RecvStreamError(k: Key)
      requires Valid() && k in store.slab
      modifies this`counts, store, prio`flow, prio`inFlight, prio`held, prio`books
      ensures Valid()
      ensures SamePages(old(prio.books), prio.books)
      ensures LeftBy(old(store.slab), store.slab, k, ResetOf(old(store.slab)[k]))
      ensures ResetQueued(old(store.slab), store.slab, k)
      ensures k !in store.slab <==>
        ResetOf(old(store.slab)[k]).IsClosed() && ResetOf(old(store.slab)[k]).refs == 0 && Unqueued(k)
      ensures store.Queue(NextResetExpire) == old(store.Queue(NextResetExpire))
      ensures LosesExactly(k)
      ensures LosesResetting(k)
    {
      hide Living, Scheduler.Valid, Store.Valid, Fit, DataOf, Adjusted, Stream.Bounded, Entered, LeftBy, NoneGetsLost,
        Lost, SharedOnly, SameLost, LosesAs, Served, Reset, Reclaimed, InTurn;
      WaitsOnce();
      ghost var m, queues, s := store.slab, store.contents, ResetOf(store.slab[k]);
      ghost var conn := prio.flow;
      var was := PendingReset(k);
      ResetStream(k);
      ghost var mid, between := store.slab, store.contents;
      LeftByAdjusted(m, mid, k, s);
      Part(k, was, m, s);
      ResetIsQueued(m, store.slab, k);
      SharedThenSame(m, queues, mid, between, store.slab, store.contents, Some(k));
      if prio.exact {
        LostBeside(m, queues, store.slab, store.contents, k, Reset(m[k]), mid, conn.available + Reclaimed(m[k]),
                   prio.flow.available);
      }
    }

    /** What HEADERS, `bad` or not, make of a stream that was opened before; `None` is an error of the connection. */
    function HeadersLeave(s: Stream, eos: bool, bad: bool): Option<Stream> {
      if s.state.IsRecvHeaders() then
        var s' := s.(state := s.state.RecvOpen(eos).value.0);
        Some(if bad then ResetOf(s') else s')
      else if !eos then Some(ResetOf(s))
      else
        match s.state.RecvClose()
        case None => None
        case Some(to) => Some(if bad then ResetOf(s.(state := to)) else s.(state := to))
    }

    /** What they make of its halves: the first HEADERS of the peer move the receiving half on, later ones end it if
        they carry END_STREAM, and leave the other half alone. Otherwise they are ignored, an error of the connection,
        or the end of the stream. */
    ghost predicate HeadersMove(m: map<Key, Stream>, m': map<Key, Stream>, k: Key, eos: bool, bad: bool, failed: bool)
      requires k in m
    {
      var s := m[k].state;
      && (failed <==> eos && !s.IsLocalReset() && (s.IsReset() || s.RecvHalf() == Done))
      && if s.IsReset() || s.RecvHalf() == Done then !eos && k in m' ==> m'[k].state.IsReset()
         else if bad || (s.RecvHalf() == Started && !eos) then k in m' ==> m'[k].state.IsReset()
         else Moves(m, m', k, false, Onward(eos))
    }

    lemma HeadersMoved(m: map<Key, Stream>, m': map<Key, Stream>, k: Key, eos: bool, bad: bool, failed: bool)
      requires k in m && !m[k].state.Idle?
      requires failed <==> !m[k].state.IsLocalReset() && HeadersLeave(m[k], eos, bad).None?
      requires if m[k].state.IsLocalReset() then m' == m
        else LeftBy(m, m', k, if failed then m[k] else HeadersLeave(m[k], eos, bad).value)
      ensures HeadersMove(m, m', k, eos, bad, failed)
    {
      HalvesDecide(m[k].state);
      if !m[k].state.IsLocalReset() {
        LeftByBecomes(m, m', k, if failed then m[k] else HeadersLeave(m[k], eos, bad).value);
      }
    }

    /** HEADERS on a stream that was opened before: those of a response, or trailers. A stream reset by this side
        ignores them. Trailers without END_STREAM are left to the connection, which resets the stream and remembers it;
        otherwise what is wrong with them makes the stream reset on the spot and forgotten. */
    method RecvHeaders(k: Key, eos: bool, bad: bool) returns (r: Option<RecvError>)
      requires Valid() && k in store.slab && !store.slab[k].state.Idle?
      modifies this`counts, store, prio`flow, prio`inFlight, prio`held, prio`books
      ensures Valid()
      ensures SamePages(old(prio.books), prio.books)
      ensures r == if !old(store.slab)[k].state.IsLocalReset() && HeadersLeave(old(store.slab)[k], eos, bad).None? then
        Some(ProtocolError) else None
      ensures if old(store.slab)[k].state.IsLocalReset() then store.slab == old(store.slab)
        else
          var s := if r.Some? then old(store.slab)[k] else HeadersLeave(old(store.slab)[k], eos, bad).value;
          && LeftBy(old(store.slab), store.slab, k, s)
          && (k !in store.slab <==> s.IsClosed() && s.refs == 0 && Unqueued(k))
      ensures HeadersMove(old(store.slab), store.slab, k, eos, bad, r.Some?)
      ensures if old(store.slab)[k].state.IsLocalReset() || old(store.slab)[k].state.IsRecvHeaders() || eos then
          store.Queue(NextResetExpire) == old(store.Queue(NextResetExpire))
        else Remembers(k, ResetOf(old(store.slab)[k]).state.IsLocalReset())
      ensures if old(store.slab)[k].state.IsLocalReset() then LosesServed() else LosesExactly(k)
    {
      hide Living, Scheduler.Valid, Store.Valid, Fit, DataOf, Adjusted, Stream.Bounded, Entered, LeftBy, NoneGetsLost,
        Lost, SamePages, Stream.IsClosed, SharedOnly, SameLost, LosesAs, Becomes, StandsAt, HeadersMove;
      ghost var m, queues := store.slab, store.contents;
      SamePagesAlways(prio.books);
      if store.slab[k].state.IsLocalReset() {
        NothingShared(m, queues);
        NothingLost(m, queues);
        HeadersMoved(m, m, k, eos, bad, false);
        return None;
      }
      var state := store.slab[k].state;
      if !state.IsRecvHeaders() && !eos {
        SendReset(k);
        HeadersMoved(m, store.slab, k, eos, bad, false);
        return None;
      }
      ghost var s := if HeadersLeave(m[k], eos, bad).None? then m[k] else HeadersLeave(m[k], eos, bad).value;
      var was := PendingReset(k);
      r := None;
      var wrong := bad;
      prio.Unchanged(m, k);
      if state.IsRecvHeaders() {
        Receive(k, state.RecvOpen(eos).value.0);
      } else if state.RecvClose().None? {
        r, wrong := Some(ProtocolError), false;
      } else {
        Receive(k, state.RecvClose().value);
      }
      ghost var m1 := store.slab;
      AdjustedSet(m, k, m1[k]);
      assert m1 == m[k := m1[k]];
      OneShared(m, queues, m1, k);
      if wrong {
        ResetStream(k);
        AdjustedTransitive(m, m1, store.slab, k, m1[k], s);
        SharedOnlyAgain(m, queues, m1, queues, store.slab, store.contents, Some(k));
      }
      ghost var mid, between := store.slab, store.contents;
      LeftByAdjusted(m, mid, k, s);
      Part(k, was, m, s);
      SharedThenSame(m, queues, mid, between, store.slab, store.contents, Some(k));
      HeadersMoved(m, store.slab, k, eos, bad, r.Some?);
    }

    // ----- resets and handles

    /** Takes the oldest off the queue of those remembered. It is no longer counted as reset, unless it still has
        frames to send: then it stays counted for ever. */
    method Expire()
      requires Valid()
      modifies this`counts, store
      ensures Valid()
      ensures forall q :: q != NextResetExpire ==> store.Queue(q) == old(store.Queue(q))
      ensures counts == old(counts).(send := counts.send, recv := counts.recv, reset := counts.reset)
      ensures if old(store.Queue(NextResetExpire)) == [] then
          store.slab == old(store.slab) && store.Queue(NextResetExpire) == [] && counts == old(counts)
        else
          var k := old(store.Queue(NextResetExpire))[0];
          && store.Queue(NextResetExpire) == old(store.Queue(NextResetExpire))[1..]
          && k in old(store.slab)
          && store.slab == Transitioned(old(store.slab), k, old(store.slab)[k].refs == 0 && Unqueued(k))
          && counts.reset == old(counts).reset - (if old(store.slab)[k].IsClosed() then 1 else 0)
      ensures LosesNone() && SameLostHere(None)
    {
      hide Living, Scheduler.Valid, Store.Valid, Fit, DataOf, Stream.IsClosed, Stream.Bounded, NoneGetsLost, Lost,
        SameLost;
      ghost var m, queues := store.slab, store.contents;
      NothingLost(m, queues);
      var expired := PopExpired();
      ghost var mid := store.contents;
      if expired.None? {
        OthersSame(NextResetExpire);
        PushedLosesNone(m, queues, m, queues, mid, NextResetExpire);
        ListsSame(m, queues, mid);
      } else {
        OthersSame(NextResetExpire);
        OthersStayHere(expired.value);
        OneParted(m, queues, m, mid, expired.value);
        TransitionAfter(expired.value, true);
        NoneLostAgain(m, queues, m, mid, store.slab, mid, Some(expired.value));
        PoppedSameLost(m, queues, mid, store.slab, expired.value, NextResetExpire);
      }
    }

    /** Remembers a locally reset stream for a while, unless it is already. Only so many are remembered: the oldest
        makes room, and if that one has frames left to send there is no room all the same. */
    method EnqueueResetExpiration(k: Key)
      requires Valid() && k in store.slab
      modifies this`counts, store
      ensures Valid() && k in store.slab && store.slab[k] == old(store.slab)[k]
      ensures Remembered(k, old(store.slab), store.slab, old(store.Queue(NextResetExpire)),
                         store.Queue(NextResetExpire), old(counts), counts,
                         OldestUnreferenced(old(store.slab), old(store.Queue(NextResetExpire))))
      ensures forall q :: q != NextResetExpire ==> store.Queue(q) == old(store.Queue(q))
      ensures LosesNone() && SameLostHere(Some(k))
    {
      hide Living, Scheduler.Valid, Store.Valid, Fit, DataOf, Stream.IsClosed, Stream.Bounded, NoneGetsLost, Lost,
        SameLost;
      NothingLost(store.slab, store.contents);
      NothingMoved(store.slab, store.contents, k);
      var was := PendingReset(k);
      if !store.slab[k].state.IsLocalReset() || was {
        return;
      }
      ResetBoundHere();
      ghost var m, queues := store.slab, store.contents;
      if counts.reset >= counts.maxReset {
        Expire();
      }
      OthersSame(NextResetExpire);
      if counts.reset < counts.maxReset {
        ghost var kept, mid := store.slab, store.contents;
        PushExpiring(k);
        OthersSame(NextResetExpire);
        PushedLosesNone(m, queues, kept, mid, store.contents, NextResetExpire);
        QueuedSameLost(kept, mid, store.contents, k);
        SameLostAgain(m, queues, kept, mid, kept, store.contents, Some(k));
      } else {
        SameLostBut(m, queues, store.slab, store.contents, k);
      }
    }

    lemma NothingMoved(m: map<Key, Stream>, queues: map<QueueName, seq<Key>>, k: Key)
      ensures SameLost(m, queues, m, queues, None) && SameLost(m, queues, m, queues, Some(k))
    {
    }

    lemma ListsSame(m: map<Key, Stream>, queues: map<QueueName, seq<Key>>, queues': map<QueueName, seq<Key>>)
      requires forall q :: ListOf(queues', q) == ListOf(queues, q)
      ensures SameLost(m, queues, m, queues', None)
    {
      hide Lost;
      forall j: Key ensures Lost(m, queues', j) <==> Lost(m, queues, j) {
        SameQueues(m, queues, queues', j);
      }
    }

    lemma NothingLost(m: map<Key, Stream>, queues: map<QueueName, seq<Key>>)
      ensures NoneGetsLost(m, queues, m, queues, None)
    {
    }

    /** Whether nothing refers to the first of `expiring`, once it is no longer remembered. */
    ghost predicate OldestUnreferenced(m: map<Key, Stream>, expiring: seq<Key>)
      reads store`contents
    {
      expiring != [] && expiring[0] in m && m[expiring[0]].refs == 0 && Unqueued(expiring[0])
    }

    lemma ResetBoundHere()
      requires Valid()
      ensures counts.reset <= counts.maxReset
    {
    }

    /** Takes the oldest stream off the queue of those remembered. */
    method PopExpired() returns (k: Option<Key>)
      requires Valid()
      modifies store`queued, store`next, store`indices, store`contents
      ensures Valid() && (k.None? <==> old(store.Queue(NextResetExpire)) == [])
      ensures k.None? ==> store.Queue(NextResetExpire) == []
      ensures k.Some? ==>
        k.value in store.slab && old(store.Queue(NextResetExpire)) == [k.value] + store.Queue(NextResetExpire)
      ensures k.Some? ==> counts.reset > |store.Queue(NextResetExpire)| && k.value !in store.Queue(NextResetExpire)
      ensures forall q :: q != NextResetExpire ==> store.Queue(q) == old(store.Queue(q))
    {
      hide Living, Store.Valid, Fit, DataOf, AllBooked, HeldOk;
      ResetBound();
      ghost var expiring := store.Queue(NextResetExpire);
      k := store.Pop(NextResetExpire);
      if k.Some? {
        store.IsMember(NextResetExpire, k.value);
      }
      LivingQueues(store.slab, store.ids, store.Queue(NextOpen), expiring, isServer, counts, store.Queue(NextOpen),
                   store.Queue(NextResetExpire), counts.reset);
      assert counts.(reset := counts.reset) == counts;
    }

    method PushExpiring(k: Key)
      requires Valid() && k in store.slab && counts.reset < counts.maxReset
      modifies this`counts, store`queued, store`next, store`indices, store`contents
      ensures Valid() && counts == old(counts).(reset := old(counts).reset + 1)
      ensures k !in old(store.Queue(NextResetExpire)) ==>
        store.Queue(NextResetExpire) == old(store.Queue(NextResetExpire)) + [k]
      ensures forall q :: q != NextResetExpire ==> store.Queue(q) == old(store.Queue(q))
      ensures forall j :: j != k ==> (Unqueued(j) <==> old(Unqueued(j)))
    {
      hide Living, Store.Valid, Fit, DataOf, AllBooked, HeldOk;
      ResetBound();
      ghost var expiring := store.Queue(NextResetExpire);
      counts := counts.(reset := counts.reset + 1);
      var _ := store.Push(NextResetExpire, k);
      LivingQueues(store.slab, store.ids, store.Queue(NextOpen), expiring, isServer, old(counts), store.Queue(NextOpen),
                   store.Queue(NextResetExpire), counts.reset);
      forall j | j != k ensures Unqueued(j) <==> old(Unqueued(j)) {
        StillQueued(j);
      }
    }

    /** A stream is in the same queues as before. */
    twostate lemma StillQueued(j: Key)
      requires forall q :: j in store.Queue(q) <==> j in old(store.Queue(q))
      ensures Unqueued(j) <==> old(Unqueued(j))
    {
    }

    /** The user resets a stream: what it had queued is given up for RST_STREAM, and it holds nothing any more. */
    method SendReset(k: Key)
      requires Valid() && k in store.slab
      modifies this`counts, store, prio`flow, prio`inFlight, prio`held, prio`books
      ensures Valid()
      ensures SamePages(old(prio.books), prio.books)
      ensures LeftBy(old(store.slab), store.slab, k, ResetOf(old(store.slab)[k]))
      ensures ResetQueued(old(store.slab), store.slab, k)
      ensures k in store.slab && !old(store.slab)[k].state.Closed? ==> prio.Returned(store.slab[k])
      ensures k !in store.slab <==>
        ResetOf(old(store.slab)[k]).IsClosed() && ResetOf(old(store.slab)[k]).refs == 0 && Unqueued(k)
      ensures Remembers(k, ResetOf(old(store.slab)[k]).state.IsLocalReset())
      ensures LosesExactly(k)
      ensures LosesResetting(k)
    {
      hide Living, Scheduler.Valid, Store.Valid, Fit, DataOf, Adjusted, Stream.Bounded, Entered, LeftBy, Remembered,
        NoneGetsLost, Lost, SharedOnly, LosesAs, Served, Reset, Reclaimed, InTurn;
      WaitsOnce();
      ghost var m, queues, s := store.slab, store.contents, ResetOf(store.slab[k]);
      ghost var conn := prio.flow;
      var was := PendingReset(k);
      ResetStream(k);
      ghost var mid, between := store.slab, store.contents;
      LeftByAdjusted(m, mid, k, s);
      ghost var expiring := store.Queue(NextResetExpire);
      RememberAndPart(k, was, m, s);
      if expiring != [] && expiring[0] != k {
        ClosedAlike(m, mid, k, s, expiring[0]);
      }
      ResetIsQueued(m, store.slab, k);
      SharedThenSame(m, queues, mid, between, store.slab, store.contents, Some(k));
      if prio.exact {
        LostBeside(m, queues, store.slab, store.contents, k, Reset(m[k]), mid, conn.available + Reclaimed(m[k]),
                   prio.flow.available);
      }
    }

    /** Stream `k` is remembered as reset from now on if there is room for it, unless it is already. If there is none
        the oldest is forgotten, which makes room unless it still has frames to send. */
    twostate predicate Remembers(k: Key, local: bool)
      reads store
    {
      var expiring := old(store.Queue(NextResetExpire));
      store.Queue(NextResetExpire) ==
        if !local || k in expiring then expiring
        else if old(counts).reset < old(counts).maxReset then expiring + [k]
        else if expiring == [] then []
        else if expiring[0] in old(store.slab) && old(store.slab)[expiring[0]].IsClosed() then expiring[1..] + [k]
        else expiring[1..]
    }

    /** Remembers a reset stream, and lets it go if nothing refers to it. */
    method RememberAndPart(k: Key, was: bool, ghost m: map<Key, Stream>, ghost s: Stream)
      requires Valid() && k in store.slab && LeftBy(m, store.slab, k, s) && was == (k in store.Queue(NextResetExpire))
      modifies this`counts, store
      ensures Valid() && LeftBy(m, store.slab, k, s)
      ensures k in store.slab ==> store.slab[k].flow == old(store.slab)[k].flow
      ensures k !in store.slab <==> s.IsClosed() && s.refs == 0 && Unqueued(k)
      ensures Remembers(k, s.state.IsLocalReset())
      ensures forall q :: q != NextResetExpire ==> store.Queue(q) == old(store.Queue(q))
      ensures LosesNone() && !Lost(store.slab, store.contents, k) && SameLostHere(Some(k))
    {
      hide Living, Scheduler.Valid, Store.Valid, Fit, DataOf, Adjusted, Stream.Bounded, LeftBy, Stream.IsClosed,
        NoneGetsLost, Lost, SameLost;
      ghost var m1, queues, expiring := store.slab, store.contents, store.Queue(NextResetExpire);
      LeftAt(m, m1, k, s);
      EnqueueResetExpiration(k);
      if store.slab != m1 {
        LeftByTransition(m, m1, k, s, expiring[0], m1[expiring[0]].refs == 0 && Unqueued(expiring[0]));
      }
      ghost var mid, between := store.slab, store.contents;
      Part(k, was, m, s);
      NoneLostAgain(m1, queues, mid, between, store.slab, store.contents, None);
      SameLostAgain(m1, queues, mid, between, store.slab, store.contents, Some(k));
    }

    /** A stream is let go if nothing refers to it. */
    method Part(k: Key, was: bool, ghost m: map<Key, Stream>, ghost s: Stream)
      requires Valid() && k in store.slab && LeftBy(m, store.slab, k, s)
      requires was && k !in store.Queue(NextResetExpire) ==> counts.reset > |store.Queue(NextResetExpire)|
      modifies this`counts, store`slab, store`ids
      ensures Valid() && LeftBy(m, store.slab, k, s)
      ensures k in store.slab ==> store.slab[k].flow == old(store.slab)[k].flow
      ensures k !in store.slab <==> s.IsClosed() && s.refs == 0 && Unqueued(k)
      ensures LosesNone() && !Lost(store.slab, store.contents, k) && SameLostHere(Some(k))
    {
      hide Living, Scheduler.Valid, Store.Valid, Fit, DataOf, Adjusted, Stream.Bounded, LeftBy, Stream.IsClosed,
        NoneGetsLost, Lost, SameLost;
      ghost var m2 := store.slab;
      LeftAt(m, m2, k, s);
      TransitionAfter(k, was);
      LeftByTransition(m, m2, k, s, k, m2[k].refs == 0 && Unqueued(k));
    }

    lemma LeftAt(m: map<Key, Stream>, m': map<Key, Stream>, k: Key, s: Stream)
      requires LeftBy(m, m', k, s) && k in m'
      ensures (m'[k].IsClosed() <==> s.IsClosed()) && m'[k].refs == s.refs && m'[k].state == s.state
    {
    }

    method ResetStream(k: Key)
      requires Valid() && k in store.slab
      modifies store`slab, store`queued, store`next, store`indices, store`contents, prio`flow, prio`inFlight, prio`held,
        prio`books
      ensures Valid() && k in store.slab && store.slab[k].state.IsReset()
      ensures SamePages(old(prio.books), prio.books)
      ensures Adjusted(old(store.slab), store.slab, k, ResetOf(old(store.slab)[k]))
      ensures !old(store.slab)[k].state.Closed? ==> prio.Returned(store.slab[k])
      ensures store.Queue(NextResetExpire) == old(store.Queue(NextResetExpire))
      ensures SharedOnlyHere(Some(k)) && prio.SharedByReset(k)
    {
      hide Living, Scheduler.Valid, Store.Valid, Fit, DataOf, Adjusted, Stream.Bounded, Entered, LifeKept,
        Stream.IsClosed, NewTakePart, SharedOnly, Served;
      ghost var m, queues := store.slab, store.contents;
      prio.SendReset(k);
      ResetLife(m, store.slab, k);
      SharedBy(m, queues, k, ResetOf(m[k]));
      AliveStill(m, store.ids, store.Queue(NextOpen), store.Queue(NextResetExpire));
    }

    lemma ResetLife(m: map<Key, Stream>, m': map<Key, Stream>, k: Key)
      requires k in m
      requires var s := m[k];
        if s.state.IsReset() then m' == m
        else if s.state.Closed? && s.frames == [] then m' == m[k := s.(state := Closed(LocallyReset))]
        else Adjusted(m, m', k, Ended(s, Closed(LocallyReset), [ResetFrame]))
      ensures Adjusted(m, m', k, ResetOf(m[k])) && LifeKept(m, m') && k in m' && m'[k].state.IsReset()
    {
    }

    /** A handle is dropped. With the last one, a stream still open is reset once its data is sent, and a stream
        already closed is freed if no queue holds it. */
    method DropRef(k: Key)
      requires Valid() && k in store.slab && store.slab[k].refs > 0
      modifies this`counts, store, prio`flow, prio`exact
      ensures prio.exact == (old(prio.exact) && !Upsets(old(store.slab)[k]))
      ensures Valid()
      ensures LeftBy(old(store.slab), store.slab, k, WithoutHandle(old(store.slab)[k]))
      ensures k !in store.slab <==>
        WithoutHandle(old(store.slab)[k]).IsClosed() && old(store.slab)[k].refs == 1 && Unqueued(k)
      ensures old(store.slab)[k].refs == 1 && !old(store.slab)[k].state.Closed? ==>
        && k in store.slab && store.slab[k].state == Closed(Scheduled)
        && store.slab[k].frames == old(store.slab)[k].frames
        && (k in store.Queue(NextSend) || k in store.Queue(NextOpen))
      ensures LosesExactly(k)
    {
      hide Living, Scheduler.Valid, Store.Valid, Fit, DataOf, Adjusted, Stream.Bounded, LeftBy, Stream.IsClosed,
        Remembered, NoneGetsLost, Lost, SharedOnly, SameLost, LosesAs;
      ghost var m, queues, s := store.slab, store.contents, WithoutHandle(store.slab[k]);
      var was := PendingReset(k);
      SetRefs(k, store.slab[k].refs - 1);
      AdjustedSet(m, k, store.slab[k]);
      if store.slab[k].refs == 0 && !store.slab[k].state.Closed? {
        ghost var m1 := store.slab;
        Cancel(k);
        ghost var mid, between := store.slab, store.contents;
        AdjustedTransitive(m, m1, mid, k, m1[k], s);
        LeftByAdjusted(m, mid, k, s);
        RememberAndPart(k, was, m, s);
        StillThere(m, k, s);
        SharedThenSame(m1, queues, mid, between, store.slab, store.contents, Some(k));
        SameThenLoses(m, queues, m1, store.slab, store.contents, k);
      } else {
        ghost var mid := store.slab;
        LeftByAdjusted(m, mid, k, s);
        Part(k, was, m, s);
        OneShared(m, queues, mid, k);
        SharedThenSame(m, queues, mid, queues, store.slab, store.contents, Some(k));
      }
    }

    lemma StillThere(m: map<Key, Stream>, k: Key, s: Stream)
      requires LeftBy(m, store.slab, k, s) && (k !in store.slab ==> Unqueued(k))
      requires k in store.Queue(NextSend) || k in store.Queue(NextOpen)
      ensures k in store.slab && store.slab[k].state == s.state && store.slab[k].frames == s.frames
    {
    }

    lemma OneShared(m: map<Key, Stream>, queues: map<QueueName, seq<Key>>, m': map<Key, Stream>, k: Key)
      requires k in m' && m' == m[k := m'[k]]
      ensures SharedOnly(m, queues, m', queues, Some(k))
    {
    }

    /** Dropping a handle upsets the sharing of capacity: it is the last, and the stream is open and not
        `Reclaimable`. */
    predicate Upsets(s: Stream) {
      s.refs == 1 && !s.state.Closed? && !Reclaimable(s)
    }

    /** A stream with one handle fewer; without any it is reset unless it has closed. */
    function WithoutHandle(s: Stream): Stream
      requires s.refs > 0
    {
      var left := s.(refs := s.refs - 1);
      if left.refs == 0 && !left.state.Closed? then ImplicitlyReset(left) else left
    }

    method Cancel(k: Key)
      requires Valid() && k in store.slab && !store.slab[k].state.Closed?
      modifies store, prio`flow, prio`exact
      ensures prio.exact == (old(prio.exact) && Reclaimable(old(store.slab)[k]))
      ensures Valid() && Adjusted(old(store.slab), store.slab, k, ImplicitlyReset(old(store.slab)[k]))
      ensures store.Queue(NextResetExpire) == old(store.Queue(NextResetExpire))
      ensures k in store.slab && store.slab[k].state.IsReset() && store.slab[k].refs == old(store.slab)[k].refs
      ensures k in store.Queue(NextSend) || k in store.Queue(NextOpen)
      ensures SharedOnlyHere(Some(k))
    {
      hide Living, Scheduler.Valid, Store.Valid, Fit, DataOf, Adjusted, Stream.Bounded, NewTakePart, SharedOnly;
      ghost var m, queues := store.slab, store.contents;
      prio.ScheduleImplicitReset(k);
      AdjustedAt(m, store.slab, k, ImplicitlyReset(m[k]));
      AdjustedLife(m, store.slab, k, ImplicitlyReset(m[k]));
      SharedBy(m, queues, k, ImplicitlyReset(m[k]));
      AliveStill(m, store.ids, store.Queue(NextOpen), store.Queue(NextResetExpire));
    }

    // ----- windows and settings

    /** WINDOW_UPDATE for a stream. A window too large resets the stream. */
    method RecvStreamWindowUpdate(k: Key, inc: nat) returns (ok: bool)
      requires Valid() && k in store.slab
      modifies store`slab, store`queued, store`next, store`indices, store`contents, prio`flow, prio`inFlight, prio`held,
        prio`books
      ensures Valid() && k in store.slab
      ensures SamePages(old(prio.books), prio.books)
      ensures var s := old(store.slab)[k];
        && ok == ((s.state.IsSendClosed() && s.buffered == 0) || s.flow.window + inc <= MAX_WINDOW_SIZE)
        && (ok && !(s.state.IsSendClosed() && s.buffered == 0) ==>
            Adjusted(old(store.slab), store.slab, k, Widened(s, inc)))
        && (ok && s.state.IsSendClosed() && s.buffered == 0 ==> store.slab == old(store.slab))
        && (!ok ==> Adjusted(old(store.slab), store.slab, k, ResetOf(s)) && store.slab[k].state.IsReset())
      ensures SharedOnlyHere(None) && LosesServed()
    {
      hide Living, Scheduler.Valid, Store.Valid, Fit, DataOf, Adjusted, Stream.Bounded, SameLife, LifeKept,
        Stream.IsClosed, SharedOnly, NewTakePart, LosesAs, Dead;
      ghost var m, queues, s := store.slab, store.contents, store.slab[k];
      ok := prio.RecvStreamWindowUpdate(k, inc);
      ghost var mid, between := store.slab, store.contents;
      WidenedLife(m, mid, k, inc, ok);
      SharedAll(m, queues, k, mid[k]);
      AliveStill(m, store.ids, store.Queue(NextOpen), store.Queue(NextResetExpire));
      if !ok {
        ResetStream(k);
        ResetNotDead(m, store.slab, k);
        SharedOfNotDead(mid, between, store.slab, store.contents, k);
        SharedOnlyAgain(m, queues, mid, between, store.slab, store.contents, None);
      }
      SharedOnlyLoses(m, queues, store.slab, store.contents, None);
    }

    lemma WidenedLife(m: map<Key, Stream>, m': map<Key, Stream>, k: Key, inc: nat, ok: bool)
      requires k in m && (if DoneSending(m[k]) || !ok then m' == m else Adjusted(m, m', k, Widened(m[k], inc)))
      ensures LifeKept(m, m') && k in m' && Adjusted(m, m', k, m'[k])
      ensures m'[k].IsClosed() && m'[k].refs == 0 <==> Dead(m, k)
      ensures !DoneSending(m[k]) ==> !Dead(m', k)
    {
    }

    lemma ResetNotDead(m: map<Key, Stream>, m': map<Key, Stream>, k: Key)
      requires k in m && Adjusted(m, m', k, ResetOf(m[k])) && !DoneSending(m[k])
      ensures !Dead(m', k)
    {
    }

    /** WINDOW_UPDATE for the connection: what it admits is shared out at once. Exactly those streams get lost that
        had closed, that nothing but the queue for capacity referred to, and that had their turn in it. */
    method RecvConnectionWindowUpdate(inc: nat) returns (ok: bool)
      requires Valid()
      modifies store, prio`flow
      ensures Valid() && ok == (old(prio.flow).window + inc <= MAX_WINDOW_SIZE)
      ensures prio.flow.window == (if ok then old(prio.flow).window + inc else old(prio.flow).window)
      ensures Grants(old(store.slab), store.slab)
      ensures prio.exact && ok ==> prio.SharedOut(old(store.slab), old(prio.flow).available + inc)
      ensures !ok ==> store.slab == old(store.slab) && prio.flow == old(prio.flow)
      ensures LosesServed()
      ensures prio.exact && ok ==> LosesInTurn(old(store.slab), old(prio.flow).available + inc, None)
    {
      hide Living, Scheduler.Valid, Store.Valid, Fit, DataOf, Grants, Served, SameLife, Lost, LosesAs,
        SharedOnly, NewTakePart, NobodyNew;
      ghost var m, queues, conn := store.slab, store.contents, prio.flow;
      WaitsOnce();
      ok := prio.RecvConnectionWindowUpdate(inc);
      GrantedLife(m, store.slab);
      AliveStill(m, store.ids, store.Queue(NextOpen), store.Queue(NextResetExpire));
      NobodyNewTakePart(store.slab, ListOf(queues, NextSendCapacity), store.Queue(NextSendCapacity),
                        ListOf(queues, NextSend), store.Queue(NextSend), None);
      GrantedDead(m, store.slab);
      SharedAmong(m, queues);
      if prio.exact && ok {
        DeadLacksNothing(m);
        LostInTurn(m, queues, store.slab, store.contents, m, store.slab, conn.available + inc,
                   prio.flow.available, None);
      }
    }

    lemma WaitsOnce()
      requires Valid()
      ensures NoDup(ListOf(store.contents, NextSendCapacity))
    {
      hide Fit;
      assert Chain(NextSendCapacity, ListOf(store.contents, NextSendCapacity), EndsOf(store.indices, NextSendCapacity),
                   store.queued, store.next);
    }

    /** SETTINGS_INITIAL_WINDOW_SIZE: the windows of all streams move by the difference, be it below zero. */
    method ApplyInitialWindow(val: nat) returns (r: Option<RecvError>)
      requires Valid() && val <= MAX_WINDOW_SIZE
      modifies this`initWindow, store, prio`flow, prio`inFlight, prio`held, prio`books
      ensures Valid() && initWindow == val
      ensures SamePages(old(prio.books), prio.books)
      ensures val <= old(initWindow) ==> r.None? && prio.flow.window == old(prio.flow).window
      ensures val < old(initWindow) ==>
        exists mid :: AllShrunk(old(store.slab), mid, old(store.ids), old(initWindow) - val) && Grants(mid, store.slab)
      ensures val == old(initWindow) ==> store.slab == old(store.slab)
      ensures val > old(initWindow) ==>
        var inc: nat := val - old(initWindow);
        && (r.None? <==> forall k :: k in store.ids && k in old(store.slab) ==> !TooWide(old(store.slab)[k], inc))
        && (r.None? ==> AllWidened(old(store.slab), store.slab, store.ids, inc))
        && (r.Some? ==> exists k :: ResetFor(old(store.slab), store.slab, k, inc))
      ensures LosesServed()
    {
      hide Living, Scheduler.Valid, Store.Valid, Fit, DataOf, Grants, AllShrunk, Stream.Bounded, Adjusted, AllWidened,
        TooWide, NoneGetsLost, LosesAs, ResetFor;
      NothingShared(store.slab, store.contents);
      NothingLost(store.slab, store.contents);
      var was := initWindow;
      initWindow := val;
      if val < was {
        ShrinkWindows(was - val);
      } else if val > was {
        r := WidenWindows(val - was);
        return;
      }
      return None;
    }

    method ShrinkWindows(dec: nat)
      requires Valid()
      modifies store, prio`flow
      ensures Valid() && prio.flow.window == old(prio.flow).window
      ensures exists mid :: AllShrunk(old(store.slab), mid, old(store.ids), dec) && Grants(mid, store.slab)
      ensures LosesServed()
    {
      hide Living, Scheduler.Valid, Store.Valid, Fit, DataOf, Grants, AllShrunk, Stream.Bounded, SameLife, StaysQueued,
        NobodyNew, NewTakePart, SharedOnly, LosesAs;
      ghost var m, queues := store.slab, store.contents;
      prio.ShrinkWindows(dec);
      ghost var mid :| AllShrunk(m, mid, store.ids, dec) && Grants(mid, store.slab);
      ShrunkLife(m, mid, store.slab, store.ids, dec);
      NobodyNewTakePart(store.slab, ListOf(queues, NextSendCapacity), store.Queue(NextSendCapacity),
                        ListOf(queues, NextSend), store.Queue(NextSend), None);
      ShrunkDead(m, mid, store.slab, store.ids, dec);
      SharedAmong(m, queues);
      AliveStill(m, store.ids, store.Queue(NextOpen), store.Queue(NextResetExpire));
    }

    /** Widens the windows one after another; stops where one would become too large, and resets that stream. */
    method WidenWindows(inc: nat) returns (r: Option<RecvError>)
      requires Valid()
      modifies store`slab, store`queued, store`next, store`indices, store`contents, prio`flow, prio`inFlight, prio`held,
        prio`books
      ensures Valid() && store.ids == old(store.ids)
      ensures SamePages(old(prio.books), prio.books)
      ensures r.None? ==> AllWidened(old(store.slab), store.slab, store.ids, inc)
      ensures r.None? <==> forall k :: k in store.ids && k in old(store.slab) ==> !TooWide(old(store.slab)[k], inc)
      ensures r.Some? ==> exists k :: ResetFor(old(store.slab), store.slab, k, inc)
      ensures LosesServed()
    {
      hide Living, Scheduler.Valid, Store.Valid, Fit, DataOf, Adjusted, Stream.Bounded, AllWidened, TooWide,
        DoneSending, SameLife, StaysQueued, SharedOnly, LosesAs;
      ghost var m, queues, ids := store.slab, store.contents, store.ids;
      NothingShared(m, queues);
      NoneWidened(m, inc);
      SchedulerStore();
      prio.StoreIds();
      var i := 0;
      while i < |store.ids|
        invariant Valid() && i <= |store.ids| && SamePages(old(prio.books), prio.books) && store.ids == ids
        invariant AllWidened(m, store.slab, ids[..i], inc)
        invariant forall j :: 0 <= j < i ==> !TooWide(m[ids[j]], inc)
        invariant SharedOnly(m, queues, store.slab, store.contents, None)
      {
        ghost var mid, between := store.slab, store.contents;
        var k := store.ids[i];
        OneMoreWidened(m, mid, mid, ids, i, inc);
        WideIs(mid[k], inc);
        var ok := RecvStreamWindowUpdate(k, inc);
        OneMoreWidened(m, mid, store.slab, ids, i, inc);
        SharedOnlyAgain(m, queues, mid, between, store.slab, store.contents, None);
        if !ok {
          SharedOnlyLoses(m, queues, store.slab, store.contents, None);
          WidenedThenReset(m, mid, store.slab, ids[..i], k, inc);
          return Some(FlowControlError);
        }
        i := i + 1;
      }
      assert ids[..i] == ids;
      SharedOnlyLoses(m, queues, store.slab, store.contents, None);
      return None;
    }

    /** Stream `k`, whose window would have become too wide, was reset, and no other stream moved on. */
    ghost predicate ResetFor(m: map<Key, Stream>, m': map<Key, Stream>, k: Key, inc: nat) {
      k in m && TooWide(m[k], inc) && k in m' && m'[k].state.IsReset() && Becomes(m, m', k, m'[k].state)
    }

    lemma WidenedThenReset(m: map<Key, Stream>, mid: map<Key, Stream>, m': map<Key, Stream>, ids: seq<Key>, k: Key,
                           inc: nat)
      requires AllWidened(m, mid, ids, inc) && k in m && TooWide(m[k], inc)
      requires Adjusted(mid, m', k, ResetOf(mid[k])) && m'[k].state.IsReset()
      ensures ResetFor(m, m', k, inc)
    {
    }

    lemma WideIs(s: Stream, inc: nat)
      ensures DoneSending(s) <==> s.state.IsSendClosed() && s.buffered == 0
      ensures TooWide(s, inc) <==> !DoneSending(s) && s.flow.window + inc > MAX_WINDOW_SIZE
    {
    }

    /** SETTINGS_MAX_CONCURRENT_STREAMS. */
    method ApplyMaxStreams(max: nat)
      requires Valid()
      modifies this`counts
      ensures Valid() && counts == old(counts).(maxSend := max)
      ensures LosesNone()
    {
      hide Scheduler.Valid, NoneGetsLost;
      NothingLost(store.slab, store.contents);
      counts := counts.(maxSend := max);
    }

    // ----- writing frames

    /** Streams that wait are opened in turn, as far as the limit of the peer admits. */
    method SchedulePendingOpen()
      requires Valid()
      modifies this`counts, store
      ensures Valid() && store.ids == old(store.ids)
      ensures counts.send < counts.maxSend ==> store.Queue(NextOpen) == []
      ensures counts == old(counts).(send := counts.send)
        && (counts.send > old(counts).send ==> counts.send <= counts.maxSend)
      ensures 0 <= counts.send - old(counts).send
      ensures OpenedInTurn(old(store.slab), store.slab, old(store.Queue(NextOpen)), store.Queue(NextOpen),
                           counts.send - old(counts).send)
      ensures LosesNone() && Queued(store.slab) == Queued(old(store.slab))
    {
      hide Living, Scheduler.Valid, Store.Valid, Fit, DataOf, Stream.Bounded, OpenedInTurn, NoneGetsLost, Queued;
      ghost var m, queues, opening, n: nat := store.slab, store.contents, store.Queue(NextOpen), 0;
      NoneOpened(m, opening);
      NothingLost(m, queues);
      while counts.send < counts.maxSend
        invariant Valid() && store.ids == old(store.ids)
        invariant counts == old(counts).(send := old(counts).send + n) && (n > 0 ==> counts.send <= counts.maxSend)
        invariant OpenedInTurn(m, store.slab, opening, store.Queue(NextOpen), n)
        invariant NoneGetsLost(m, queues, store.slab, store.contents, None) && Queued(store.slab) == Queued(m)
        decreases |store.Queue(NextOpen)|
        modifies this`counts, store
      {
        ghost var mid, between, mine := store.slab, store.contents, store.Queue(NextOpen);
        var k := OpenNext();
        NoneLostAgain(m, queues, mid, between, store.slab, store.contents, None);
        if k.None? {
          return;
        }
        CountedLosesNone(mid, store.contents, k.value, true);
        CountStream(k.value);
        NoneLostAgain(m, queues, mid, store.contents, store.slab, store.contents, None);
        QueuedSame(mid, store.slab);
        OneMoreOpened(m, mid, store.slab, opening, mine, store.Queue(NextOpen), n, k.value);
        n := n + 1;
      }
    }

    method OpenNext() returns (k: Option<Key>)
      requires Valid()
      modifies store`queued, store`next, store`indices, store`contents
      ensures Valid() && (k.None? <==> old(store.Queue(NextOpen)) == [])
      ensures k.None? ==> store.Queue(NextOpen) == []
      ensures k.Some? ==>
        && k.value in store.slab && old(store.Queue(NextOpen)) == [k.value] + store.Queue(NextOpen)
        && k.value in store.Queue(NextSend)
        && !store.slab[k.value].isCounted && k.value !in store.Queue(NextOpen) && Local(isServer, k.value)
      ensures LosesNone()
    {
      hide Living, Scheduler.Valid, Fit, DataOf, Stream.Bounded, Store.Valid, NoneGetsLost, Lost, OthersStay, SameLife,
        StaysQueued;
      ghost var m, queues, opening := store.slab, store.contents, store.Queue(NextOpen);
      k := prio.OpenNext();
      if k.Some? {
        assert k.value in opening;
        NotCountedYet(store.slab, opening, k.value);
        HeadOnce(k.value);
        OthersStayHere(k.value);
        QueuedIsNotLost(k.value, NextSend);
      } else {
        QueuesGrewOnly();
      }
      MovedLosesNone(m, queues, store.contents, k);
      LivingQueues(store.slab, store.ids, opening, store.Queue(NextResetExpire), isServer, counts,
                   store.Queue(NextOpen), store.Queue(NextResetExpire), counts.reset) by { ResetBoundOf(opening); }
      assert counts.(reset := counts.reset) == counts;
    }

    lemma QueuedIsNotLost(k: Key, q: QueueName)
      requires k in store.Queue(q)
      ensures !Lost(store.slab, store.contents, k)
    {
      assert InQueue(store.contents, q, k);
    }

    lemma MovedLosesNone(m: map<Key, Stream>, queues: map<QueueName, seq<Key>>, queues': map<QueueName, seq<Key>>,
                         k: Option<Key>)
      requires match k case Some(j) => OthersStay(queues, queues', j) && !Lost(m, queues', j)
        case None => StaysQueued(queues, queues')
      ensures NoneGetsLost(m, queues, m, queues', None)
    {
      match k
      case Some(j) => OneParted(m, queues, m, queues', j);
      case None => NoneLostBy(m, queues, m, queues', None);
    }

    lemma NotCountedYet(m: map<Key, Stream>, opening: seq<Key>, k: Key)
      requires Living(m, store.ids, opening, store.Queue(NextResetExpire), isServer, counts) && k in m && k in opening
      ensures !m[k].isCounted && Local(isServer, k)
    {
    }

    lemma ResetBoundOf(opening: seq<Key>)
      requires Living(store.slab, store.ids, opening, store.Queue(NextResetExpire), isServer, counts)
      ensures |store.Queue(NextResetExpire)| <= counts.reset <= counts.maxReset
    {
    }

    /** A stream scheduled for sending does not wait to be opened. */
    lemma HeadOnce(k: Key)
      requires prio.store == store && prio.Valid() && k in store.Queue(NextSend)
      ensures k !in store.Queue(NextOpen)
    {
      hide Store.Valid;
      FitParts(prio.exact, store.slab, prio.flow, store.Queue(NextSendCapacity), store.Queue(NextSend),
               store.Queue(NextOpen), None, InTheAir(prio.inFlight, prio.held), k);
    }

    /** What is left to write, of which some may be in flight. */
    ghost function Burden(): nat
      reads store`slab, prio`inFlight, prio`held
    {
      Queued(store.slab) + Aloft(prio.inFlight, prio.held)
    }

    /** Nothing was added to what is left to write, or while capacity is accounted for exactly, something was taken
        away. */
    twostate predicate Lightens(same: bool, less: bool)
      reads store`slab, prio
    {
      && (same ==> Burden() <= old(Burden()))
      && (less && prio.exact ==> Burden() < old(Burden()))
    }

    /** The next frame to write. There is none only if no stream that is open can send anything. */
    method PopFrame(maxLen: nat) returns (r: Sending)
      requires Valid() && prio.held == None && maxLen > 0
      modifies this`counts, store, prio`flow, prio`inFlight, prio`held, prio`books
      ensures r.Panic? || (Valid() && prio.flow.available == old(prio.flow).available)
      ensures r.NothingToSend? && prio.exact ==> forall k :: k in store.slab && store.slab[k].Ready() ==>
        k in store.Queue(NextOpen)
      ensures if r.Wrote? && r.frame.Slice? then Entered(old(prio.books), prio.books, r.frame)
        else prio.books == old(prio.books)
      ensures r.Panic? ==> Fails(r.stream, maxLen, r.conn) && (prio.exact ==> EmptyOnNegative(r.stream))
      ensures r.Wrote? ==>
        r.frame.stream in old(store.slab) && ComesFrom(r.frame, old(store.slab)[r.frame.stream], maxLen)
      ensures r.Wrote? ==> GoesOn(r.frame.stream)
      ensures r.Wrote? && r.frame.Slice? ==> prio.flow.window == old(prio.flow).window - |r.frame.bytes| >= 0
      ensures !(r.Wrote? && r.frame.Slice?) ==> prio.held == None
      ensures store.Queue(NextOpen) == old(store.Queue(NextOpen)) && counts.maxSend == old(counts).maxSend
      ensures !r.Panic? ==> LosesNone() && AllKept(old(store.slab), store.slab)
      ensures Lightens(r.NothingToSend?, r.Wrote?)
    {
      hide Living, Scheduler.Valid, Store.Valid, Entered, NoneGetsLost, Fails, EmptyOnNegative, Burden, AllKept,
        ComesFrom, GoesOn;
      ghost var m0, queues0 := store.slab, store.contents;
      NothingLost(m0, queues0);
      NothingMoves(m0);
      while true
        invariant Valid() && prio.held == None && prio.books == old(prio.books) && prio.flow == old(prio.flow)
        invariant store.Queue(NextOpen) == old(store.Queue(NextOpen)) && counts.maxSend == old(counts).maxSend
        invariant Burden() <= old(Burden())
        invariant SameFlows(old(store.slab), store.slab)
        invariant NoneGetsLost(m0, queues0, store.slab, store.contents, None) && AllKept(m0, store.slab)
        decreases |store.Queue(NextSend)|
      {
        ghost var m, queues := store.slab, store.contents;
        var popped := Turn(maxLen);
        if popped.Panics? {
          return Panic(store.slab[popped.key], prio.flow);
        }
        KeptAgain(m0, m, store.slab);
        NoneLostAgain(m0, queues0, m, queues, store.slab, store.contents, None);
        if popped.Empty? {
          return NothingToSend;
        } else if popped.Out? {
          SameSource(old(store.slab), m, popped.frame, maxLen);
          return Wrote(popped.frame);
        }
      }
    }

    /** One turn of writing: the first stream in the queue for sending has its turn, and is let go if it is done
        with. */
    method Turn(maxLen: nat) returns (r: Popped)
      requires Valid() && prio.held == None && maxLen > 0
      modifies this`counts, store, prio`flow, prio`inFlight, prio`held, prio`books
      ensures r.Panics? || Valid()
      ensures r.Empty? && prio.exact ==> forall k :: k in store.slab && store.slab[k].Ready() ==>
        k in store.Queue(NextOpen)
      ensures r.Panics? ==>
        && r.key in store.slab && Fails(store.slab[r.key], maxLen, prio.flow)
        && (prio.exact ==> EmptyOnNegative(store.slab[r.key]))
      ensures r.Out? ==>
        r.frame.stream in old(store.slab) && ComesFrom(r.frame, old(store.slab)[r.frame.stream], maxLen)
      ensures r.Out? ==> GoesOn(r.frame.stream)
      ensures r.Out? && r.frame.Slice? ==> prio.flow.window == old(prio.flow).window - |r.frame.bytes| >= 0
      ensures if r.Out? && r.frame.Slice? then Entered(old(prio.books), prio.books, r.frame)
        else prio.books == old(prio.books) && prio.held == None
      ensures prio.flow.available == old(prio.flow).available && (!r.Out? ==> prio.flow == old(prio.flow))
      ensures r.Blocked? || r.Dangling? ==>
        SameFlows(old(store.slab), store.slab) && |store.Queue(NextSend)| < |old(store.Queue(NextSend))|
      ensures store.Queue(NextOpen) == old(store.Queue(NextOpen)) && counts.maxSend == old(counts).maxSend
      ensures !r.Panics? ==> LosesNone() && AllKept(old(store.slab), store.slab)
      ensures Lightens(!r.Panics? && !r.Out?, r.Out?)
    {
      hide Living, Scheduler.Valid, Store.Valid, Fit, DataOf, Stream.Bounded, Entered, Stream.IsClosed, Dispatched,
        MoreToSend, NoneGetsLost, Lost, Fails, EmptyOnNegative, Balanced, AllBounded, Queued, Aloft, AllKept, ComesFrom;
      ghost var m, queues, conn, sending := store.slab, store.contents, prio.flow, store.Queue(NextSend);
      BoundedNow();
      r := PopOnce(maxLen);
      ghost var mid, between := store.slab, store.contents;
      PoppedKeeps(r, maxLen, m, mid, conn, prio.flow);
      PoppedGoesOn(r, maxLen, sending, m, conn);
      match r {
        case Empty =>
          if prio.exact {
            NoneReady();
          }
        case Panics(k) => FailsIs(r, maxLen, m, mid, conn, prio.flow);
        case Blocked(k) =>
          UnsentIs(r, maxLen, m, mid, conn, prio.flow);
          OpenIsNotLost(k);
          NoneLostAgain(m, queues, mid, between, mid, between, Some(k));
        case Dangling(k) =>
          UnsentIs(r, maxLen, m, mid, conn, prio.flow);
          PartNow(k);
          KeptAgain(m, mid, store.slab);
          NoneLostAgain(m, queues, mid, between, store.slab, store.contents, Some(k));
        case Out(f) =>
          SentIs(r, maxLen, m, mid, conn, prio.flow);
          PartNow(f.stream);
          StillGoesOn(mid, f.stream);
          KeptAgain(m, mid, store.slab);
          NoneLostAgain(m, queues, mid, between, store.slab, store.contents, Some(f.stream));
      }
    }

    lemma NothingMoves(m: map<Key, Stream>)
      ensures AllKept(m, m)
    {
    }

    /** Having its turn moves no stream on: a reset that was due is a reset when it is written. */
    lemma PoppedKeeps(r: Popped, maxLen: nat, m: map<Key, Stream>, m': map<Key, Stream>, conn: Flow, conn': Flow)
      requires if r.Empty? then m' == m else r.Key() in m && Dispatched(r, m[r.Key()], maxLen, m, m', conn, conn')
      ensures AllKept(m, m')
    {
    }

    lemma OpenedSource(m: map<Key, Stream>, m': map<Key, Stream>, opening: seq<Key>, opening': seq<Key>, n: nat,
                       out: Outgoing, maxLen: nat)
      requires OpenedInTurn(m, m', opening, opening', n) && out.stream in m' && ComesFrom(out, m'[out.stream], maxLen)
      ensures out.stream in m && ComesFrom(out, m[out.stream], maxLen)
    {
    }

    lemma OpenedKeeps(m: map<Key, Stream>, m': map<Key, Stream>, opening: seq<Key>, opening': seq<Key>, n: nat)
      requires OpenedInTurn(m, m', opening, opening', n)
      ensures AllKept(m, m')
    {
    }

    /** The transition of a stream that had its turn. */
    method PartNow(k: Key)
      requires Valid() && k in store.slab
      modifies this`counts, store`slab, store`ids
      ensures Valid() && SameFlows(old(store.slab), store.slab) && counts.maxSend == old(counts).maxSend
      ensures LosesNone() && !Lost(store.slab, store.contents, k) && AllKept(old(store.slab), store.slab)
      ensures Queued(store.slab) <= Queued(old(store.slab))
    {
      hide Living, Scheduler.Valid, Store.Valid, Stream.IsClosed, NoneGetsLost, Lost, Queued, AllKept;
      ghost var m := store.slab;
      var was := PendingReset(k);
      TransitionKeeps(m, k, m[k].refs == 0 && Unqueued(k));
      TransitionIsNoMore(m, k, m[k].refs == 0 && Unqueued(k));
      TransitionAfter(k, was);
    }

    lemma OpenIsNotLost(k: Key)
      requires k in store.slab && !store.slab[k].IsClosed()
      ensures !Lost(store.slab, store.contents, k)
        && NoneGetsLost(store.slab, store.contents, store.slab, store.contents, None)
    {
    }

    /** Nobody lost so far, and nobody by one more step of `k` and its transition. */
    lemma LosesNoneStill(m0: map<Key, Stream>, queues0: map<QueueName, seq<Key>>, m: map<Key, Stream>,
                         queues: map<QueueName, seq<Key>>, mid: map<Key, Stream>, between: map<QueueName, seq<Key>>,
                         m': map<Key, Stream>, queues': map<QueueName, seq<Key>>, k: Key)
      requires NoneGetsLost(m0, queues0, m, queues, None) && NoneGetsLost(m, queues, mid, between, Some(k))
      requires NoneGetsLost(mid, between, m', queues', None) && !Lost(m', queues', k)
      ensures NoneGetsLost(m0, queues0, m', queues', None)
    {
    }

    /** What goes out of a stream: its first frame, of a payload as much as the frame may hold and the stream may send,
        with END_STREAM if that is all of the last one; and when nothing is left, the reset that was due. */
    ghost predicate ComesFrom(out: Outgoing, s: Stream, maxLen: nat) {
      match out
      case Slice(_, bytes, eos) =>
        && s.frames != [] && s.frames[0].Data?
        && var payload := s.frames[0].payload;
        && bytes <= payload && |bytes| <= maxLen && |bytes| <= AsSize(s.flow.available)
        && (bytes == payload || |bytes| == maxLen || |bytes| == AsSize(s.flow.available))
        && (eos <==> s.frames[0].eos && bytes == payload)
      case Control(_, f) =>
        if s.frames != [] then f == s.frames[0] && !f.Data? else s.state == Closed(Scheduled) && f == ResetFrame
    }

    /** The same streams, or fewer, with the same windows and frames. */
    ghost predicate SameFlows(m: map<Key, Stream>, m': map<Key, Stream>) {
      forall k :: k in m' ==>
        k in m && m'[k].flow == m[k].flow && m'[k].frames == m[k].frames && m'[k].state == m[k].state
    }

    /** A stream with more to send, or a reset that is due, is in the queue for sending. */
    ghost predicate GoesOn(k: Key)
      reads store`slab, store`contents
    {
      k in store.slab && (store.slab[k].frames != [] || store.slab[k].state == Closed(Scheduled)) ==>
        k in store.Queue(NextSend)
    }

    lemma PoppedGoesOn(r: Popped, maxLen: nat, sending: seq<Key>, m: map<Key, Stream>, conn: Flow)
      requires PopDone(r, maxLen, sending, store.Queue(NextSend), m, store.slab, conn, prio.flow)
      ensures r.Out? ==> GoesOn(r.frame.stream)
    {
    }

    lemma StillGoesOn(m: map<Key, Stream>, k: Key)
      requires SameFlows(m, store.slab) && k in m
      requires (m[k].frames != [] || m[k].state == Closed(Scheduled)) ==> k in store.Queue(NextSend)
      ensures GoesOn(k)
    {
    }

    lemma SameSource(m: map<Key, Stream>, m': map<Key, Stream>, out: Outgoing, maxLen: nat)
      requires SameFlows(m, m') && out.stream in m' && ComesFrom(out, m'[out.stream], maxLen)
      ensures out.stream in m && ComesFrom(out, m[out.stream], maxLen)
    {
    }

    lemma FailsIs(r: Popped, maxLen: nat, m: map<Key, Stream>, m': map<Key, Stream>, conn: Flow, conn': Flow)
      requires r.Panics? && r.Key() in m && Dispatched(r, m[r.Key()], maxLen, m, m', conn, conn')
      requires prio.exact ==> Balanced(true, m, conn) && AllBounded(true, m)
      ensures m' == m && conn' == conn && Fails(m[r.Key()], maxLen, conn)
        && (prio.exact ==> EmptyOnNegative(m[r.Key()]))
    {
      if prio.exact {
        FailsExactly(m, conn, r.Key(), maxLen);
      }
    }

    lemma BoundedNow()
      requires prio.store == store && prio.Valid()
      ensures prio.exact ==> Balanced(true, store.slab, prio.flow) && AllBounded(true, store.slab)
    {
    }

    lemma UnsentIs(r: Popped, maxLen: nat, m: map<Key, Stream>, m': map<Key, Stream>, conn: Flow, conn': Flow)
      requires (r.Blocked? || r.Dangling?) && r.Key() in m && Dispatched(r, m[r.Key()], maxLen, m, m', conn, conn')
      ensures m' == m && conn' == conn && (r.Blocked? ==> !m[r.Key()].IsClosed())
    {
    }

    lemma SentIs(r: Popped, maxLen: nat, m: map<Key, Stream>, m': map<Key, Stream>, conn: Flow, conn': Flow)
      requires r.Out? && r.Key() in m && Dispatched(r, m[r.Key()], maxLen, m, m', conn, conn')
      ensures conn'.available == conn.available
      ensures ComesFrom(r.frame, m[r.Key()], maxLen)
      ensures r.frame.Slice? ==> conn'.window == conn.window - |r.frame.bytes| >= 0
    {
    }

    lemma NoneReady()
      requires Valid() && store.Queue(NextSend) == [] && prio.held == None && prio.exact
      ensures forall k :: k in store.slab && store.slab[k].Ready() ==> k in store.Queue(NextOpen)
    {
      hide Stream.Ready, Store.Valid, AllBooked, Living;
    }

    /** Takes one stream off the queue for sending. */
    method PopOnce(maxLen: nat) returns (r: Popped)
      requires Valid() && prio.held == None && maxLen > 0
      modifies store, prio`flow, prio`inFlight, prio`held, prio`books
      ensures r.Panics? || Valid()
      ensures PopDone(r, maxLen, old(store.Queue(NextSend)), store.Queue(NextSend), old(store.slab), store.slab,
                      old(prio.flow), prio.flow)
      ensures if r.Out? && r.frame.Slice? then Entered(old(prio.books), prio.books, r.frame)
        else prio.books == old(prio.books) && prio.held == None
      ensures forall q :: q != NextSend ==> store.Queue(q) == old(store.Queue(q))
      ensures !r.Panics? ==> NoneGetsLost(old(store.slab), old(store.contents), store.slab, store.contents,
                                          if r.Empty? then None else Some(r.Key()))
      ensures Lightens(!r.Panics? && !r.Out?, r.Out?)
    {
      hide Queued, Aloft, Living, Scheduler.Valid, Store.Valid, Fit, DataOf, Stream.Bounded, Dispatched, MoreToSend,
        NoneGetsLost, OthersStay, SameLife, StaysQueued;
      ghost var m, queues, conn := store.slab, store.contents, prio.flow;
      NoneOwes();
      r := prio.PopStream(maxLen);
      if !r.Panics? {
        BacklogIs(r, maxLen, m, conn);
        DispatchedLife(r, maxLen, m, store.slab, conn, prio.flow);
        AliveStill(m, store.ids, store.Queue(NextOpen), store.Queue(NextResetExpire));
        if r.Empty? {
          QueuesGrewOnly();
          MovedLosesNone(m, queues, store.contents, None);
        } else {
          OthersStayHere(r.Key());
          OneParted(m, queues, store.slab, store.contents, r.Key());
        }
      }
    }

    lemma NoneOwes()
      requires Valid()
      ensures prio.exact ==> forall k :: k in store.slab ==> store.slab[k].flow.available >= 0
    {
      hide Store.Valid, Stream.Starved, Stream.Ready, Living, Total;
      assert AllBounded(prio.exact, store.slab);
    }

    lemma BacklogIs(r: Popped, maxLen: nat, m: map<Key, Stream>, conn: Flow)
      requires !r.Panics? && maxLen > 0
      requires if r.Empty? then store.slab == m && prio.held == None
        else
          && r.Key() in m && Dispatched(r, m[r.Key()], maxLen, m, store.slab, conn, prio.flow)
          && Flies(r, m[r.Key()], prio.inFlight, prio.held)
      requires r.Out? && prio.exact ==> m[r.Key()].flow.available >= 0
      ensures !r.Out? ==> Burden() == Queued(m)
      ensures r.Out? && prio.exact ==> Burden() < Queued(m)
    {
      hide Queued;
      if r.Out? && prio.exact {
        OutIsLess(r, maxLen, m, store.slab, conn, prio.flow, prio.inFlight, prio.held);
      }
    }

    lemma DispatchedLife(r: Popped, maxLen: nat, m: map<Key, Stream>, m': map<Key, Stream>, conn: Flow, conn': Flow)
      requires !r.Panics?
      requires if r.Empty? then m' == m else r.Key() in m && Dispatched(r, m[r.Key()], maxLen, m, m', conn, conn')
      ensures LifeKept(m, m') && (!r.Empty? ==> SameLife(m, m', Some(r.Key())))
    {
    }

    /** One round of writing: what the codec is done with is taken back, waiting streams are opened, and the next
        frame goes out. There is none only if no stream can send anything that the limit of the peer lets it open. */
    method WriteOne(maxLen: nat) returns (r: Sending)
      requires Valid() && maxLen > 0
      modifies this`counts, store, prio`flow, prio`inFlight, prio`held, prio`books
      ensures r.Panic? || Valid()
      ensures if r.Wrote? && r.frame.Slice? then Entered(old(prio.books), prio.books, r.frame)
        else prio.books == old(prio.books)
      ensures r.Wrote? ==>
        var m := TakenBack(old(store.slab), old(prio.inFlight), old(prio.held));
        r.frame.stream in m && ComesFrom(r.frame, m[r.frame.stream], maxLen)
      ensures r.Wrote? ==> GoesOn(r.frame.stream)
      ensures r.NothingToSend? ==> prio.held == None
      ensures r.NothingToSend? && prio.exact ==> forall k :: k in store.slab && store.slab[k].Ready() ==>
        k in store.Queue(NextOpen)
      ensures old(counts).send + |old(store.Queue(NextOpen))| <= counts.maxSend ==> store.Queue(NextOpen) == []
      ensures r.Panic? ==> Fails(r.stream, maxLen, r.conn) && (prio.exact ==> EmptyOnNegative(r.stream))
      ensures !r.Panic? ==> LosesNone() && AllKept(old(store.slab), store.slab)
      ensures Lightens(r.NothingToSend?, r.Wrote?)
      ensures !r.Panic? ==> prio.flow.available == old(prio.flow).available
      ensures |store.Queue(NextOpen)| <= |old(store.Queue(NextOpen))| && counts.maxSend == old(counts).maxSend
    {
      hide Living, Scheduler.Valid, Store.Valid, Fit, DataOf, Stream.Bounded, Entered, Stream.IsClosed, NoneGetsLost,
        Lost, Fails, Queued, Aloft, AllKept, ComesFrom, GoesOn;
      ghost var m, queues := store.slab, store.contents;
      ghost var opening, send := store.Queue(NextOpen), counts.send;
      Reclaim();
      ghost var m1, queues1 := store.slab, store.contents;
      SchedulePendingOpen();
      ghost var turned := counts.send - send;
      OpenedKeeps(m1, store.slab, opening, store.Queue(NextOpen), turned);
      KeptAgain(m, m1, store.slab);
      NoneLostAgain(m, queues, m1, queues1, store.slab, store.contents, None);
      ghost var m2, queues2 := store.slab, store.contents;
      r := PopFrame(maxLen);
      if !r.Panic? {
        NoneLostAgain(m, queues, m2, queues2, store.slab, store.contents, None);
        KeptAgain(m, m2, store.slab);
        if r.Wrote? {
          OpenedSource(m1, m2, opening, store.Queue(NextOpen), turned, r.frame, maxLen);
        }
      }
    }

    /** Takes back what the codec is done with: the rest of the payload, if there is one and its stream was not reset,
        is the first frame of the stream again. */
    method Reclaim()
      requires Valid()
      modifies store, prio`inFlight, prio`held
      ensures Valid() && prio.held == None
      ensures store.Queue(NextOpen) == old(store.Queue(NextOpen))
      ensures store.slab == TakenBack(old(store.slab), old(prio.inFlight), old(prio.held))
      ensures LosesNone() && AllKept(old(store.slab), store.slab) && Burden() == old(Burden())
    {
      hide Living, Scheduler.Valid, Store.Valid, Fit, DataOf, Stream.Bounded, NoneGetsLost, StaysQueued, Queued;
      ghost var m, queues, h := store.slab, store.contents, prio.held;
      if InTheAir(prio.inFlight, prio.held).Some? {
        NotClosed(InTheAir(prio.inFlight, prio.held).value);
      }
      ghost var fly := prio.inFlight;
      var again := prio.ReclaimFrame();
      PutBackIsSame(m, store.slab, fly, h);
      if again {
        PutBackLife(m, h.value.stream, Data(h.value.rest, h.value.endOfStream));
      }
      QueuesStay();
      NoneLostBy(m, queues, store.slab, store.contents, None);
      AliveStill(m, store.ids, store.Queue(NextOpen), store.Queue(NextResetExpire));
    }

    /** The streams once the codec handed back what it did not send. */
    ghost function TakenBack(m: map<Key, Stream>, inFlight: InFlight, held: Option<Prioritized>): map<Key, Stream> {
      match InTheAir(inFlight, held)
      case Some(k) => PutBack(m, k, held.value)
      case None => m
    }

    ghost function PutBack(m: map<Key, Stream>, k: Key, p: Prioritized): map<Key, Stream> {
      if k in m then m[k := m[k].(frames := [Data(p.rest, p.endOfStream)] + m[k].frames)] else m
    }

    /** A stream of which a payload is in the air is not closed. */
    lemma NotClosed(k: Key)
      requires Valid() && InTheAir(prio.inFlight, prio.held) == Some(k)
      ensures k in store.slab && !store.slab[k].IsClosed() && prio.held.Some? && prio.held.value.stream == k
    {
      hide Living, Fit, Store.Valid, AllBooked, DataOf;
      PageOf(store.slab, prio.inFlight, prio.held, prio.books, k);
    }

    lemma PutBackLife(m: map<Key, Stream>, k: Key, f: Frame)
      requires k in m && !m[k].IsClosed()
      ensures LifeKept(m, m[k := m[k].(frames := [f] + m[k].frames)])
    {
    }

    // ----- the end of the connection

    /** Closes every stream beyond `last`, for the same cause. Every identifier in the index is visited, though visiting
        one may take it out of the index. The others at most get capacity. */
    method CloseAll(last: int, cause: Cause)
      requires Valid()
      modifies this`counts, store, prio`flow, prio`inFlight, prio`held, prio`books
      ensures Valid() && ClosedBeyond(old(store.slab), store.slab, last, cause)
        && (last < 0 ==> AllClosed(store.slab))
      ensures prio.flow.window == old(prio.flow).window
      ensures SamePages(old(prio.books), prio.books) && HandlesHold(old(store.slab), store.slab)
      ensures store.Queue(NextAccept) == old(store.Queue(NextAccept))
      ensures LosesOnlyWaiters()
    {
      hide Living, Scheduler.Valid, Store.Valid, Fit, DataOf, Adjusted, Stream.Bounded, Stream.IsClosed, Entered,
        SamePages, HandlesHold, ClosedOne, NoneGetsLost, OnlyWaitersGetLost, ClosedSoFar, ClosedBeyond;
      ghost var m0, queues0 := store.slab, store.contents;
      NothingLost(m0, queues0);
      NoneLostWeaker(m0, queues0, m0, queues0, None);
      SamePagesAlways(prio.books);
      NothingClosed(m0, last, cause);
      var len, i := |store.ids|, 0;
      ghost var done: set<Key> := {};
      while i < len
        invariant Valid() && i <= len == |store.ids| && prio.flow.window == old(prio.flow).window
        invariant SamePages(old(prio.books), prio.books) && ClosedSoFar(m0, store.slab, last, cause, done)
        invariant store.Queue(NextAccept) == old(store.Queue(NextAccept))
        invariant forall k :: k in store.ids[..i] ==> k in done
        invariant OnlyWaitersGetLost(m0, queues0, store.slab, store.contents, None)
        invariant forall k :: k in store.Queue(NextSendCapacity) ==> k in ListOf(queues0, NextSendCapacity)
        decreases len - i
      {
        var k := store.ids[i];
        SchedulerStore();
        prio.StoreIds();
        ghost var ids, m, queues, books := store.ids, store.slab, store.contents, prio.books;
        if k > last {
          CloseOne(k, cause);
          ExactIsWaiters(m, queues, store.slab, store.contents, k);
          WaitersLostAgain(m0, queues0, m, queues, store.slab, store.contents);
          PagesOn(old(prio.books), books, prio.books);
        }
        OneClosed(m0, m, store.slab, k, last, cause, done);
        done := done + {k};
        SwapRemoved(ids, k);
        OnlyIndex(ids, k, i);
        var newLen := |store.ids|;
        if newLen < len {
          assert newLen == len - 1 && store.ids[..i] == ids[..i];
          len := len - 1;
        } else {
          assert store.ids == ids && ids[..i + 1] == ids[..i] + [k];
          i := i + 1;
        }
      }
      assert store.ids[..i] == store.ids;
      AllAreClosed(m0, last, cause, done);
    }

    /** What is beyond `last` is closed or gone, and the rest at most got capacity. */
    ghost predicate ClosedBeyond(m: map<Key, Stream>, m': map<Key, Stream>, last: int, cause: Cause) {
      && (forall k :: k in m' && k > last ==> m'[k].IsClosed() && k in m && ClosedFor(m[k], m'[k], cause))
      && (forall k :: k in m && k <= last ==> k in m' && Granted(m[k], m'[k]))
    }

    /** What had closed before stays closed for its own reason. */
    predicate ClosedFor(s: Stream, s': Stream, cause: Cause) {
      s'.state == if s.state.Closed? then s.state else Closed(cause)
    }

    /** Of stream `j`, when it was `visited` or was not. */
    ghost predicate ClosedIfDue(m: map<Key, Stream>, m': map<Key, Stream>, j: Key, last: int, cause: Cause,
                                visited: bool) {
      if j !in m' then j in m ==> j > last
      else
        && j in m && (j <= last ==> Granted(m[j], m'[j]))
        && if visited && j > last then m'[j].IsClosed() && ClosedFor(m[j], m'[j], cause) else m'[j].state == m[j].state
    }

    ghost predicate ClosedSoFar(m: map<Key, Stream>, m': map<Key, Stream>, last: int, cause: Cause, done: set<Key>) {
      HandlesHold(m, m') && forall j: Key :: ClosedIfDue(m, m', j, last, cause, j in done)
    }

    lemma NothingClosed(m: map<Key, Stream>, last: int, cause: Cause)
      ensures ClosedSoFar(m, m, last, cause, {})
    {
    }

    lemma AllAreClosed(m: map<Key, Stream>, last: int, cause: Cause, done: set<Key>)
      requires Valid() && ClosedSoFar(m, store.slab, last, cause, done) && (forall k :: k in store.ids ==> k in done)
      ensures ClosedBeyond(m, store.slab, last, cause) && HandlesHold(m, store.slab)
      ensures last < 0 ==> AllClosed(store.slab)
    {
      hide Scheduler.Valid, HandlesHold, ClosedSoFar, ClosedBeyond, Stream.IsClosed;
      OthersAreClosed(m, store.slab, last, cause, done);
    }

    lemma OthersAreClosed(m: map<Key, Stream>, m': map<Key, Stream>, last: int, cause: Cause, done: set<Key>)
      requires ClosedSoFar(m, m', last, cause, done) && (forall k :: k in m' && k !in done ==> m'[k].IsClosed())
      ensures ClosedBeyond(m, m', last, cause) && HandlesHold(m, m')
      ensures last < 0 ==> AllClosed(m')
    {
      hide HandlesHold;
      forall j: Key
        ensures j in m' && j > last ==> m'[j].IsClosed() && j in m && ClosedFor(m[j], m'[j], cause)
        ensures j in m && j <= last ==> j in m' && Granted(m[j], m'[j])
      {
        assert ClosedIfDue(m, m', j, last, cause, j in done);
      }
    }

    lemma BackWithConnection()
      requires Valid() && AllClosed(store.slab)
      ensures prio.exact ==> prio.flow.available == prio.flow.window
    {
      hide Living, Stream.IsClosed, Stream.Bounded, Store.Valid;
      if prio.exact {
        TotalOfClosed(store.slab);
      }
    }

    /** Closes one stream. Those closed before stay so. */
    method CloseOne(k: Key, cause: Cause)
      requires Valid() && k in store.slab
      modifies this`counts, store, prio`flow, prio`inFlight, prio`held, prio`books
      ensures Valid() && prio.flow.window == old(prio.flow).window
      ensures ClosedOne(old(store.slab), store.slab, k, cause)
      ensures store.ids == old(store.ids) || store.ids == SwapRemove(old(store.ids), k)
      ensures Became(k, Ended(old(store.slab)[k], old(store.slab)[k].state.RecvErr(cause), []))
      ensures SamePages(old(prio.books), prio.books) && store.Queue(NextAccept) == old(store.Queue(NextAccept))
      ensures LosesExactly(k) && forall j :: j in store.Queue(NextSendCapacity) ==>
        j in old(store.Queue(NextSendCapacity))
    {
      hide Living, Scheduler.Valid, Store.Valid, Transitioned, ClosedOne, SamePages, LosesExactly, Stream.IsClosed;
      ghost var m := store.slab;
      var state := store.slab[k].state.RecvErr(cause);
      ghost var s := Ended(m[k], state, []);
      EndStream(k, state);
      ghost var mid :| Adjusted(m, mid, k, s) && store.slab == Transitioned(mid, k, s.refs == 0 && Unqueued(k));
      EndedCloses(m[k], state);
      ClosedIs(m, mid, k, s, s.refs == 0 && Unqueued(k), cause);
    }

    lemma EndedCloses(s: Stream, state: State)
      requires state.Closed?
      ensures Ended(s, state, []).IsClosed() && Ended(s, state, []).refs == s.refs && Ended(s, state, []).state == state
    {
    }

    /** Stream `k` is closed, or gone; the others at most got capacity, and what has a handle is still there. */
    ghost predicate ClosedOne(m: map<Key, Stream>, m': map<Key, Stream>, k: Key, cause: Cause) {
      && (k in m' ==> m'[k].IsClosed() && k in m && ClosedFor(m[k], m'[k], cause)) && HandlesHold(m, m')
      && (forall j :: j in m && j != k ==> j in m' && Granted(m[j], m'[j]))
    }

    lemma ClosedIs(m: map<Key, Stream>, mid: map<Key, Stream>, k: Key, s: Stream, unreferenced: bool, cause: Cause)
      requires Adjusted(m, mid, k, s) && s.refs == m[k].refs && s.IsClosed() && (unreferenced ==> s.refs == 0)
      requires ClosedFor(m[k], s, cause)
      ensures ClosedOne(m, Transitioned(mid, k, unreferenced), k, cause)
    {
    }

    lemma OneClosed(m0: map<Key, Stream>, m: map<Key, Stream>, m': map<Key, Stream>, k: Key, last: int, cause: Cause,
                    done: set<Key>)
      requires ClosedSoFar(m0, m, last, cause, done) && k in m
      requires if k > last then ClosedOne(m, m', k, cause) else m' == m
      ensures ClosedSoFar(m0, m', last, cause, done + {k})
    {
      forall j: Key ensures ClosedIfDue(m0, m', j, last, cause, j in done + {k}) {
        assert ClosedIfDue(m0, m, j, last, cause, j in done);
      }
    }

    lemma PageDropped(books: map<Key, Book>, k: Key)
      ensures k in books ==> SamePages(books, books[k := books[k].(dropped := true)])
    {
    }

    /** A stream with a handle stays, and keeps its handles. */
    ghost predicate HandlesHold(m: map<Key, Stream>, m': map<Key, Stream>) {
      && (forall k :: k in m' ==> k in m && m'[k].refs == m[k].refs)
      && (forall k :: k in m && m[k].refs > 0 ==> k in m')
    }

    lemma AllHandlesHold(m: map<Key, Stream>)
      ensures HandlesHold(m, m)
    {
    }

    lemma TransitionHolds(m: map<Key, Stream>, k: Key, unreferenced: bool)
      requires k in m && (unreferenced ==> m[k].refs == 0)
      ensures HandlesHold(m, Transitioned(m, k, unreferenced))
    {
    }

    lemma HandlesOn(a: map<Key, Stream>, b: map<Key, Stream>, c: map<Key, Stream>)
      requires HandlesHold(a, b) && HandlesHold(b, c)
      ensures HandlesHold(a, c)
    {
    }

    lemma SamePagesAlways(books: map<Key, Book>)
      ensures SamePages(books, books)
    {
    }

    lemma PagesOn(a: map<Key, Book>, b: map<Key, Book>, c: map<Key, Book>)
      requires SamePages(a, b) && SamePages(b, c)
      ensures SamePages(a, c)
    {
    }

    /** Empties one queue once all streams are closed; those it held and nothing else refers to are freed. */
    method DrainQueue(q: QueueName)
      requires Valid() && AllClosed(store.slab)
      modifies this`counts, store
      ensures Valid() && AllClosed(store.slab) && store.Queue(q) == [] && HandlesHold(old(store.slab), store.slab)
      ensures forall p :: p != q ==> store.Queue(p) == old(store.Queue(p))
      ensures LosesNone()
    {
      hide Living, Scheduler.Valid, Store.Valid, Fit, DataOf, Stream.Bounded, AllClosed, HandlesHold, NoneGetsLost,
        Lost;
      AllHandlesHold(store.slab);
      ghost var m0, queues0 := store.slab, store.contents;
      NothingLost(m0, queues0);
      while true
        invariant NoneGetsLost(m0, queues0, store.slab, store.contents, None)
        invariant Valid() && AllClosed(store.slab) && HandlesHold(old(store.slab), store.slab)
        invariant forall p :: p != q ==> store.Queue(p) == old(store.Queue(p))
        decreases |store.Queue(q)|
      {
        ghost var m, queues := store.slab, store.contents;
        var k := PopClosed(q);
        ghost var between := store.contents;
        if k.None? {
          NoneLostAgain(m0, queues0, m, queues, m, between, None);
          return;
        }
        var was := PendingReset(k.value);
        ClosedTransition(m, k.value, m[k.value].refs == 0 && Unqueued(k.value));
        TransitionHolds(m, k.value, m[k.value].refs == 0 && Unqueued(k.value));
        HandlesOn(old(store.slab), m, Transitioned(m, k.value, m[k.value].refs == 0 && Unqueued(k.value)));
        TransitionAfter(k.value, was || q == NextResetExpire);
        LosesNoneStill(m0, queues0, m, queues, m, between, store.slab, store.contents, k.value);
      }
    }

    /** Empties one more queue, given what has become of the streams `m` so far. */
    method DrainNext(q: QueueName, ghost m: map<Key, Stream>, ghost queues: map<QueueName, seq<Key>>)
      requires Valid() && AllClosed(store.slab) && HandlesHold(m, store.slab)
      requires OnlyWaitersGetLost(m, queues, store.slab, store.contents, None)
      modifies this`counts, store
      ensures Valid() && AllClosed(store.slab) && store.Queue(q) == [] && HandlesHold(m, store.slab)
      ensures OnlyWaitersGetLost(m, queues, store.slab, store.contents, None)
      ensures forall p :: p != q ==> store.Queue(p) == old(store.Queue(p))
    {
      hide Living, Scheduler.Valid, Store.Valid, AllClosed, HandlesHold, NoneGetsLost, OnlyWaitersGetLost;
      ghost var mid, between := store.slab, store.contents;
      DrainQueue(q);
      HandlesOn(m, mid, store.slab);
      NoneLostAgain(m, queues, mid, between, store.slab, store.contents, None);
    }

    lemma ClosedTransition(m: map<Key, Stream>, k: Key, unreferenced: bool)
      requires AllClosed(m) && k in m
      ensures AllClosed(Transitioned(m, k, unreferenced)) && m[k].IsClosed()
    {
    }

    method PopClosed(q: QueueName) returns (k: Option<Key>)
      requires Valid() && AllClosed(store.slab)
      modifies store`queued, store`next, store`indices, store`contents
      ensures Valid() && (k.None? <==> old(store.Queue(q)) == [])
      ensures k.None? ==> store.Queue(q) == []
      ensures k.Some? ==> k.value in store.slab && old(store.Queue(q)) == [k.value] + store.Queue(q)
      ensures k.Some? && q == NextResetExpire ==> counts.reset > |store.Queue(NextResetExpire)|
      ensures forall p :: p != q ==> store.Queue(p) == old(store.Queue(p))
      ensures NoneGetsLost(store.slab, old(store.contents), store.slab, store.contents, k)
    {
      hide Living, Store.Valid, Fit, DataOf, Stream.IsClosed, AllBooked, HeldOk, NoneGetsLost;
      ghost var waiting, sending, opening, expiring :=
        store.Queue(NextSendCapacity), store.Queue(NextSend), store.Queue(NextOpen), store.Queue(NextResetExpire);
      ResetBound();
      k := store.Pop(q);
      TakenOff(k);
      ClosedFits(prio.exact, store.slab, prio.flow, waiting, sending, opening, store.Queue(NextSendCapacity),
                 store.Queue(NextSend), store.Queue(NextOpen), InTheAir(prio.inFlight, prio.held));
      LivingQueues(store.slab, store.ids, opening, expiring, isServer, counts, store.Queue(NextOpen),
                   store.Queue(NextResetExpire), counts.reset);
      assert counts.(reset := counts.reset) == counts;
    }

    /** The connection failed: every stream is closed, and all capacity is back with the connection. */
    method RecvErr(cause: Cause)
      requires Valid()
      modifies this`counts, this`connError, store, prio`flow, prio`inFlight, prio`held, prio`books
      ensures Valid() && connError && AllClosed(store.slab) && prio.flow.window == old(prio.flow).window
      ensures prio.exact ==> prio.flow.available == prio.flow.window
      ensures SamePages(old(prio.books), prio.books) && HandlesHold(old(store.slab), store.slab)
      ensures LosesOnlyWaiters()
    {
      hide Living, Scheduler.Valid, Store.Valid, AllClosed, SamePages, HandlesHold, OnlyWaitersGetLost, ClosedBeyond;
      CloseAll(-1, cause);
      BackWithConnection();
      connError := true;
    }

    /** GOAWAY: the streams beyond the last one that the peer will answer are closed; the others go on. An error if a
        smaller one was announced before. */
    method RecvGoAway(last: nat) returns (ok: bool)
      requires Valid()
      modifies this`counts, this`maxSendId, this`connError, store, prio`flow, prio`inFlight, prio`held, prio`books
      ensures Valid() && ok == (last <= old(maxSendId)) && maxSendId == Smaller(last, old(maxSendId))
      ensures SamePages(old(prio.books), prio.books)
      ensures !ok ==> store.slab == old(store.slab)
      ensures ok ==>
        connError && ClosedBeyond(old(store.slab), store.slab, last, LocallyReset)
          && HandlesHold(old(store.slab), store.slab)
      ensures LosesOnlyWaiters()
    {
      hide Living, Scheduler.Valid, Store.Valid, AllClosed, SamePages, HandlesHold, NoneGetsLost, OnlyWaitersGetLost,
        ClosedBeyond;
      if last > maxSendId {
        NothingLost(store.slab, store.contents);
        NoneLostWeaker(store.slab, store.contents, store.slab, store.contents, None);
        SamePagesAlways(prio.books);
        return false;
      }
      maxSendId := last;
      CloseAll(last, LocallyReset);
      connError := true;
      return true;
    }

    function Smaller(a: nat, b: nat): nat {
      if a < b then a else b
    }

    /** This side announces the last stream it will answer. */
    method SendGoAway(last: nat)
      requires Valid() && last <= maxRecvId
      modifies this`maxRecvId
      ensures Valid() && maxRecvId == last
      ensures LosesNone()
    {
      hide Living, Scheduler.Valid, NoneGetsLost;
      NothingLost(store.slab, store.contents);
      maxRecvId := last;
    }

    /** The connection is gone: every stream is closed, all capacity is back, and no queue holds a stream, but for
        those still to be accepted if they are to be. A stream with a handle is still there. */
    method RecvEof(clearPendingAccept: bool)
      requires Valid()
      modifies this`counts, this`connError, store, prio`flow, prio`inFlight, prio`held, prio`books
      ensures Valid() && connError && AllClosed(store.slab) && prio.flow.window == old(prio.flow).window
      ensures prio.exact ==> prio.flow.available == prio.flow.window
      ensures forall q :: q != NextAccept ==> store.Queue(q) == []
      ensures store.Queue(NextAccept) == if clearPendingAccept then [] else old(store.Queue(NextAccept))
      ensures SamePages(old(prio.books), prio.books) && HandlesHold(old(store.slab), store.slab)
      ensures LosesOnlyWaiters()
    {
      hide Living, Scheduler.Valid, Store.Valid, Fit, DataOf, Stream.Bounded, AllClosed, SamePages, HandlesHold,
        NoneGetsLost, OnlyWaitersGetLost;
      ghost var m, queues := store.slab, store.contents;
      connError := true;
      CloseAll(-1, Io);
      DrainNext(NextWindowUpdate, m, queues);
      DrainNext(NextResetExpire, m, queues);
      if clearPendingAccept {
        DrainNext(NextAccept, m, queues);
      }
      DrainNext(NextSendCapacity, m, queues);
      DrainNext(NextSend, m, queues);
      DrainNext(NextOpen, m, queues);
      forall q | q != NextAccept ensures store.Queue(q) == [] {
        match q
        case NextSend => case NextSendCapacity => case NextOpen =>
        case NextAccept => case NextWindowUpdate => case NextResetExpire =>
      }
      BackWithConnection();
    }

    /** What the connection promises in every state it can reach, whatever was reset and however: no queued or
        in-flight key dangles, the counters are exact, what is out of the index is closed, and what was sent of a
        stream is a prefix of what was given. No stream holds more than its window or its request. */
    lemma Guarantees(k: Key)
      requires Valid()
      ensures prio.flow.available >= 0 && 0 <= prio.flow.window <= MAX_WINDOW_SIZE
      ensures forall q :: k in store.Queue(q) ==> k in store.slab
      ensures InTheAir(prio.inFlight, prio.held) == Some(k) ==> k in store.slab
      ensures counts.send == |Counted(store.slab, isServer, true)|
        && counts.recv == |Counted(store.slab, isServer, false)| <= counts.maxRecv
      ensures k in store.slab ==>
        var s := store.slab[k];
        && s.flow.available <= s.flow.WindowSize() && s.flow.available <= s.requested && s.buffered <= s.requested
        && (s.flow.available < 0 ==> s.state.Closed?)
        && (k !in store.ids ==> s.IsClosed())
        && k in prio.books && prio.books[k].sent <= prio.books[k].given
    {
      hide Store.Valid, Stream.Starved, Stream.Ready, DataOf;
      forall q ensures k in store.Queue(q) ==> k in store.slab {
        SchedulerStore();
        store.IsMember(q, k);
      }
      if k in store.slab {
        InBounds(k);
        prio.Owes(store.slab[k]);
        PageOf(store.slab, prio.inFlight, prio.held, prio.books, k);
        SentIsPrefix(store.slab[k], RestOf(prio.inFlight, prio.held, k), RestEnds(prio.inFlight, prio.held, k),
                     prio.books[k]);
      }
    }

    /** What it promises about capacity, unless a dropped handle upset the sharing (see `Upsets`): capacity is
        neither created nor lost, no stream holds more than the connection window, nothing is left over that anybody
        wants, whoever can send is in line, and closed streams hold nothing. */
    lemma CapacityGuarantees(k: Key)
      requires Valid() && prio.exact
      ensures prio.flow.available + Total(store.slab) == prio.flow.window
      ensures k in store.slab ==>
        var s := store.slab[k];
        var most: int := if s.flow.window < 0 then 0 else if s.requested < s.flow.window then s.requested
          else s.flow.window;
        && 0 <= s.flow.available <= prio.flow.window
        && (s.state.IsSendStreaming() || s.buffered > 0 ==>
            && (prio.flow.available > 0 ==> s.flow.available == most)
            && (s.flow.available < most ==> k in store.Queue(NextSendCapacity)))
        && (s.frames != [] && (s.frames[0].Data? && s.frames[0].payload != [] ==> s.flow.available > 0)
            && k !in store.Queue(NextOpen) && InTheAir(prio.inFlight, prio.held) != Some(k) ==>
            k in store.Queue(NextSend))
        && (s.IsClosed() ==> s.flow.available == 0)
        && forall maxLen: nat :: Fails(s, maxLen, prio.flow) ==> EmptyOnNegative(s)
    {
      hide Store.Valid, Stream.Starved, Stream.Ready, Stream.Active, Stream.Want, DataOf, Fails;
      if k in store.slab {
        LineIs(store.slab[k]);
        WithinConnection(store.slab, prio.flow, k);
        if store.slab[k].Active() && prio.flow.available > 0 {
          WorkConserving(store.slab, prio.flow, store.Queue(NextSendCapacity), k);
        }
        forall maxLen: nat ensures Fails(store.slab[k], maxLen, prio.flow) ==> EmptyOnNegative(store.slab[k]) {
          FailsExactly(store.slab, prio.flow, k, maxLen);
        }
      }
    }

    /** Who takes part in the sharing, who lacks capacity, and who can send. */
    lemma LineIs(s: Stream)
      ensures s.Active() <==> s.state.IsSendStreaming() || s.buffered > 0
      ensures s.Want() == if s.flow.window < 0 then 0 else if s.requested < s.flow.window then s.requested
        else s.flow.window
      ensures s.Starved() <==> s.Active() && s.flow.available < s.Want()
      ensures s.Ready() <==>
        s.frames != [] && (s.frames[0].Data? && s.frames[0].payload != [] ==> s.flow.available != 0)
    {
    }

    /** Once nothing more can be written, a stream that was opened has nothing queued any more: all it was given has
        been sent, and END_STREAM with it, unless given up. Otherwise its own window is used up, or the connection has
        nothing left to assign. */
    lemma Quiescent(k: Key)
      requires Valid() && prio.exact && prio.held == None && k in store.slab && k !in store.Queue(NextOpen)
        && !store.slab[k].Ready()
      ensures k in prio.books
      ensures store.slab[k].frames == [] ==> Finished(prio.books[k])
      ensures store.slab[k].frames != [] ==> store.slab[k].flow.window <= 0 || prio.flow.available == 0
    {
      hide Store.Valid, DataOf;
      InBounds(k);
      NothingInTheAir(store.slab, prio.inFlight, prio.held, k);
      PageOf(store.slab, prio.inFlight, prio.held, prio.books, k);
      var s := store.slab[k];
      if s.frames == [] {
        AllSent(s, prio.books[k]);
      } else {
        assert s.buffered > 0 by {
          HeadFits(true, s);
        }
      }
    }

    lemma SentIsPrefix(s: Stream, rest: Bytes, restEnds: bool, b: Book)
      requires Booked(s, rest, restEnds, b)
      ensures b.sent <= b.given
    {
      assert b.sent <= b.sent + rest + DataOf(s.frames);
    }
  }
}
