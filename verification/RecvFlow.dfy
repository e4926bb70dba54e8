/** Receiving data: what has been received and not yet released, against the windows announced to the peer
    (section 6.9 of RFC 7540). */
module RecvFlow {
  import opened Headers
  import opened FlowControl
  import opened StreamState
  import opened StreamStore
  import opened Sums

  /** What the header section said of the length of the content. */
  datatype ContentLength = Omitted | Head | Remaining(n: nat) {
    /** Counts content; `None` if there is more than announced. */
    function Dec(len: nat): Option<ContentLength> {
      match this
      case Remaining(n) => if len <= n then Some(Remaining(n - len)) else None
      case Head => if len == 0 then Some(Head) else None
      case Omitted => Some(Omitted)
    }

    predicate IsZero() {
      Remaining? ==> n == 0
    }
  }

  /** Content counted piece by piece. */
  function DecAll(l: ContentLength, pieces: seq<nat>): Option<ContentLength>
    decreases |pieces|
  {
    if pieces == [] then Some(l)
    else
      match l.Dec(pieces[0])
      case None => None
      case Some(rest) => DecAll(rest, pieces[1..])
  }

  function AllOf(pieces: seq<nat>): nat
    decreases |pieces|
  {
    if pieces == [] then 0 else pieces[0] + AllOf(pieces[1..])
  }

  /** Of an announced length no more than that is admitted, and the end exactly when all of it came; after the headers
      of a HEAD request nothing is. */
  lemma {:induction false} ContentAsAnnounced(l: ContentLength, pieces: seq<nat>)
    ensures var r := DecAll(l, pieces);
      && (r.Some? <==> match l case Omitted => true case Head => AllOf(pieces) == 0
                       case Remaining(n) => AllOf(pieces) <= n)
      && (r.Some? ==> (r.value.IsZero() <==> l.Remaining? ==> AllOf(pieces) == l.n))
    decreases |pieces|
  {
    if pieces != [] {
      var r := l.Dec(pieces[0]);
      if r.Some? {
        ContentAsAnnounced(r.value, pieces[1..]);
      }
    }
  }

  /** The receiving half of a stream. Its `available` counts what the window may be restored to. */
  datatype Inbound = Inbound(state: State, flow: Flow, inFlight: nat, refs: nat, length: ContentLength)

  ghost function Unread(m: map<Key, Inbound>): map<Key, int> {
    map k | k in m :: m[k].inFlight
  }

  /** What of the announced windows is taken by data not yet released, over all streams. */
  ghost function UnreadTotal(m: map<Key, Inbound>): int {
    Sum(Unread(m))
  }

  lemma UnreadPut(m: map<Key, Inbound>, k: Key, s: Inbound)
    ensures UnreadTotal(m[k := s]) == (if k in m then UnreadTotal(m) - m[k].inFlight else UnreadTotal(m)) + s.inFlight
  {
    assert Unread(m[k := s]) == Unread(m)[k := s.inFlight];
    SumPut(Unread(m), k, s.inFlight);
  }

  lemma UnreadWithout(m: map<Key, Inbound>, k: Key)
    requires k in m
    ensures UnreadTotal(m) == m[k].inFlight + UnreadTotal(m - {k}) && m[k].inFlight <= UnreadTotal(m)
  {
    assert Unread(m - {k}) == Unread(m) - {k};
    SumWithout(Unread(m), k);
    SumAtLeast(Unread(m), k);
  }

  /** The window of a stream in the index never exceeds what it may be restored to, and that together with what is
      unread never exceeds the initial window, and is exactly that while the stream is open. A stream out of the
      index is closed. */
  predicate Sound(s: Inbound, linked: bool, init: nat) {
    if linked then
      && s.flow.window <= s.flow.available && s.flow.available + s.inFlight <= init
      && (!s.state.Closed? ==> s.flow.available + s.inFlight == init)
    else s.state.Closed?
  }

  ghost predicate AllSound(m: map<Key, Inbound>, ids: seq<Key>, init: nat) {
    forall k :: k in m ==> Sound(m[k], k in ids, init)
  }

  /** A stream nobody has a handle of, nor will get one of, is closed and has nothing unread. */
  ghost predicate AllHeld(m: map<Key, Inbound>, accepting: seq<Key>) {
    forall k :: k in m && m[k].refs == 0 && k !in accepting ==> m[k].state.Closed? && m[k].inFlight == 0
  }

  /** One stream changed for another that is as it should be. */
  lemma PutSound(m: map<Key, Inbound>, ids: seq<Key>, init: nat, accepting: seq<Key>, k: Key, s: Inbound)
    requires AllSound(m, ids, init) && AllHeld(m, accepting) && Sound(s, k in ids, init)
    requires s.refs == 0 && k !in accepting ==> s.state.Closed? && s.inFlight == 0
    ensures AllSound(m[k := s], ids, init) && AllHeld(m[k := s], accepting)
  {
    hide Sound;
  }

  lemma SoundAt(m: map<Key, Inbound>, ids: seq<Key>, init: nat, accepting: seq<Key>, k: Key)
    requires AllSound(m, ids, init) && AllHeld(m, accepting) && k in m
    ensures Sound(m[k], k in ids, init)
    ensures m[k].refs == 0 && k !in accepting ==> m[k].state.Closed? && m[k].inFlight == 0
  {
    hide Sound;
  }

  /** A window update that is due is worth sending, and restores the window to what is available. */
  lemma UpdateRestores(f: Flow, limit: nat)
    requires f.UnclaimedCapacity().Some? && f.available <= limit <= MAX_WINDOW_SIZE
    ensures var incr := f.UnclaimedCapacity().value;
      incr > 0 && f.IncWindow(incr) == Some(f.(window := f.available))
        && f.(window := f.available).UnclaimedCapacity().None?
  {
  }

  /** While none is due, the window is more than two thirds of what it may be restored to. */
  lemma NotDueMeansWide(f: Flow)
    requires f.UnclaimedCapacity().None? && f.available > 0
    ensures 3 * f.window > 2 * f.available
  {
  }

  /** Once everything received has been released and the window is used up, an update is due. */
  lemma UsedUpMeansDue(f: Flow)
    requires f.window <= 0 < f.available
    ensures f.UnclaimedCapacity() == Some(f.available - f.window)
  {
  }

  /** What is wrong with data received. `Panics` is the assertion of the stream's window. */
  datatype RecvError =
    | StreamFlowControl
    | StreamProtocol
    | StreamClosed
    | ConnectionFlowControl
    | ConnectionProtocol
    | Panics
  {
    predicate OfStream() {
      StreamFlowControl? || StreamProtocol? || StreamClosed?
    }
  }

  class Receiver {
    const store: Store<Inbound>
    var flow: Flow
    var inFlight: nat
    var initWindow: nat
    ghost var target: nat

    /** The books of the connection and of every stream balance. */
    ghost predicate Valid()
      reads this, store
    {
      && store.Valid() && initWindow <= MAX_WINDOW_SIZE
      && ConnectionSound()
      && AllSound(store.slab, store.ids, initWindow)
      && AllHeld(store.slab, store.Queue(NextAccept))
    }

    ghost predicate ConnectionSound()
      reads this, store`slab
    {
      && inFlight == UnreadTotal(store.slab)
      && flow.available + inFlight == target <= MAX_WINDOW_SIZE
      && 0 <= flow.window <= MAX_WINDOW_SIZE
    }

    constructor (initWindow: nat)
      requires initWindow <= MAX_WINDOW_SIZE
      ensures Valid() && fresh(store) && store.slab == map[] && target == flow.window == DEFAULT_INITIAL_WINDOW
    {
      var s := new Store<Inbound>();
      store, this.initWindow := s, initWindow;
      flow, inFlight, target := Flow(DEFAULT_INITIAL_WINDOW, DEFAULT_INITIAL_WINDOW), 0, DEFAULT_INITIAL_WINDOW;
      new;
      assert Unread(map[]) == map[];
    }

    /** A new stream, with a handle or waiting to be accepted. */
    method Open(k: Key, state: State, refs: nat, length: ContentLength)
      requires Valid() && k !in store.slab && !state.Closed?
      modifies store
      ensures Valid()
        && store.slab == old(store.slab)[k := Inbound(state, Flow(initWindow, initWindow), 0, refs, length)]
      ensures store.Queue(NextAccept) == if refs == 0 then old(store.Queue(NextAccept)) + [k]
        else old(store.Queue(NextAccept))
      ensures forall p :: p != NextAccept ==> store.Queue(p) == old(store.Queue(p))
    {
      hide Store.Valid;
      var s := Inbound(state, Flow(initWindow, initWindow), 0, refs, length);
      UnreadPut(store.slab, k, s);
      store.Insert(k, s);
      store.IsMember(NextAccept, k);
      if refs == 0 {
        var _ := store.Push(NextAccept, k);
      }
    }

    /** A stream moves on for reasons that have nothing to do with data received. */
    method SetState(k: Key, state: State)
      requires Valid() && k in store.slab && (store.slab[k].state.Closed? ==> state.Closed?)
      modifies store`slab
      ensures Valid() && store.slab == old(store.slab)[k := old(store.slab)[k].(state := state)]
    {
      hide Store.Valid;
      var s := store.slab[k].(state := state);
      UnreadPut(store.slab, k, s);
      store.Set(k, s);
    }

    /** Takes the amount off the connection window, or refuses the data. */
    method ConsumeConnectionWindow(sz: nat) returns (ok: bool)
      requires store.Valid() && flow.window >= 0
      modifies this`flow, this`inFlight
      ensures ok == (sz <= old(flow).window)
      ensures if ok then flow == old(flow).SendData(sz) && inFlight == old(inFlight) + sz
        else flow == old(flow) && inFlight == old(inFlight)
    {
      if flow.WindowSize() < sz {
        return false;
      }
      flow := flow.SendData(sz);
      inFlight := inFlight + sz;
      return true;
    }

    method ReleaseConnectionCapacity(capacity: nat)
      requires capacity <= inFlight
      modifies this`flow, this`inFlight
      ensures flow == old(flow).Assign(capacity) && inFlight == old(inFlight) - capacity
    {
      inFlight := inFlight - capacity;
      flow := flow.Assign(capacity);
    }

    /** DATA received. Data of a locally reset stream, or of one long gone, counts against the connection and is
        released at once; so is data that breaks a limit of its stream, which is reset for it. Everything else is
        unread until released. The connection is in error if its own window is broken. */
    method RecvData(k: Key, sz: nat, eos: bool, forgotten: bool) returns (r: Option<RecvError>)
      requires Valid() && sz <= MAX_WINDOW_SIZE
      modifies this`flow, this`inFlight, store`slab
      ensures r == Some(Panics) || (Valid() && store.slab.Keys == old(store.slab).Keys)
      ensures r == Judge(old(Find(k)), sz, eos, forgotten, old(flow))
      ensures flow.window == old(flow).window - if Counts(r) then sz else 0
      ensures r != Some(Panics) ==> Processed(k, sz, eos, r, old(store.slab), store.slab, old(inFlight), inFlight)
    {
      hide Store.Valid, AllSound, AllHeld;
      var found := Find(k);
      if found.None? {
        if !forgotten {
          return Some(ConnectionProtocol);
        }
        var ok := IgnoreData(sz);
        return Some(if ok then StreamClosed else ConnectionFlowControl);
      }
      var s := found.value;
      if s.state.IsLocalReset() {
        var ok := IgnoreData(sz);
        return if ok then None else Some(ConnectionFlowControl);
      }
      if !s.state.IsRecvStreaming() {
        return Some(ConnectionProtocol);
      }
      r := RecvContent(k, sz, eos);
    }

    /** DATA for a stream that expects some. */
    method RecvContent(k: Key, sz: nat, eos: bool) returns (r: Option<RecvError>)
      requires Valid() && sz <= MAX_WINDOW_SIZE && k in store.slab && store.slab[k].state.IsRecvStreaming()
      modifies this`flow, this`inFlight, store`slab
      ensures r == Some(Panics) || (Valid() && store.slab.Keys == old(store.slab).Keys)
      ensures r == Judge(Some(old(store.slab)[k]), sz, eos, true, old(flow))
      ensures flow.window == old(flow).window - if Counts(r) then sz else 0
      ensures r != Some(Panics) ==> Processed(k, sz, eos, r, old(store.slab), store.slab, old(inFlight), inFlight)
    {
      hide Store.Valid, AllSound, AllHeld;
      SoundAt(store.slab, store.ids, initWindow, store.Queue(NextAccept), k);
      var s := store.slab[k];
      var ok := ConsumeConnectionWindow(sz);
      if !ok {
        return Some(ConnectionFlowControl);
      }
      if s.flow.WindowSize() < sz {
        Refuse(k, sz, s);
        return Some(StreamFlowControl);
      }
      var length := s.length.Dec(sz);
      if length.None? {
        Refuse(k, sz, s);
        return Some(StreamProtocol);
      }
      s := s.(length := length.value);
      if eos {
        if !s.length.IsZero() {
          Refuse(k, sz, s);
          return Some(StreamProtocol);
        }
        s := s.(state := s.state.RecvClose().value);
      }
      if !s.flow.CanSend(sz) {
        return Some(Panics);
      }
      TakeIn(k, sz, s.(flow := s.flow.SendData(sz), inFlight := s.inFlight + sz));
      return None;
    }

    /** Data that goes through is unread from now on. */
    method TakeIn(k: Key, sz: nat, s: Inbound)
      requires store.Valid() && k in store.slab && s.inFlight == store.slab[k].inFlight + sz
        && s.refs == store.slab[k].refs
      requires initWindow <= MAX_WINDOW_SIZE && AllSound(store.slab, store.ids, initWindow)
        && AllHeld(store.slab, store.Queue(NextAccept))
      requires Sound(s, k in store.ids, initWindow) && (s.refs == 0 ==> k in store.Queue(NextAccept))
      requires inFlight == UnreadTotal(store.slab) + sz
      requires flow.available + inFlight == target <= MAX_WINDOW_SIZE && 0 <= flow.window <= MAX_WINDOW_SIZE
      modifies store`slab
      ensures Valid() && store.slab == old(store.slab)[k := s]
    {
      hide Store.Valid, AllSound, AllHeld;
      UnreadPut(store.slab, k, s);
      PutSound(store.slab, store.ids, initWindow, store.Queue(NextAccept), k, s);
      store.Set(k, s);
    }

    function Find(k: Key): Option<Inbound>
      reads store`slab
    {
      if k in store.slab then Some(store.slab[k]) else None
    }

    /** Data nobody will read: taken off the connection window and released at once. */
    method IgnoreData(sz: nat) returns (ok: bool)
      requires Valid()
      modifies this`flow, this`inFlight
      ensures Valid() && inFlight == old(inFlight) && ok == (sz <= old(flow).window)
      ensures flow.window == old(flow).window - if ok then sz else 0
    {
      hide Store.Valid, AllSound, AllHeld;
      ok := ConsumeConnectionWindow(sz);
      if ok {
        ReleaseConnectionCapacity(sz);
      }
    }

    /** Data that breaks a limit of its stream: released, and the stream is reset. */
    method Refuse(k: Key, sz: nat, s: Inbound)
      requires store.Valid() && k in store.slab && s == store.slab[k].(length := s.length)
      requires initWindow <= MAX_WINDOW_SIZE && AllSound(store.slab, store.ids, initWindow)
        && AllHeld(store.slab, store.Queue(NextAccept))
      requires inFlight == UnreadTotal(store.slab) + sz
      requires flow.available + inFlight == target <= MAX_WINDOW_SIZE && 0 <= flow.window <= MAX_WINDOW_SIZE
      modifies this`flow, this`inFlight, store`slab
      ensures Valid() && flow.window == old(flow).window && inFlight == old(inFlight) - sz
      ensures store.slab == old(store.slab)[k := s.(state := Closed(LocallyReset))]
    {
      hide Store.Valid, AllSound, AllHeld;
      SoundAt(store.slab, store.ids, initWindow, store.Queue(NextAccept), k);
      UnreadWithout(store.slab, k);
      ReleaseConnectionCapacity(sz);
      var t := s.(state := Closed(LocallyReset));
      UnreadPut(store.slab, k, t);
      PutSound(store.slab, store.ids, initWindow, store.Queue(NextAccept), k, t);
      store.Set(k, t);
    }

    // ----- releasing

    /** The user is done with some of what was received. */
    method ReleaseCapacity(k: Key, capacity: nat) returns (ok: bool)
      requires Valid() && k in store.slab
      modifies this`flow, this`inFlight, store
      ensures Valid() && ok == (capacity <= old(store.slab)[k].inFlight)
      ensures !ok ==> store.slab == old(store.slab) && flow == old(flow) && inFlight == old(inFlight)
      ensures ok ==>
        var s := old(store.slab)[k];
        && store.slab == old(store.slab)[k := s.(flow := s.flow.Assign(capacity), inFlight := s.inFlight - capacity)]
        && flow == old(flow).Assign(capacity) && inFlight == old(inFlight) - capacity
      ensures var (q, q') := (old(store.Queue(NextWindowUpdate)), store.Queue(NextWindowUpdate));
        && q' == (if ok && k !in q && store.slab[k].flow.UnclaimedCapacity().Some? then q + [k] else q)
        && var due := store.slab[k].flow.available - store.slab[k].flow.window;
        q' == if ok && k !in q && due > 0 && 2 * due + 1 >= store.slab[k].flow.window then q + [k] else q
      ensures forall p :: p != NextWindowUpdate ==> store.Queue(p) == old(store.Queue(p))
    {
      hide Store.Valid, AllSound, AllHeld;
      SoundAt(store.slab, store.ids, initWindow, store.Queue(NextAccept), k);
      var s := store.slab[k];
      if capacity > s.inFlight {
        return false;
      }
      UnreadWithout(store.slab, k);
      ReleaseConnectionCapacity(capacity);
      s := s.(inFlight := s.inFlight - capacity);
      s := s.(flow := s.flow.Assign(capacity));
      UnreadPut(store.slab, k, s);
      PutSound(store.slab, store.ids, initWindow, store.Queue(NextAccept), k, s);
      store.Set(k, s);
      if s.flow.UnclaimedCapacity().Some? {
        var _ := store.Push(NextWindowUpdate, k);
      }
      return true;
    }

    /** A handle is dropped. With the last one the stream is closed, and what it left unread is released to the
        connection. */
    method DropRef(k: Key)
      requires Valid() && k in store.slab && store.slab[k].refs > 0
      modifies this`flow, this`inFlight, store`slab
      ensures Valid() && flow.window == old(flow).window
      ensures var s := old(store.slab)[k];
        if s.refs > 1 then store.slab == old(store.slab)[k := s.(refs := s.refs - 1)] && inFlight == old(inFlight)
        else
          && inFlight == old(inFlight) - s.inFlight
          && store.slab == old(store.slab)[k :=
            s.(refs := 0, inFlight := 0, state := if s.state.Closed? then s.state else Closed(Scheduled))]
    {
      hide Store.Valid, AllSound, AllHeld;
      SoundAt(store.slab, store.ids, initWindow, store.Queue(NextAccept), k);
      var s := store.slab[k];
      s := s.(refs := s.refs - 1);
      UnreadWithout(store.slab, k);
      if s.refs == 0 && !s.state.Closed? {
        s := s.(state := Closed(Scheduled));
      }
      if s.refs == 0 {
        ReleaseConnectionCapacity(s.inFlight);
        s := s.(inFlight := 0);
      }
      UnreadPut(store.slab, k, s);
      PutSound(store.slab, store.ids, initWindow, store.Queue(NextAccept), k, s);
      store.Set(k, s);
    }

    /** The next stream the peer opened, with a handle. */
    method NextIncoming() returns (k: Option<Key>)
      requires Valid()
      modifies store
      ensures Valid() && (k.None? <==> old(store.Queue(NextAccept)) == [])
      ensures k.None? ==> store.slab == old(store.slab)
      ensures k.Some? ==>
        && k.value in old(store.slab) && old(store.Queue(NextAccept)) == [k.value] + store.Queue(NextAccept)
        && store.slab ==
          old(store.slab)[k.value := old(store.slab)[k.value].(refs := old(store.slab)[k.value].refs + 1)]
    {
      hide Store.Valid, AllSound, AllHeld;
      ghost var accepting := store.Queue(NextAccept);
      k := store.Pop(NextAccept);
      if k.Some? {
        var s := store.slab[k.value];
        s := s.(refs := s.refs + 1);
        UnreadPut(store.slab, k.value, s);
        HandedOut(store.slab, store.ids, initWindow, accepting, store.Queue(NextAccept), k.value, s);
        store.Set(k.value, s);
      }
    }

    /** A stream taken off the front of the queue, with a handle instead. */
    lemma HandedOut(m: map<Key, Inbound>, ids: seq<Key>, init: nat, accepting: seq<Key>, after: seq<Key>, k: Key,
                    s: Inbound)
      requires AllSound(m, ids, init) && AllHeld(m, accepting)
      requires accepting == [k] + after && k in m && s == m[k].(refs := m[k].refs + 1)
      ensures AllSound(m[k := s], ids, init) && AllHeld(m[k := s], after)
    {
      assert forall j :: j in accepting && j != k ==> j in after;
    }

    /** A closed stream leaves the index, and is freed once nothing refers to it. It has nothing unread then. */
    method Forget(k: Key)
      requires Valid() && k in store.slab && store.slab[k].state.Closed?
      requires store.slab[k].refs == 0 && forall q :: !store.IsQueued(q, k)
      modifies store
      ensures Valid() && store.slab == old(store.slab) - {k} && old(store.slab)[k].inFlight == 0
    {
      hide Store.Valid;
      store.IsMember(NextAccept, k);
      assert !store.IsQueued(NextAccept, k);
      UnreadWithout(store.slab, k);
      Unlinked(k);
      store.Unlink(k);
      store.Remove(k);
    }

    lemma Unlinked(k: Key)
      requires store.Valid() && AllSound(store.slab, store.ids, initWindow) && k in store.slab
        && store.slab[k].state.Closed?
      ensures k !in SwapRemove(store.ids, k) && AllSound(store.slab - {k}, SwapRemove(store.ids, k), initWindow)
    {
      SwapRemoved(store.ids, k);
    }

    // ----- announcing

    /** The user sets how much the peer may have under way on the connection. */
    method SetTargetConnectionWindow(size: nat)
      requires Valid() && size <= MAX_WINDOW_SIZE
      modifies this`flow, this`target
      ensures Valid() && target == size && flow.window == old(flow).window
    {
      hide Store.Valid, AllSound, AllHeld;
      var current: nat := flow.available + inFlight;
      if size > current {
        flow := flow.Assign(size - current);
      } else {
        flow := flow.Claim(current - size);
      }
      target := size;
    }

    /** The WINDOW_UPDATE of the connection, if one is due. It restores the window. */
    method SendConnectionWindowUpdate() returns (incr: Option<nat>)
      requires Valid()
      modifies this`flow
      ensures Valid() && incr == old(flow).UnclaimedCapacity()
      ensures var due := old(flow).available - old(flow).window;
        && (incr.Some? <==> due > 0 && 2 * due + 1 >= old(flow).window)
        && (incr.Some? ==> incr.value == due)
      ensures incr.Some? ==>
        incr.value > 0 && flow == old(flow).(window := flow.available) && flow.window == old(flow).window + incr.value
      ensures incr.None? ==> flow == old(flow)
    {
      hide Store.Valid, AllSound, AllHeld;
      incr := flow.UnclaimedCapacity();
      if incr.Some? {
        UpdateRestores(flow, MAX_WINDOW_SIZE);
        flow := flow.IncWindow(incr.value).value;
      }
    }

    /** The next WINDOW_UPDATE of a stream, if one is due; `done` when no stream is waiting. The update never takes
        the window above what it may be. */
    method SendStreamWindowUpdate() returns (update: Option<(Key, nat)>, done: bool)
      requires Valid()
      modifies store
      ensures Valid() && (done <==> old(store.Queue(NextWindowUpdate)) == [])
      ensures if done then store.Queue(NextWindowUpdate) == []
        else old(store.Queue(NextWindowUpdate))[1..] == store.Queue(NextWindowUpdate)
      ensures forall p :: p != NextWindowUpdate ==> store.Queue(p) == old(store.Queue(p))
      ensures done ==> update.None?
      ensures update.None? ==> store.slab == old(store.slab)
      ensures update.None? && !done ==>
        var k := old(store.Queue(NextWindowUpdate))[0];
        && k in store.slab
        && var due := store.slab[k].flow.available - store.slab[k].flow.window;
        !store.slab[k].state.IsRecvStreaming() || due <= 0 || 2 * due + 1 < store.slab[k].flow.window
      ensures update.Some? ==>
        var (k, incr) := update.value;
        && !done && k == old(store.Queue(NextWindowUpdate))[0]
        && k in old(store.slab) && old(store.slab)[k].state.IsRecvStreaming() && incr > 0
        && incr == old(store.slab)[k].flow.available - old(store.slab)[k].flow.window
        && 2 * incr + 1 >= old(store.slab)[k].flow.window
        && store.slab == old(store.slab)[k :=
          old(store.slab)[k].(flow := old(store.slab)[k].flow.(window := old(store.slab)[k].flow.available))]
    {
      hide Store.Valid;
      var k := store.Pop(NextWindowUpdate);
      if k.None? {
        return None, true;
      }
      var s := store.slab[k.value];
      if !s.state.IsRecvStreaming() {
        return None, false;
      }
      var incr := s.flow.UnclaimedCapacity();
      if incr.None? {
        return None, false;
      }
      UpdateRestores(s.flow, initWindow);
      s := s.(flow := s.flow.IncWindow(incr.value).value);
      UnreadPut(store.slab, k.value, s);
      store.Set(k.value, s);
      return Some((k.value, incr.value)), false;
    }

    /** A new initial window, once the peer knows of it: every stream in the index moves by the difference. No
        window becomes too large by it. */
    method ApplyLocalSettings(val: nat)
      requires Valid() && val <= MAX_WINDOW_SIZE
      modifies this`initWindow, store`slab
      ensures Valid() && initWindow == val
      ensures store.slab.Keys == old(store.slab).Keys
      ensures forall k :: k in store.slab && k in store.ids ==>
        store.slab[k] == Moved(old(store.slab)[k], val - old(initWindow))
      ensures forall k :: k in store.slab && k !in store.ids ==> store.slab[k] == old(store.slab)[k]
    {
      hide Store.Valid;
      ghost var m := store.slab;
      var was := initWindow;
      initWindow := val;
      StoreIds();
      if val != was {
        for i := 0 to |store.ids|
          invariant store.Valid() && store.slab.Keys == m.Keys && UnreadTotal(store.slab) == UnreadTotal(m)
          invariant forall k :: k in m ==> store.slab[k] == if k in store.ids[..i] then Moved(m[k], val - was) else m[k]
          modifies store`slab
        {
          var k := store.ids[i];
          assert store.ids[..i + 1] == store.ids[..i] + [k];
          assert k !in store.ids[..i];
          assert Sound(m[k], true, was);
          MoveWindow(k, was, val);
        }
        assert store.ids[..|store.ids|] == store.ids;
      }
    }

    /** Moves the window of one stream, and what it may be restored to. */
    method MoveWindow(k: Key, was: nat, val: nat)
      requires store.Valid() && k in store.slab && Sound(store.slab[k], true, was) && val <= MAX_WINDOW_SIZE
      modifies store`slab
      ensures store.Valid() && store.slab == old(store.slab)[k := Moved(old(store.slab)[k], val - was)]
      ensures UnreadTotal(store.slab) == UnreadTotal(old(store.slab))
    {
      hide Store.Valid;
      var s := store.slab[k];
      if val < was {
        s := s.(flow := s.flow.DecRecvWindow(was - val));
      } else {
        var f := s.flow.IncWindow(val - was);
        s := s.(flow := f.value.Assign(val - was));
      }
      UnreadPut(store.slab, k, s);
      store.Set(k, s);
    }

    /** A stream that is not in the index is closed. */
    lemma OpenAreLinked()
      requires Valid()
      ensures forall k :: k in store.slab && !store.slab[k].state.Closed? ==> k in store.ids
    {
    }

    /** What holds in every state the receiving side can reach: the connection accounts for all that is unread, and
        every stream that is not closed for its own share; so an update that is due is positive and admissible. */
    lemma Guarantees(k: Key)
      requires Valid()
      ensures inFlight == UnreadTotal(store.slab) && flow.available + inFlight == target
        && 0 <= flow.window <= MAX_WINDOW_SIZE
      ensures flow.UnclaimedCapacity().Some? ==>
        flow.UnclaimedCapacity().value > 0 && flow.IncWindow(flow.UnclaimedCapacity().value).Some?
      ensures k in store.slab && !store.slab[k].state.Closed? ==>
        var s := store.slab[k];
        && s.flow.available + s.inFlight == initWindow && s.flow.window <= s.flow.available
        && (s.flow.UnclaimedCapacity().Some? ==>
            s.flow.UnclaimedCapacity().value > 0 && s.flow.IncWindow(s.flow.UnclaimedCapacity().value).Some?)
    {
      hide Store.Valid;
      if flow.UnclaimedCapacity().Some? {
        UpdateRestores(flow, target);
      }
      if k in store.slab && !store.slab[k].state.Closed? {
        SoundAt(store.slab, store.ids, initWindow, store.Queue(NextAccept), k);
        if store.slab[k].flow.UnclaimedCapacity().Some? {
          UpdateRestores(store.slab[k].flow, initWindow);
        }
      }
    }

    lemma StoreIds()
      requires store.Valid()
      ensures NoDup(store.ids) && forall k :: k in store.ids ==> k in store.slab
    {
    }
  }

  const DEFAULT_INITIAL_WINDOW: nat := 65_535

  /** A stream whose initial window moved. */
  function Moved(s: Inbound, d: int): Inbound {
    s.(flow := Flow(s.flow.window + d, s.flow.available + d))
  }

  /** Data may be taken in: it is within the window and within the announced length, and complete at the end. */
  predicate Accepts(s: Inbound, sz: nat, eos: bool) {
    && s.state.IsRecvStreaming() && s.flow.CanSend(sz) && s.length.Dec(sz).Some?
    && (eos ==> s.length.Dec(sz).value.IsZero())
  }

  /** A stream after `sz` bytes of content, and the end of it if `eos`. */
  function Received(s: Inbound, sz: nat, eos: bool): (r: Inbound)
    requires Accepts(s, sz, eos)
    ensures r.inFlight == s.inFlight + sz && r.flow.window == s.flow.window - sz && r.refs == s.refs
    ensures r.length == match s.length case Remaining(n) => Remaining(n - sz) case other => other
    ensures !s.state.IsReset() && r.state.Stands(s.state.SendHalf(), Onward(eos))
  {
    s.(state := if eos then s.state.RecvClose().value
       else s.state, flow := s.flow.SendData(sz), inFlight := s.inFlight + sz, length := s.length.Dec(sz).value)
  }

  /** What is to be said of data for a stream, if there is one. */
  function Judge(found: Option<Inbound>, sz: nat, eos: bool, forgotten: bool, conn: Flow): Option<RecvError> {
    match found
    case None =>
      Some(if !forgotten then ConnectionProtocol else if sz > conn.window then ConnectionFlowControl else StreamClosed)
    case Some(s) =>
      if !s.state.IsLocalReset() && !s.state.IsRecvStreaming() then Some(ConnectionProtocol)
      else if sz > conn.window then Some(ConnectionFlowControl)
      else if s.state.IsLocalReset() || Accepts(s, sz, eos) then None
      else if sz > s.flow.WindowSize() then Some(StreamFlowControl)
      else if s.length.Dec(sz).None? || (eos && !s.length.Dec(sz).value.IsZero()) then Some(StreamProtocol)
      else Some(Panics)
  }

  /** The assertion fails exactly for empty data, otherwise in order, on a stream whose window is negative. */
  lemma PanicsExactly(s: Inbound, sz: nat, eos: bool, forgotten: bool, conn: Flow)
    ensures Judge(Some(s), sz, eos, forgotten, conn) == Some(Panics) <==>
      && s.state.IsRecvStreaming() && sz <= conn.window && sz == 0 && s.flow.window < 0
      && s.length.Dec(0).Some? && (eos ==> s.length.Dec(0).value.IsZero())
  {
  }

  /** Verdict by verdict: whose window or promise is broken, and that of the connection first. */
  lemma VerdictIs(found: Option<Inbound>, sz: nat, eos: bool, forgotten: bool, conn: Flow)
    ensures var r := Judge(found, sz, eos, forgotten, conn);
      var unexpected := if found.None? then !forgotten
        else !found.value.state.IsRecvStreaming() && !found.value.state.IsLocalReset();
      var open := found.Some? && found.value.state.IsRecvStreaming();
      && (r == Some(ConnectionProtocol) <==> unexpected)
      && (r == Some(ConnectionFlowControl) <==> !unexpected && sz > conn.window)
      && (r == Some(StreamClosed) <==> found.None? && forgotten && sz <= conn.window)
      && (r == Some(StreamFlowControl) <==> open && sz <= conn.window && sz > found.value.flow.WindowSize())
      && (open && sz <= conn.window && sz <= found.value.flow.WindowSize() ==>
          (r == Some(StreamProtocol) <==> match found.value.length
                                          case Omitted => false
                                          case Head => sz > 0
                                          case Remaining(n) => sz > n || (eos && sz < n)))
      && (r == Some(StreamProtocol) ==> open)
      && (r == None && open ==> sz <= conn.window && sz <= found.value.flow.window)
  {
  }

  /** What data does: accepted, it is unread; otherwise nothing is, and a stream whose limit it broke is reset. */
  ghost predicate Processed(k: Key, sz: nat, eos: bool, r: Option<RecvError>, m: map<Key, Inbound>, m': map<Key,
                            Inbound>, inFlight: nat, inFlight': nat) {
    if k in m && r.None? && !m[k].state.IsLocalReset() then
      Accepts(m[k], sz, eos) && inFlight' == inFlight + sz && m' == m[k := Received(m[k], sz, eos)]
    else if k in m && r.Some? && r.value.OfStream() then
      && inFlight' == inFlight
      && m' == m[k := m[k].(state := Closed(LocallyReset), length := LengthLeft(m[k], sz, r.value))]
    else m' == m && inFlight' == inFlight
  }

  /** The announced length after data was refused: content that ends too early was counted before. */
  function LengthLeft(s: Inbound, sz: nat, e: RecvError): ContentLength {
    if e.StreamProtocol? && s.length.Dec(sz).Some? then s.length.Dec(sz).value else s.length
  }

  /** Whether data was taken off the connection window. */
  predicate Counts(r: Option<RecvError>) {
    r.None? || r.value.OfStream() || r.value.Panics?
  }
}
