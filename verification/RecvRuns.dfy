/** Whole runs of the receiving side: the windows kept here against those a peer keeps for itself, which knows only
    what it sent and what it was told. */
module RecvRuns {
  import opened Headers
  import opened FlowControl
  import opened StreamState
  import opened StreamStore
  import opened RecvFlow

  /** What can happen to the receiving side. A DATA frame comes with the length of its payload and, if it is padded,
      that of the padding. */
  datatype Event =
    | Opens(k: Key, state: State, refs: nat, length: ContentLength)
    | Moves(k: Key, state: State)
    | Content(k: Key, frame: nat, pad: Option<nat>, eos: bool, forgotten: bool)
    | Release(k: Key, capacity: nat)
    | DropHandle(k: Key)
    | Accept
    | Target(size: nat)
    | UpdateConnection
    | UpdateStream
    | Settings(val: nat)
    | Freed(k: Key)

  /** How much content is left of a payload once the padding, and the byte that says how much, are stripped; `None`
      if it is padded with more than it holds. */
  function Stripped(frame: nat, pad: Option<nat>): (size: Option<nat>)
    ensures size.Some? ==> size.value <= frame && (size.value == frame <==> pad.None?)
  {
    match pad
    case None => Some(frame)
    case Some(n) => if n >= frame then None else Some(frame - n - 1)
  }

  /** What the peer knows of it: a stream opened with a window; a frame whose content went through, was dropped, or
      made an error of the connection; windows widened; and all stream windows moved. */
  datatype Entry =
    | Opened(k: Key, window: nat)
    | Took(k: Key, frame: nat, size: nat)
    | Dropped(frame: nat, size: nat)
    | Rejected(k: Key, frame: nat)
    | Widened(incr: nat)
    | StreamWidened(k: Key, incr: nat)
    | Shifted(d: int)
    | Nothing

  /** The connection window as the peer counts it: less every payload, padding and all. */
  function ConnectionView(log: seq<Entry>): int {
    if log == [] then DEFAULT_INITIAL_WINDOW
    else
      ConnectionView(log[..|log| - 1]) +
      match log[|log| - 1]
      case Took(_, frame, _) => 0 - frame
      case Dropped(frame, _) => 0 - frame
      case Rejected(_, frame) => 0 - frame
      case Widened(incr) => incr
      case _ => 0
  }

  /** The window of a stream as the peer counts it. */
  function StreamView(log: seq<Entry>, k: Key): int {
    if log == [] then 0
    else
      var v := StreamView(log[..|log| - 1], k);
      match log[|log| - 1]
      case Opened(j, window) => if j == k then window else v
      case Took(j, frame, _) => if j == k then v - frame else v
      case Rejected(j, frame) => if j == k then v - frame else v
      case StreamWidened(j, incr) => if j == k then v + incr else v
      case Shifted(d) => v + d
      case _ => v
  }

  /** What the peer counted of a frame and this side did not: the padding and the byte that says how much, or all of
      a frame that was an error of the connection. */
  function Uncounted(e: Entry): int {
    match e
    case Took(_, frame, size) => frame - size
    case Dropped(frame, size) => frame - size
    case Rejected(_, frame) => frame
    case _ => 0
  }

  function ConnectionDrift(log: seq<Entry>): int {
    if log == [] then 0 else ConnectionDrift(log[..|log| - 1]) + Uncounted(log[|log| - 1])
  }

  function StreamDrift(log: seq<Entry>, k: Key): int {
    if log == [] then 0
    else
      var e, d := log[|log| - 1], StreamDrift(log[..|log| - 1], k);
      if e.Opened? && e.k == k then 0
      else if (e.Took? || e.Rejected?) && e.k == k then d + Uncounted(e) else d
  }

  lemma Viewed(log: seq<Entry>, e: Entry, k: Key)
    ensures ConnectionView(log + [e]) == ConnectionView(log) +
      (if e.Took? || e.Dropped? || e.Rejected? then 0 - e.frame else if e.Widened? then e.incr else 0)
    ensures ConnectionDrift(log + [e]) == ConnectionDrift(log) + Uncounted(e)
    ensures StreamView(log + [e], k) == (
      if e.Opened? && e.k == k then e.window
      else if (e.Took? || e.Rejected?) && e.k == k then StreamView(log, k) - e.frame
      else if e.StreamWidened? && e.k == k then StreamView(log, k) + e.incr
      else if e.Shifted? then StreamView(log, k) + e.d else StreamView(log, k))
    ensures StreamDrift(log + [e], k) == (
      if e.Opened? && e.k == k then 0
      else if (e.Took? || e.Rejected?) && e.k == k then StreamDrift(log, k) + Uncounted(e) else StreamDrift(log, k))
  {
    assert (log + [e])[..|log + [e]| - 1] == log;
  }

  /** No more content than the frame holds. */
  predicate Plausible(log: seq<Entry>) {
    forall i :: 0 <= i < |log| && (log[i].Took? || log[i].Dropped?) ==> log[i].size <= log[i].frame
  }

  /** The windows kept are those the peer counts and what it counted in vain, of the connection and of every stream
      that is not closed. */
  ghost predicate Agree(conn: Flow, m: map<Key, Inbound>, log: seq<Entry>) {
    && Plausible(log)
    && conn.window == ConnectionView(log) + ConnectionDrift(log)
    && forall k :: k in m && !m[k].state.Closed? ==> m[k].flow.window == StreamView(log, k) + StreamDrift(log, k)
  }

  /** What an event does to the windows, in the words of the log. */
  ghost predicate Follows(conn: Flow, m: map<Key, Inbound>, conn': Flow, m': map<Key, Inbound>, e: Entry) {
    && (e.Took? || e.Dropped? ==> e.size <= e.frame)
    && conn'.window == conn.window + (if e.Took? || e.Dropped? then 0 - e.size else if e.Widened? then e.incr else 0)
    && forall k :: k in m' && !m'[k].state.Closed? ==>
         if e.Opened? && e.k == k then m'[k].flow.window == e.window
         else
           && k in m && !m[k].state.Closed?
           && m'[k].flow.window == m[k].flow.window +
             if e.Took? && e.k == k then 0 - e.size
             else if e.StreamWidened? && e.k == k then e.incr
             else if e.Shifted? then e.d else 0
  }

  lemma StillAgree(conn: Flow, m: map<Key, Inbound>, conn': Flow, m': map<Key, Inbound>, log: seq<Entry>, e: Entry)
    requires Agree(conn, m, log) && Follows(conn, m, conn', m', e)
    ensures Agree(conn', m', log + [e])
  {
    Viewed(log, e, 0);
    forall k | k in m' && !m'[k].state.Closed?
      ensures m'[k].flow.window == StreamView(log + [e], k) + StreamDrift(log + [e], k) {
      Viewed(log, e, k);
    }
  }

  /** Every payload was content only, and none an error of the connection. */
  predicate Unpadded(log: seq<Entry>) {
    forall i :: 0 <= i < |log| ==> Uncounted(log[i]) == 0
  }

  /** So it was for stream `k` since it was opened. */
  predicate StreamUnpadded(log: seq<Entry>, k: Key) {
    log != [] ==>
      var e := log[|log| - 1];
      (e.Opened? && e.k == k)
        || ((((e.Took? || e.Rejected?) && e.k == k) ==> Uncounted(e) == 0) && StreamUnpadded(log[..|log| - 1], k))
  }

  /** The peer never counts more than is kept here, and the same just if nothing was padded. */
  lemma {:induction false} DriftIsPadding(log: seq<Entry>, k: Key)
    requires Plausible(log)
    ensures ConnectionDrift(log) >= 0 && (ConnectionDrift(log) == 0 <==> Unpadded(log))
    ensures StreamDrift(log, k) >= 0 && (StreamDrift(log, k) == 0 <==> StreamUnpadded(log, k))
  {
    if log != [] {
      var shorter := log[..|log| - 1];
      DriftIsPadding(shorter, k);
      if Unpadded(shorter) && Uncounted(log[|log| - 1]) == 0 {
        forall i | 0 <= i < |log| ensures Uncounted(log[i]) == 0 {
          if i < |shorter| {
            assert shorter[i] == log[i];
          }
        }
      }
      if Unpadded(log) {
        forall i | 0 <= i < |shorter| ensures Uncounted(shorter[i]) == 0 {
          assert shorter[i] == log[i];
        }
      }
    }
  }

  /** The windows kept are those the peer counts for itself exactly if no padded DATA was received, and no DATA was an
      error of the connection; otherwise the peer's are smaller. */
  lemma ViewsAgreeExactly(conn: Flow, m: map<Key, Inbound>, log: seq<Entry>, k: Key)
    requires Agree(conn, m, log)
    ensures ConnectionView(log) <= conn.window && (ConnectionView(log) == conn.window <==> Unpadded(log))
    ensures k in m && !m[k].state.Closed? ==>
      StreamView(log, k) <= m[k].flow.window && (StreamView(log, k) == m[k].flow.window <==> StreamUnpadded(log, k))
  {
    DriftIsPadding(log, k);
  }

  predicate NotReopened(log: seq<Entry>, k: Key) {
    forall i :: 0 <= i < |log| ==> !(log[i].Opened? && log[i].k == k)
  }

  lemma {:induction false} DriftNeverFalls(log: seq<Entry>, more: seq<Entry>, k: Key)
    requires Plausible(log + more)
    ensures ConnectionDrift(log) <= ConnectionDrift(log + more)
    ensures NotReopened(more, k) ==> StreamDrift(log, k) <= StreamDrift(log + more, k)
  {
    if more == [] {
      assert log + more == log;
    } else {
      var all, shorter := log + more, more[..|more| - 1];
      assert all[..|all| - 1] == log + shorter && all[|all| - 1] == more[|more| - 1];
      assert forall i :: 0 <= i < |log + shorter| ==> (log + shorter)[i] == all[i];
      DriftNeverFalls(log, shorter, k);
    }
  }

  /** Nothing ever returns what padding took: however much is released and announced from then on, a peer never counts
      more than the largest window less all the padding it sent on the connection, nor on a stream more than the
      initial window less what it sent there. */
  lemma PaddingIsLost(r: Receiver, before: seq<Entry>, log: seq<Entry>, k: Key)
    requires r.Valid() && Agree(r.flow, r.store.slab, log) && before <= log
    ensures ConnectionView(log) <= MAX_WINDOW_SIZE - ConnectionDrift(before)
    ensures ConnectionDrift(before) >= MAX_WINDOW_SIZE ==> ConnectionView(log) <= 0
    ensures k in r.store.slab && !r.store.slab[k].state.Closed? && NotReopened(log[|before|..], k) ==>
      StreamView(log, k) <= r.initWindow - StreamDrift(before, k)
  {
    hide Store.Valid;
    r.Guarantees(k);
    assert before + log[|before|..] == log;
    DriftNeverFalls(before, log[|before|..], k);
  }

  /** An event that can happen. */
  predicate CanHappen(r: Receiver, e: Event)
    reads r, r.store
  {
    match e
    case Opens(k, state, _, _) => k !in r.store.slab && !state.Closed?
    case Moves(k, state) => k in r.store.slab && (r.store.slab[k].state.Closed? ==> state.Closed?)
    case Content(_, frame, pad, _, _) => Stripped(frame, pad).Some? && frame <= MAX_WINDOW_SIZE
    case Release(k, _) => k in r.store.slab
    case DropHandle(k) => k in r.store.slab && r.store.slab[k].refs > 0
    case Target(size) => size <= MAX_WINDOW_SIZE
    case Settings(val) => val <= MAX_WINDOW_SIZE
    case Freed(k) =>
      k in r.store.slab && r.store.slab[k].state.Closed? && r.store.slab[k].refs == 0 &&
      !r.store.IsQueued(NextSend, k) && !r.store.IsQueued(NextSendCapacity, k) && !r.store.IsQueued(NextOpen, k) &&
      !r.store.IsQueued(NextAccept, k) && !r.store.IsQueued(NextWindowUpdate, k)
        && !r.store.IsQueued(NextResetExpire, k)
    case _ => true
  }

  /** Data, and what the peer is to make of it. Only the content counts against the windows. */
  method HandleContent(r: Receiver, k: Key, frame: nat, pad: Option<nat>, eos: bool, forgotten: bool)
    returns (entry: Entry, panicked: bool)
    requires r.Valid() && Stripped(frame, pad).Some? && frame <= MAX_WINDOW_SIZE
    modifies r`flow, r`inFlight, r.store`slab
    ensures panicked || (r.Valid() && Follows(old(r.flow), old(r.store.slab), r.flow, r.store.slab, entry))
    ensures var error := Judge(old(r.Find(k)), Stripped(frame, pad).value, eos, forgotten, old(r.flow));
      && panicked == (error == Some(Panics))
      && if !Counts(error) then entry == Rejected(k, frame)
         else if k in old(r.store.slab) && error.None? && !old(r.store.slab)[k].state.IsLocalReset() then
           entry == Took(k, frame, Stripped(frame, pad).value)
         else entry == Dropped(frame, Stripped(frame, pad).value)
    ensures var size := Stripped(frame, pad).value;
      !panicked ==> Processed(k, size, eos, Judge(old(r.Find(k)), size, eos, forgotten, old(r.flow)), old(r.store.slab),
                              r.store.slab, old(r.inFlight), r.inFlight)
    ensures r.flow.window ==
      old(r.flow).window - if Counts(Judge(old(r.Find(k)), Stripped(frame, pad).value, eos, forgotten, old(r.flow)))
      then Stripped(frame, pad).value else 0
  {
    hide Receiver.Valid;
    var size := Stripped(frame, pad).value;
    var found := r.Find(k);
    var error := r.RecvData(k, size, eos, forgotten);
    panicked := error == Some(Panics);
    entry := if !Counts(error) then Rejected(k, frame)
      else if found.Some? && error.None? && !found.value.state.IsLocalReset() then Took(k, frame, size)
        else Dropped(frame, size);
  }

  method Handle(r: Receiver, e: Event) returns (entry: Entry, panicked: bool)
    requires r.Valid() && CanHappen(r, e)
    modifies r, r.store
    ensures panicked || (r.Valid() && Follows(old(r.flow), old(r.store.slab), r.flow, r.store.slab, entry))
  {
    hide Receiver.Valid, Processed, Judge, Stripped;
    ghost var m := r.store.slab;
    entry, panicked := Nothing, false;
    match e {
      case Opens(k, state, refs, length) =>
        entry := Opened(k, r.initWindow);
        r.Open(k, state, refs, length);
      case Moves(k, state) => r.SetState(k, state);
      case Content(k, frame, pad, eos, forgotten) => entry, panicked := HandleContent(r, k, frame, pad, eos, forgotten);
      case Release(k, capacity) => var _ := r.ReleaseCapacity(k, capacity);
      case DropHandle(k) => r.DropRef(k);
      case Accept => var _ := r.NextIncoming();
      case Target(size) => r.SetTargetConnectionWindow(size);
      case UpdateConnection =>
        var incr := r.SendConnectionWindowUpdate();
        if incr.Some? {
          entry := Widened(incr.value);
        }
      case UpdateStream =>
        var update, done := r.SendStreamWindowUpdate();
        if update.Some? {
          entry := StreamWidened(update.value.0, update.value.1);
        }
      case Settings(val) =>
        entry := Shifted(val - r.initWindow);
        r.OpenAreLinked();
        r.ApplyLocalSettings(val);
      case Freed(k) =>
        NoQueue(r, k);
        r.Forget(k);
    }
  }

  lemma NoQueue(r: Receiver, k: Key)
    requires CanHappen(r, Freed(k))
    ensures forall q :: !r.store.IsQueued(q, k)
  {
    forall q ensures !r.store.IsQueued(q, k) {
      match q
      case NextSend => case NextSendCapacity => case NextOpen =>
      case NextAccept => case NextWindowUpdate => case NextResetExpire =>
    }
  }

  /** Over every run, in every order of events: as long as the assertion of a stream's window does not fail, the
      windows kept here are those the peer counts for itself, and what it counted of padding beside. An event that
      cannot happen is passed over. */
  method Run(r: Receiver, events: seq<Event>) returns (log: seq<Entry>, panicked: bool)
    requires r.Valid() && r.store.slab == map[] && r.flow.window == DEFAULT_INITIAL_WINDOW
    modifies r, r.store
    ensures panicked || (r.Valid() && Agree(r.flow, r.store.slab, log))
  {
    hide Receiver.Valid, CanHappen, Follows, Agree;
    log := [];
    Beginning(r.flow);
    for i := 0 to |events|
      invariant r.Valid() && Agree(r.flow, r.store.slab, log)
    {
      if CanHappen(r, events[i]) {
        ghost var conn, m := r.flow, r.store.slab;
        var entry, failed := Handle(r, events[i]);
        if failed {
          return log, true;
        }
        StillAgree(conn, m, r.flow, r.store.slab, log, entry);
        log := log + [entry];
      }
    }
    return log, false;
  }

  /** It can come to that: `n` frames with nothing but the most padding a frame can hold leave every window kept here as
      it was, so that no update is due, while the peer counts down. After 255 of them it may not send another. */
  method PaddingStarves(r: Receiver, k: Key, n: nat) returns (log: seq<Entry>)
    requires r.Valid() && r.store.slab == map[] && r.flow == Flow(DEFAULT_INITIAL_WINDOW, DEFAULT_INITIAL_WINDOW)
    modifies r, r.store
    ensures r.Valid() && Agree(r.flow, r.store.slab, log)
    ensures r.flow == old(r.flow) && r.flow.UnclaimedCapacity().None?
    ensures k in r.store.slab && r.store.slab[k].flow == Flow(r.initWindow, r.initWindow)
      && r.store.slab[k].flow.UnclaimedCapacity().None?
    ensures ConnectionView(log) == DEFAULT_INITIAL_WINDOW - 256 * n && StreamView(log, k) == r.initWindow - 256 * n
    ensures n >= 255 ==> ConnectionView(log) < 256
  {
    hide Receiver.Valid, Agree, Follows, Judge, ConnectionView, StreamView;
    Beginning(r.flow);
    ghost var m0 := r.store.slab;
    r.Open(k, Open(Streaming, Streaming), 1, Omitted);
    log := [Opened(k, r.initWindow)];
    ghost var s := r.store.slab[k];
    Announced(r.flow, m0, k, s, log[0]);
    for i := 0 to n
      invariant r.Valid() && Agree(r.flow, r.store.slab, log) && r.store.slab == m0[k := s]
      invariant r.flow == old(r.flow) && r.initWindow == old(r.initWindow)
      invariant ConnectionView(log) == DEFAULT_INITIAL_WINDOW - 256 * i && StreamView(log, k) == r.initWindow - 256 * i
    {
      ghost var conn, m := r.flow, r.store.slab;
      NothingReceived(s, conn);
      Balance(r);
      var entry, panicked := HandleContent(r, k, 256, Some(255), false, false);
      Balance(r);
      assert r.store.slab == m[k := s];
      StillAgree(conn, m, r.flow, r.store.slab, log, entry);
      Viewed(log, entry, k);
      log := log + [entry];
    }
  }

  lemma Announced(conn: Flow, m: map<Key, Inbound>, k: Key, s: Inbound, e: Entry)
    requires m == map[] && conn.window == DEFAULT_INITIAL_WINDOW && s.flow.window >= 0 && e == Opened(k, s.flow.window)
    ensures Agree(conn, m[k := s], [e])
    ensures ConnectionView([e]) == DEFAULT_INITIAL_WINDOW && StreamView([e], k) == s.flow.window
  {
    assert [] + [e] == [e];
    Viewed([], e, k);
    StillAgree(conn, m, conn, m[k := s], [], e);
  }

  lemma Balance(r: Receiver)
    requires r.Valid()
    ensures r.flow.available + r.inFlight == r.target
  {
  }

  lemma NothingReceived(s: Inbound, conn: Flow)
    requires s.state == Open(Streaming, Streaming) && s.flow.window >= 0 && s.length == Omitted && conn.window >= 0
    ensures Judge(Some(s), 0, false, false, conn) == None && Received(s, 0, false) == s
  {
  }

  lemma Beginning(conn: Flow)
    requires conn.window == DEFAULT_INITIAL_WINDOW
    ensures Agree(conn, map[], [])
  {
  }

  /** A peer that keeps to its own count of the windows is never told that it broke one, padded or not. */
  lemma WithinViewIsWithinWindow(r: Receiver, log: seq<Entry>, k: Key, frame: nat, pad: Option<nat>, eos: bool,
                                 forgotten: bool)
    requires Agree(r.flow, r.store.slab, log) && Stripped(frame, pad).Some?
    requires frame <= ConnectionView(log) && frame <= StreamView(log, k)
    ensures var error := Judge(r.Find(k), Stripped(frame, pad).value, eos, forgotten, r.flow);
      error != Some(ConnectionFlowControl) && error != Some(StreamFlowControl) && error != Some(Panics)
  {
    DriftIsPadding(log, k);
  }

  /** Unless something was padded, a peer that used up the connection window gets an update once all that it sent has
      been released. */
  lemma UsedUpIsRestored(r: Receiver, log: seq<Entry>)
    requires r.Valid() && Agree(r.flow, r.store.slab, log) && Unpadded(log)
    requires r.inFlight == 0 < r.target && ConnectionView(log) <= 0
    ensures r.flow.UnclaimedCapacity() == Some(r.target - ConnectionView(log))
  {
    hide AllSound, AllHeld;
    DriftIsPadding(log, 0);
    UsedUpMeansDue(r.flow);
  }

  /** Unless something was padded, a peer may always send more than two thirds of the target once all that it sent has
      been released and every update that is due has been sent; and so on every open stream. */
  lemma NeverStarved(r: Receiver, log: seq<Entry>, k: Key)
    requires r.Valid() && Agree(r.flow, r.store.slab, log)
    ensures Unpadded(log) && r.inFlight == 0 < r.target && r.flow.UnclaimedCapacity().None? ==>
      3 * ConnectionView(log) > 2 * r.target
    ensures k in r.store.slab && !r.store.slab[k].state.Closed? && StreamUnpadded(log, k) && 0 < r.initWindow ==>
      var s := r.store.slab[k];
      s.inFlight == 0 && s.flow.UnclaimedCapacity().None? ==> 3 * StreamView(log, k) > 2 * r.initWindow
  {
    hide Store.Valid;
    DriftIsPadding(log, k);
    r.Guarantees(k);
    if r.flow.UnclaimedCapacity().None? && r.inFlight == 0 < r.target {
      NotDueMeansWide(r.flow);
    }
    if k in r.store.slab && r.store.slab[k].inFlight == 0 < r.initWindow
      && r.store.slab[k].flow.UnclaimedCapacity().None? && !r.store.slab[k].state.Closed? {
      NotDueMeansWide(r.store.slab[k].flow);
    }
  }
}
