/** What becomes of capacity after the last handle of an open stream was dropped: a connection with that one stream,
    and whatever its peer and the codec may do next. */
module ImplicitReset {
  import opened Headers
  import opened FlowControl
  import opened StreamState
  import opened StreamStore
  import opened SendFlow
  import opened Sharing
  import opened Prioritize

  /** The stream, the connection, whether the stream waits for capacity, and the initial window of streams. */
  datatype Lone = Lone(s: Stream, conn: Flow, waits: bool, init: nat) {
    /** Capacity can be assigned. */
    predicate Assignable() {
      s.WithinWindow() && s.flow.available <= s.requested && conn.available >= 0
    }

    /** No capacity is lost or made up. */
    predicate Conserved() {
      conn.available + s.flow.available == conn.window
    }

    /** What the scheduler keeps while capacity is shared out as it should be. */
    predicate Valid() {
      && s.Bounded(true) && conn.available >= 0 && 0 <= conn.window <= MAX_WINDOW_SIZE && Conserved()
      && (s.Starved() ==> waits) && (conn.available > 0 ==> !waits)
    }

    /** Nothing more can come of the stream, and what the connection is left with is not its window: more than
        that, or less for good. */
    predicate Broken() {
      s.IsClosed() && conn.available != conn.window
    }
  }

  /** What can happen next: WINDOW_UPDATE for the stream or the connection, a new initial window, a frame written,
      RST_STREAM received. */
  datatype Step = Widen(inc: nat) | Provide(inc: nat) | Settings(val: nat) | Write(maxLen: nat) | PeerResets

  function TryAssign(l: Lone): (r: Lone)
    requires l.Assignable()
    ensures r.Assignable() && r.conn.available <= l.conn.available && r.conn.window == l.conn.window && r.init == l.init
    ensures r.s == Given(l.s, l.conn.available - r.conn.available)
    ensures l.conn.available == r.conn.available > 0 ==> r.waits == l.waits
  {
    if Additional(l.s) == 0 then l
    else
      var n := Share(l.s, l.conn);
      var s := Given(l.s, n);
      l.(s := s, conn := l.conn.Claim(n), waits := l.waits || s.flow.available < s.Want())
  }

  /** Serves the stream while it waits and there is anything to give. */
  function ShareOut(l: Lone): (r: Lone)
    requires l.Assignable()
    ensures r.Assignable() && r.conn.available <= l.conn.available && r.conn.window == l.conn.window && r.init == l.init
    ensures r.s == Given(l.s, l.conn.available - r.conn.available)
    ensures !l.s.Active() ==> r.s == l.s && r.conn == l.conn
    decreases l.conn.available, l.waits
  {
    if l.conn.available > 0 && l.waits then
      var off := l.(waits := false);
      if l.s.Active() then ShareOut(TryAssign(off)) else off
    else l
  }

  /** The last handle is dropped. */
  function Dropped(l: Lone): Lone
    requires l.Assignable()
  {
    var s := ImplicitlyReset(l.s);
    if l.s.requested > l.s.buffered then ShareOut(l.(s := s, conn := l.conn.Assign(l.s.requested - l.s.buffered)))
    else l.(s := s)
  }

  predicate Can(l: Lone, step: Step) {
    l.Assignable() &&
    match step
    case Widen(inc) => inc > 0 && !DoneSending(l.s) && l.s.flow.window + inc <= MAX_WINDOW_SIZE
    case Provide(inc) => inc > 0 && l.conn.window + inc <= MAX_WINDOW_SIZE
    case Settings(val) => val <= l.init || (!DoneSending(l.s) && l.s.flow.window + val - l.init <= MAX_WINDOW_SIZE)
    case Write(maxLen) =>
      && maxLen > 0 && l.s.frames != []
      && (l.s.frames[0].Data? ==>
           && !Stalled(l.s) && !Fails(l.s, maxLen, l.conn)
           && SliceLen(l.s, maxLen) <= l.s.requested && SliceLen(l.s, maxLen) <= l.s.buffered)
    case PeerResets => true
  }

  /** What is left queued when `n` bytes of the first payload went out. */
  function Rest(frames: seq<Frame>, n: nat): (r: seq<Frame>)
    requires frames != [] && frames[0].Data? && n <= |frames[0].payload|
    ensures |r| <= |frames| && |DataOf(r)| == |DataOf(frames)| - n
    ensures n == |frames[0].payload| ==> r == frames[1..]
  {
    var f := frames[0];
    if n == |f.payload| then frames[1..] else [Data(f.payload[n..], f.eos)] + frames[1..]
  }

  function After(l: Lone, step: Step): Lone
    requires Can(l, step)
  {
    match step
    case Widen(inc) => TryAssign(l.(s := SendFlow.Widened(l.s, inc)))
    case Provide(inc) => ShareOut(l.(conn := Flow(l.conn.window + inc, l.conn.available + inc)))
    case Settings(val) =>
      if val <= l.init then
        var s := Shrunk(l.s, l.init - val);
        ShareOut(l.(s := s, conn := l.conn.Assign(l.s.flow.available - s.flow.available), init := val))
      else TryAssign(l.(s := SendFlow.Widened(l.s, val - l.init), init := val))
    case Write(maxLen) =>
      if l.s.frames[0].Data? then
        var n := SliceLen(l.s, maxLen);
        l.(s := Sent(l.s, n, Rest(l.s.frames, n)), conn := l.conn.Assign(n).SendData(n))
      else l.(s := l.s.(frames := l.s.frames[1..]))
    case PeerResets =>
      var s := Relieved(Ended(l.s, l.s.state.RecvReset(true), []));
      ShareOut(l.(s := s, conn := l.conn.Assign(AsSize(l.s.flow.available))))
  }

  ghost predicate Leads(l: Lone, steps: seq<Step>, end: Lone)
    decreases |steps|
  {
    if steps == [] then end == l else Can(l, steps[0]) && Leads(After(l, steps[0]), steps[1..], end)
  }

  lemma {:induction false} LeadsOn(l: Lone, steps: seq<Step>, mid: Lone, more: seq<Step>, end: Lone)
    requires Leads(l, steps, mid) && Leads(mid, more, end)
    ensures Leads(l, steps + more, end)
    decreases |steps|
  {
    hide Can, After;
    if steps == [] {
      assert steps + more == more;
    } else {
      assert (steps + more)[1..] == steps[1..] + more;
      LeadsOn(After(l, steps[0]), steps[1..], mid, more, end);
    }
  }

  lemma LeadsFrom(l: Lone, step: Step, steps: seq<Step>, end: Lone)
    requires Can(l, step) && Leads(After(l, step), steps, end)
    ensures Leads(l, [step] + steps, end)
  {
    hide Can, After;
    assert ([step] + steps)[1..] == steps;
  }

  /** Some run from `l` ends with the connection left with more than its window, or with less. */
  ghost predicate MayBreak(l: Lone, more: bool) {
    exists steps, end :: Leads(l, steps, end) && end.Broken() && (more <==> end.conn.available > end.conn.window)
  }

  lemma BreaksLater(l: Lone, step: Step, more: bool)
    requires Can(l, step) && MayBreak(After(l, step), more)
    ensures MayBreak(l, more)
  {
    hide Can, After, Lone.Broken;
    var steps, end :| Leads(After(l, step), steps, end) && end.Broken()
      && (more <==> end.conn.available > end.conn.window);
    LeadsFrom(l, step, steps, end);
  }

  // ----- without a fault

  /** Whatever capacity is given leaves a stream within its bounds. */
  lemma GivenKeeps(s: Stream, n: nat)
    requires s.Bounded(true) && Given(s, n).WithinWindow() && Given(s, n).flow.available <= s.requested
      && (s.Active() || n == 0)
    ensures Given(s, n).Bounded(true)
  {
  }

  lemma TryAssignKeeps(l: Lone)
    requires l.Assignable() && l.s.Bounded(true) && l.s.Active()
    ensures TryAssign(l).s.Bounded(true) && (l.Conserved() ==> TryAssign(l).Conserved())
  {
    hide Stream.Bounded, TryAssign, Stream.Active, Stream.WithinWindow;
    GivenKeeps(l.s, l.conn.available - TryAssign(l).conn.available);
  }

  lemma ShareOutKeeps(l: Lone)
    requires l.Assignable() && l.s.Bounded(true)
    ensures ShareOut(l).s.Bounded(true) && (l.Conserved() ==> ShareOut(l).Conserved())
  {
    hide Stream.Bounded, ShareOut, Stream.Active, Stream.WithinWindow;
    GivenKeeps(l.s, l.conn.available - ShareOut(l).conn.available);
  }

  lemma WriteKeeps(l: Lone, maxLen: nat)
    requires Can(l, Write(maxLen)) && l.s.Bounded(true) && l.Conserved()
    ensures After(l, Write(maxLen)).s.Bounded(true) && After(l, Write(maxLen)).Conserved()
  {
    if l.s.frames[0].Data? {
      var n := SliceLen(l.s, maxLen);
      HeadFits(true, l.s);
      assert |DataOf(l.s.frames)| == |l.s.frames[0].payload| + |DataOf(l.s.frames[1..])|;
      SentBounded(true, l.s, n, Rest(l.s.frames, n));
    }
  }

  lemma EndedKeeps(s: Stream)
    requires s.Bounded(true)
    ensures var s' := Relieved(Ended(s, s.state.RecvReset(true), [])); s'.Bounded(true) && s'.flow.available == 0
  {
  }

  lemma ShrunkKeeps(s: Stream, dec: nat)
    requires s.Bounded(true)
    ensures var s' := Shrunk(s, dec); s'.Bounded(true) && s'.flow.available <= s.flow.available && s'.state == s.state
  {
  }

  lemma WidenedKeeps(s: Stream, inc: nat)
    requires s.Bounded(true) && !DoneSending(s) && s.state.Closed? && s.flow.window + inc <= MAX_WINDOW_SIZE
    ensures SendFlow.Widened(s, inc).Bounded(true) && SendFlow.Widened(s, inc).Active()
  {
  }

  lemma StepKeeps(l: Lone, step: Step)
    requires Can(l, step) && l.s.Bounded(true) && l.s.state.Closed? && l.Conserved()
    ensures var r := After(l, step); r.s.Bounded(true) && r.s.state.Closed? && r.Conserved()
  {
    hide Stream.Bounded, TryAssign, ShareOut, Stream.Active, Shrunk, Fails, Stalled, SliceLen, Rest;
    match step
    case Widen(inc) =>
      WidenedKeeps(l.s, inc);
      TryAssignKeeps(l.(s := SendFlow.Widened(l.s, inc)));
    case Provide(inc) =>
      ShareOutKeeps(l.(conn := Flow(l.conn.window + inc, l.conn.available + inc)));
    case Settings(val) =>
      if val <= l.init {
        var s := Shrunk(l.s, l.init - val);
        ShrunkKeeps(l.s, l.init - val);
        assert l.s.flow.available - s.flow.available >= 0;
        ShareOutKeeps(l.(s := s, conn := l.conn.Assign(l.s.flow.available - s.flow.available), init := val));
      } else {
        WidenedKeeps(l.s, val - l.init);
        TryAssignKeeps(l.(s := SendFlow.Widened(l.s, val - l.init), init := val));
      }
    case Write(maxLen) => WriteKeeps(l, maxLen);
    case PeerResets =>
      var s := Relieved(Ended(l.s, l.s.state.RecvReset(true), []));
      EndedKeeps(l.s);
      ShareOutKeeps(l.(s := s, conn := l.conn.Assign(AsSize(l.s.flow.available))));
  }

  lemma {:induction false} NeverBreaks(l: Lone, steps: seq<Step>, end: Lone)
    requires Leads(l, steps, end) && l.s.Bounded(true) && l.s.state.Closed? && l.Conserved()
    ensures !end.Broken()
    decreases |steps|
  {
    hide Can, After, Stream.Bounded;
    if steps == [] {
      if end.s.IsClosed() {
        ClosedHoldsNothing(end.s);
      }
    } else {
      StepKeeps(l, steps[0]);
      NeverBreaks(After(l, steps[0]), steps[1..], end);
    }
  }

  // ----- capacity carried off

  /** A closed stream that asks for more than it has left to send, so that it may hold more than it sends. */
  predicate Greedy(l: Lone) {
    && l.Assignable() && l.Conserved() && l.conn.window <= MAX_WINDOW_SIZE
    && l.s.state.Closed? && l.s.flow.available >= 0 && |DataOf(l.s.frames)| == l.s.buffered < l.s.requested
  }

  /** The next frame goes out, or at least its first byte. */
  lemma WriteGoesOn(l: Lone, maxLen: nat)
    requires Greedy(l) && l.s.frames != [] && l.s.flow.available > 0 && maxLen > 0
    ensures Can(l, Write(maxLen))
    ensures var r := After(l, Write(maxLen));
      && Greedy(r) && r.s.requested - r.s.buffered == l.s.requested - l.s.buffered
      && r.conn.available == l.conn.available
      && r.s.flow.available - r.s.buffered == l.s.flow.available - l.s.buffered && r.init == l.init
      && (!l.s.frames[0].Data? || |l.s.frames[0].payload| <= Min(maxLen, l.s.flow.available) ==>
          r.s.frames == l.s.frames[1..])
      && (if l.s.frames[0].Data? && l.s.frames[0].payload != [] then
          r.s.flow.window < l.s.flow.window && r.s.buffered < l.s.buffered
          else r.s.flow == l.s.flow && r.s.buffered == l.s.buffered)
      && |r.s.frames| <= |l.s.frames| && (maxLen == 1 ==> r.s.buffered >= l.s.buffered - 1)
  {
    if l.s.frames[0].Data? {
      assert |DataOf(l.s.frames)| == |l.s.frames[0].payload| + |DataOf(l.s.frames[1..])|;
    }
  }

  /** With more capacity than data it sends all, and takes the rest of the capacity with it. */
  lemma {:induction false} Drains(l: Lone)
    requires Greedy(l) && l.s.flow.available > l.s.buffered
    ensures MayBreak(l, false)
    decreases |l.s.frames|
  {
    hide Can, After;
    if l.s.frames == [] {
      assert Leads(l, [], l);
    } else {
      var f := l.s.frames[0];
      var maxLen := if f.Data? && f.payload != [] then |f.payload| else 1;
      assert f.Data? ==> |DataOf(l.s.frames)| == |f.payload| + |DataOf(l.s.frames[1..])|;
      WriteGoesOn(l, maxLen);
      Drains(After(l, Write(maxLen)));
      BreaksLater(l, Write(maxLen), false);
    }
  }

  /** It has all it can have, or the connection has nothing more. */
  predicate Settled(l: Lone) {
    l.s.flow.available == l.s.Want() || (l.waits && l.conn.available == 0)
  }

  lemma ShrinkGoesOn(l: Lone)
    requires Greedy(l) && l.s.flow.window == MAX_WINDOW_SIZE && l.init > 0
    ensures Can(l, Settings(l.init - 1))
    ensures var r := After(l, Settings(l.init - 1));
      Greedy(r) && r.s.flow.window < MAX_WINDOW_SIZE && SameData(l.s, r.s)
  {
  }

  predicate SameData(s: Stream, s': Stream) {
    s'.frames == s.frames && s'.buffered == s.buffered && s'.requested == s.requested
  }

  lemma WidenGoesOn(l: Lone)
    requires Greedy(l) && l.s.flow.window < MAX_WINDOW_SIZE && l.s.buffered > 0
    ensures Can(l, Widen(MAX_WINDOW_SIZE - l.s.flow.window))
    ensures var r := After(l, Widen(MAX_WINDOW_SIZE - l.s.flow.window));
      Greedy(r) && r.s.flow.window == MAX_WINDOW_SIZE && SameData(l.s, r.s) && Settled(r)
  {
    var wide := l.(s := SendFlow.Widened(l.s, MAX_WINDOW_SIZE - l.s.flow.window));
    ShareSteps(wide.s, wide.conn);
  }

  lemma ProvideGoesOn(l: Lone)
    requires Greedy(l) && Settled(l) && l.s.buffered > 0 && l.conn.window < MAX_WINDOW_SIZE
    ensures Can(l, Provide(MAX_WINDOW_SIZE - l.conn.window))
    ensures var r := After(l, Provide(MAX_WINDOW_SIZE - l.conn.window));
      Greedy(r) && r.s.flow.window == l.s.flow.window && r.conn.window == MAX_WINDOW_SIZE && SameData(l.s, r.s)
        && Settled(r)
  {
    var more := l.(conn := Flow(MAX_WINDOW_SIZE, l.conn.available + MAX_WINDOW_SIZE - l.conn.window));
    if more.waits {
      ShareSteps(more.s, more.conn);
      var once := TryAssign(more.(waits := false));
      assert ShareOut(more) == ShareOut(once);
      assert ShareOut(once) == once;
    }
  }

  /** It has all it asks for, or as much as any window admits. */
  predicate HasAll(l: Lone) {
    l.s.flow.available >= Min(l.s.requested, MAX_WINDOW_SIZE)
  }

  /** How many updates are still needed until it has. */
  function Distance(l: Lone): nat {
    if HasAll(l) then 0
    else if l.s.flow.window == MAX_WINDOW_SIZE && Settled(l) then 1
    else if l.s.flow.window < MAX_WINDOW_SIZE then 2
    else 3
  }

  /** Then it comes to that, while the window of the stream can still be moved. */
  lemma {:induction false} CarriesOff(l: Lone)
    requires Greedy(l) && l.s.buffered > 0 && (Distance(l) <= 2 || l.init > 0)
    ensures MayBreak(l, false)
    decreases l.s.buffered, |l.s.frames|, Distance(l)
  {
    hide Can, After, MayBreak;
    if HasAll(l) && l.s.flow.available > l.s.buffered {
      Drains(l);
    } else {
      var step :=
        if HasAll(l) then Write(1)
        else if Distance(l) == 1 then Provide(MAX_WINDOW_SIZE - l.conn.window)
        else if Distance(l) == 2 then Widen(MAX_WINDOW_SIZE - l.s.flow.window)
        else Settings(l.init - 1);
      match Distance(l) {
        case 0 => WriteGoesOn(l, 1);
        case 1 => ProvideGoesOn(l);
        case 2 => WidenGoesOn(l);
        case _ => ShrinkGoesOn(l);
      }
      CarriesOff(After(l, step));
      BreaksLater(l, step, false);
    }
  }

  /** What the stream owes goes with it. */
  lemma OwesForGood(l: Lone)
    requires l.Assignable() && l.Conserved() && l.s.flow.available < 0
    ensures MayBreak(l, true)
  {
    var s := Relieved(Ended(l.s, l.s.state.RecvReset(true), []));
    var ended := ShareOut(l.(s := s, conn := l.conn.Assign(0)));
    assert After(l, PeerResets) == ended && ended.Broken() && ended.conn.available > ended.conn.window;
    assert Leads(ended, [], ended) && MayBreak(ended, true);
    BreaksLater(l, PeerResets, true);
  }

  /** What a dropped handle makes of the stream before and after the connection has shared out what it took back. */
  lemma DroppedIs(l: Lone)
    requires l.Valid() && !l.s.state.Closed?
    ensures var d := Dropped(l);
      && d.Assignable() && d.Conserved() && d.s.state.Closed? && d.init == l.init && d.s.flow.window == l.s.flow.window
      && d.conn.window == l.conn.window && SameData(l.s, d.s)
      && (Reclaimable(l.s) ==> d.s.Bounded(true))
      && (l.s.buffered == 0 ==> d.s.flow.available == l.s.flow.available - l.s.requested)
      && (l.s.flow.available >= l.s.requested - l.s.buffered ==> d.s.flow.available >= 0)
  {
    if l.s.requested > l.s.buffered {
      var taken := l.(s := ImplicitlyReset(l.s), conn := l.conn.Assign(l.s.requested - l.s.buffered));
      if Reclaimable(l.s) {
        ImplicitResetKeepsBounds(l.s);
        ShareOutKeeps(taken);
      }
    } else if Reclaimable(l.s) {
      ImplicitResetKeepsBounds(l.s);
    }
  }

  /** Dropping the last handle of an open stream is without harm exactly if the stream is `Reclaimable`: then no run
      that follows ends with a connection that has more or less than its window once the stream is gone. Otherwise one
      does: with more, if the stream is left owing capacity; with less, if it is not, since it may still be given
      capacity that was taken back and that it does not need. Nothing of the stream is in flight, and its window can
      be moved by the peer. */
  lemma BreaksExactly(l: Lone)
    requires l.Valid() && !l.s.state.Closed? && |DataOf(l.s.frames)| == l.s.buffered
    requires l.s.flow.window < MAX_WINDOW_SIZE || l.init > 0
    ensures var d := Dropped(l);
      && (MayBreak(d, true) || MayBreak(d, false) <==> !Reclaimable(l.s))
      && (d.s.flow.available < 0 ==> MayBreak(d, true))
      && (!Reclaimable(l.s) && d.s.flow.available >= 0 ==> MayBreak(d, false))
    ensures l.s.flow.available >= l.s.requested - l.s.buffered ==> Dropped(l).s.flow.available >= 0
  {
    hide Dropped, Leads, MayBreak, Lone.Broken;
    var d := Dropped(l);
    DroppedIs(l);
    if d.s.flow.available < 0 {
      OwesForGood(d);
    } else if !Reclaimable(l.s) {
      CarriesOff(d);
    }
    if Reclaimable(l.s) {
      NoneBreaks(d);
    }
  }

  lemma NoneBreaks(l: Lone)
    requires l.s.Bounded(true) && l.s.state.Closed? && l.Conserved()
    ensures !MayBreak(l, true) && !MayBreak(l, false)
  {
    hide Leads, Lone.Broken, Stream.Bounded;
    forall steps, end | Leads(l, steps, end) ensures !end.Broken() {
      NeverBreaks(l, steps, end);
    }
  }

  /** So it is for every stream that the invariant of the scheduler admits, alone on its connection. */
  lemma AloneIsValid(k: Key, s: Stream, conn: Flow, waiting: seq<Key>, sending: seq<Key>, opening: seq<Key>, init: nat)
    requires Fit(true, map[k := s], conn, waiting, sending, opening, None, None) && NoSpare(conn, waiting)
    ensures Lone(s, conn, k in waiting, init).Valid()
  {
    var m := map[k := s];
    TotalPut(map[], k, s);
    assert map[][k := s] == m && m[k] == s;
    assert Holdings(map[]) == map[];
  }
}
