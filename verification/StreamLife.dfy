/** Which streams are there, which are counted against the limits, and when one may go. */
module StreamLife {
  import opened Headers
  import opened FlowControl
  import opened StreamState
  import opened StreamStore
  import opened SendFlow
  import opened Sharing

  /** Whether this side opens streams with identifier `k`: a client the odd ones, a server the even ones. */
  predicate Local(isServer: bool, k: Key) {
    k % 2 == (if isServer then 0 else 1)
  }

  ghost function Counted(m: map<Key, Stream>, isServer: bool, local: bool): set<Key> {
    set k | k in m && m[k].isCounted && Local(isServer, k) == local
  }

  /** The counters of the connection. */
  datatype Counters = Counters(maxSend: nat, send: nat, maxRecv: nat, recv: nat, maxReset: nat, reset: nat)

  /** A stream missing from the index of identifiers is closed. The counters are right: exactly the streams marked
      as counted, sorted by who opened them. A stream waiting to be opened is this side's
      own and not counted yet. The reset counter
      covers all streams waiting to expire. */
  ghost predicate Living(m: map<Key, Stream>, ids: seq<Key>, opening: seq<Key>, expiring: seq<Key>, isServer: bool,
                         c: Counters) {
    && (forall k :: k in m && k !in ids ==> m[k].IsClosed())
    && c.send == |Counted(m, isServer, true)|
    && c.recv == |Counted(m, isServer, false)| <= c.maxRecv
    && (forall k :: k in opening ==> Local(isServer, k))
    && (forall k :: k in m && k in opening ==> !m[k].isCounted)
    && |expiring| <= c.reset <= c.maxReset
  }

  /** Nothing that matters to the life of any stream changed, except that some may have closed. */
  ghost predicate LifeKept(m: map<Key, Stream>, m': map<Key, Stream>) {
    && m'.Keys == m.Keys
    && forall k :: k in m ==>
      m'[k].isCounted == m[k].isCounted && m'[k].refs == m[k].refs && (m[k].IsClosed() ==> m'[k].IsClosed())
  }

  lemma LivingKept(m: map<Key, Stream>, m': map<Key, Stream>, ids: seq<Key>, opening: seq<Key>, expiring: seq<Key>,
                   isServer: bool, c: Counters)
    requires Living(m, ids, opening, expiring, isServer, c) && LifeKept(m, m')
    ensures Living(m', ids, opening, expiring, isServer, c)
  {
    assert Counted(m', isServer, true) == Counted(m, isServer, true);
    assert Counted(m', isServer, false) == Counted(m, isServer, false);
  }

  lemma AdjustedLife(m: map<Key, Stream>, m': map<Key, Stream>, k: Key, s: Stream)
    requires Adjusted(m, m', k, s)
    requires s.isCounted == m[k].isCounted && s.refs == m[k].refs && (m[k].IsClosed() ==> s.IsClosed())
    ensures LifeKept(m, m')
  {
  }

  lemma GrantedLife(m: map<Key, Stream>, m': map<Key, Stream>)
    requires Grants(m, m')
    ensures LifeKept(m, m')
  {
  }

  lemma ShrunkLife(m: map<Key, Stream>, mid: map<Key, Stream>, m': map<Key, Stream>, ids: seq<Key>, dec: nat)
    requires AllShrunk(m, mid, ids, dec) && Grants(mid, m')
    ensures LifeKept(m, m')
  {
  }

  /** A new stream that is in the index. */
  lemma LivingNew(m: map<Key, Stream>, ids: seq<Key>, opening: seq<Key>, expiring: seq<Key>, isServer: bool,
                  c: Counters, k: Key, window: nat)
    requires Living(m, ids, opening, expiring, isServer, c) && k !in m
    ensures Living(m[k := NewStream(window)], ids + [k], opening, expiring, isServer, c)
  {
    var m' := m[k := NewStream(window)];
    assert Counted(m', isServer, true) == Counted(m, isServer, true);
    assert Counted(m', isServer, false) == Counted(m, isServer, false);
  }

  function CountUp(c: Counters, local: bool): Counters {
    if local then c.(send := c.send + 1) else c.(recv := c.recv + 1)
  }

  function CountDown(c: Counters, local: bool): Counters
    requires if local then c.send > 0 else c.recv > 0
  {
    if local then c.(send := c.send - 1) else c.(recv := c.recv - 1)
  }

  lemma CountedWith(m: map<Key, Stream>, isServer: bool, k: Key)
    requires k in m && !m[k].isCounted
    ensures var (m', l) := (m[k := m[k].(isCounted := true)], Local(isServer, k));
      && Counted(m', isServer, l) == Counted(m, isServer, l) + {k} && k !in Counted(m, isServer, l)
      && Counted(m', isServer, !l) == Counted(m, isServer, !l)
  {
  }

  lemma CountedWithout(m: map<Key, Stream>, isServer: bool, k: Key)
    requires k in m && m[k].isCounted
    ensures var (m', l) := (m[k := m[k].(isCounted := false)], Local(isServer, k));
      && k in Counted(m, isServer, l) && Counted(m', isServer, l) == Counted(m, isServer, l) - {k}
      && Counted(m', isServer, !l) == Counted(m, isServer, !l)
  {
  }

  /** One more stream counted. */
  lemma LivingCounted(m: map<Key, Stream>, ids: seq<Key>, opening: seq<Key>, expiring: seq<Key>, isServer: bool,
                      c: Counters, k: Key)
    requires Living(m, ids, opening, expiring, isServer, c) && k in m && !m[k].isCounted && k !in opening
    requires Local(isServer, k) || c.recv < c.maxRecv
    ensures Living(m[k := m[k].(isCounted := true)], ids, opening, expiring, isServer, CountUp(c, Local(isServer, k)))
  {
    hide Counted;
    CountedWith(m, isServer, k);
  }

  /** One stream fewer counted: its counter cannot be zero. */
  lemma LivingUncounted(m: map<Key, Stream>, ids: seq<Key>, opening: seq<Key>, expiring: seq<Key>, isServer: bool,
                        c: Counters, k: Key)
    requires Living(m, ids, opening, expiring, isServer, c) && k in m && m[k].isCounted
    ensures if Local(isServer, k) then c.send > 0 else c.recv > 0
    ensures Living(m[k := m[k].(isCounted := false)], ids, opening, expiring, isServer,
                   CountDown(c, Local(isServer, k)))
  {
    hide Counted;
    CountedWithout(m, isServer, k);
  }

  // ----- streams nothing refers to

  ghost predicate InQueue(queues: map<QueueName, seq<Key>>, q: QueueName, k: Key) {
    k in ListOf(queues, q)
  }

  /** A closed stream that nothing refers to any more: no handle and none of the queues. Nothing will ever free it. */
  ghost predicate Lost(m: map<Key, Stream>, queues: map<QueueName, seq<Key>>, k: Key) {
    k in m && m[k].IsClosed() && m[k].refs == 0 && forall q :: !InQueue(queues, q, k)
  }

  /** A closed stream that nothing but the queue for capacity refers to. */
  ghost predicate OnlyWaits(m: map<Key, Stream>, queues: map<QueueName, seq<Key>>, k: Key) {
    && k in m && m[k].IsClosed() && m[k].refs == 0
    && InQueue(queues, NextSendCapacity, k) && forall q :: q != NextSendCapacity ==> !InQueue(queues, q, k)
  }

  /** No stream but `but` gets lost. */
  ghost predicate NoneGetsLost(m: map<Key, Stream>, queues: map<QueueName, seq<Key>>, m': map<Key, Stream>,
                               queues': map<QueueName, seq<Key>>, but: Option<Key>) {
    forall j: Key :: Some(j) != but && Lost(m', queues', j) ==> Lost(m, queues, j)
  }

  /** No stream but `but` gets lost, except one that waited for capacity. */
  ghost predicate OnlyWaitersGetLost(m: map<Key, Stream>, queues: map<QueueName, seq<Key>>, m': map<Key, Stream>,
                                     queues': map<QueueName, seq<Key>>, but: Option<Key>) {
    forall j: Key :: Some(j) != but && Lost(m', queues', j) ==>
      Lost(m, queues, j) || InQueue(queues, NextSendCapacity, j)
  }

  /** Whoever was in a queue is in it still. */
  ghost predicate StaysQueued(queues: map<QueueName, seq<Key>>, queues': map<QueueName, seq<Key>>) {
    forall q, j :: InQueue(queues, q, j) ==> InQueue(queues', q, j)
  }

  ghost predicate SameLife(m: map<Key, Stream>, m': map<Key, Stream>, but: Option<Key>) {
    forall j: Key :: Some(j) != but && j in m' && m'[j].IsClosed() && m'[j].refs == 0 ==>
      j in m && m[j].IsClosed() && m[j].refs == 0
  }

  lemma NoneLostBy(m: map<Key, Stream>, queues: map<QueueName, seq<Key>>, m': map<Key, Stream>, queues': map<QueueName,
                   seq<Key>>, but: Option<Key>)
    requires SameLife(m, m', but) && StaysQueued(queues, queues')
    ensures NoneGetsLost(m, queues, m', queues', but)
  {
  }

  /** A step that took nobody off a queue, and then the transition of the stream it was about. */
  lemma StayedThenParted(m: map<Key, Stream>, queues: map<QueueName, seq<Key>>, mid: map<Key, Stream>,
                         between: map<QueueName, seq<Key>>, m': map<Key, Stream>, queues': map<QueueName, seq<Key>>,
                         k: Key, s: Stream)
    requires Adjusted(m, mid, k, s) && StaysQueued(queues, between)
    requires NoneGetsLost(mid, between, m', queues', None) && !Lost(m', queues', k)
    ensures NoneGetsLost(m, queues, m', queues', None)
  {
    hide Adjusted, StaysQueued, SameLife, NoneGetsLost, OnlyWaitersGetLost, Lost, InQueue;
    AdjustedSameLife(m, mid, k, s);
    NoneLostBy(m, queues, mid, between, Some(k));
    NoneLostAgain(m, queues, mid, between, m', queues', Some(k));
  }

  lemma AdjustedSameLife(m: map<Key, Stream>, m': map<Key, Stream>, k: Key, s: Stream)
    requires Adjusted(m, m', k, s)
    ensures SameLife(m, m', Some(k))
  {
  }

  lemma NoneLostWeaker(m: map<Key, Stream>, queues: map<QueueName, seq<Key>>, m': map<Key, Stream>,
                       queues': map<QueueName, seq<Key>>, but: Option<Key>)
    requires NoneGetsLost(m, queues, m', queues', but)
    ensures OnlyWaitersGetLost(m, queues, m', queues', but)
  {
  }

  lemma NoneLostAgain(m: map<Key, Stream>, queues: map<QueueName, seq<Key>>, m1: map<Key, Stream>,
                      queues1: map<QueueName, seq<Key>>, m': map<Key, Stream>, queues': map<QueueName, seq<Key>>,
                      but: Option<Key>)
    requires NoneGetsLost(m1, queues1, m', queues', None) && (but.Some? ==> !Lost(m', queues', but.value))
    ensures NoneGetsLost(m, queues, m1, queues1, but) ==> NoneGetsLost(m, queues, m', queues', None)
    ensures OnlyWaitersGetLost(m, queues, m1, queues1, but) ==> OnlyWaitersGetLost(m, queues, m', queues', None)
  {
  }

  /** One more step, the queue for capacity having taken in nobody before. */
  lemma WaitersLostAgain(m: map<Key, Stream>, queues: map<QueueName, seq<Key>>, mid: map<Key, Stream>,
                         between: map<QueueName, seq<Key>>, m': map<Key, Stream>, queues': map<QueueName, seq<Key>>)
    requires OnlyWaitersGetLost(m, queues, mid, between, None) && OnlyWaitersGetLost(mid, between, m', queues', None)
    requires forall j :: j in ListOf(between, NextSendCapacity) ==> j in ListOf(queues, NextSendCapacity)
    ensures OnlyWaitersGetLost(m, queues, m', queues', None)
  {
  }

  /** A stream that went through its transition is not lost, nor is any other by that. */
  lemma TransitionLosesNone(m: map<Key, Stream>, queues: map<QueueName, seq<Key>>, k: Key, unreferenced: bool)
    requires k in m && (unreferenced <==> m[k].refs == 0 && forall q :: !InQueue(queues, q, k))
    ensures var m' := Transitioned(m, k, unreferenced);
      NoneGetsLost(m, queues, m', queues, None) && !Lost(m', queues, k)
  {
  }

  /** All but `k` are in the queues they were in. */
  ghost predicate OthersStay(queues: map<QueueName, seq<Key>>, queues': map<QueueName, seq<Key>>, k: Key) {
    forall q, j :: j != k && InQueue(queues, q, j) ==> InQueue(queues', q, j)
  }

  /** A step of one stream, which may leave a queue by it. */
  lemma OneParted(m: map<Key, Stream>, queues: map<QueueName, seq<Key>>, m': map<Key, Stream>, queues': map<QueueName,
                  seq<Key>>, k: Key)
    requires SameLife(m, m', Some(k)) && OthersStay(queues, queues', k)
    ensures NoneGetsLost(m, queues, m', queues', Some(k))
    ensures !Lost(m', queues', k) ==> NoneGetsLost(m, queues, m', queues', None)
  {
  }

  /** A new stream, not closed or with a handle. */
  lemma NewLosesNone(m: map<Key, Stream>, queues: map<QueueName, seq<Key>>, m': map<Key, Stream>,
                     queues': map<QueueName, seq<Key>>, k: Key)
    requires StaysQueued(queues, queues') && k in m' && m' == m[k := m'[k]] && (!m'[k].IsClosed() || m'[k].refs > 0)
    ensures NoneGetsLost(m, queues, m', queues', None)
  {
    NoneLostBy(m, queues, m', queues', None);
  }

  /** Counted or not. */
  lemma CountedLosesNone(m: map<Key, Stream>, queues: map<QueueName, seq<Key>>, k: Key, counted: bool)
    requires k in m
    ensures NoneGetsLost(m, queues, m[k := m[k].(isCounted := counted)], queues, None)
  {
  }

  /** One handle more. */
  lemma HandleLosesNone(m: map<Key, Stream>, queues: map<QueueName, seq<Key>>, k: Key)
    requires k in m
    ensures var m' := m[k := m[k].(refs := m[k].refs + 1)];
      NoneGetsLost(m, queues, m', queues, None) && !Lost(m', queues, k)
  {
  }

  /** More queued loses nobody. */
  lemma PushedLosesNone(m: map<Key, Stream>, queues: map<QueueName, seq<Key>>, m': map<Key, Stream>, mid: map<QueueName,
                        seq<Key>>, queues': map<QueueName, seq<Key>>, p: QueueName)
    requires NoneGetsLost(m, queues, m', mid, None)
    requires (forall j :: j in ListOf(mid, p) ==> j in ListOf(queues', p)) && forall q :: q != p ==>
      ListOf(queues', q) == ListOf(mid, q)
    ensures NoneGetsLost(m, queues, m', queues', None)
  {
    forall j: Key | Lost(m', queues', j) ensures Lost(m', mid, j) {
      forall q ensures !InQueue(mid, q, j) {
        assert !InQueue(queues', q, j);
        assert q != p ==> ListOf(queues', q) == ListOf(mid, q);
      }
    }
  }

  // ----- exactly which streams get lost

  /** A closed stream without a handle: only the queues keep it. */
  ghost predicate Dead(m: map<Key, Stream>, j: Key) {
    j in m && m[j].IsClosed() && m[j].refs == 0
  }

  /** Of stream `j`, if dead, at most the place in the queue for capacity was taken. */
  ghost predicate DeadAlike(m: map<Key, Stream>, queues: map<QueueName, seq<Key>>, m': map<Key, Stream>,
                            queues': map<QueueName, seq<Key>>, j: Key) {
    && (Dead(m, j) <==> Dead(m', j))
    && (Dead(m, j) ==>
         && (InQueue(queues', NextSendCapacity, j) ==> InQueue(queues, NextSendCapacity, j))
         && forall q :: q != NextSendCapacity ==> (InQueue(queues, q, j) <==> InQueue(queues', q, j)))
  }

  ghost predicate SharedOnly(m: map<Key, Stream>, queues: map<QueueName, seq<Key>>, m': map<Key, Stream>,
                             queues': map<QueueName, seq<Key>>, but: Option<Key>) {
    forall j: Key :: Some(j) != but ==> DeadAlike(m, queues, m', queues', j)
  }

  /** Stream `j` is lost exactly if it was before, or nothing but the queue for capacity referred to it and it was
      taken off that. */
  ghost predicate LostAs(m: map<Key, Stream>, queues: map<QueueName, seq<Key>>, m': map<Key, Stream>,
                         queues': map<QueueName, seq<Key>>, j: Key) {
    Lost(m', queues', j) <==> Lost(m, queues, j) || (OnlyWaits(m, queues, j) && !InQueue(queues', NextSendCapacity, j))
  }

  ghost predicate LosesAs(m: map<Key, Stream>, queues: map<QueueName, seq<Key>>, m': map<Key, Stream>,
                          queues': map<QueueName, seq<Key>>, but: Option<Key>) {
    forall j: Key :: Some(j) != but ==> LostAs(m, queues, m', queues', j)
  }

  /** Then nobody gets lost who did not wait for capacity. */
  lemma ExactIsWaiters(m: map<Key, Stream>, queues: map<QueueName, seq<Key>>, m': map<Key, Stream>,
                       queues': map<QueueName, seq<Key>>, k: Key)
    requires LosesAs(m, queues, m', queues', Some(k)) && !Lost(m', queues', k)
    ensures OnlyWaitersGetLost(m, queues, m', queues', None)
  {
    forall j: Key | Lost(m', queues', j) ensures Lost(m, queues, j) || InQueue(queues, NextSendCapacity, j) {
      assert LostAs(m, queues, m', queues', j);
    }
  }

  ghost predicate NothingLostIn(m: map<Key, Stream>, queues: map<QueueName, seq<Key>>) {
    forall j: Key :: !Lost(m, queues, j)
  }

  ghost predicate TakenOff(m: map<Key, Stream>, queues: map<QueueName, seq<Key>>, queues': map<QueueName, seq<Key>>,
                           j: Key) {
    OnlyWaits(m, queues, j) && !InQueue(queues', NextSendCapacity, j)
  }

  /** Exactly those are lost that only waited for capacity and were taken off the queue for it. The stream `about` may
      have been let go instead. */
  ghost predicate OnlyServedLost(m: map<Key, Stream>, queues: map<QueueName, seq<Key>>, m': map<Key, Stream>,
                                 queues': map<QueueName, seq<Key>>, about: Option<Key>) {
    && (forall j: Key :: Lost(m', queues', j) ==> TakenOff(m, queues, queues', j))
    && (forall j: Key :: Some(j) != about && TakenOff(m, queues, queues', j) ==> Lost(m', queues', j))
  }

  lemma ServedGetLost(m: map<Key, Stream>, queues: map<QueueName, seq<Key>>, m': map<Key, Stream>,
                      queues': map<QueueName, seq<Key>>, about: Option<Key>)
    requires LosesAs(m, queues, m', queues', None) ||
             (about.Some? && LosesAs(m, queues, m', queues', about) && !Lost(m', queues', about.value))
    ensures NothingLostIn(m, queues) ==> OnlyServedLost(m, queues, m', queues', about)
  {
    hide Lost, OnlyWaits, InQueue;
    if NothingLostIn(m, queues) {
      forall j: Key | Lost(m', queues', j) ensures TakenOff(m, queues, queues', j) {
        assert LostAs(m, queues, m', queues', j);
      }
      forall j: Key | Some(j) != about && TakenOff(m, queues, queues', j) ensures Lost(m', queues', j) {
        assert LostAs(m, queues, m', queues', j);
      }
    }
  }

  /** When there were `a` to share out among streams `mid`, a stream that only waited for capacity gets lost exactly if
      those in front of it in the queue lack less than that. */
  ghost predicate InTurn(m: map<Key, Stream>, queues: map<QueueName, seq<Key>>, m': map<Key, Stream>,
                         queues': map<QueueName, seq<Key>>, mid: map<Key, Stream>, a: int, but: Option<Key>) {
    var waiting := ListOf(queues, NextSendCapacity);
    forall i :: 0 <= i < |waiting| && Some(waiting[i]) != but && OnlyWaits(m, queues, waiting[i]) ==>
      (Lost(m', queues', waiting[i]) <==> a > Lacking(mid, waiting[..i]))
  }

  lemma LostInTurn(m: map<Key, Stream>, queues: map<QueueName, seq<Key>>, m': map<Key, Stream>, queues': map<QueueName,
                   seq<Key>>, mid: map<Key, Stream>, shared: map<Key, Stream>, a: nat, a': int, but: Option<Key>)
    requires LosesAs(m, queues, m', queues', but)
    requires forall j: Key :: j in m && Some(j) != but && Dead(m, j) ==> j in mid && Lack(mid[j]) == 0
    requires NoDup(ListOf(queues, NextSendCapacity))
    requires Served(mid, shared, ListOf(queues, NextSendCapacity), ListOf(queues', NextSendCapacity), a, a')
    ensures InTurn(m, queues, m', queues', mid, a, but)
  {
    hide Lost, Lack, Served, Lacking;
    var waiting, waiting' := ListOf(queues, NextSendCapacity), ListOf(queues', NextSendCapacity);
    forall i | 0 <= i < |waiting| && Some(waiting[i]) != but && OnlyWaits(m, queues, waiting[i])
      ensures Lost(m', queues', waiting[i]) <==> a > Lacking(mid, waiting[..i])
    {
      assert LostAs(m, queues, m', queues', waiting[i]) && Dead(m, waiting[i]);
      TakenOffExactly(mid, shared, waiting, waiting', a, a', i);
      NotLostYet(m, queues, waiting[i]);
    }
  }

  lemma NotLostYet(m: map<Key, Stream>, queues: map<QueueName, seq<Key>>, j: Key)
    requires OnlyWaits(m, queues, j)
    ensures !Lost(m, queues, j)
  {
  }

  /** The same where stream `k` gave something back. */
  lemma LostBeside(m: map<Key, Stream>, queues: map<QueueName, seq<Key>>, m': map<Key, Stream>, queues': map<QueueName,
                   seq<Key>>, k: Key, s: Stream, shared: map<Key, Stream>, a: int, a': int)
    requires LosesAs(m, queues, m', queues', Some(k)) && NoDup(ListOf(queues, NextSendCapacity))
    requires a >= 0
      && Served(m[k := s], shared, ListOf(queues, NextSendCapacity), ListOf(queues', NextSendCapacity), a, a')
    ensures InTurn(m, queues, m', queues', m[k := s], a, Some(k))
  {
    hide InTurn, LosesAs, Served;
    LostInTurn(m, queues, m', queues', m[k := s], shared, a, a', Some(k));
  }

  /** A dead stream lacks nothing. */
  lemma DeadLacksNothing(m: map<Key, Stream>)
    ensures forall j: Key :: Dead(m, j) ==> Lack(m[j]) == 0
  {
  }

  /** The same streams are lost, and the same wait for capacity. */
  ghost predicate SameLost(m: map<Key, Stream>, queues: map<QueueName, seq<Key>>, m': map<Key, Stream>,
                           queues': map<QueueName, seq<Key>>, but: Option<Key>) {
    && ListOf(queues', NextSendCapacity) == ListOf(queues, NextSendCapacity)
    && forall j: Key :: Some(j) != but ==> (Lost(m', queues', j) <==> Lost(m, queues, j))
  }

  /** Capacity shared out: a stream gets lost exactly if it was closed, nothing but the queue for capacity referred to
      it, and it was taken off that queue. */
  lemma SharingLoses(m: map<Key, Stream>, queues: map<QueueName, seq<Key>>, m': map<Key, Stream>,
                     queues': map<QueueName, seq<Key>>, j: Key)
    requires DeadAlike(m, queues, m', queues', j)
    ensures LostAs(m, queues, m', queues', j)
  {
    if Lost(m', queues', j) && !Lost(m, queues, j) {
      forall q | q != NextSendCapacity ensures !InQueue(queues, q, j) {
        assert !InQueue(queues', q, j);
      }
    }
    if OnlyWaits(m, queues, j) && !InQueue(queues', NextSendCapacity, j) {
      forall q ensures !InQueue(queues', q, j) {
        assert q != NextSendCapacity ==> !InQueue(queues, q, j);
      }
    }
    if Lost(m, queues, j) {
      forall q ensures !InQueue(queues', q, j) {
        assert !InQueue(queues, q, j);
      }
    }
  }

  lemma SharedOnlyLoses(m: map<Key, Stream>, queues: map<QueueName, seq<Key>>, m': map<Key, Stream>,
                        queues': map<QueueName, seq<Key>>, but: Option<Key>)
    requires SharedOnly(m, queues, m', queues', but)
    ensures LosesAs(m, queues, m', queues', but)
  {
    hide DeadAlike, LostAs;
    forall j: Key | Some(j) != but ensures LostAs(m, queues, m', queues', j) {
      SharingLoses(m, queues, m', queues', j);
    }
  }

  lemma SharedOnlyAgain(m: map<Key, Stream>, queues: map<QueueName, seq<Key>>, mid: map<Key, Stream>,
                        between: map<QueueName, seq<Key>>, m': map<Key, Stream>, queues': map<QueueName, seq<Key>>,
                        but: Option<Key>)
    requires SharedOnly(m, queues, mid, between, but) && SharedOnly(mid, between, m', queues', but)
    ensures SharedOnly(m, queues, m', queues', but)
  {
    hide Dead, InQueue;
    forall j: Key | Some(j) != but ensures DeadAlike(m, queues, m', queues', j) {
      assert DeadAlike(m, queues, mid, between, j) && DeadAlike(mid, between, m', queues', j);
    }
  }

  lemma NothingShared(m: map<Key, Stream>, queues: map<QueueName, seq<Key>>)
    ensures SharedOnly(m, queues, m, queues, None) && LosesAs(m, queues, m, queues, None)
  {
    SharedOnlyLoses(m, queues, m, queues, None);
  }

  /** Whoever is newly in line takes part, so no dead stream is. */
  lemma SharedDead(m: map<Key, Stream>, queues: map<QueueName, seq<Key>>, m': map<Key, Stream>, queues': map<QueueName,
                   seq<Key>>, but: Option<Key>)
    requires forall j: Key :: Some(j) != but ==> (Dead(m, j) <==> Dead(m', j))
    requires NewTakePart(m', ListOf(queues, NextSendCapacity), ListOf(queues', NextSendCapacity),
                         ListOf(queues, NextSend), ListOf(queues', NextSend), but)
    requires ListOf(queues, NextSend) <= ListOf(queues', NextSend)
    requires forall q :: q != NextSend && q != NextSendCapacity ==> ListOf(queues', q) == ListOf(queues, q)
    ensures SharedOnly(m, queues, m', queues', but)
  {
    forall j: Key | Some(j) != but ensures DeadAlike(m, queues, m', queues', j) {
      if Dead(m, j) {
        assert !m'[j].Active();
        forall q | q != NextSendCapacity ensures InQueue(queues, q, j) <==> InQueue(queues', q, j) {
          assert q != NextSend ==> ListOf(queues', q) == ListOf(queues, q);
        }
      }
    }
  }

  lemma GrantedDead(m: map<Key, Stream>, m': map<Key, Stream>)
    requires Grants(m, m')
    ensures forall j: Key :: Dead(m, j) <==> Dead(m', j)
  {
  }

  lemma ShrunkDead(m: map<Key, Stream>, mid: map<Key, Stream>, m': map<Key, Stream>, ids: seq<Key>, dec: nat)
    requires AllShrunk(m, mid, ids, dec) && Grants(mid, m')
    ensures forall j: Key :: Dead(m, j) <==> Dead(m', j)
  {
  }

  lemma AdjustedDead(m: map<Key, Stream>, m': map<Key, Stream>, k: Key, s: Stream)
    requires Adjusted(m, m', k, s)
    ensures forall j: Key :: j != k ==> (Dead(m, j) <==> Dead(m', j))
    ensures (s.IsClosed() && s.refs == 0 <==> Dead(m, k)) ==> (Dead(m, k) <==> Dead(m', k))
  {
  }

  lemma LosesThenSame(m: map<Key, Stream>, queues: map<QueueName, seq<Key>>, mid: map<Key, Stream>,
                      between: map<QueueName, seq<Key>>, m': map<Key, Stream>, queues': map<QueueName, seq<Key>>,
                      but: Option<Key>)
    requires LosesAs(m, queues, mid, between, but) && SameLost(mid, between, m', queues', but)
    ensures LosesAs(m, queues, m', queues', but)
  {
    hide Lost, OnlyWaits;
    forall j: Key | Some(j) != but ensures LostAs(m, queues, m', queues', j) {
      assert LostAs(m, queues, mid, between, j);
    }
  }

  /** A step that shared out capacity, and then the transition of the stream it was about. */
  lemma SharedThenSame(m: map<Key, Stream>, queues: map<QueueName, seq<Key>>, mid: map<Key, Stream>,
                       between: map<QueueName, seq<Key>>, m': map<Key, Stream>, queues': map<QueueName, seq<Key>>,
                       but: Option<Key>)
    requires SharedOnly(m, queues, mid, between, but) && SameLost(mid, between, m', queues', but)
    ensures LosesAs(m, queues, m', queues', but)
  {
    hide SharedOnly, LosesAs, SameLost;
    SharedOnlyLoses(m, queues, mid, between, but);
    LosesThenSame(m, queues, mid, between, m', queues', but);
  }

  lemma SharedOfNotDead(m: map<Key, Stream>, queues: map<QueueName, seq<Key>>, m': map<Key, Stream>,
                        queues': map<QueueName, seq<Key>>, k: Key)
    requires SharedOnly(m, queues, m', queues', Some(k)) && !Dead(m, k) && !Dead(m', k)
    ensures SharedOnly(m, queues, m', queues', None)
  {
    hide DeadAlike;
    forall j: Key ensures DeadAlike(m, queues, m', queues', j) {
      NotDeadAlike(m, queues, m', queues', k);
    }
  }

  lemma NotDeadAlike(m: map<Key, Stream>, queues: map<QueueName, seq<Key>>, m': map<Key, Stream>,
                     queues': map<QueueName, seq<Key>>, k: Key)
    requires !Dead(m, k) && !Dead(m', k)
    ensures DeadAlike(m, queues, m', queues', k)
  {
  }

  lemma SameThenLoses(m: map<Key, Stream>, queues: map<QueueName, seq<Key>>, mid: map<Key, Stream>, m': map<Key,
                      Stream>, queues': map<QueueName, seq<Key>>, k: Key)
    requires k in mid && mid == m[k := mid[k]] && LosesAs(mid, queues, m', queues', Some(k))
    ensures LosesAs(m, queues, m', queues', Some(k))
  {
    forall j: Key | j != k ensures LostAs(m, queues, m', queues', j) {
      assert LostAs(mid, queues, m', queues', j);
    }
  }

  lemma SameLostAgain(m: map<Key, Stream>, queues: map<QueueName, seq<Key>>, mid: map<Key, Stream>,
                      between: map<QueueName, seq<Key>>, m': map<Key, Stream>, queues': map<QueueName, seq<Key>>,
                      but: Option<Key>)
    requires SameLost(m, queues, mid, between, but) || SameLost(m, queues, mid, between, None)
    requires SameLost(mid, between, m', queues', but)
    ensures SameLost(m, queues, m', queues', but)
  {
    hide Lost;
  }

  lemma SameLostBut(m: map<Key, Stream>, queues: map<QueueName, seq<Key>>, m': map<Key, Stream>, queues': map<QueueName,
                    seq<Key>>, k: Key)
    requires SameLost(m, queues, m', queues', None)
    ensures SameLost(m, queues, m', queues', Some(k))
  {
    hide Lost;
    forall j: Key | j != k ensures Lost(m', queues', j) <==> Lost(m, queues, j) {
      assert Some(j) != None;
    }
  }

  lemma TransitionSameLost(m: map<Key, Stream>, queues: map<QueueName, seq<Key>>, k: Key, unreferenced: bool)
    requires k in m
    ensures SameLost(m, queues, Transitioned(m, k, unreferenced), queues, Some(k))
  {
  }

  /** A stream taken off a queue other than that for capacity, and then its transition. */
  lemma PoppedSameLost(m: map<Key, Stream>, queues: map<QueueName, seq<Key>>, queues': map<QueueName, seq<Key>>,
                       m': map<Key, Stream>, e: Key, p: QueueName)
    requires p != NextSendCapacity && ListOf(queues, p) == [e] + ListOf(queues', p)
    requires forall q :: q != p ==> ListOf(queues', q) == ListOf(queues, q)
    requires SameLost(m, queues', m', queues', Some(e)) && !Lost(m', queues', e)
    ensures SameLost(m, queues, m', queues', None)
  {
    forall j: Key ensures Lost(m', queues', j) <==> Lost(m, queues, j) {
      if j == e {
        assert InQueue(queues, p, e);
      } else {
        SameQueues(m, queues, queues', j);
      }
    }
  }

  lemma SameQueues(m: map<Key, Stream>, queues: map<QueueName, seq<Key>>, queues': map<QueueName, seq<Key>>, j: Key)
    requires forall q :: j in ListOf(queues, q) <==> j in ListOf(queues', q)
    ensures Lost(m, queues, j) <==> Lost(m, queues', j)
  {
    forall q ensures InQueue(queues, q, j) <==> InQueue(queues', q, j) {
    }
  }

  /** Queues changed for `k` alone, and not that for capacity. */
  lemma QueuedSameLost(m: map<Key, Stream>, queues: map<QueueName, seq<Key>>, queues': map<QueueName, seq<Key>>, k: Key)
    requires forall q, j: Key :: j != k ==> (j in ListOf(queues, q) <==> j in ListOf(queues', q))
    requires ListOf(queues', NextSendCapacity) == ListOf(queues, NextSendCapacity)
    ensures SameLost(m, queues, m, queues', Some(k))
  {
    hide Lost;
    forall j: Key | j != k ensures Lost(m, queues', j) <==> Lost(m, queues, j) {
      SameQueues(m, queues, queues', j);
    }
  }

  /** It can come to that. A reset stream, its RST_STREAM written and forgotten, and its handle dropped, waits for
      capacity while the connection has none; when it gets one byte the stream is taken off the queue. */
  lemma ClosedWaiter(k: Key, isServer: bool, c: Counters)
    requires c.send == c.recv == c.reset == 0
    ensures var m := map[k := Stream(Closed(LocallyReset), false, 0, Flow(100, 0), 0, 0, [])];
      && Fit(true, m, Flow(0, 0), [k], [], [], None, None) && NoSpare(Flow(0, 0), [k])
      && Living(m, [], [], [], isServer, c)
      && OnlyWaits(m, map[NextSendCapacity := [k]], k)
      && Fit(true, m, Flow(1, 1), [], [], [], None, None) && Lost(m, map[], k)
  {
    var s := Stream(Closed(LocallyReset), false, 0, Flow(100, 0), 0, 0, []);
    TotalPut(map[], k, s);
    assert map[][k := s] == map[k := s];
    assert Counted(map[k := s], isServer, true) == {} && Counted(map[k := s], isServer, false) == {};
  }

  /** What follows an event on `k`: closed, it is no longer counted, and it is gone if nothing refers to it. */
  ghost function Transitioned(m: map<Key, Stream>, k: Key, unreferenced: bool): map<Key, Stream>
    requires k in m
  {
    if !m[k].IsClosed() then m else if unreferenced then m - {k} else m[k := m[k].(isCounted := false)]
  }

  /** What remembering a reset stream does: to the queue, to the count, and to the oldest, `unreferenced` or not, that
      made room. */
  ghost predicate Remembered(k: Key, m: map<Key, Stream>, m': map<Key, Stream>, expiring: seq<Key>, expiring': seq<Key>,
                             c: Counters, c': Counters, unreferenced: bool)
    requires k in m
  {
    if !m[k].state.IsLocalReset() || k in expiring then m' == m && expiring' == expiring && c' == c
    else if c.reset < c.maxReset then m' == m && expiring' == expiring + [k] && c' == c.(reset := c.reset + 1)
    else if expiring == [] then m' == m && expiring' == [] && c' == c
    else
      && expiring[0] in m && m' == Transitioned(m, expiring[0], unreferenced) && c'.reset == c.reset
      && expiring' == if m[expiring[0]].IsClosed() then expiring[1..] + [k] else expiring[1..]
  }

  /** All that an event which made `s` of stream `k` left behind: `k` is `s` but for the capacity it holds and for
      being counted, others were at most granted capacity or no longer counted, and whatever is gone was closed
      and had no handle. */
  ghost predicate LeftBy(m: map<Key, Stream>, m': map<Key, Stream>, k: Key, s: Stream) {
    && (forall j :: j in m' ==> j in m)
    && (forall j :: j in m && j != k ==> OtherLeft(m, m', j))
    && (if k in m' then m'[k] == s.(flow := Flow(s.flow.window, m'[k].flow.available), isCounted := m'[k].isCounted)
        else s.IsClosed() && s.refs == 0)
  }

  ghost predicate OtherLeft(m: map<Key, Stream>, m': map<Key, Stream>, j: Key)
    requires j in m
  {
    if j in m' then Granted(m[j].(isCounted := m'[j].isCounted), m'[j]) else m[j].IsClosed() && m[j].refs == 0
  }

  lemma LeftByAdjusted(m: map<Key, Stream>, m': map<Key, Stream>, k: Key, s: Stream)
    requires Adjusted(m, m', k, s) && s.isCounted == m[k].isCounted
    ensures LeftBy(m, m', k, s)
  {
  }

  lemma LeftByTransition(m: map<Key, Stream>, mid: map<Key, Stream>, k: Key, s: Stream, e: Key, unreferenced: bool)
    requires LeftBy(m, mid, k, s) && e in mid && (unreferenced ==> mid[e].refs == 0)
    ensures LeftBy(m, Transitioned(mid, e, unreferenced), k, s)
  {
    var m' := Transitioned(mid, e, unreferenced);
    forall j | j in m && j != k ensures OtherLeft(m, m', j) {
      assert OtherLeft(m, mid, j);
    }
  }

  /** The first `n` of those that waited to be opened are open and counted, in order; nothing else changed. */
  ghost predicate OpenedInTurn(m: map<Key, Stream>, m': map<Key, Stream>, opening: seq<Key>, opening': seq<Key>,
                               n: nat) {
    && n <= |opening| && opening' == opening[n..] && m'.Keys == m.Keys
    && forall k :: k in m ==> m'[k] == if k in opening[..n] then m[k].(isCounted := true) else m[k]
  }

  lemma NoneOpened(m: map<Key, Stream>, opening: seq<Key>)
    ensures OpenedInTurn(m, m, opening, opening, 0)
  {
  }

  lemma OneMoreOpened(m: map<Key, Stream>, mid: map<Key, Stream>, m': map<Key, Stream>, opening: seq<Key>,
                      mine: seq<Key>, after: seq<Key>, n: nat, k: Key)
    requires OpenedInTurn(m, mid, opening, mine, n) && mine == [k] + after
    requires k in mid && m' == mid[k := mid[k].(isCounted := true)]
    ensures OpenedInTurn(m, m', opening, after, n + 1)
  {
    assert opening[n] == mine[0] == k && opening[n + 1..] == mine[1..] == after;
    assert forall j :: j in opening[..n + 1] <==> j in opening[..n] || j == k;
  }

  /** A closed stream taken out of the index. */
  lemma LivingUnlinked(m: map<Key, Stream>, ids: seq<Key>, opening: seq<Key>, expiring: seq<Key>, isServer: bool,
                       c: Counters, k: Key)
    requires Living(m, ids, opening, expiring, isServer, c) && k in m && m[k].IsClosed() && NoDup(ids)
    ensures Living(m, SwapRemove(ids, k), opening, expiring, isServer, c)
  {
    SwapRemoved(ids, k);
  }

  /** A stream taken away that is not counted. */
  lemma LivingGone(m: map<Key, Stream>, ids: seq<Key>, opening: seq<Key>, expiring: seq<Key>, isServer: bool,
                   c: Counters, k: Key)
    requires Living(m, ids, opening, expiring, isServer, c) && k in m && !m[k].isCounted
    ensures Living(m - {k}, ids, opening, expiring, isServer, c)
  {
    assert Counted(m - {k}, isServer, true) == Counted(m, isServer, true);
    assert Counted(m - {k}, isServer, false) == Counted(m, isServer, false);
  }

  lemma LivingQueues(m: map<Key, Stream>, ids: seq<Key>, opening: seq<Key>, expiring: seq<Key>, isServer: bool,
                     c: Counters, opening': seq<Key>, expiring': seq<Key>, reset: nat)
    requires Living(m, ids, opening, expiring, isServer, c)
    requires forall k :: k in opening' ==> k in opening || (k in m && !m[k].isCounted && Local(isServer, k))
    requires |expiring'| <= reset <= c.maxReset
    ensures Living(m, ids, opening', expiring', isServer, c.(reset := reset))
  {
  }

  lemma LivingNone(isServer: bool, c: Counters)
    requires c.send == c.recv == c.reset == 0
    ensures Living(map[], [], [], [], isServer, c)
  {
    assert Counted(map[], isServer, true) == {} && Counted(map[], isServer, false) == {};
  }

  // ----- how far streams have come

  /** Stream `j` is in the state it was, or still reset, or it had closed and is gone. */
  ghost predicate Kept(m: map<Key, Stream>, m': map<Key, Stream>, j: Key) {
    if j !in m then j !in m'
    else if j in m' then m'[j].state == m[j].state || (m[j].state.IsReset() && m'[j].state.IsReset())
    else m[j].state.Closed?
  }

  /** All are so. */
  ghost predicate AllKept(m: map<Key, Stream>, m': map<Key, Stream>) {
    forall j: Key :: Kept(m, m', j)
  }

  /** All but `k` are so, and `k` is in state `to` now, or gone if that is closed. */
  ghost predicate Becomes(m: map<Key, Stream>, m': map<Key, Stream>, k: Key, to: State) {
    && (if k in m' then m'[k].state == to else to.Closed?)
    && forall j: Key :: j != k ==> Kept(m, m', j)
  }

  /** The halves of stream `k` are these; a stream that is gone has done with both. */
  ghost predicate StandsAt(m: map<Key, Stream>, k: Key, send: Half, recv: Half) {
    if k in m then m[k].state.Stands(send, recv) else send == recv == Done
  }

  /** One half of stream `k`, not done before, moves on, and the other is as it was. */
  ghost predicate Moves(m: map<Key, Stream>, m': map<Key, Stream>, k: Key, sending: bool, to: Half)
    requires k in m
  {
    var s := m[k].state;
    && !s.IsReset() && (if sending then s.SendHalf() else s.RecvHalf()) != Done
    && StandsAt(m', k, if sending then to else s.SendHalf(), if sending then s.RecvHalf() else to)
  }

  /** Behind what stream `k` had queued there is one frame more. */
  ghost predicate QueuesUp(m: map<Key, Stream>, m': map<Key, Stream>, k: Key, f: Frame)
    requires k in m
  {
    k in m' && m'[k].frames == m[k].frames + [f]
  }

  lemma BecomesAt(m: map<Key, Stream>, m': map<Key, Stream>, k: Key, to: State)
    requires Becomes(m, m', k, to)
    ensures !to.IsReset() ==> StandsAt(m', k, to.SendHalf(), to.RecvHalf())
    ensures to.Closed? && k in m' ==> m'[k].state.Closed?
    ensures forall j: Key :: j != k ==> Kept(m, m', j)
  {
  }

  lemma KeptAgain(m: map<Key, Stream>, mid: map<Key, Stream>, m': map<Key, Stream>)
    requires AllKept(m, mid) && AllKept(mid, m')
    ensures AllKept(m, m')
  {
    forall j: Key ensures Kept(m, m', j) {
      assert Kept(m, mid, j) && Kept(mid, m', j);
    }
  }

  lemma TransitionKeeps(m: map<Key, Stream>, k: Key, unreferenced: bool)
    requires k in m
    ensures AllKept(m, Transitioned(m, k, unreferenced))
  {
  }

  lemma LeftByBecomes(m: map<Key, Stream>, m': map<Key, Stream>, k: Key, s: Stream)
    requires LeftBy(m, m', k, s)
    ensures Becomes(m, m', k, s.state)
  {
    forall j: Key | j != k ensures Kept(m, m', j) {
      assert j in m ==> OtherLeft(m, m', j);
    }
  }

  lemma AdjustedBecomes(m: map<Key, Stream>, m': map<Key, Stream>, k: Key, s: Stream)
    requires Adjusted(m, m', k, s)
    ensures Becomes(m, m', k, s.state)
  {
  }

  lemma PartedBecomes(m: map<Key, Stream>, mid: map<Key, Stream>, k: Key, s: Stream, unreferenced: bool)
    requires Adjusted(m, mid, k, s)
    ensures Becomes(m, Transitioned(mid, k, unreferenced), k, s.state)
  {
  }

  /** Receiving HEADERS or END_STREAM does not open a stream for sending, nor close it for that unless it was. */
  lemma ReceivingKeepsBounds(exact: bool, s: Stream, to: State)
    requires s.Bounded(exact) && s.state.Receives(to)
    ensures var s' := s.(state := to); s'.Bounded(exact) && (s'.Starved() ==> s.Starved())
    ensures (s.state.IsSendClosed() <==> to.IsSendClosed()) && (s.state.IsSendStreaming() <==> to.IsSendStreaming())
    ensures !s.IsClosed()
  {
    hide DataOf;
  }
}
