/** How much is left to write: a measure that every frame written makes smaller. */
module Backlog {
  import opened Headers
  import opened FlowControl
  import opened StreamState
  import opened StreamStore
  import opened Sums
  import opened SendFlow
  import opened SendBooks
  import opened Prioritize
  import StreamLife

  /** What a stream has queued. A byte counts twice, so that a slice sent outweighs the remainder put back. */
  function Load(s: Stream): nat {
    2 * |DataOf(s.frames)| + |s.frames| + if s.state.IsScheduledReset() then 1 else 0
  }

  ghost function Loads(m: map<Key, Stream>): map<Key, int> {
    map k | k in m :: Load(m[k])
  }

  ghost function Queued(m: map<Key, Stream>): (n: nat) {
    SumBounds(Loads(m));
    Sum(Loads(m))
  }

  /** What is in flight and will be put back. */
  function Aloft(inFlight: InFlight, held: Option<Prioritized>): nat {
    if InTheAir(inFlight, held).Some? then 2 * |held.value.rest| + 1 else 0
  }

  lemma QueuedPut(m: map<Key, Stream>, k: Key, s: Stream)
    requires k in m
    ensures Queued(m[k := s]) == Queued(m) - Load(m[k]) + Load(s)
  {
    assert Loads(m[k := s]) == Loads(m)[k := Load(s)];
    SumPut(Loads(m), k, Load(s));
  }

  lemma QueuedWithout(m: map<Key, Stream>, k: Key)
    requires k in m
    ensures Queued(m - {k}) == Queued(m) - Load(m[k])
  {
    assert Loads(m - {k}) == Loads(m) - {k};
    SumWithout(Loads(m), k);
  }

  lemma QueuedSame(m: map<Key, Stream>, m': map<Key, Stream>)
    requires m'.Keys == m.Keys && forall k :: k in m ==> m'[k].frames == m[k].frames && m'[k].state == m[k].state
    ensures Queued(m') == Queued(m)
  {
    assert Loads(m') == Loads(m);
  }

  /** Whatever goes out makes the backlog smaller, the remainder that will be put back counted in. */
  lemma OutIsLess(r: Popped, maxLen: nat, m: map<Key, Stream>, m': map<Key, Stream>, conn: Flow, conn': Flow,
                  inFlight: InFlight, held: Option<Prioritized>)
    requires r.Out? && maxLen > 0 && r.Key() in m && m[r.Key()].flow.available >= 0
    requires Dispatched(r, m[r.Key()], maxLen, m, m', conn, conn')
    requires Flies(r, m[r.Key()], inFlight, held)
    ensures Queued(m') + Aloft(inFlight, held) < Queued(m)
  {
    var k, s := r.Key(), m[r.Key()];
    QueuedPut(m, k, m'[k]);
    assert s.frames != [] ==>
      DataOf(s.frames) == (if s.frames[0].Data? then s.frames[0].payload else []) + DataOf(s.frames[1..]);
  }

  /** Putting the remainder back changes nothing. */
  lemma PutBackIsSame(m: map<Key, Stream>, m': map<Key, Stream>, inFlight: InFlight, held: Option<Prioritized>)
    requires match InTheAir(inFlight, held)
      case None => m' == m
      case Some(k) =>
        && k in m
        && m' == m[k := m[k].(frames := [Data(held.value.rest, held.value.endOfStream)] + m[k].frames)]
    ensures Queued(m') == Queued(m) + Aloft(inFlight, held)
  {
    if InTheAir(inFlight, held).Some? {
      var k := InTheAir(inFlight, held).value;
      DataOfCons(Data(held.value.rest, held.value.endOfStream), m[k].frames);
      QueuedPut(m, k, m'[k]);
    }
  }

  lemma TransitionIsNoMore(m: map<Key, Stream>, k: Key, unreferenced: bool)
    requires k in m
    ensures Queued(StreamLife.Transitioned(m, k, unreferenced)) <= Queued(m)
  {
    if unreferenced {
      QueuedWithout(m, k);
    } else {
      QueuedPut(m, k, m[k].(isCounted := false));
    }
  }
}
