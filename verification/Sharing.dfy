/** Sharing out connection capacity among those who wait for it, first come first served: who gets a turn, and what
    each gets, told from the state before. */
module Sharing {
  import opened Headers
  import opened FlowControl
  import opened StreamState
  import opened StreamStore
  import opened SendFlow

  /** What a stream that takes part in the sharing still lacks. */
  function Lack(s: Stream): nat {
    if s.Active() && s.flow.available < s.Want() then s.Want() - AsSize(s.flow.available) else 0
  }

  /** What the streams listed lack together. */
  ghost function Lacking(m: map<Key, Stream>, waiting: seq<Key>): nat {
    if waiting == [] then 0
    else
      var last := waiting[|waiting| - 1];
      Lacking(m, waiting[..|waiting| - 1]) + if last in m then Lack(m[last]) else 0
  }

  /** How many of those who wait have a turn when there are `a` to give: up to the first before whom all is gone. */
  ghost function Turns(m: map<Key, Stream>, waiting: seq<Key>, a: nat): (n: nat)
    ensures n <= |waiting|
  {
    if waiting == [] || a > Lacking(m, waiting[..|waiting| - 1]) then |waiting|
    else Turns(m, waiting[..|waiting| - 1], a)
  }

  function Given(s: Stream, n: nat): Stream {
    s.(flow := s.flow.Assign(n))
  }

  /** The first `n` that waited had their turn when there were `a` to give: each got what it lacked, or what those in
      front of it had left; the last of them waits again if it lacks more. Nobody else got anything. */
  ghost predicate HadTurns(m: map<Key, Stream>, m': map<Key, Stream>, waiting: seq<Key>, waiting': seq<Key>,
                           a: nat, a': int, n: nat)
  {
    && n <= |waiting| && m'.Keys == m.Keys
    && (n > 0 ==> a > Lacking(m, waiting[..n - 1]))
    && a' == a - Min(a, Lacking(m, waiting[..n]))
    && waiting' == waiting[n..] + (if n > 0 && a < Lacking(m, waiting[..n]) then [waiting[n - 1]] else [])
    && (forall k :: k in m && k !in waiting[..n] ==> m'[k] == m[k])
    && (forall i :: 0 <= i < n ==> HadTurn(m, m', waiting, a, i))
  }

  ghost predicate HadTurn(m: map<Key, Stream>, m': map<Key, Stream>, waiting: seq<Key>, a: nat, i: nat)
    requires i < |waiting|
  {
    var k := waiting[i];
    && k in m && k in m' && Lacking(m, waiting[..i]) < a
    && m'[k] == Given(m[k], Min(Lack(m[k]), a - Lacking(m, waiting[..i])))
  }

  /** Stream `k`, the first that waited, had its turn when there were `c` to give. */
  ghost predicate OneTurn(m: map<Key, Stream>, m': map<Key, Stream>, c: int, c': int, waiting: seq<Key>,
                          waiting': seq<Key>, k: Key) {
    && k in m && waiting != [] && c > 0
    && var n: nat := Min(Lack(m[k]), c);
    && m' == m[k := Given(m[k], n)] && c' == c - n
    && waiting' == waiting[1..] + if c < Lack(m[k]) then [k] else []
  }

  /** All of them had their turn for whom anything was left. */
  ghost predicate Served(m: map<Key, Stream>, m': map<Key, Stream>, waiting: seq<Key>, waiting': seq<Key>, a: nat,
                         a': int) {
    HadTurns(m, m', waiting, waiting', a, a', Turns(m, waiting, a))
  }

  lemma {:induction false} LackingGrows(m: map<Key, Stream>, waiting: seq<Key>, i: nat, j: nat)
    requires i <= j <= |waiting|
    ensures Lacking(m, waiting[..i]) <= Lacking(m, waiting[..j])
  {
    if i < j {
      LackingGrows(m, waiting, i, j - 1);
      LackingNext(m, waiting, j - 1);
    }
  }

  lemma LackingNext(m: map<Key, Stream>, waiting: seq<Key>, i: nat)
    requires i < |waiting|
    ensures Lacking(m, waiting[..i + 1]) == Lacking(m, waiting[..i]) + if waiting[i] in m then Lack(m[waiting[i]])
      else 0
  {
    assert waiting[..i + 1][..i] == waiting[..i];
  }

  /** A stream has a turn exactly if the streams in front of it lack less than there is to give. */
  lemma {:induction false} TurnComes(m: map<Key, Stream>, waiting: seq<Key>, a: nat, i: nat)
    requires i < |waiting|
    ensures i < Turns(m, waiting, a) <==> a > Lacking(m, waiting[..i])
  {
    var shorter := waiting[..|waiting| - 1];
    LackingGrows(m, waiting, i, |waiting| - 1);
    if i < |shorter| && a <= Lacking(m, shorter) {
      TurnComes(m, shorter, a, i);
      assert shorter[..i] == waiting[..i];
    }
  }

  lemma TurnsAre(m: map<Key, Stream>, waiting: seq<Key>, a: nat, n: nat)
    requires n <= |waiting| && (n > 0 ==> a > Lacking(m, waiting[..n - 1]))
    requires n < |waiting| ==> a <= Lacking(m, waiting[..n])
    ensures n == Turns(m, waiting, a)
  {
    if n > 0 {
      TurnComes(m, waiting, a, n - 1);
    }
    if n < |waiting| {
      TurnComes(m, waiting, a, n);
    }
  }

  lemma NobodyServed(m: map<Key, Stream>, waiting: seq<Key>, a: nat)
    ensures HadTurns(m, m, waiting, waiting, a, a, 0)
    ensures a == 0 || waiting == [] ==> Served(m, m, waiting, waiting, a, a)
  {
    if a == 0 || waiting == [] {
      TurnsAre(m, waiting, a, 0);
    }
  }

  /** The next in the queue had its turn. */
  lemma OneMoreServed(m: map<Key, Stream>, mid: map<Key, Stream>, m': map<Key, Stream>, waiting: seq<Key>,
                      waiting': seq<Key>, a: nat, c: int, c': int, n: nat)
    requires n < |waiting| && NoDup(waiting) && HadTurns(m, mid, waiting, waiting[n..], a, c, n)
    requires OneTurn(mid, m', c, c', waiting[n..], waiting', waiting[n])
    ensures HadTurns(m, m', waiting, waiting', a, c', n + 1)
  {
    hide Lacking, Lack, HadTurn;
    var k := waiting[n];
    assert waiting[n..][1..] == waiting[n + 1..];
    LackingNext(m, waiting, n);
    assert k !in waiting[..n];
    assert waiting[..n + 1] == waiting[..n] + [k];
    forall i | 0 <= i < n + 1 ensures HadTurn(m, m', waiting, a, i) {
      if i < n {
        assert HadTurn(m, mid, waiting, a, i) && waiting[i] != k;
        TurnStays(m, mid, m', waiting, a, i, k);
      } else {
        TurnNow(m, mid, m', waiting, a, c, c', waiting', n);
      }
    }
  }

  lemma TurnStays(m: map<Key, Stream>, mid: map<Key, Stream>, m': map<Key, Stream>, waiting: seq<Key>, a: nat, i: nat,
                  k: Key)
    requires i < |waiting| && HadTurn(m, mid, waiting, a, i) && waiting[i] != k && k in m' && m' == mid[k := m'[k]]
    ensures HadTurn(m, m', waiting, a, i)
  {
    hide Lacking, Lack;
  }

  lemma TurnNow(m: map<Key, Stream>, mid: map<Key, Stream>, m': map<Key, Stream>, waiting: seq<Key>, a: nat, c: int,
                c': int, waiting': seq<Key>, n: nat)
    requires n < |waiting| && OneTurn(mid, m', c, c', waiting[n..], waiting', waiting[n])
    requires waiting[n] in m && mid[waiting[n]] == m[waiting[n]] && c == a - Min(a, Lacking(m, waiting[..n]))
    ensures HadTurn(m, m', waiting, a, n)
  {
    hide Lacking, Lack;
  }

  /** The sharing ends when nothing is left or nobody waits. */
  lemma AllServed(m: map<Key, Stream>, m': map<Key, Stream>, waiting: seq<Key>, waiting': seq<Key>, a: nat, a': int,
                  n: nat)
    requires HadTurns(m, m', waiting, waiting', a, a', n) && (a' <= 0 || waiting' == [])
    ensures Served(m, m', waiting, waiting', a, a')
  {
    TurnsAre(m, waiting, a, n);
  }

  lemma OffTheQueue(waiting: seq<Key>, waiting': seq<Key>, n: nat, again: bool, i: nat)
    requires NoDup(waiting) && n <= |waiting| && i < |waiting| && (again ==> n > 0)
    requires waiting' == waiting[n..] + if again then [waiting[n - 1]] else []
    ensures waiting[i] !in waiting' <==> i < n && !(again && i == n - 1)
  {
    if n <= i {
      assert waiting[n..][i - n] == waiting[i];
    } else {
      assert forall j :: n <= j < |waiting| ==> waiting[n..][j - n] == waiting[j];
    }
  }

  lemma TurnsBound(m: map<Key, Stream>, waiting: seq<Key>, a: nat)
    ensures var n := Turns(m, waiting, a); n > 0 ==> a > Lacking(m, waiting[..n - 1])
  {
    hide Lacking;
    var n := Turns(m, waiting, a);
    if n > 0 {
      TurnComes(m, waiting, a, n - 1);
    }
  }

  /** So whoever waits is taken off the queue exactly if there is more to give than those in front of it lack, and
      enough for itself: for a stream that takes no part, exactly if there is more than those in front lack. */
  lemma TakenOffExactly(m: map<Key, Stream>, m': map<Key, Stream>, waiting: seq<Key>, waiting': seq<Key>, a: nat,
                        a': int, i: nat)
    requires Served(m, m', waiting, waiting', a, a') && NoDup(waiting) && i < |waiting|
    ensures waiting[i] !in waiting' <==> a > Lacking(m, waiting[..i]) && a >= Lacking(m, waiting[..i + 1])
    ensures waiting[i] in m && Lack(m[waiting[i]]) == 0 ==> (waiting[i] !in waiting' <==> a > Lacking(m, waiting[..i]))
  {
    hide Turns, Lacking, Lack, HadTurn;
    var n := Turns(m, waiting, a);
    OffTheQueue(waiting, waiting', n, n > 0 && a < Lacking(m, waiting[..n]), i);
    TurnComes(m, waiting, a, i);
    TurnsBound(m, waiting, a);
    LackingNext(m, waiting, i);
    if i < n {
      LackingGrows(m, waiting, i + 1, n);
      if i < n - 1 {
        LackingGrows(m, waiting, i + 1, n - 1);
      }
    }
  }
}
