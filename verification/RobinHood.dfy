/** The ring arithmetic of the encoder's hash index, on bare home positions.

    An index of capacity `cap` is seen here as a sequence of "homes": cell `p` holds the position its
    entry hashes to, or `VACANT`. Everything a Robin Hood index promises about probing is a fact about
    that sequence, so all of it is stated and proved here, away from headers and slots.
 */
module RobinHood {

  const VACANT: int := -1

  type Homes = seq<int>

  function Next(cap: nat, p: nat): nat
    requires p < cap
  {
    if p + 1 == cap then 0 else p + 1
  }

  function Prev(cap: nat, p: nat): nat
    requires p < cap
  {
    if p == 0 then cap - 1 else p - 1
  }

  /** How many steps of `Next` lead from `from` to `to`: the source's `(to - from) & mask`. */
  function Dist(cap: nat, from: int, to: int): int
  {
    if from <= to then to - from else to - from + cap
  }

  ghost predicate WellFormed(hs: Homes) {
    forall p :: 0 <= p < |hs| ==> hs[p] == VACANT || 0 <= hs[p] < |hs|
  }

  /** An entry in cell `a` with home `ha` walked past cell `b` only because `b` holds an entry (home `hb`)
      that walked at least as far. */
  predicate YieldsAt(cap: nat, ha: int, a: int, hb: int, b: int) {
    ha != VACANT && Dist(cap, ha, b) < Dist(cap, ha, a) ==>
      hb != VACANT && Dist(cap, ha, b) <= Dist(cap, hb, b)
  }

  ghost predicate Yields(hs: Homes, p: nat, q: nat)
    requires p < |hs| && q < |hs|
  {
    YieldsAt(|hs|, hs[p], p, hs[q], q)
  }

  /** Robin Hood order. In particular there is no gap between an entry's home and its cell. */
  ghost predicate Ordered(hs: Homes) {
    && WellFormed(hs)
    && forall p, q :: 0 <= p < |hs| && 0 <= q < |hs| ==> Yields(hs, p, q)
  }

  /** `p` is no later than the cell where an entry with home `home` has to go. */
  ghost predicate Below(hs: Homes, home: nat, p: nat)
    requires p < |hs| && home < |hs|
  {
    hs[p] == VACANT || Dist(|hs|, hs[p], p) < Dist(|hs|, home, p)
  }

  /** Every cell before `p` on the way from `home` is taken by an entry at least as far from its home. */
  ghost predicate Passed(hs: Homes, home: nat, p: nat)
    requires p < |hs| && home < |hs|
  {
    forall q :: 0 <= q < |hs| && Dist(|hs|, home, q) < Dist(|hs|, home, p) ==>
      hs[q] != VACANT && Dist(|hs|, home, q) <= Dist(|hs|, hs[q], q)
  }

  /** The probe loop of a lookup stops in the right place: no entry with this home lies further on. */
  lemma NothingBeyond(hs: Homes, home: nat, p: nat, q: nat)
    requires Ordered(hs) && p < |hs| && q < |hs| && home < |hs|
    requires Below(hs, home, p) && hs[q] == home
    ensures Dist(|hs|, home, q) < Dist(|hs|, home, p)
  {
    assert Yields(hs, q, p);
  }

  // ----- insertion: shift everything from `p` up to the first vacancy `v` one cell on

  function ShiftedIn<T>(s: seq<T>, p: nat, v: nat, x: T): (r: seq<T>)
    requires p < |s| && v < |s|
    ensures |r| == |s|
  {
    seq(|s|, q requires 0 <= q < |s| =>
      if q == p then x
      else if Dist(|s|, p, q) <= Dist(|s|, p, v) then s[Prev(|s|, q)]
      else s[q])
  }

  /** Carrying one more entry over: the shift reaches one cell further. */
  lemma ShiftedInFurther<T>(s: seq<T>, p: nat, v: nat, x: T)
    requires p < |s| && v < |s| && v != p
    ensures ShiftedIn(s, p, Prev(|s|, v), x)[v] == s[v]
    ensures ShiftedIn(s, p, v, x) == ShiftedIn(s, p, Prev(|s|, v), x)[v := s[Prev(|s|, v)]]
  {
  }

  lemma ShiftedInHere<T>(s: seq<T>, p: nat, x: T)
    requires p < |s|
    ensures ShiftedIn(s, p, p, x) == s[p := x]
  {
  }

  ghost predicate FirstVacancy(hs: Homes, p: nat, v: nat)
    requires p < |hs| && v < |hs|
  {
    && hs[v] == VACANT
    && forall q :: 0 <= q < |hs| && Dist(|hs|, p, q) < Dist(|hs|, p, v) ==> hs[q] != VACANT
  }

  lemma ShiftInKeepsOrder(hs: Homes, home: nat, p: nat, v: nat)
    requires Ordered(hs) && p < |hs| && v < |hs| && home < |hs|
    requires Below(hs, home, p) && Passed(hs, home, p) && FirstVacancy(hs, p, v)
    ensures Ordered(ShiftedIn(hs, p, v, home))
  {
    var r := ShiftedIn(hs, p, v, home);
    forall a, b | 0 <= a < |hs| && 0 <= b < |hs| ensures Yields(r, a, b) {
      ShiftInPair(hs, home, p, v, a, b);
    }
  }

  lemma ShiftInPair(hs: Homes, home: nat, p: nat, v: nat, a: nat, b: nat)
    requires Ordered(hs) && p < |hs| && v < |hs| && home < |hs| && a < |hs| && b < |hs|
    requires Below(hs, home, p) && Passed(hs, home, p) && FirstVacancy(hs, p, v)
    ensures Yields(ShiftedIn(hs, p, v, home), a, b)
  {
    var r, cap := ShiftedIn(hs, p, v, home), |hs|;
    if a == p {
      if b != p {
        InNew(hs, home, p, v, b);
      }
    } else if b == p {
      InOverNew(hs, home, p, v, a);
    } else if Dist(cap, p, a) <= Dist(cap, p, v) {
      assert r[a] == hs[Prev(cap, a)];
      if Dist(cap, p, b) <= Dist(cap, p, v) {
        assert Yields(hs, Prev(cap, a), Prev(cap, b)) && Yields(hs, Prev(cap, b), v);
        InMovedMoved(cap, p, v, a, b, hs[Prev(cap, a)], hs[Prev(cap, b)]);
      } else {
        assert Yields(hs, Prev(cap, a), b);
        InMovedStayed(cap, p, v, a, b, hs[Prev(cap, a)], hs[b]);
      }
    } else if Dist(cap, p, b) <= Dist(cap, p, v) {
      assert Yields(hs, a, Prev(cap, b)) && Yields(hs, a, v);
      InStayedMoved(cap, p, v, a, b, hs[a], hs[Prev(cap, b)]);
    } else {
      assert Yields(hs, a, b);
    }
  }

  lemma InOverNew(hs: Homes, home: nat, p: nat, v: nat, a: nat)
    requires Ordered(hs) && p < |hs| && v < |hs| && home < |hs| && a < |hs| && a != p
    requires Below(hs, home, p) && FirstVacancy(hs, p, v)
    ensures YieldsAt(|hs|, ShiftedIn(hs, p, v, home)[a], a, home, p)
  {
    var a0 := if Dist(|hs|, p, a) <= Dist(|hs|, p, v) then Prev(|hs|, a) else a;
    assert ShiftedIn(hs, p, v, home)[a] == hs[a0];
    assert Yields(hs, a0, p);
  }

  lemma InNew(hs: Homes, home: nat, p: nat, v: nat, b: nat)
    requires p < |hs| && v < |hs| && home < |hs| && b < |hs| && b != p
    requires Passed(hs, home, p) && hs[v] == VACANT
    ensures YieldsAt(|hs|, home, p, ShiftedIn(hs, p, v, home)[b], b)
  {
    assert Dist(|hs|, home, v) >= Dist(|hs|, home, p);
    if Dist(|hs|, home, b) < Dist(|hs|, home, p) {
      assert ShiftedIn(hs, p, v, home)[b] == hs[b];
    }
  }

  lemma InMovedMoved(cap: nat, p: nat, v: nat, a: nat, b: nat, ha: int, hb: int)
    requires p < cap && v < cap && a < cap && b < cap && 0 <= ha < cap && 0 <= hb < cap
    requires 0 < Dist(cap, p, a) <= Dist(cap, p, v) && 0 < Dist(cap, p, b) <= Dist(cap, p, v)
    requires YieldsAt(cap, ha, Prev(cap, a), hb, Prev(cap, b)) && YieldsAt(cap, hb, Prev(cap, b), VACANT, v)
    ensures YieldsAt(cap, ha, a, hb, b)
  {}

  lemma InStayedMoved(cap: nat, p: nat, v: nat, a: nat, b: nat, ha: int, hb: int)
    requires p < cap && v < cap && a < cap && b < cap && VACANT <= ha < cap && VACANT <= hb < cap
    requires Dist(cap, p, a) > Dist(cap, p, v) && 0 < Dist(cap, p, b) <= Dist(cap, p, v)
    requires YieldsAt(cap, ha, a, hb, Prev(cap, b)) && YieldsAt(cap, ha, a, VACANT, v)
    ensures YieldsAt(cap, ha, a, hb, b)
  {}

  lemma InMovedStayed(cap: nat, p: nat, v: nat, a: nat, b: nat, ha: int, hb: int)
    requires p < cap && v < cap && a < cap && b < cap && VACANT <= ha < cap && VACANT <= hb < cap
    requires 0 < Dist(cap, p, a) <= Dist(cap, p, v) && Dist(cap, p, b) > Dist(cap, p, v)
    requires YieldsAt(cap, ha, Prev(cap, a), hb, b)
    ensures YieldsAt(cap, ha, a, hb, b)
  {}

  // ----- deletion: shift everything after `p` one cell back, up to a cell that must not move

  function ShiftedOut<T>(s: seq<T>, p: nat, last: nat, hole: T): (r: seq<T>)
    requires p < |s| && last < |s|
    ensures |r| == |s|
  {
    seq(|s|, q requires 0 <= q < |s| =>
      if q == last then hole
      else if Dist(|s|, p, q) < Dist(|s|, p, last) then s[Next(|s|, q)]
      else s[q])
  }

  /** The shift of one cell more: the cell behind the hole moves into it. */
  lemma ShiftedOutStep<T>(s: seq<T>, p: nat, last: nat, hole: T)
    requires p < |s| && last < |s| && Next(|s|, last) != p
    ensures var n := Next(|s|, last);
      ShiftedOut(s, p, last, hole)[n] == s[n]
        && ShiftedOut(s, p, last, hole)[last := s[n]][n := hole] == ShiftedOut(s, p, n, hole)
  {
  }

  lemma NothingShifted<T>(s: seq<T>, p: nat, hole: T)
    requires p < |s|
    ensures ShiftedOut(s, p, p, hole) == s[p := hole]
  {
  }

  /** `p` to `last` is the stretch to move: all of it taken, and whatever follows `last` is at home or vacant. */
  ghost predicate MovableRun(hs: Homes, p: nat, last: nat)
    requires p < |hs| && last < |hs|
  {
    && hs[p] != VACANT
    && (forall q :: 0 <= q < |hs| && 0 < Dist(|hs|, p, q) <= Dist(|hs|, p, last) ==> hs[q] != VACANT && hs[q] != q)
    && (var n := Next(|hs|, last); hs[n] == VACANT || hs[n] == n)
  }

  lemma ShiftOutKeepsOrder(hs: Homes, p: nat, last: nat)
    requires Ordered(hs) && p < |hs| && last < |hs| && MovableRun(hs, p, last)
    ensures Ordered(ShiftedOut(hs, p, last, VACANT))
  {
    var r := ShiftedOut(hs, p, last, VACANT);
    forall a, b | 0 <= a < |hs| && 0 <= b < |hs| ensures Yields(r, a, b) {
      ShiftOutPair(hs, p, last, a, b);
    }
  }

  lemma ShiftOutPair(hs: Homes, p: nat, last: nat, a: nat, b: nat)
    requires Ordered(hs) && p < |hs| && last < |hs| && MovableRun(hs, p, last) && a < |hs| && b < |hs|
    ensures Yields(ShiftedOut(hs, p, last, VACANT), a, b)
  {
    var r, cap, n := ShiftedOut(hs, p, last, VACANT), |hs|, Next(|hs|, last);
    if a != last {
      var a0 := if Dist(cap, p, a) < Dist(cap, p, last) then Next(cap, a) else a;
      assert r[a] == hs[a0];
      assert Yields(hs, a0, n);
      if b == last {
        OutPastLast(cap, p, last, a, hs[a0], hs[n]);
      } else if Dist(cap, p, b) < Dist(cap, p, last) {
        assert Yields(hs, a0, Next(cap, b));
        OutMoved(cap, p, last, a, b, hs[a0], hs[Next(cap, b)], hs[n]);
      } else {
        assert Yields(hs, a0, b);
        OutStayed(cap, p, last, a, b, hs[a0], hs[b]);
      }
    }
  }

  lemma OutPastLast(cap: nat, p: nat, last: nat, a: nat, ha: int, hn: int)
    requires p < cap && last < cap && a < cap && VACANT <= ha < cap && a != last
    requires var n := Next(cap, last); hn == VACANT || hn == n
    requires var a0 := if Dist(cap, p, a) < Dist(cap, p, last) then Next(cap, a) else a;
      && YieldsAt(cap, ha, a0, hn, Next(cap, last)) && (a0 != a ==> ha != a0)
      && (a0 == Next(cap, last) ==> ha == hn)
    ensures ha != VACANT ==> Dist(cap, ha, last) >= Dist(cap, ha, a)
  {}

  lemma OutMoved(cap: nat, p: nat, last: nat, a: nat, b: nat, ha: int, hb: int, hn: int)
    requires p < cap && last < cap && a < cap && b < cap && VACANT <= ha < cap && VACANT <= hb < cap
    requires a != last && Dist(cap, p, b) < Dist(cap, p, last) && hb != Next(cap, b)
    requires hn == VACANT || hn == Next(cap, last)
    requires var a0 := if Dist(cap, p, a) < Dist(cap, p, last) then Next(cap, a) else a;
      && YieldsAt(cap, ha, a0, hn, Next(cap, last)) && (a0 != a ==> ha != a0)
      && (a0 == Next(cap, last) ==> ha == hn)
      && YieldsAt(cap, ha, a0, hb, Next(cap, b))
    ensures YieldsAt(cap, ha, a, hb, b)
  {}

  lemma OutStayed(cap: nat, p: nat, last: nat, a: nat, b: nat, ha: int, hb: int)
    requires p < cap && last < cap && a < cap && b < cap && VACANT <= ha < cap && VACANT <= hb < cap
    requires a != last && Dist(cap, p, b) > Dist(cap, p, last)
    requires var a0 := if Dist(cap, p, a) < Dist(cap, p, last) then Next(cap, a) else a;
      && (a0 != a ==> ha != a0) && YieldsAt(cap, ha, a0, hb, b)
    ensures YieldsAt(cap, ha, a, hb, b)
  {}

  /** Deletions never push the place of a waiting entry further away. */
  lemma ShiftOutKeepsBelow(hs: Homes, p: nat, last: nat, home: nat, at: nat)
    requires Ordered(hs) && p < |hs| && last < |hs| && MovableRun(hs, p, last)
    requires at < |hs| && home < |hs| && Below(hs, home, at)
    ensures Below(ShiftedOut(hs, p, last, VACANT), home, at)
  {
    var r, cap := ShiftedOut(hs, p, last, VACANT), |hs|;
    var n := Next(cap, at);
    assert Yields(hs, n, at);
    assert r[at] == VACANT || r[at] == hs[at] || r[at] == hs[n];
  }

  /** Walking back from `p` while the cell before it also lies below ends at the insertion point. */
  lemma PassedFromBehind(hs: Homes, home: nat, p: nat)
    requires Ordered(hs) && p < |hs| && home < |hs|
    requires p != home ==> !Below(hs, home, Prev(|hs|, p))
    ensures Passed(hs, home, p)
  {
    if p != home {
      var b := Prev(|hs|, p);
      forall q | 0 <= q < |hs| && Dist(|hs|, home, q) < Dist(|hs|, home, p)
        ensures hs[q] != VACANT && Dist(|hs|, home, q) <= Dist(|hs|, hs[q], q)
      {
        assert Yields(hs, b, q);
      }
    }
  }

  // ----- growth: reinsert in ring order into an index twice as large

  /** Between a vacancy and an occupied cell there is an entry at home, so growth has a place to start. */
  lemma {:induction false} SomeEntryAtHome(hs: Homes, v: nat, p: nat) returns (f: nat)
    requires Ordered(hs) && v < |hs| && p < |hs| && hs[v] == VACANT && hs[p] != VACANT
    ensures f < |hs| && hs[f] == f
    decreases Dist(|hs|, v, p)
  {
    var n := Next(|hs|, v);
    if hs[n] == VACANT {
      f := SomeEntryAtHome(hs, n, p);
    } else {
      assert Yields(hs, n, v);
      f := n;
    }
  }

  /** The `k`-th cell of the old ring, counted from the entry at home in `first`. */
  function RingCell(cap: nat, first: nat, k: nat): (p: nat)
    requires first < cap && k < cap
    ensures p < cap && Dist(cap, first, p) == k
  {
    if first + k < cap then first + k else first + k - cap
  }

  /** Ring offset from `first` within either half of the doubled index. */
  function HalfOffset(cap: nat, first: nat, p: nat): int
    requires first < cap
  {
    var o := Dist(2 * cap, first, p); if o < cap then o else o - cap
  }

  predicate InUpperHalf(cap: nat, first: nat, p: nat)
    requires first < cap
  {
    Dist(2 * cap, first, p) >= cap
  }

  /** What holds of the doubled index `ns` once the first `k` ring cells of `hs` are reinserted: it is in
      order, every entry sits in the half and not beyond the offset it had before, and no home lies past
      one still to come. */
  ghost predicate Regrown(hs: Homes, first: nat, k: nat, ns: Homes)
    requires first < |hs| && k <= |hs|
  {
    && |ns| == 2 * |hs|
    && Ordered(ns)
    && (forall p :: 0 <= p < |ns| && ns[p] != VACANT ==>
          && InUpperHalf(|hs|, first, ns[p]) == InUpperHalf(|hs|, first, p)
          && HalfOffset(|hs|, first, ns[p]) <= HalfOffset(|hs|, first, p) < k)
    && (forall p, j :: 0 <= p < |ns| && ns[p] != VACANT && k <= j < |hs| && hs[RingCell(|hs|, first, j)] != VACANT ==>
          HalfOffset(|hs|, first, ns[p]) <= Dist(|hs|, first, hs[RingCell(|hs|, first, j)]))
  }

  /** Seen from an entry at home, homes increase along the ring and never lie past their cell. */
  lemma RingSorted(hs: Homes, first: nat, i: nat, j: nat)
    requires Ordered(hs) && first < |hs| && hs[first] == first && i <= j < |hs|
    requires hs[RingCell(|hs|, first, i)] != VACANT && hs[RingCell(|hs|, first, j)] != VACANT
    ensures Dist(|hs|, first, hs[RingCell(|hs|, first, i)]) <= Dist(|hs|, first, hs[RingCell(|hs|, first, j)]) <= j
  {
    var p, q := RingCell(|hs|, first, i), RingCell(|hs|, first, j);
    assert Yields(hs, q, first) && Yields(hs, p, first) && Yields(hs, q, p);
  }

  /** A home in the doubled index is the old home or the old home one old capacity further on. */
  predicate SplitHome(cap: nat, before: int, after: int) {
    after == before || after == before + cap
  }

  lemma RegrowStart(hs: Homes, first: nat, ns: Homes)
    requires first < |hs| && |ns| == 2 * |hs| && forall p :: 0 <= p < |ns| ==> ns[p] == VACANT
    ensures Regrown(hs, first, 0, ns)
  {
  }

  lemma RegrowSkip(hs: Homes, first: nat, k: nat, ns: Homes)
    requires first < |hs| && k < |hs| && Regrown(hs, first, k, ns)
    ensures Regrown(hs, first, k + 1, ns)
  {
  }

  /** The cell at the old offset is still free, so linear probing from the new home stops there at the latest. */
  lemma RegrowHasRoom(hs: Homes, first: nat, k: nat, ns: Homes, home: nat) returns (limit: nat)
    requires Ordered(hs) && first < |hs| && hs[first] == first && k < |hs| && Regrown(hs, first, k, ns)
    requires hs[RingCell(|hs|, first, k)] != VACANT
    requires SplitHome(|hs|, hs[RingCell(|hs|, first, k)], home)
    ensures limit < |ns| && home < |ns| && ns[limit] == VACANT
    ensures HalfOffset(|hs|, first, limit) == k && InUpperHalf(|hs|, first, limit) == InUpperHalf(|hs|, first, home)
    ensures HalfOffset(|hs|, first, home) == Dist(|hs|, first, hs[RingCell(|hs|, first, k)]) <= k
  {
    RingSorted(hs, first, k, k);
    var off := if InUpperHalf(|hs|, first, home) then k + |hs| else k;
    limit := if first + off < 2 * |hs| then first + off else first + off - 2 * |hs|;
  }

  /** The first free cell from the new home lies between that home and the old offset, in the same half. */
  lemma RegrowLands(cap: nat, first: nat, home: nat, c: nat, limit: nat, q: nat)
    requires first < cap && home < 2 * cap && c < 2 * cap && limit < 2 * cap && q < 2 * cap
    requires InUpperHalf(cap, first, limit) == InUpperHalf(cap, first, home)
    requires HalfOffset(cap, first, home) <= HalfOffset(cap, first, limit)
    requires Dist(2 * cap, home, c) <= Dist(2 * cap, home, limit)
    requires Dist(2 * cap, home, q) <= Dist(2 * cap, home, c)
    ensures InUpperHalf(cap, first, q) == InUpperHalf(cap, first, home)
    ensures HalfOffset(cap, first, home) <= HalfOffset(cap, first, q) <= HalfOffset(cap, first, limit)
  {
  }

  lemma RegrowYields(cap: nat, first: nat, home: nat, c: nat, b: nat, hb: nat)
    requires first < cap && home < 2 * cap && c < 2 * cap && b < 2 * cap && hb < 2 * cap
    requires InUpperHalf(cap, first, b) == InUpperHalf(cap, first, home) == InUpperHalf(cap, first, hb)
    requires HalfOffset(cap, first, hb) <= HalfOffset(cap, first, home) <= HalfOffset(cap, first, b)
    ensures Dist(2 * cap, home, b) <= Dist(2 * cap, hb, b)
  {
  }

  lemma RegrowStepOrdered(hs: Homes, first: nat, k: nat, ns: Homes, home: nat, c: nat)
    requires Ordered(hs) && first < |hs| && hs[first] == first && k < |hs| && Regrown(hs, first, k, ns)
    requires hs[RingCell(|hs|, first, k)] != VACANT
    requires SplitHome(|hs|, hs[RingCell(|hs|, first, k)], home)
    requires home < |ns| && c < |ns| && FirstVacancy(ns, home, c)
    ensures Ordered(ns[c := home])
  {
    var r, cap := ns[c := home], |hs|;
    var limit := RegrowHasRoom(hs, first, k, ns, home);
    forall a, b | 0 <= a < |r| && 0 <= b < |r| ensures Yields(r, a, b) {
      if a != c {
        assert Yields(ns, a, c) && Yields(ns, a, b);
      } else if b != c && Dist(2 * cap, home, b) < Dist(2 * cap, home, c) {
        assert ns[b] != VACANT;
        RegrowLands(cap, first, home, c, limit, b);
        RegrowYields(cap, first, home, c, b, ns[b]);
      }
    }
  }

  lemma RegrowStep(hs: Homes, first: nat, k: nat, ns: Homes, home: nat, c: nat)
    requires Ordered(hs) && first < |hs| && hs[first] == first && k < |hs| && Regrown(hs, first, k, ns)
    requires hs[RingCell(|hs|, first, k)] != VACANT
    requires SplitHome(|hs|, hs[RingCell(|hs|, first, k)], home)
    requires home < |ns| && c < |ns| && FirstVacancy(ns, home, c)
    ensures Regrown(hs, first, k + 1, ns[c := home])
  {
    var r, cap := ns[c := home], |hs|;
    RegrowStepOrdered(hs, first, k, ns, home, c);
    var limit := RegrowHasRoom(hs, first, k, ns, home);
    RegrowLands(cap, first, home, c, limit, c);
    forall p, j | 0 <= p < |r| && r[p] != VACANT && k < j < cap && hs[RingCell(cap, first, j)] != VACANT
      ensures HalfOffset(cap, first, r[p]) <= Dist(cap, first, hs[RingCell(cap, first, j)])
    {
      RingSorted(hs, first, k, j);
    }
  }
}
