/** The representation of the encoder's dynamic table: a ring of slots with per-name chains, and a Robin Hood
    index over the distinct names. Here are its invariant and the facts each operation rests on, on values. */
module HpackTableRep {
  import opened Headers
  import opened FifoTable
  import opened RobinHood
  import opened Arith

  /** A stored header. `next` leads to the next newer slot of the same name. Positions are stored relative to
      the running count of insertions, so they stay put when newer slots arrive: the slot at real index `i`
      has stored position `i - inserted`. */
  datatype Slot = Slot(hash: nat, header: Header, next: Option<int>)
  datatype Pos = Pos(index: int, hash: nat)
  type Indices = seq<Option<Pos>>
  type Hasher = Bytes -> nat

  /** The source's `hash & mask`; the mask is one less than the capacity, a power of two. */
  function DesiredPos(cap: nat, hash: nat): (p: nat)
    requires cap > 0
    ensures p < cap
  {
    hash % cap
  }

  function HomeOf(cap: nat, cell: Option<Pos>): (h: int)
    ensures h == VACANT || 0 <= h < cap
    ensures cap > 0 ==> (h == VACANT <==> cell.None?)
  {
    if cell.None? || cap == 0 then VACANT else DesiredPos(cap, cell.value.hash)
  }

  function HomesOf(ix: Indices): (hs: Homes)
    ensures |hs| == |ix|
    ensures forall p :: 0 <= p < |ix| ==> hs[p] == HomeOf(|ix|, ix[p])
  {
    seq(|ix|, p requires 0 <= p < |ix| => HomeOf(|ix|, ix[p]))
  }

  function HeadersOf(slots: seq<Slot>): (es: Entries)
    ensures |es| == |slots|
    ensures forall i :: 0 <= i < |es| ==> es[i] == slots[i].header
  {
    seq(|slots|, i requires 0 <= i < |slots| => slots[i].header)
  }

  ghost predicate IsOldest(slots: seq<Slot>, i: int)
    requires 0 <= i < |slots|
  {
    forall j :: i < j < |slots| ==> slots[i].header.name != slots[j].header.name
  }

  /** `next` of slot `i` leads to the closest newer slot of the same name, if there is one. */
  ghost predicate ChainedAt(slots: seq<Slot>, inserted: int, i: int)
    requires 0 <= i < |slots|
  {
    match slots[i].next
    case None => forall j :: 0 <= j < i ==> slots[i].header.name != slots[j].header.name
    case Some(s) =>
      var n := s + inserted;
      && 0 <= n < i
      && slots[i].header.name == slots[n].header.name
      && forall j :: n < j < i ==> slots[i].header.name != slots[j].header.name
  }

  ghost predicate SlotsOk(h: Hasher, slots: seq<Slot>, inserted: int) {
    && (forall i :: 0 <= i < |slots| ==> slots[i].hash == h(slots[i].header.name))
    && (forall i :: 0 <= i < |slots| ==> ChainedAt(slots, inserted, i))
    && NoDuplicates(HeadersOf(slots))
  }

  /** An occupied cell points at the oldest slot of some name. */
  ghost predicate PointsAtOldest(slots: seq<Slot>, inserted: int, pos: Pos) {
    var i := pos.index + inserted;
    0 <= i < |slots| && slots[i].hash == pos.hash && IsOldest(slots, i)
  }

  function PosOf(slots: seq<Slot>, inserted: int, i: int): Pos
    requires 0 <= i < |slots|
  {
    Pos(i - inserted, slots[i].hash)
  }

  ghost predicate Pointing(ix: Indices, slots: seq<Slot>, inserted: int) {
    forall p :: 0 <= p < |ix| && ix[p].Some? ==> PointsAtOldest(slots, inserted, ix[p].value)
  }

  ghost predicate Unique(ix: Indices) {
    forall p, q :: 0 <= p < q < |ix| && ix[p].Some? && ix[q].Some? ==> ix[p].value.index != ix[q].value.index
  }

  ghost predicate Covering(ix: Indices, slots: seq<Slot>, inserted: int) {
    forall i :: 0 <= i < |slots| && IsOldest(slots, i) ==> Some(PosOf(slots, inserted, i)) in ix
  }

  ghost predicate IndexOk(ix: Indices, slots: seq<Slot>, inserted: int) {
    && Pointing(ix, slots, inserted)
    && Unique(ix)
    && Covering(ix, slots, inserted)
    && Ordered(HomesOf(ix))
  }

  /** The whole invariant: exactly one index cell for each distinct name, at the name's oldest slot; `next`
      links visiting that name's slots from oldest to newest; Robin Hood order; and no header twice. */
  ghost predicate Rep(h: Hasher, ix: Indices, slots: seq<Slot>, inserted: int) {
    && SlotsOk(h, slots, inserted)
    && IndexOk(ix, slots, inserted)
  }

  lemma RepOrdered(h: Hasher, ix: Indices, slots: seq<Slot>, inserted: int)
    requires Rep(h, ix, slots, inserted)
    ensures Ordered(HomesOf(ix))
  {
  }

  // ----- counting: the index never fills up

  ghost function UpTo(n: nat): (s: set<int>)
    ensures forall x :: x in s <==> 0 <= x < n
    ensures |s| == n
  {
    if n == 0 then {} else UpTo(n - 1) + {n - 1}
  }

  lemma {:induction false} DistinctValuesFit(xs: seq<int>, n: nat)
    requires forall i :: 0 <= i < |xs| ==> 0 <= xs[i] < n
    requires forall i, j :: 0 <= i < j < |xs| ==> xs[i] != xs[j]
    ensures |xs| <= n
  {
    var s := set x | x in xs;
    DistinctCount(xs);
    assert s <= UpTo(n);
    SubsetCard(s, UpTo(n));
  }

  lemma {:induction false} DistinctCount(xs: seq<int>)
    requires forall i, j :: 0 <= i < j < |xs| ==> xs[i] != xs[j]
    ensures |(set x | x in xs)| == |xs|
  {
    if xs != [] {
      var front, last := xs[..|xs| - 1], xs[|xs| - 1];
      DistinctCount(front);
      assert (set x | x in xs) == (set x | x in front) + {last};
    }
  }

  lemma {:induction false} SubsetCard(a: set<int>, b: set<int>)
    requires a <= b
    ensures |a| <= |b|
  {
    assert |b| == |a| + |b - a| by { assert b == a + (b - a); }
  }

  /** With fewer slots than cells some cell is vacant, so every probe loop comes to an end. */
  lemma SomeVacancy(ix: Indices, slots: seq<Slot>, inserted: int) returns (v: nat)
    requires IndexOk(ix, slots, inserted) && |slots| < |ix|
    ensures v < |ix| && ix[v].None?
  {
    if forall p :: 0 <= p < |ix| ==> ix[p].Some? {
      var xs := seq(|ix|, p requires 0 <= p < |ix| => ix[p].value.index + inserted);
      DistinctValuesFit(xs, |slots|);
      assert false;
    }
    v :| 0 <= v < |ix| && ix[v].None?;
  }

  // ----- lookup

  /** The first vacancy at or after `p`. */
  lemma {:induction false} NextVacancy(hs: Homes, p: nat, v0: nat) returns (v: nat)
    requires p < |hs| && v0 < |hs| && hs[v0] == VACANT
    ensures v < |hs| && FirstVacancy(hs, p, v)
    decreases Dist(|hs|, p, v0)
  {
    if hs[p] == VACANT {
      v := p;
    } else {
      v := NextVacancy(hs, Next(|hs|, p), v0);
    }
  }

  /** The test a probe makes: same hash, then same name. */
  predicate CellNames(h: Hasher, ix: Indices, slots: seq<Slot>, inserted: int, name: Bytes, q: int)
    requires 0 <= q < |ix|
  {
    && ix[q].Some?
    && ix[q].value.hash == h(name)
    && 0 <= ix[q].value.index + inserted < |slots|
    && slots[ix[q].value.index + inserted].header.name == name
  }

  /** If a lookup for `name` has passed every cell before `p` without meeting the name, and `p` lies below,
      the table holds no slot of that name. */
  lemma NameAbsent(h: Hasher, ix: Indices, slots: seq<Slot>, inserted: int, name: Bytes, p: nat)
    requires Rep(h, ix, slots, inserted) && p < |ix|
    requires var home := DesiredPos(|ix|, h(name));
      && Below(HomesOf(ix), home, p)
      && forall q :: 0 <= q < |ix| && Dist(|ix|, home, q) < Dist(|ix|, home, p) ==>
        !CellNames(h, ix, slots, inserted, name, q)
    ensures FindName(HeadersOf(slots), name) == -1
    ensures forall i :: 0 <= i < |slots| ==> slots[i].header.name != name
  {
    hide Rep, HomesOf, Below, CellNames, FindName, HeadersOf, PosOf;
    RepOrdered(h, ix, slots, inserted);
    forall i | 0 <= i < |slots| ensures slots[i].header.name != name {
      if slots[i].header.name == name {
        var q := CellOfName(h, ix, slots, inserted, i);
        NothingBeyond(HomesOf(ix), DesiredPos(|ix|, h(name)), p, q);
        assert false;
      }
    }
    NotFound(slots, name);
  }

  /** The cell at which the name of slot `i` is found. */
  lemma CellOfName(h: Hasher, ix: Indices, slots: seq<Slot>, inserted: int, i: nat) returns (q: nat)
    requires Rep(h, ix, slots, inserted) && i < |slots|
    ensures q < |ix| && CellNames(h, ix, slots, inserted, slots[i].header.name, q)
    ensures HomesOf(ix)[q] == DesiredPos(|ix|, h(slots[i].header.name))
  {
    hide Unique, Ordered, ChainedAt, NoDuplicates;
    var o := OldestOf(slots, i);
    q :| 0 <= q < |ix| && ix[q] == Some(PosOf(slots, inserted, o));
  }

  lemma NotFound(slots: seq<Slot>, name: Bytes)
    requires forall i :: 0 <= i < |slots| ==> slots[i].header.name != name
    ensures FindName(HeadersOf(slots), name) == -1
  {
  }

  lemma {:induction false} OldestOf(slots: seq<Slot>, i: nat) returns (o: nat)
    requires i < |slots|
    ensures i <= o < |slots| && slots[i].header.name == slots[o].header.name && IsOldest(slots, o)
    decreases |slots| - i
  {
    if j :| i < j < |slots| && slots[i].header.name == slots[j].header.name {
      o := OldestOf(slots, j);
    } else {
      o := i;
    }
  }

  // ----- eviction

  lemma EvictSlotsOk(h: Hasher, slots: seq<Slot>, inserted: int)
    requires SlotsOk(h, slots, inserted) && slots != []
    ensures SlotsOk(h, slots[..|slots| - 1], inserted)
  {
    var rest := slots[..|slots| - 1];
    forall i | 0 <= i < |rest| ensures ChainedAt(rest, inserted, i) {
      assert ChainedAt(slots, inserted, i);
    }
    var es := HeadersOf(slots);
    forall i, j | 0 <= i < j < |rest| ensures !HeadersOf(rest)[i].Same(HeadersOf(rest)[j]) {
      assert !es[i].Same(es[j]);
    }
  }

  /** Which slots are oldest once the last is gone: those that were, and the next one of its chain. */
  lemma OldestAfterEvict(h: Hasher, slots: seq<Slot>, inserted: int, i: nat)
    requires SlotsOk(h, slots, inserted) && i < |slots| - 1
    ensures var last := |slots| - 1; IsOldest(slots[..last], i) <==>
      IsOldest(slots, i) || slots[last].next == Some(i - inserted)
  {
    var last := |slots| - 1;
    var rest := slots[..last];
    assert ChainedAt(slots, inserted, last);
    if IsOldest(rest, i) && !IsOldest(slots, i) {
      assert slots[i].header.name == slots[last].header.name;
      assert slots[last].next.Some?;
      var n := slots[last].next.value + inserted;
      assert rest[n] == slots[n];
    }
    if IsOldest(slots, i) {
      forall j | i < j < |rest| ensures rest[i].header.name != rest[j].header.name {
        assert slots[i].header.name != slots[j].header.name;
      }
    }
    if slots[last].next == Some(i - inserted) {
      forall j | i < j < |rest| ensures rest[i].header.name != rest[j].header.name {
        assert slots[last].header.name != slots[j].header.name;
      }
    }
  }

  /** Evicting a slot with a newer namesake: its index cell moves on to the namesake. */
  lemma EvictMovesOn(h: Hasher, ix: Indices, slots: seq<Slot>, inserted: int, p: nat)
    requires Rep(h, ix, slots, inserted) && slots != [] && p < |ix|
    requires ix[p] == Some(PosOf(slots, inserted, |slots| - 1)) && slots[|slots| - 1].next.Some?
    ensures var last := slots[|slots| - 1];
      Rep(h, ix[p := Some(Pos(last.next.value, last.hash))], slots[..|slots| - 1], inserted)
    ensures var last := slots[|slots| - 1];
      HomesOf(ix[p := Some(Pos(last.next.value, last.hash))]) == HomesOf(ix)
  {
    var last := slots[|slots| - 1];
    var r := ix[p := Some(Pos(last.next.value, last.hash))];
    EvictSlotsOk(h, slots, inserted);
    assert HomesOf(r) == HomesOf(ix);
    MoveOnPointing(h, ix, slots, inserted, p);
    MoveOnCovering(h, ix, slots, inserted, p);
  }

  lemma MoveOnPointing(h: Hasher, ix: Indices, slots: seq<Slot>, inserted: int, p: nat)
    requires SlotsOk(h, slots, inserted) && Pointing(ix, slots, inserted) && Unique(ix)
    requires slots != [] && p < |ix|
    requires ix[p] == Some(PosOf(slots, inserted, |slots| - 1)) && slots[|slots| - 1].next.Some?
    ensures var last := slots[|slots| - 1];
      var r := ix[p := Some(Pos(last.next.value, last.hash))];
      Pointing(r, slots[..|slots| - 1], inserted) && Unique(r)
  {
    var last := |slots| - 1;
    var rest, n := slots[..last], slots[last].next.value + inserted;
    var r := ix[p := Some(Pos(n - inserted, slots[last].hash))];
    assert ChainedAt(slots, inserted, last);
    assert slots[last].header.name == slots[n].header.name;
    assert !IsOldest(slots, n);
    forall q | 0 <= q < |r| && r[q].Some? ensures PointsAtOldest(rest, inserted, r[q].value) {
      if q != p {
        assert PointsAtOldest(slots, inserted, ix[q].value);
      }
      OldestAfterEvict(h, slots, inserted, r[q].value.index + inserted);
    }
    forall q | 0 <= q < |r| && q != p && ix[q].Some? ensures ix[q].value.index != n - inserted {
      assert PointsAtOldest(slots, inserted, ix[q].value);
    }
  }

  lemma MoveOnCovering(h: Hasher, ix: Indices, slots: seq<Slot>, inserted: int, p: nat)
    requires SlotsOk(h, slots, inserted) && Covering(ix, slots, inserted)
    requires slots != [] && p < |ix|
    requires ix[p] == Some(PosOf(slots, inserted, |slots| - 1)) && slots[|slots| - 1].next.Some?
    ensures var last := slots[|slots| - 1];
      Covering(ix[p := Some(Pos(last.next.value, last.hash))], slots[..|slots| - 1], inserted)
  {
    var last := |slots| - 1;
    var rest, n := slots[..last], slots[last].next.value + inserted;
    var r := ix[p := Some(Pos(n - inserted, slots[last].hash))];
    assert ChainedAt(slots, inserted, last);
    forall i | 0 <= i < |rest| && IsOldest(rest, i) ensures Some(PosOf(rest, inserted, i)) in r {
      OldestAfterEvict(h, slots, inserted, i);
      if i == n {
        assert r[p] == Some(PosOf(rest, inserted, i));
      } else {
        var q :| 0 <= q < |ix| && ix[q] == Some(PosOf(slots, inserted, i));
        assert r[q] == Some(PosOf(rest, inserted, i));
      }
    }
  }

  /** Where the content of cell `q` of a shifted-out index came from. */
  function CameFrom(cap: nat, p: nat, last: nat, q: nat): (o: nat)
    requires p < cap && last < cap && q < cap
    ensures o < cap
  {
    if Dist(cap, p, q) < Dist(cap, p, last) then Next(cap, q) else q
  }

  /** Evicting the only slot of a name: its cell is removed and the cells behind it shift back. */
  lemma EvictRemoves(h: Hasher, ix: Indices, slots: seq<Slot>, inserted: int, p: nat, last: nat)
    requires Rep(h, ix, slots, inserted) && slots != [] && p < |ix| && last < |ix|
    requires ix[p] == Some(PosOf(slots, inserted, |slots| - 1)) && slots[|slots| - 1].next.None?
    requires MovableRun(HomesOf(ix), p, last)
    ensures Rep(h, ShiftedOut(ix, p, last, None), slots[..|slots| - 1], inserted)
    ensures HomesOf(ShiftedOut(ix, p, last, None)) == ShiftedOut(HomesOf(ix), p, last, VACANT)
  {
    EvictSlotsOk(h, slots, inserted);
    ShiftOutKeepsOrder(HomesOf(ix), p, last);
    assert HomesOf(ShiftedOut(ix, p, last, None)) == ShiftedOut(HomesOf(ix), p, last, VACANT);
    RemovePointing(h, ix, slots, inserted, p, last);
    RemoveCovering(h, ix, slots, inserted, p, last);
  }

  lemma RemovePointing(h: Hasher, ix: Indices, slots: seq<Slot>, inserted: int, p: nat, last: nat)
    requires SlotsOk(h, slots, inserted) && Pointing(ix, slots, inserted) && Unique(ix)
    requires slots != [] && p < |ix| && last < |ix|
    requires ix[p] == Some(PosOf(slots, inserted, |slots| - 1)) && slots[|slots| - 1].next.None?
    ensures var r := ShiftedOut(ix, p, last, None);
      Pointing(r, slots[..|slots| - 1], inserted) && Unique(r)
  {
    var cap := |ix|;
    var rest, r := slots[..|slots| - 1], ShiftedOut(ix, p, last, None);
    forall q | 0 <= q < cap && r[q].Some? ensures PointsAtOldest(rest, inserted, r[q].value) {
      var o := CameFrom(cap, p, last, q);
      assert r[q] == ix[o] && o != p;
      assert PointsAtOldest(slots, inserted, ix[o].value);
      OldestAfterEvict(h, slots, inserted, r[q].value.index + inserted);
    }
    forall a, b | 0 <= a < b < cap && r[a].Some? && r[b].Some? ensures r[a].value.index != r[b].value.index {
      var oa, ob := CameFrom(cap, p, last, a), CameFrom(cap, p, last, b);
      assert r[a] == ix[oa] && r[b] == ix[ob] && oa != ob;
    }
  }

  lemma RemoveCovering(h: Hasher, ix: Indices, slots: seq<Slot>, inserted: int, p: nat, last: nat)
    requires SlotsOk(h, slots, inserted) && Covering(ix, slots, inserted)
    requires slots != [] && p < |ix| && last < |ix|
    requires ix[p] == Some(PosOf(slots, inserted, |slots| - 1)) && slots[|slots| - 1].next.None?
    ensures Covering(ShiftedOut(ix, p, last, None), slots[..|slots| - 1], inserted)
  {
    var cap := |ix|;
    var rest, r := slots[..|slots| - 1], ShiftedOut(ix, p, last, None);
    forall i | 0 <= i < |rest| && IsOldest(rest, i) ensures Some(PosOf(rest, inserted, i)) in r {
      OldestAfterEvict(h, slots, inserted, i);
      var o :| 0 <= o < cap && ix[o] == Some(PosOf(slots, inserted, i));
      var q := if 0 < Dist(cap, p, o) <= Dist(cap, p, last) then Prev(cap, o) else o;
      assert r[q] == ix[o];
    }
  }

  // ----- insertion

  function NewSlot(h: Hasher, header: Header): Slot {
    Slot(h(header.name), header, None)
  }

  /** What older slots look like once a slot is pushed in front: everything one place further back. */
  lemma PushSlotsOk(h: Hasher, slots: seq<Slot>, inserted: int, header: Header)
    requires SlotsOk(h, slots, inserted)
    requires forall i :: 0 <= i < |slots| ==> slots[i].header.name != header.name
    ensures SlotsOk(h, [NewSlot(h, header)] + slots, inserted + 1)
  {
    var r, ins := [NewSlot(h, header)] + slots, inserted + 1;
    forall i | 0 <= i < |r| ensures ChainedAt(r, ins, i) {
      if i > 0 {
        assert ChainedAt(slots, inserted, i - 1);
        forall j | 0 <= j < i && r[i].header.name == r[j].header.name
          ensures j > 0 && slots[i - 1].header.name == slots[j - 1].header.name {
        }
      }
    }
    var es, rs := HeadersOf(slots), HeadersOf(r);
    forall i, j | 0 <= i < j < |r| ensures !rs[i].Same(rs[j]) {
      if i > 0 {
        assert !es[i - 1].Same(es[j - 1]);
      }
    }
  }

  lemma OldestAfterPush(slots: seq<Slot>, front: Slot, i: nat)
    requires i < |slots|
    ensures IsOldest([front] + slots, i + 1) <==> IsOldest(slots, i)
  {
    var r := [front] + slots;
    if IsOldest(slots, i) {
      forall j | i + 1 < j < |r| ensures r[i + 1].header.name != r[j].header.name {
        assert slots[i].header.name != slots[j - 1].header.name;
      }
    }
    if IsOldest(r, i + 1) {
      forall j | i < j < |slots| ensures slots[i].header.name != slots[j].header.name {
        assert r[i + 1].header.name != r[j + 1].header.name;
      }
    }
  }

  /** Where the content of cell `q` of a shifted-in index came from. */
  function MovedFrom(cap: nat, p: nat, v: nat, q: nat): (o: nat)
    requires p < cap && v < cap && q < cap
    ensures o < cap
  {
    if q != p && Dist(cap, p, q) <= Dist(cap, p, v) then Prev(cap, q) else q
  }

  /** Inserting a header whose name is new, at its Robin Hood place. */
  lemma InsertNewName(h: Hasher, ix: Indices, slots: seq<Slot>, inserted: int, header: Header, p: nat, v: nat)
    requires Rep(h, ix, slots, inserted) && p < |ix| && v < |ix|
    requires forall i :: 0 <= i < |slots| ==> slots[i].header.name != header.name
    requires var hs, home := HomesOf(ix), DesiredPos(|ix|, h(header.name));
      Below(hs, home, p) && Passed(hs, home, p) && FirstVacancy(hs, p, v)
    ensures Rep(h, ShiftedIn(ix, p, v, Some(Pos(-(inserted + 1), h(header.name)))),
                [NewSlot(h, header)] + slots, inserted + 1)
  {
    var cell := Some(Pos(-(inserted + 1), h(header.name)));
    PushSlotsOk(h, slots, inserted, header);
    ShiftInKeepsOrder(HomesOf(ix), DesiredPos(|ix|, h(header.name)), p, v);
    assert HomesOf(ShiftedIn(ix, p, v, cell)) == ShiftedIn(HomesOf(ix), p, v, DesiredPos(|ix|, h(header.name)));
    AddPointing(ix, slots, inserted, NewSlot(h, header), p, v);
    AddCovering(ix, slots, inserted, NewSlot(h, header), p, v);
  }

  lemma AddPointing(ix: Indices, slots: seq<Slot>, inserted: int, front: Slot, p: nat, v: nat)
    requires Pointing(ix, slots, inserted) && Unique(ix) && p < |ix| && v < |ix|
    requires forall i :: 0 <= i < |slots| ==> slots[i].header.name != front.header.name
    ensures var r := ShiftedIn(ix, p, v, Some(Pos(-(inserted + 1), front.hash)));
      Pointing(r, [front] + slots, inserted + 1) && Unique(r)
  {
    var cap, all := |ix|, [front] + slots;
    var r := ShiftedIn(ix, p, v, Some(Pos(-(inserted + 1), front.hash)));
    forall q | 0 <= q < cap && q != p && r[q].Some?
      ensures PointsAtOldest(slots, inserted, r[q].value) && PointsAtOldest(all, inserted + 1, r[q].value)
    {
      var o := MovedFrom(cap, p, v, q);
      assert r[q] == ix[o];
      assert PointsAtOldest(slots, inserted, ix[o].value);
      OldestAfterPush(slots, front, ix[o].value.index + inserted);
    }
    forall a, b | 0 <= a < b < cap && r[a].Some? && r[b].Some? ensures r[a].value.index != r[b].value.index {
      if a != p && b != p {
        var oa, ob := MovedFrom(cap, p, v, a), MovedFrom(cap, p, v, b);
        assert r[a] == ix[oa] && r[b] == ix[ob] && oa != ob;
      }
    }
  }

  lemma AddCovering(ix: Indices, slots: seq<Slot>, inserted: int, front: Slot, p: nat, v: nat)
    requires Covering(ix, slots, inserted) && p < |ix| && v < |ix| && ix[v].None?
    ensures Covering(ShiftedIn(ix, p, v, Some(Pos(-(inserted + 1), front.hash))), [front] + slots, inserted + 1)
  {
    var cap, all := |ix|, [front] + slots;
    var r := ShiftedIn(ix, p, v, Some(Pos(-(inserted + 1), front.hash)));
    forall i | 0 <= i < |all| && IsOldest(all, i) ensures Some(PosOf(all, inserted + 1, i)) in r {
      if i == 0 {
        assert r[p] == Some(PosOf(all, inserted + 1, i));
      } else {
        OldestAfterPush(slots, front, i - 1);
        var o :| 0 <= o < cap && ix[o] == Some(PosOf(slots, inserted, i - 1));
        var q := if Dist(cap, p, o) < Dist(cap, p, v) then Next(cap, o) else o;
        assert o != v;
        assert r[q] == ix[o];
      }
    }
  }

  /** Inserting a header whose name is held: the newest slot of the name links to it. */
  function Linked(slots: seq<Slot>, inserted: int, i: nat, front: Slot): (r: seq<Slot>)
    requires i < |slots|
    ensures |r| == |slots| + 1
  {
    [front] + slots[i := slots[i].(next := Some(-(inserted + 1)))]
  }

  lemma InsertHeldName(h: Hasher, ix: Indices, slots: seq<Slot>, inserted: int, header: Header, i: nat)
    requires Rep(h, ix, slots, inserted) && i < |slots| && slots[i].header.name == header.name
    requires slots[i].next.None?
    requires FindEqual(HeadersOf(slots), header) == -1
    ensures Rep(h, ix, Linked(slots, inserted, i, NewSlot(h, header)), inserted + 1)
  {
    LinkedSlotsOk(h, slots, inserted, header, i);
    LinkedIndexOk(ix, slots, inserted, NewSlot(h, header), i);
  }

  lemma LinkedIndexOk(ix: Indices, slots: seq<Slot>, inserted: int, front: Slot, i: nat)
    requires IndexOk(ix, slots, inserted) && i < |slots| && slots[i].header.name == front.header.name
    ensures IndexOk(ix, Linked(slots, inserted, i, front), inserted + 1)
  {
    var all := Linked(slots, inserted, i, front);
    forall k | 0 <= k < |slots| ensures IsOldest(all, k + 1) <==> IsOldest(slots, k) {
      LinkedOldest(slots, inserted, i, front, k);
    }
    forall q | 0 <= q < |ix| && ix[q].Some? ensures PointsAtOldest(all, inserted + 1, ix[q].value) {
      assert PointsAtOldest(slots, inserted, ix[q].value);
      LinkedOldest(slots, inserted, i, front, ix[q].value.index + inserted);
    }
    forall k | 0 <= k < |all| && IsOldest(all, k) ensures Some(PosOf(all, inserted + 1, k)) in ix {
      assert all[0].header.name == all[i + 1].header.name;
      assert k > 0;
      LinkedOldest(slots, inserted, i, front, k - 1);
      assert PosOf(all, inserted + 1, k) == PosOf(slots, inserted, k - 1);
    }
  }

  lemma LinkedSlotsOk(h: Hasher, slots: seq<Slot>, inserted: int, header: Header, i: nat)
    requires SlotsOk(h, slots, inserted) && i < |slots| && slots[i].header.name == header.name
    requires slots[i].next.None? && FindEqual(HeadersOf(slots), header) == -1
    ensures SlotsOk(h, Linked(slots, inserted, i, NewSlot(h, header)), inserted + 1)
  {
    var all, ins := Linked(slots, inserted, i, NewSlot(h, header)), inserted + 1;
    forall k | 0 <= k < |all| ensures ChainedAt(all, ins, k) {
      LinkedChain(h, slots, inserted, header, i, k);
    }
    var es, rs := HeadersOf(slots), HeadersOf(all);
    forall a, b | 0 <= a < b < |all| ensures !rs[a].Same(rs[b]) {
      assert rs[b] == es[b - 1];
      assert !es[b - 1].Same(header);
      if a > 0 {
        assert !es[a - 1].Same(es[b - 1]);
      }
    }
  }

  lemma LinkedOldest(slots: seq<Slot>, inserted: int, i: nat, front: Slot, k: nat)
    requires i < |slots| && k < |slots|
    ensures IsOldest(Linked(slots, inserted, i, front), k + 1) <==> IsOldest(slots, k)
  {
    var all := Linked(slots, inserted, i, front);
    if IsOldest(slots, k) {
      forall j | k + 1 < j < |all| ensures all[k + 1].header.name != all[j].header.name {
        assert slots[k].header.name != slots[j - 1].header.name;
      }
    }
    if IsOldest(all, k + 1) {
      forall j | k < j < |slots| ensures slots[k].header.name != slots[j].header.name {
        assert all[k + 1].header.name != all[j + 1].header.name;
      }
    }
  }

  lemma LinkedChain(h: Hasher, slots: seq<Slot>, inserted: int, header: Header, i: nat, k: nat)
    requires SlotsOk(h, slots, inserted) && i < |slots| && slots[i].header.name == header.name
    requires slots[i].next.None? && k <= |slots|
    ensures ChainedAt(Linked(slots, inserted, i, NewSlot(h, header)), inserted + 1, k)
  {
    var all := Linked(slots, inserted, i, NewSlot(h, header));
    assert ChainedAt(slots, inserted, i);
    if k > 0 {
      assert ChainedAt(slots, inserted, k - 1);
      forall j | 0 < j < k
        ensures all[k].header.name == all[j].header.name <==> slots[k - 1].header.name == slots[j - 1].header.name {
      }
      if slots[k - 1].next.None? && k - 1 != i {
        assert slots[k - 1].header.name == slots[i].header.name ==> k - 1 <= i;
        assert slots[i].header.name == slots[k - 1].header.name ==> i <= k - 1;
      }
    }
  }

  // ----- growth

  /** Doubling the capacity sends every home to itself or one old capacity on. */
  lemma DoubledHome(cap: nat, big: nat, hash: nat)
    requires cap > 0 && big == 2 * cap
    ensures SplitHome(cap, DesiredPos(cap, hash), DesiredPos(big, hash))
  {
    var q, r := Quotient(hash, big);
    HalfMod(cap, big, hash, q, r);
  }

  lemma HalfMod(cap: nat, big: nat, x: nat, q: nat, r: nat)
    requires cap > 0 && big == 2 * cap && x == big * q + r && r < big
    ensures x % cap == if r < cap then r else r - cap
  {
    TwiceTimes(cap, big, q);
    if r < cap {
      ModIs(x, cap, 2 * q, r);
    } else {
      ModIs(x, cap, 2 * q + 1, r - cap);
    }
  }

  lemma TwiceTimes(cap: nat, big: nat, q: nat)
    requires big == 2 * cap
    ensures big * q == cap * (2 * q) == cap * (2 * q + 1) - cap
  {
  }
}
