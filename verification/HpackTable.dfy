/** The encoder's dynamic table, with its operations as the source performs them: probe loops over a ring of
    index cells, slots pushed at one end and evicted at the other. Every operation is specified by the plain
    list of `FifoTable`. */
module HpackTable {
  import opened Headers
  import opened FifoTable
  import opened RobinHood
  import opened HpackTableRep

  function UsableCapacity(cap: nat): nat {
    cap - cap / 4
  }

  function ToRawCapacity(n: nat): nat {
    n + n / 3
  }

  predicate PowerOfTwo(n: nat) {
    n == 1 || (n > 1 && n % 2 == 0 && PowerOfTwo(n / 2))
  }

  /** The least power of two not below `n`. */
  function NextPowerOfTwo(n: nat, p: nat): (r: nat)
    requires PowerOfTwo(p)
    ensures PowerOfTwo(r) && n <= r
    decreases n - p
  {
    if n <= p then p else assert (2 * p) / 2 == p; NextPowerOfTwo(n, 2 * p)
  }

  /** The slots as they will be once a pending insertion behind slot `prev` is made: the hashed table evicts
      for a new header before it pushes it, but already treats the new slot as the end of its chain. */
  ghost predicate PrevIsNewest(slots: seq<Slot>, inserted: int, prev: Option<int>) {
    prev.Some? ==>
      && prev.value + inserted >= 0
      && (prev.value + inserted < |slots| ==> slots[prev.value + inserted].next.None?)
  }

  ghost function Pending(slots: seq<Slot>, inserted: int, prev: Option<int>, front: Slot): seq<Slot>
    requires PrevIsNewest(slots, inserted, prev)
  {
    match prev
    case None => slots
    case Some(s) =>
      if s + inserted < |slots| then Linked(slots, inserted, s + inserted, front) else [front] + slots
  }

  ghost function PendingInserted(inserted: int, prev: Option<int>): int {
    if prev.Some? then inserted + 1 else inserted
  }

  /** A table of size zero holds nothing. */
  lemma EvictToZero(es: Entries)
    ensures Evict(es, 0) == []
  {
    EvictIsLongestFit(es, 0);
  }

  lemma EmptyRep(h: Hasher, ix: Indices)
    requires forall p :: 0 <= p < |ix| ==> ix[p] == None
    ensures Rep(h, ix, [], 0)
  {
  }

  /** The doubled index while the first `k` ring cells of the old one have been reinserted: in order, and
      holding exactly their entries. */
  ghost predicate Moved(before: Indices, first: nat, k: nat, ix: Indices)
    requires first < |before| && k <= |before|
  {
    Regrown(HomesOf(before), first, k, HomesOf(ix)) && Contains(before, first, k, ix)
  }

  ghost predicate Contains(before: Indices, first: nat, k: nat, ix: Indices)
    requires first < |before| && k <= |before|
  {
    && Unique(ix)
    && (forall j :: 0 <= j < k && before[RingCell(|before|, first, j)].Some? ==>
        before[RingCell(|before|, first, j)] in ix)
    && (forall p :: 0 <= p < |ix| && ix[p].Some? ==> ix[p] in before)
    && (forall p, j ::
          0 <= p < |ix| && ix[p].Some? && k <= j < |before| && before[RingCell(|before|, first, j)].Some? ==>
          ix[p].value.index != before[RingCell(|before|, first, j)].value.index)
  }

  lemma MovedSkip(before: Indices, first: nat, k: nat, ix: Indices)
    requires first < |before| && k < |before| && Moved(before, first, k, ix)
    requires before[RingCell(|before|, first, k)].None?
    ensures Moved(before, first, k + 1, ix)
  {
    RegrowSkip(HomesOf(before), first, k, HomesOf(ix));
  }

  /** Linear probing for a ring entry finds a vacant cell. */
  lemma MovedHasRoom(before: Indices, first: nat, k: nat, ix: Indices) returns (limit: nat)
    requires first < |before| && k < |before| && Moved(before, first, k, ix)
    requires Ordered(HomesOf(before)) && HomesOf(before)[first] == first
    requires before[RingCell(|before|, first, k)].Some?
    ensures |ix| == 2 * |before| && limit < |ix| && ix[limit].None?
  {
    var hash := before[RingCell(|before|, first, k)].value.hash;
    DoubledHome(|before|, |ix|, hash);
    limit := RegrowHasRoom(HomesOf(before), first, k, HomesOf(ix), DesiredPos(|ix|, hash));
  }

  lemma MovedStep(before: Indices, first: nat, k: nat, ix: Indices, c: nat)
    requires first < |before| && k < |before| && Moved(before, first, k, ix) && Unique(before)
    requires Ordered(HomesOf(before)) && HomesOf(before)[first] == first
    requires before[RingCell(|before|, first, k)].Some? && c < |ix|
    requires FirstNone(ix, DesiredPos(|ix|, before[RingCell(|before|, first, k)].value.hash), c)
    ensures Moved(before, first, k + 1, ix[c := before[RingCell(|before|, first, k)]])
  {
    hide Ordered, Contains;
    var pos := before[RingCell(|before|, first, k)];
    var home := DesiredPos(|ix|, pos.value.hash);
    DoubledHome(|before|, |ix|, pos.value.hash);
    RegrowStep(HomesOf(before), first, k, HomesOf(ix), home, c);
    assert HomesOf(ix[c := pos]) == HomesOf(ix)[c := home];
    hide Regrown;
    ContainsStep(before, first, k, ix, c);
  }

  lemma ContainsStep(before: Indices, first: nat, k: nat, ix: Indices, c: nat)
    requires first < |before| && k < |before| && Contains(before, first, k, ix) && Unique(before)
    requires before[RingCell(|before|, first, k)].Some? && c < |ix| && ix[c].None?
    ensures Contains(before, first, k + 1, ix[c := before[RingCell(|before|, first, k)]])
  {
    var pos := before[RingCell(|before|, first, k)];
    var r := ix[c := pos];
    forall j | 0 <= j < k + 1 && before[RingCell(|before|, first, j)].Some?
      ensures before[RingCell(|before|, first, j)] in r
    {
      if j == k {
        assert r[c] == pos;
      } else {
        var q :| 0 <= q < |ix| && ix[q] == before[RingCell(|before|, first, j)];
        assert r[q] == ix[q];
      }
    }
  }

  lemma MovedStart(before: Indices, first: nat, ix: Indices)
    requires first < |before| && |ix| == 2 * |before| && forall p :: 0 <= p < |ix| ==> ix[p] == None
    ensures Moved(before, first, 0, ix)
  {
    RegrowStart(HomesOf(before), first, HomesOf(ix));
  }

  /** A table with slots has an entry at home for growth to start from. */
  lemma IdealExists(h: Hasher, ix: Indices, slots: seq<Slot>, inserted: int)
    requires Rep(h, ix, slots, inserted) && slots != [] && |slots| < |ix|
    ensures exists f :: 0 <= f < |ix| && HomeOf(|ix|, ix[f]) == f
    ensures Ordered(HomesOf(ix)) && Unique(ix)
  {
    var v := SomeVacancy(ix, slots, inserted);
    assert IsOldest(slots, |slots| - 1);
    var p :| 0 <= p < |ix| && ix[p] == Some(PosOf(slots, inserted, |slots| - 1));
    var f := SomeEntryAtHome(HomesOf(ix), v, p);
    assert HomeOf(|ix|, ix[f]) == f;
  }

  /** Once every ring cell is reinserted the doubled index serves the same slots. */
  lemma MovedAll(h: Hasher, before: Indices, slots: seq<Slot>, inserted: int, first: nat, ix: Indices)
    requires first < |before| && Rep(h, before, slots, inserted) && Moved(before, first, |before|, ix)
    ensures Rep(h, ix, slots, inserted) && |ix| == 2 * |before|
  {
    forall p | 0 <= p < |ix| && ix[p].Some? ensures PointsAtOldest(slots, inserted, ix[p].value) {
      var q :| 0 <= q < |before| && before[q] == ix[p];
      assert PointsAtOldest(slots, inserted, before[q].value);
    }
    forall i | 0 <= i < |slots| && IsOldest(slots, i) ensures Some(PosOf(slots, inserted, i)) in ix {
      var q :| 0 <= q < |before| && before[q] == Some(PosOf(slots, inserted, i));
      assert RingCell(|before|, first, Dist(|before|, first, q)) == q;
    }
  }

  /** Where a probe for the oldest slot ends: at the one cell pointing at it, past occupied cells only. */
  lemma EvictTarget(h: Hasher, ix: Indices, all: seq<Slot>, ins: int, home: nat) returns (p: nat)
    requires Rep(h, ix, all, ins) && all != [] && ix != [] && home == DesiredPos(|ix|, all[|all| - 1].hash)
    ensures p < |ix| && ix[p] == Some(PosOf(all, ins, |all| - 1))
    ensures forall q :: 0 <= q < |ix| && Dist(|ix|, home, q) <= Dist(|ix|, home, p) ==>
      ix[q].Some? && (ix[q].value.index == |all| - 1 - ins ==> q == p)
  {
    assert IsOldest(all, |all| - 1);
    p :| 0 <= p < |ix| && ix[p] == Some(PosOf(all, ins, |all| - 1));
    forall q | 0 <= q < |ix| && Dist(|ix|, home, q) <= Dist(|ix|, home, p) ensures ix[q].Some?
    {
      assert Yields(HomesOf(ix), p, q);
    }
  }

  lemma VacancyIn(h: Hasher, ix: Indices, slots: seq<Slot>, inserted: int) returns (v: nat)
    requires Rep(h, ix, slots, inserted) && |slots| < |ix|
    ensures v < |ix| && ix[v].None?
  {
    v := SomeVacancy(ix, slots, inserted);
  }

  lemma Removed(h: Hasher, before: Indices, all: seq<Slot>, ins: int, p: nat, last: nat)
    requires Rep(h, before, all, ins) && all != [] && p < |before| && last < |before|
    requires before[p] == Some(PosOf(all, ins, |all| - 1)) && all[|all| - 1].next.None?
    requires forall q :: 0 <= q < |before| && 0 < Dist(|before|, p, q) <= Dist(|before|, p, last) ==>
      before[q].Some? && DesiredPos(|before|, before[q].value.hash) != q
    requires var n := Next(|before|, last); before[n].None? || DesiredPos(|before|, before[n].value.hash) == n
    ensures var r := ShiftedOut(before, p, last, None);
      Rep(h, r, all[..|all| - 1], ins) && BelowKept(before, r)
  {
    EvictRemoves(h, before, all, ins, p, last);
    var r := ShiftedOut(before, p, last, None);
    forall home, at | 0 <= home < |r| && 0 <= at < |r| && Below(HomesOf(before), home, at)
      ensures Below(HomesOf(r), home, at)
    {
      ShiftOutKeepsBelow(HomesOf(before), p, last, home, at);
    }
  }

  ghost predicate FirstNone(ix: Indices, p: nat, v: nat)
    requires p < |ix| && v < |ix|
  {
    && ix[v].None?
    && forall q :: 0 <= q < |ix| && Dist(|ix|, p, q) < Dist(|ix|, p, v) ==> ix[q].Some?
  }

  /** What shifting a new name in up to the first vacant cell `v` achieves. */
  lemma Added(h: Hasher, before: Indices, old0: seq<Slot>, ins: int, header: Header, at: nat) returns (v: nat)
    requires Rep(h, before, old0, ins) && |old0| < |before| && at < |before|
    requires forall i :: 0 <= i < |old0| ==> old0[i].header.name != header.name
    requires Below(HomesOf(before), DesiredPos(|before|, h(header.name)), at)
    requires Passed(HomesOf(before), DesiredPos(|before|, h(header.name)), at)
    ensures v < |before| && FirstNone(before, at, v)
    ensures Rep(h, ShiftedIn(before, at, v, Some(Pos(-(ins + 1), h(header.name)))), [NewSlot(h, header)] + old0,
                ins + 1)
  {
    var v0 := SomeVacancy(before, old0, ins);
    v := NextVacancy(HomesOf(before), at, v0);
    InsertNewName(h, before, old0, ins, header, at, v);
  }

  lemma CellPointsAtOldest(h: Hasher, ix: Indices, slots: seq<Slot>, inserted: int, p: nat)
    requires Rep(h, ix, slots, inserted) && p < |ix| && ix[p].Some?
    ensures PointsAtOldest(slots, inserted, ix[p].value)
  {
  }

  /** A lookup of `name` has walked from home to just before `p`: only over entries as far from their homes
      as it was, none of them the name's. */
  ghost predicate Searched(h: Hasher, ix: Indices, slots: seq<Slot>, inserted: int, name: Bytes, p: nat)
    requires p < |ix|
  {
    var home := DesiredPos(|ix|, h(name));
    forall q :: 0 <= q < |ix| && Dist(|ix|, home, q) < Dist(|ix|, home, p) ==>
      && ix[q].Some?
      && Dist(|ix|, home, q) <= Dist(|ix|, DesiredPos(|ix|, ix[q].value.hash), q)
      && !CellNames(h, ix, slots, inserted, name, q)
  }

  lemma SearchedStart(h: Hasher, ix: Indices, slots: seq<Slot>, inserted: int, name: Bytes)
    requires ix != []
    ensures Searched(h, ix, slots, inserted, name, DesiredPos(|ix|, h(name)))
  {
  }

  lemma SearchedStep(h: Hasher, ix: Indices, slots: seq<Slot>, inserted: int, name: Bytes, p: nat)
    requires p < |ix| && ix[p].Some? && Searched(h, ix, slots, inserted, name, p)
    requires var home := DesiredPos(|ix|, h(name));
      && Dist(|ix|, home, p) <= Dist(|ix|, DesiredPos(|ix|, ix[p].value.hash), p)
      && Dist(|ix|, home, p) < |ix| - 1
    requires !CellNames(h, ix, slots, inserted, name, p)
    ensures Searched(h, ix, slots, inserted, name, Next(|ix|, p))
  {
  }

  lemma SearchedMiss(h: Hasher, ix: Indices, slots: seq<Slot>, inserted: int, name: Bytes, p: nat)
    requires Rep(h, ix, slots, inserted) && p < |ix| && Searched(h, ix, slots, inserted, name, p)
    requires var home := DesiredPos(|ix|, h(name));
      ix[p].None? || Dist(|ix|, DesiredPos(|ix|, ix[p].value.hash), p) < Dist(|ix|, home, p)
    ensures Below(HomesOf(ix), DesiredPos(|ix|, h(name)), p) && Passed(HomesOf(ix), DesiredPos(|ix|, h(name)), p)
    ensures forall i :: 0 <= i < |slots| ==> slots[i].header.name != name
  {
    NameAbsent(h, ix, slots, inserted, name, p);
  }

  lemma SensitiveInEmpty(statik: Option<(nat, bool)>, h: Header, max: nat)
    requires h.sensitive
    ensures IndexIn(statik, false, h, [], max) == StaticIndex(statik, h)
    ensures EntriesAfter(statik, false, h, [], max) == []
  {
  }

  /** The list after an insertion behind an eviction, and its size. */
  lemma InsertedList(slots: seq<Slot>, front: Slot, es: Entries, max: nat)
    requires front.header.Len() <= max && HeadersOf(slots) == Evict(es, max - front.header.Len())
    ensures HeadersOf([front] + slots) == Add(es, front.header, max)
    ensures Total(HeadersOf([front] + slots)) == front.header.Len() + Total(HeadersOf(slots))
  {
    assert HeadersOf([front] + slots) == [front.header] + HeadersOf(slots);
    TotalPush(front.header, HeadersOf(slots));
  }

  /** While the entries do not fit, the oldest goes. */
  lemma OldestGone(slots: seq<Slot>, max: nat)
    ensures Total(HeadersOf(slots)) <= max ==> Evict(HeadersOf(slots), max) == HeadersOf(slots)
    ensures Total(HeadersOf(slots)) > max ==>
      && slots != []
      && var rest := slots[..|slots| - 1];
      && Evict(HeadersOf(slots), max) == Evict(HeadersOf(rest), max)
      && Total(HeadersOf(rest)) == Total(HeadersOf(slots)) - slots[|slots| - 1].header.Len()
  {
    if slots != [] {
      var es := HeadersOf(slots);
      assert HeadersOf(slots[..|slots| - 1]) == es[..|es| - 1];
    }
  }

  /** The outcome when no entry has the header's name. */
  lemma NameNew(statik: Option<(nat, bool)>, h: Header, es: Entries, max: nat)
    requires Indexable(statik, false, h, max) && forall i :: 0 <= i < |es| ==> es[i].name != h.name
    ensures IndexIn(statik, false, h, es, max) ==
      if h.sensitive then StaticIndex(statik, h)
      else if statik.Some? then InsertedValue(statik.value.0, 0) else Inserted(0)
    ensures EntriesAfter(statik, false, h, es, max) == if h.sensitive then es else Add(es, h, max)
  {
    assert FindName(es, h.name) == -1;
    assert FindEqual(es, h) == -1;
  }

  /** No slot older than `i` holds `h`. */
  ghost predicate NoneOlder(slots: seq<Slot>, i: int, h: Header) {
    forall j :: 0 <= j < |slots| && i < j ==> !slots[j].header.Same(h)
  }

  lemma ChainStart(slots: seq<Slot>, i: int, h: Header)
    requires 0 <= i < |slots| && IsOldest(slots, i) && slots[i].header.name == h.name
    ensures NoneOlder(slots, i, h)
  {
  }

  lemma ChainStep(slots: seq<Slot>, inserted: int, i: int, h: Header)
    requires 0 <= i < |slots| && ChainedAt(slots, inserted, i) && slots[i].next.Some?
    requires NoneOlder(slots, i, h) && slots[i].header.name == h.name && slots[i].header.value != h.value
    ensures var n := slots[i].next.value + inserted;
      0 <= n < i && slots[n].header.name == h.name && NoneOlder(slots, n, h)
  {
  }

  lemma SlotChained(h: Hasher, ix: Indices, slots: seq<Slot>, inserted: int, i: int)
    requires Rep(h, ix, slots, inserted) && 0 <= i < |slots|
    ensures ChainedAt(slots, inserted, i)
  {
  }

  lemma RepSlotsOk(h: Hasher, ix: Indices, slots: seq<Slot>, inserted: int)
    requires Rep(h, ix, slots, inserted)
    ensures SlotsOk(h, slots, inserted)
  {
  }

  /** The outcome when the chain search meets the value. */
  lemma ValueHeld(hasher: Hasher, statik: Option<(nat, bool)>, h: Header, slots: seq<Slot>, inserted: int, max: nat,
                  i: nat)
    requires SlotsOk(hasher, slots, inserted) && Indexable(statik, false, h, max)
    requires i < |slots| && slots[i].header.Same(h)
    ensures IndexIn(statik, false, h, HeadersOf(slots), max) == Indexed(i + DYN_OFFSET, h)
    ensures EntriesAfter(statik, false, h, HeadersOf(slots), max) == HeadersOf(slots)
  {
    var e := FindEqual(HeadersOf(slots), h);
    assert HeadersOf(slots)[i].Same(h);
    assert e < i ==> !HeadersOf(slots)[e].Same(HeadersOf(slots)[i]);
  }

  /** The outcome when it ends at the newest slot of the name without meeting the value. */
  lemma NameHeld(statik: Option<(nat, bool)>, h: Header, slots: seq<Slot>, inserted: int, max: nat, i: nat)
    requires Indexable(statik, false, h, max) && i < |slots| && ChainedAt(slots, inserted, i) && slots[i].next.None?
    requires slots[i].header.name == h.name && slots[i].header.value != h.value && NoneOlder(slots, i, h)
    ensures var es := HeadersOf(slots);
      && FindEqual(es, h) == -1
      && IndexIn(statik, false, h, es, max) == (
           if h.sensitive then Name(i + DYN_OFFSET, h)
           else if statik.Some? then InsertedValue(statik.value.0, 0) else InsertedValue(i + DYN_OFFSET, 0))
      && EntriesAfter(statik, false, h, es, max) == if h.sensitive then es else Add(es, h, max)
  {
    var es := HeadersOf(slots);
    assert FindName(es, h.name) == i;
    assert FindEqual(es, h) == -1;
  }

  lemma PendingNow(slots: seq<Slot>, inserted: int, index: int, front: Slot)
    requires 0 <= index + inserted < |slots| && slots[index + inserted].next.None?
    ensures PrevIsNewest(slots, inserted, Some(index))
    ensures Pending(slots, inserted, Some(index), front) == Linked(slots, inserted, index + inserted, front)
  {
  }

  /** Pushing the new slot and then linking to it, if the slot to link from is still there. */
  lemma PendingMade(slots: seq<Slot>, inserted: int, index: int, front: Slot)
    requires PrevIsNewest(slots, inserted, Some(index))
    ensures Made(slots, inserted, index, front) == Pending(slots, inserted, Some(index), front)
    ensures HeadersOf(Made(slots, inserted, index, front)) == HeadersOf([front] + slots)
  {
    hide HeadersOf, ChainedAt, IsOldest;
    assert Made(slots, inserted, index, front) == Pending(slots, inserted, Some(index), front);
    SameHeaders(Made(slots, inserted, index, front), [front] + slots);
  }

  function Made(slots: seq<Slot>, inserted: int, index: int, front: Slot): (made: seq<Slot>)
    requires index + inserted + 1 >= 0
    ensures |made| == |slots| + 1 && forall i :: 0 <= i < |made| ==> made[i].header == ([front] + slots)[i].header
  {
    var all, n := [front] + slots, index + inserted + 1;
    if n < |all| then all[n := all[n].(next := Some(-(inserted + 1)))] else all
  }

  lemma SameHeaders(a: seq<Slot>, b: seq<Slot>)
    requires |a| == |b| && forall i :: 0 <= i < |a| ==> a[i].header == b[i].header
    ensures HeadersOf(a) == HeadersOf(b)
  {
  }

  /** A place that lay below for an entry still does. */
  ghost predicate BelowKept(before: Indices, after: Indices) {
    |before| == |after| && forall home, at | 0 <= home < |after| && 0 <= at < |after| ::
      Below(HomesOf(before), home, at) ==> Below(HomesOf(after), home, at)
  }

  lemma BelowKeptTwice(a: Indices, b: Indices, c: Indices)
    requires BelowKept(a, b) && BelowKept(b, c)
    ensures BelowKept(a, c)
  {
  }

  lemma BelowKeptSame(a: Indices)
    ensures BelowKept(a, a)
  {
  }

  lemma BelowKeptAt(a: Indices, b: Indices, home: nat, at: nat)
    requires BelowKept(a, b) && home < |a| && at < |a| && Below(HomesOf(a), home, at)
    ensures Below(HomesOf(b), home, at)
  {
  }

  lemma SameHomesSameBelow(before: Indices, after: Indices)
    requires |before| == |after| && HomesOf(before) == HomesOf(after)
    ensures BelowKept(before, after)
  {
  }

  /** Dropping the last slot and making the pending insertion commute. */
  lemma PendingDrop(slots: seq<Slot>, inserted: int, prev: Option<int>, front: Slot)
    requires slots != [] && PrevIsNewest(slots, inserted, prev)
    ensures PrevIsNewest(slots[..|slots| - 1], inserted, prev)
    ensures var last := |slots| - 1;
      var all, ins := Pending(slots, inserted, prev, front), PendingInserted(inserted, prev);
      && |all| >= |slots|
      && all[..|all| - 1] == Pending(slots[..last], inserted, prev, front)
      && |all| - 1 - ins == last - inserted
      && all[|all| - 1].hash == slots[last].hash
      && all[|all| - 1].next == (if prev == Some(last - inserted) then Some(-(inserted + 1)) else slots[last].next)
      && (prev == Some(last - inserted) ==> slots[last].next.None?)
  {
    var last := |slots| - 1;
    var all := Pending(slots, inserted, prev, front);
    assert all[..|all| - 1] == Pending(slots[..last], inserted, prev, front);
  }

  class Table {
    const hasher: Hasher
    const statics: StaticTable
    const skipped: set<Bytes>
    var indices: Indices
    var slots: seq<Slot>
    var inserted: int
    var size: nat
    var maxSize: nat

    ghost predicate ShapeOk()
      reads this
    {
      && |slots| <= UsableCapacity(|indices|)
      && (indices == [] || (|indices| >= 8 && PowerOfTwo(|indices|)))
    }

    ghost predicate Valid()
      reads this
    {
      && ShapeOk()
      && Rep(hasher, indices, slots, inserted)
      && size == Total(Entries()) <= maxSize
    }

    ghost function Entries(): Entries
      reads this
    {
      HeadersOf(slots)
    }

    constructor (hasher: Hasher, statics: StaticTable, skipped: set<Bytes>, maxSize: nat, capacity: nat)
      ensures Valid() && Entries() == [] && this.maxSize == maxSize
      ensures this.hasher == hasher && this.statics == statics && this.skipped == skipped
    {
      this.hasher, this.statics, this.skipped, this.maxSize := hasher, statics, skipped, maxSize;
      slots, inserted, size := [], 0, 0;
      if capacity == 0 {
        indices := [];
      } else {
        assert PowerOfTwo(1) && PowerOfTwo(2) && PowerOfTwo(4);
        var raw := NextPowerOfTwo(ToRawCapacity(capacity), 1);
        var cap := if raw < 8 then 8 else raw;
        indices := seq(cap, _ => None);
      }
    }

    /** Picks the representation of a header and stores it if it is worth storing. */
    method Index(header: Header) returns (r: FifoTable.Index)
      requires Valid()
      modifies this
      ensures Valid() && maxSize == old(maxSize)
      ensures var statik, skip := IndexStatic(statics, header), header.name in skipped;
        && r == IndexIn(statik, skip, header, old(Entries()), maxSize)
        && Entries() == EntriesAfter(statik, skip, header, old(Entries()), maxSize)
      ensures Answers(statics, skipped, header, old(Entries()), maxSize, r)
      ensures ListAfter(header, old(Entries()), maxSize, r, Entries())
      ensures r.Inserted? || r.InsertedValue? <==>
        && header.name !in skipped && !header.sensitive
        && 4 * (32 + |header.name| + |header.value|) <= 3 * maxSize
        && (forall i :: 0 <= i < STATIC_LEN ==>
              statics[i].value == [] || statics[i].name != header.name || statics[i].value != header.value)
        && (forall e :: e in old(Entries()) ==> e.name != header.name || e.value != header.value)
    {
      AnswersAre(statics, skipped, header, Entries(), maxSize);
      EntersExactly(statics, skipped, header, Entries(), maxSize,
                    IndexIn(IndexStatic(statics, header), header.name in skipped, header, Entries(), maxSize));
      hide Answers, ListAfter, Rep, IndexIn, EntriesAfter, HeadersOf, ShapeOk, Valid;
      ChoiceIs(IndexStatic(statics, header), header.name in skipped, header, Entries(), maxSize);
      var statik := IndexStatic(statics, header);
      if header.name in skipped {
        return StaticIndex(statik, header);
      }
      if statik.Some? && statik.value.1 {
        return FifoTable.Indexed(statik.value.0, header);
      }
      if header.Len() * 4 > maxSize * 3 {
        return StaticIndex(statik, header);
      }
      r := IndexDynamic(header, statik);
    }

    method IndexDynamic(header: Header, statik: Option<(nat, bool)>) returns (r: FifoTable.Index)
      requires Valid() && Indexable(statik, false, header, maxSize)
      modifies this
      ensures Valid() && maxSize == old(maxSize)
      ensures r == IndexIn(statik, false, header, old(Entries()), maxSize)
      ensures Entries() == EntriesAfter(statik, false, header, old(Entries()), maxSize)
    {
      hide Rep, Below, Passed, HomesOf, IndexIn, EntriesAfter, Total, IsOldest, PowerOfTwo;
      if header.Len() + size < maxSize || !header.sensitive {
        ReserveOne();
      }
      if indices == [] {
        assert Entries() == [];
        SensitiveInEmpty(statik, header, maxSize);
        return StaticIndex(statik, header);
      }
      var hash := hasher(header.name);
      var found, dist, probe := Lookup(header, hash);
      if found {
        r := IndexOccupied(header, hash, indices[probe].value.index, statik);
      } else {
        r := IndexVacant(header, hash, dist, probe, statik);
      }
    }

    /** The probe loop: ends at the cell of the header's name, or where that name would have to go. */
    method Lookup(header: Header, hash: nat) returns (found: bool, dist: nat, probe: nat)
      requires Valid() && indices != [] && hash == hasher(header.name)
      ensures probe < |indices| && dist == Dist(|indices|, DesiredPos(|indices|, hash), probe)
      ensures found ==> indices[probe].Some? && var i := indices[probe].value.index + inserted;
        0 <= i < |slots| && IsOldest(slots, i) && slots[i].header.name == header.name
      ensures !found ==>
        && (forall i :: 0 <= i < |slots| ==> slots[i].header.name != header.name)
        && Below(HomesOf(indices), DesiredPos(|indices|, hash), probe)
        && Passed(HomesOf(indices), DesiredPos(|indices|, hash), probe)
    {
      hide Rep, Searched, Below, Passed, HomesOf, Total, IsOldest, PowerOfTwo;
      var cap := |indices|;
      var home := DesiredPos(cap, hash);
      ghost var vacant := VacancyIn(hasher, indices, slots, inserted);
      SearchedStart(hasher, indices, slots, inserted, header.name);
      found, dist, probe := false, 0, home;
      while indices[probe].Some?
        invariant probe < cap && dist == Dist(cap, home, probe) <= Dist(cap, home, vacant)
        invariant Searched(hasher, indices, slots, inserted, header.name, probe)
        decreases cap - dist
      {
        var pos := indices[probe].value;
        var theirDist := Dist(cap, DesiredPos(cap, pos.hash), probe);
        CellPointsAtOldest(hasher, indices, slots, inserted, probe);
        if theirDist < dist {
          break;
        } else if pos.hash == hash && slots[pos.index + inserted].header.name == header.name {
          found := true;
          return;
        }
        SearchedStep(hasher, indices, slots, inserted, header.name, probe);
        probe, dist := Next(cap, probe), dist + 1;
      }
      SearchedMiss(hasher, indices, slots, inserted, header.name, probe);
    }

    /** Walks the chain of a name the table holds, from its oldest slot to its newest. */
    method IndexOccupied(header: Header, hash: nat, start: int, statik: Option<(nat, bool)>)
      returns (r: FifoTable.Index)
      requires Valid() && Indexable(statik, false, header, maxSize) && hash == hasher(header.name)
      requires |slots| < UsableCapacity(|indices|) || header.sensitive
      requires 0 <= start + inserted < |slots| && IsOldest(slots, start + inserted)
      requires slots[start + inserted].header.name == header.name
      modifies this
      ensures Valid() && maxSize == old(maxSize)
      ensures r == IndexIn(statik, false, header, old(Entries()), maxSize)
      ensures Entries() == EntriesAfter(statik, false, header, old(Entries()), maxSize)
    {
      hide Rep, ChainedAt, FindEqual, FindName, Evict, Total, IndexIn, EntriesAfter, Add, HomesOf, IsOldest, NoneOlder,
        PowerOfTwo;
      var index := WalkChain(header, start);
      var i := index + inserted;
      if slots[i].header.value == header.value {
        RepSlotsOk(hasher, indices, slots, inserted);
        ValueHeld(hasher, statik, header, slots, inserted, maxSize, i);
        return FifoTable.Indexed(i + DYN_OFFSET, header);
      }
      NameHeld(statik, header, slots, inserted, maxSize, i);
      if header.sensitive {
        return FifoTable.Name(i + DYN_OFFSET, header);
      }
      InsertBehind(header, hash, index);
      return if statik.Some? then FifoTable.InsertedValue(statik.value.0, 0)
        else FifoTable.InsertedValue(i + DYN_OFFSET, 0);
    }

    /** From the oldest slot of a name along its chain, to the one holding the value or else the newest. */
    method WalkChain(header: Header, start: int) returns (index: int)
      requires Valid() && 0 <= start + inserted < |slots| && IsOldest(slots, start + inserted)
      requires slots[start + inserted].header.name == header.name
      ensures 0 <= index + inserted < |slots| && slots[index + inserted].header.name == header.name
      ensures slots[index + inserted].header.value == header.value || (
        slots[index + inserted].next.None? && NoneOlder(slots, index + inserted, header)
        && ChainedAt(slots, inserted, index + inserted))
    {
      hide Rep, ChainedAt, Total, IsOldest, NoneOlder, PowerOfTwo;
      index := start;
      ChainStart(slots, index + inserted, header);
      while slots[index + inserted].header.value != header.value && slots[index + inserted].next.Some?
        invariant 0 <= index + inserted < |slots| && slots[index + inserted].header.name == header.name
        invariant NoneOlder(slots, index + inserted, header)
        decreases index + inserted
      {
        SlotChained(hasher, indices, slots, inserted, index + inserted);
        ChainStep(slots, inserted, index + inserted, header);
        index := slots[index + inserted].next.value;
      }
      SlotChained(hasher, indices, slots, inserted, index + inserted);
    }

    /** Inserts a header behind the newest slot of its name, which eviction may remove on the way. */
    method InsertBehind(header: Header, hash: nat, index: int)
      requires Valid() && header.Len() <= maxSize && hash == hasher(header.name)
      requires |slots| < UsableCapacity(|indices|) && 0 <= index + inserted < |slots|
      requires slots[index + inserted].header.name == header.name && slots[index + inserted].next.None?
      requires FindEqual(Entries(), header) == -1
      modifies this
      ensures Valid() && maxSize == old(maxSize) && Entries() == Add(old(Entries()), header, maxSize)
    {
      hide Rep, FindEqual, Evict, Total, Add, Pending, HomesOf, BelowKept, SlotsOk, HeadersOf, Linked, PrevIsNewest,
        PowerOfTwo;
      InsertHeldName(hasher, indices, slots, inserted, header, index + inserted);
      PendingNow(slots, inserted, index, NewSlot(hasher, header));
      var _ := UpdateSize(header.Len(), Some(index), NewSlot(hasher, header));
      ghost var oldSlots := slots;
      Insert(header, hash);
      LinkFrom(index, oldSlots, NewSlot(hasher, header));
      InsertedList(oldSlots, NewSlot(hasher, header), old(Entries()), maxSize);
    }

    /** Links the slot `index` refers to, if it is still there, to the one just put in front. */
    method LinkFrom(index: int, ghost oldSlots: seq<Slot>, ghost front: Slot)
      requires slots == [front] + oldSlots && PrevIsNewest(oldSlots, inserted - 1, Some(index))
      modifies this`slots
      ensures slots == Pending(oldSlots, inserted - 1, Some(index), front)
      ensures HeadersOf(slots) == HeadersOf([front] + oldSlots)
    {
      PendingMade(oldSlots, inserted - 1, index, front);
      var newIndex := index + inserted;
      if newIndex < |slots| {
        slots := slots[newIndex := slots[newIndex].(next := Some(-inserted))];
      }
    }

    /** Stores a header whose name the table does not hold: evicts for it, finds its place again if the
        eviction moved cells, and pushes later entries on. */
    method IndexVacant(header: Header, hash: nat, dist0: nat, probe0: nat, statik: Option<(nat, bool)>)
      returns (r: FifoTable.Index)
      requires Valid() && Indexable(statik, false, header, maxSize) && hash == hasher(header.name)
      requires |slots| < UsableCapacity(|indices|) || header.sensitive
      requires probe0 < |indices| && dist0 == Dist(|indices|, DesiredPos(|indices|, hash), probe0)
      requires Below(HomesOf(indices), DesiredPos(|indices|, hash), probe0)
      requires Passed(HomesOf(indices), DesiredPos(|indices|, hash), probe0)
      requires forall i :: 0 <= i < |slots| ==> slots[i].header.name != header.name
      modifies this
      ensures Valid() && maxSize == old(maxSize)
      ensures r == IndexIn(statik, false, header, old(Entries()), maxSize)
      ensures Entries() == EntriesAfter(statik, false, header, old(Entries()), maxSize)
    {
      hide Rep, Passed, Below, BelowKept, HomesOf, FindEqual, FindName, Evict, Total, Ordered, IndexIn, EntriesAfter,
        Add, PowerOfTwo;
      NameNew(statik, header, Entries(), maxSize);
      if header.sensitive {
        return StaticIndex(statik, header);
      }
      var probe: nat, dist: nat := probe0, dist0;
      var evicted := UpdateSize(header.Len(), None, NewSlot(hasher, header));
      if evicted {
        RepOrdered(hasher, indices, slots, inserted);
        BelowKeptAt(old(indices), indices, DesiredPos(|indices|, hash), probe);
        probe := FindPlaceAgain(hash, dist, probe);
      }
      ghost var oldSlots := slots;
      Insert(header, hash);
      ShiftIn(probe, Pos(-inserted, hash), header, oldSlots);
      InsertedList(oldSlots, NewSlot(hasher, header), old(Entries()), maxSize);
      r := if statik.Some? then FifoTable.InsertedValue(statik.value.0, 0) else FifoTable.Inserted(0);
    }

    /** Evictions shift cells back, so the place for the new entry may have moved back too. */
    method FindPlaceAgain(hash: nat, dist0: nat, probe0: nat) returns (probe: nat)
      requires indices != [] && Ordered(HomesOf(indices))
      requires probe0 < |indices| && dist0 == Dist(|indices|, DesiredPos(|indices|, hash), probe0)
      requires Below(HomesOf(indices), DesiredPos(|indices|, hash), probe0)
      ensures probe < |indices|
      ensures Below(HomesOf(indices), DesiredPos(|indices|, hash), probe)
      ensures Passed(HomesOf(indices), DesiredPos(|indices|, hash), probe)
    {
      var cap, home, dist: nat := |indices|, DesiredPos(|indices|, hash), dist0;
      probe := probe0;
      while dist != 0
        invariant probe < cap && dist == Dist(cap, home, probe) && Below(HomesOf(indices), home, probe)
        invariant dist == 0 ==> probe == home
        decreases dist
      {
        var back := Prev(cap, probe);
        if indices[back].Some? {
          var theirDist := Dist(cap, DesiredPos(cap, indices[back].value.hash), back);
          if theirDist < dist - 1 {
            probe, dist := back, dist - 1;
          } else {
            break;
          }
        } else {
          probe, dist := back, dist - 1;
        }
      }
      PassedFromBehind(HomesOf(indices), home, probe);
    }

    /** Puts `pos` at `at` and moves what was there, and every entry after it, one cell on. */
    method ShiftIn(at: nat, pos: Pos, header: Header, ghost old0: seq<Slot>)
      requires at < |indices| && |old0| < |indices|
      requires Rep(hasher, indices, old0, inserted - 1)
      requires forall i :: 0 <= i < |old0| ==> old0[i].header.name != header.name
      requires slots == [NewSlot(hasher, header)] + old0 && pos == Pos(-inserted, hasher(header.name))
      requires Below(HomesOf(indices), DesiredPos(|indices|, pos.hash), at)
      requires Passed(HomesOf(indices), DesiredPos(|indices|, pos.hash), at)
      modifies this`indices
      ensures |indices| == old(|indices|)
      ensures Rep(hasher, indices, slots, inserted)
    {
      hide Rep, Below, Passed, HomesOf, ShiftedIn, PowerOfTwo;
      var cap := |indices|;
      ghost var before := indices;
      ghost var v := Added(hasher, indices, old0, inserted - 1, header, at);
      var carried := indices[at];
      indices := indices[at := Some(pos)];
      ShiftedInHere(before, at, Some(pos));
      if carried.Some? {
        var probe: nat := Next(cap, at);
        while true
          invariant probe < cap && 0 < Dist(cap, at, probe) <= Dist(cap, at, v)
          invariant carried == before[Prev(cap, probe)] && carried.Some?
          invariant indices == ShiftedIn(before, at, Prev(cap, probe), Some(pos))
          decreases Dist(cap, at, v) - Dist(cap, at, probe)
        {
          ShiftedInFurther(before, at, probe, Some(pos));
          var here := indices[probe];
          indices := indices[probe := carried];
          if here.None? {
            assert probe == v;
            break;
          }
          carried := here;
          assert Dist(cap, at, probe) < Dist(cap, at, v);
          probe := Next(cap, probe);
        }
      }
    }

    method Insert(header: Header, hash: nat)
      modifies this`inserted, this`slots
      ensures inserted == old(inserted) + 1 && slots == [Slot(hash, header, None)] + old(slots)
    {
      inserted := inserted + 1;
      slots := [Slot(hash, header, None)] + slots;
    }

    /** A change of the maximum size: zero clears the table, any other bound evicts down to it. */
    method Resize(newSize: nat)
      requires Valid()
      modifies this
      ensures Valid() && maxSize == newSize
      ensures Entries() == Evict(old(Entries()), newSize) && LongestFit(Entries(), old(Entries()), newSize)
    {
      EvictIsLongestFit(Entries(), newSize);
      hide Rep, BelowKept, PowerOfTwo, LongestFit;
      maxSize := newSize;
      if newSize == 0 {
        EvictToZero(Entries());
        size := 0;
        indices := seq(|indices|, _ => None);
        slots := [];
        inserted := 0;
        EmptyRep(hasher, indices);
      } else {
        var _ := Converge(None, Slot(0, Header([], [], false), None), 0);
      }
    }

    method UpdateSize(len: nat, prev: Option<int>, ghost front: Slot) returns (evicted: bool)
      requires ShapeOk() && indices != [] && 1 + |slots| < |indices| && len <= maxSize
      requires PrevIsNewest(slots, inserted, prev)
      requires Rep(hasher, indices, Pending(slots, inserted, prev, front), PendingInserted(inserted, prev))
      requires size == Total(Entries())
      modifies this`slots, this`indices, this`size
      ensures ShapeOk() && |indices| == old(|indices|) && PrevIsNewest(slots, inserted, prev)
      ensures Rep(hasher, indices, Pending(slots, inserted, prev, front), PendingInserted(inserted, prev))
      ensures slots <= old(slots)
      ensures Entries() == Evict(old(Entries()), maxSize - len) && size == Total(Entries()) + len <= maxSize
      ensures !evicted ==> indices == old(indices)
      ensures BelowKept(old(indices), indices)
    {
      size := size + len;
      evicted := Converge(prev, front, len);
    }

    method Converge(prev: Option<int>, ghost front: Slot, ghost len: nat) returns (evicted: bool)
      requires ShapeOk() && len <= maxSize && (indices != [] ==> 1 + |slots| < |indices|)
      requires PrevIsNewest(slots, inserted, prev)
      requires Rep(hasher, indices, Pending(slots, inserted, prev, front), PendingInserted(inserted, prev))
      requires size == Total(Entries()) + len
      modifies this`slots, this`indices, this`size
      ensures ShapeOk() && |indices| == old(|indices|) && PrevIsNewest(slots, inserted, prev)
      ensures Rep(hasher, indices, Pending(slots, inserted, prev, front), PendingInserted(inserted, prev))
      ensures slots <= old(slots)
      ensures Entries() == Evict(old(Entries()), maxSize - len) && size == Total(Entries()) + len <= maxSize
      ensures !evicted ==> indices == old(indices)
      ensures BelowKept(old(indices), indices)
    {
      hide Rep, BelowKept, Pending, PrevIsNewest, PowerOfTwo, Evict, Total, HeadersOf;
      evicted := false;
      BelowKeptSame(indices);
      OldestGone(slots, maxSize - len);
      while size > maxSize
        invariant ShapeOk() && |indices| == old(|indices|) && slots <= old(slots)
        invariant PrevIsNewest(slots, inserted, prev)
        invariant indices != [] ==> 1 + |slots| < |indices|
        invariant Rep(hasher, indices, Pending(slots, inserted, prev, front), PendingInserted(inserted, prev))
        invariant size == Total(Entries()) + len
        invariant Evict(Entries(), maxSize - len) == Evict(old(Entries()), maxSize - len)
        invariant !evicted ==> indices == old(indices)
        invariant BelowKept(old(indices), indices)
        invariant size <= maxSize ==> Evict(Entries(), maxSize - len) == Entries()
        decreases |slots|
      {
        evicted := true;
        OldestGone(slots, maxSize - len);
        ghost var before := indices;
        EvictOne(prev, front);
        BelowKeptTwice(old(indices), before, indices);
        OldestGone(slots, maxSize - len);
      }
    }

    /** Evicts the oldest slot and takes it out of the index. */
    method EvictOne(prev: Option<int>, ghost front: Slot)
      requires slots != [] && ShapeOk() && 1 + |slots| < |indices|
      requires PrevIsNewest(slots, inserted, prev)
      requires Rep(hasher, indices, Pending(slots, inserted, prev, front), PendingInserted(inserted, prev))
      requires size >= slots[|slots| - 1].header.Len()
      modifies this`slots, this`indices, this`size
      ensures ShapeOk() && |indices| == old(|indices|)
      ensures PrevIsNewest(slots, inserted, prev)
      ensures slots == old(slots)[..old(|slots|) - 1] && size == old(size) - old(slots)[|slots|].header.Len()
      ensures Rep(hasher, indices, Pending(slots, inserted, prev, front), PendingInserted(inserted, prev))
      ensures BelowKept(old(indices), indices)
    {
      hide Rep, BelowKept, HomesOf, PowerOfTwo;
      var cap, last := |indices|, |slots| - 1;
      ghost var all, ins := Pending(slots, inserted, prev, front), PendingInserted(inserted, prev);
      PendingDrop(slots, inserted, prev, front);
      var posIdx, slot := last - inserted, slots[last];
      var home := DesiredPos(cap, slot.hash);
      ghost var p := EvictTarget(hasher, indices, all, ins, home);
      slots := slots[..last];
      size := size - slot.header.Len();
      ghost var before := indices;
      var probe: nat := home;
      while true
        invariant probe < cap && indices == before
        invariant Dist(cap, home, probe) <= Dist(cap, home, p)
        decreases Dist(cap, home, p) - Dist(cap, home, probe)
      {
        var pos := indices[probe].value;
        if pos.index == posIdx {
          assert probe == p;
          if slot.next.Some? {
            EvictMovesOn(hasher, indices, all, ins, p);
            indices := indices[probe := Some(Pos(slot.next.value, pos.hash))];
            SameHomesSameBelow(before, indices);
          } else if Some(pos.index) == prev {
            EvictMovesOn(hasher, indices, all, ins, p);
            indices := indices[probe := Some(Pos(-(inserted + 1), pos.hash))];
            SameHomesSameBelow(before, indices);
          } else {
            indices := indices[probe := None];
            RemovePhaseTwo(probe, before, all, ins);
          }
          break;
        }
        probe := Next(cap, probe);
      }
    }

    /** Shifts the cells behind a removed one back, up to a vacancy or an entry at home. */
    method RemovePhaseTwo(probe0: nat, ghost before: Indices, ghost all: seq<Slot>, ghost ins: int)
      requires |before| == |indices| && probe0 < |indices| && indices == before[probe0 := None]
      requires all != [] && |all| < |indices| && Rep(hasher, before, all, ins)
      requires before[probe0] == Some(PosOf(all, ins, |all| - 1)) && all[|all| - 1].next.None?
      modifies this`indices
      ensures |indices| == |before| && Rep(hasher, indices, all[..|all| - 1], ins)
      ensures BelowKept(before, indices)
    {
      hide Rep, BelowKept, PowerOfTwo, ShiftedOut;
      var cap := |indices|;
      NothingShifted(before, probe0, None);
      ghost var v := VacancyIn(hasher, before, all, ins);
      var lastProbe: nat, probe: nat := probe0, Next(cap, probe0);
      while true
        invariant lastProbe < cap && probe == Next(cap, lastProbe)
        invariant Dist(cap, probe0, lastProbe) < Dist(cap, probe0, v)
        invariant forall q :: 0 <= q < cap && 0 < Dist(cap, probe0, q) <= Dist(cap, probe0, lastProbe) ==>
          before[q].Some? && DesiredPos(cap, before[q].value.hash) != q
        invariant indices == ShiftedOut(before, probe0, lastProbe, None)
        decreases Dist(cap, probe0, v) - Dist(cap, probe0, lastProbe)
      {
        ShiftedOutStep(before, probe0, lastProbe, None);
        if indices[probe].None? {
          break;
        }
        if Dist(cap, DesiredPos(cap, indices[probe].value.hash), probe) > 0 {
          indices := indices[lastProbe := indices[probe]][probe := None];
        } else {
          break;
        }
        assert probe != v;
        lastProbe := probe;
        probe := Next(cap, probe);
      }
      Removed(hasher, before, all, ins, probe0, lastProbe);
    }

    /** Makes sure one more slot will not overfill the index. */
    method ReserveOne()
      requires Valid()
      modifies this`indices
      ensures Valid() && |slots| < UsableCapacity(|indices|)
    {
      var len := |slots|;
      if len == UsableCapacity(|indices|) {
        if len == 0 {
          assert PowerOfTwo(1) && PowerOfTwo(2) && PowerOfTwo(4) && PowerOfTwo(8);
          indices := seq(8, _ => None);
        } else {
          Grow();
        }
      }
    }

    /** Doubles the index, reinserting its entries in ring order from one that is at home. */
    method Grow()
      requires Valid() && slots != [] && |slots| == UsableCapacity(|indices|)
      modifies this`indices
      ensures Valid() && |indices| == 2 * old(|indices|)
    {
      hide Rep, Moved, Ordered, Unique, Total, HeadersOf;
      var cap := |indices|;
      ghost var before := indices;
      var firstIdeal: nat := 0;
      for i := 0 to cap
        invariant firstIdeal == 0 && forall q :: 0 <= q < i ==> HomeOf(cap, indices[q]) != q
      {
        if indices[i].Some? && Dist(cap, DesiredPos(cap, indices[i].value.hash), i) == 0 {
          firstIdeal := i;
          break;
        }
      }
      IdealExists(hasher, before, slots, inserted);
      var oldIndices := indices;
      indices := seq(2 * cap, _ => None);
      MovedStart(before, firstIdeal, indices);
      for i := firstIdeal to cap
        invariant Moved(before, firstIdeal, i - firstIdeal, indices)
        modifies this`indices
      {
        assert RingCell(cap, firstIdeal, i - firstIdeal) == i;
        ReinsertEntryInOrder(oldIndices[i], before, firstIdeal, i - firstIdeal);
      }
      for i := 0 to firstIdeal
        invariant Moved(before, firstIdeal, cap - firstIdeal + i, indices)
        modifies this`indices
      {
        assert RingCell(cap, firstIdeal, cap - firstIdeal + i) == i;
        ReinsertEntryInOrder(oldIndices[i], before, firstIdeal, cap - firstIdeal + i);
      }
      MovedAll(hasher, before, slots, inserted, firstIdeal, indices);
      assert (2 * cap) / 2 == cap;
    }

    method ReinsertEntryInOrder(pos: Option<Pos>, ghost before: Indices, ghost first: nat, ghost k: nat)
      requires first < |before| && k < |before| && Ordered(HomesOf(before)) && HomesOf(before)[first] == first
      requires Unique(before) && Moved(before, first, k, indices) && pos == before[RingCell(|before|, first, k)]
      modifies this`indices
      ensures Moved(before, first, k + 1, indices)
    {
      hide Moved, Ordered, Unique, PowerOfTwo;
      if pos.Some? {
        ghost var limit := MovedHasRoom(before, first, k, indices);
        var cap, p := |indices|, pos.value;
        var home := DesiredPos(cap, p.hash);
        var probe: nat := home;
        while true
          invariant probe < cap && indices == old(indices)
          invariant Dist(cap, home, probe) <= Dist(cap, home, limit)
          invariant forall q :: 0 <= q < cap && Dist(cap, home, q) < Dist(cap, home, probe) ==> indices[q].Some?
          decreases Dist(cap, home, limit) - Dist(cap, home, probe)
        {
          if indices[probe].None? {
            MovedStep(before, first, k, indices, probe);
            indices := indices[probe := pos];
            return;
          }
          assert probe != limit;
          probe := Next(cap, probe);
        }
      } else {
        MovedSkip(before, first, k, indices);
      }
    }
  }
}
