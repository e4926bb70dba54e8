/** Queues of frames, one for each stream, all in one slab: singly linked lists that can be extended at both ends. */
module FrameBuffer {
  import opened Headers

  type SlotKey = nat

  datatype Slot<T> = Slot(value: T, next: Option<SlotKey>)

  datatype Indices = Indices(head: SlotKey, tail: SlotKey)

  predicate Distinct(s: seq<SlotKey>) {
    forall i, j :: 0 <= i < j < |s| ==> s[i] != s[j]
  }

  function After(c: seq<SlotKey>, i: nat): Option<SlotKey> {
    if i + 1 < |c| then Some(c[i + 1]) else None
  }

  /** The list with ends `idx` consists of the slots `c`, each leading to the next. */
  ghost predicate List<T>(slab: map<SlotKey, Slot<T>>, idx: Option<Indices>, c: seq<SlotKey>) {
    && Distinct(c) && (forall k :: k in c ==> k in slab)
    && idx == (if c == [] then None else Some(Indices(c[0], c[|c| - 1])))
    && forall i :: 0 <= i < |c| ==> slab[c[i]].next == After(c, i)
  }

  function Values<T>(slab: map<SlotKey, Slot<T>>, c: seq<SlotKey>): seq<T>
    requires forall k :: k in c ==> k in slab
  {
    seq(|c|, i requires 0 <= i < |c| => slab[c[i]].value)
  }

  /** A list does not notice what happens to slots that are not its own. */
  lemma ListElsewhere<T>(slab: map<SlotKey, Slot<T>>, slab': map<SlotKey, Slot<T>>, idx: Option<Indices>,
                         c: seq<SlotKey>)
    requires List(slab, idx, c) && forall k :: k in c ==> k in slab' && slab'[k] == slab[k]
    ensures List(slab', idx, c) && Values(slab', c) == Values(slab, c)
  {
  }

  lemma ListPushBack<T>(slab: map<SlotKey, Slot<T>>, c: seq<SlotKey>, key: SlotKey, v: T)
    requires List(slab, if c == [] then None else Some(Indices(c[0], c[|c| - 1])), c) && key !in slab
    ensures var s1 := slab[key := Slot(v, None)];
      var s2 := if c == [] then s1 else s1[c[|c| - 1] := s1[c[|c| - 1]].(next := Some(key))];
      && List(s2, Some(Indices(if c == [] then key else c[0], key)), c + [key])
      && Values(s2, c + [key]) == Values(slab, c) + [v]
  {
  }

  lemma ListPushFront<T>(slab: map<SlotKey, Slot<T>>, c: seq<SlotKey>, key: SlotKey, v: T)
    requires List(slab, if c == [] then None else Some(Indices(c[0], c[|c| - 1])), c) && key !in slab
    ensures var s' := slab[key := Slot(v, if c == [] then None else Some(c[0]))];
      && List(s', Some(Indices(key, if c == [] then key else c[|c| - 1])), [key] + c)
      && Values(s', [key] + c) == [v] + Values(slab, c)
  {
    var s' := slab[key := Slot(v, if c == [] then None else Some(c[0]))];
    var c' := [key] + c;
    forall i | 0 <= i < |c'| ensures s'[c'[i]].next == After(c', i) {
      if i > 0 {
        assert c'[i] == c[i - 1] && After(c', i) == After(c, i - 1);
      }
    }
  }

  lemma ListPopFront<T>(slab: map<SlotKey, Slot<T>>, c: seq<SlotKey>)
    requires c != [] && List(slab, Some(Indices(c[0], c[|c| - 1])), c)
    ensures |c| == 1 <==> c[0] == c[|c| - 1]
    ensures slab[c[0]].next == if |c| == 1 then None else Some(c[1])
    ensures List(slab - {c[0]}, if |c| == 1 then None else Some(Indices(c[1], c[|c| - 1])), c[1..])
    ensures Values(slab, c) == [slab[c[0]].value] + Values(slab - {c[0]}, c[1..])
  {
    hide Values;
    TailDistinct(c);
    var c', slab' := c[1..], slab - {c[0]};
    forall i | 0 <= i < |c'| ensures c'[i] in slab' && slab'[c'[i]].next == After(c', i) {
      assert c'[i] == c[i + 1] && After(c', i) == After(c, i + 1);
    }
    ValuesTail(slab, c);
  }

  lemma TailDistinct(c: seq<SlotKey>)
    requires c != [] && Distinct(c)
    ensures Distinct(c[1..]) && c[0] !in c[1..]
    ensures |c| == 1 <==> c[0] == c[|c| - 1]
  {
  }

  lemma ValuesTail<T>(slab: map<SlotKey, Slot<T>>, c: seq<SlotKey>)
    requires c != [] && Distinct(c) && (forall k :: k in c ==> k in slab)
      && (forall k :: k in c[1..] ==> k in slab - {c[0]})
    ensures Values(slab, c) == [slab[c[0]].value] + Values(slab - {c[0]}, c[1..])
  {
  }

  function ListOf(lists: map<nat, seq<SlotKey>>, o: nat): seq<SlotKey> {
    if o in lists then lists[o] else []
  }

  function EndsOf(deques: map<nat, Indices>, o: nat): Option<Indices> {
    if o in deques then Some(deques[o]) else None
  }

  /** Every stream has a list of its own, no slot is in two of them, and no slot is in none. */
  ghost predicate Lists<T>(slab: map<SlotKey, Slot<T>>, deques: map<nat, Indices>, lists: map<nat, seq<SlotKey>>) {
    && (forall o :: List(slab, EndsOf(deques, o), ListOf(lists, o)))
    && (forall o, p, k :: o != p && k in ListOf(lists, o) ==> k !in ListOf(lists, p))
    && (forall k :: k in slab ==> exists o :: k in ListOf(lists, o))
  }

  lemma ListAt<T>(slab: map<SlotKey, Slot<T>>, deques: map<nat, Indices>, lists: map<nat, seq<SlotKey>>, o: nat)
    requires Lists(slab, deques, lists)
    ensures var c := ListOf(lists, o);
      && List(slab, EndsOf(deques, o), c) && (forall k :: k in c ==> k in slab)
      && EndsOf(deques, o) == if c == [] then None else Some(Indices(c[0], c[|c| - 1]))
  {
  }

  /** The slots of list `o` are rearranged, vacant ones taken in or own ones given up: the other lists notice
      nothing. */
  ghost predicate OnlyOwn<T>(slab: map<SlotKey, Slot<T>>, c: seq<SlotKey>, slab': map<SlotKey, Slot<T>>,
                             c': seq<SlotKey>) {
    && (forall k :: k in slab && k !in c ==> k in slab' && slab'[k] == slab[k])
    && (forall k :: k in c' ==> k in c || k !in slab)
    && (forall k :: k in slab' ==> k in c' || (k in slab && k !in c))
  }

  lemma PopIsOwn<T>(slab: map<SlotKey, Slot<T>>, c: seq<SlotKey>)
    requires c != [] && Distinct(c)
    ensures OnlyOwn(slab, c, slab - {c[0]}, c[1..])
  {
    assert c == [c[0]] + c[1..];
  }

  lemma OneListChanged<T>(slab: map<SlotKey, Slot<T>>, deques: map<nat, Indices>, lists: map<nat, seq<SlotKey>>,
                          slab': map<SlotKey, Slot<T>>, deques': map<nat, Indices>, lists': map<nat, seq<SlotKey>>,
                          o: nat)
    requires Lists(slab, deques, lists) && List(slab', EndsOf(deques', o), ListOf(lists', o))
    requires forall p :: p != o ==> EndsOf(deques', p) == EndsOf(deques, p) && ListOf(lists', p) == ListOf(lists, p)
    requires OnlyOwn(slab, ListOf(lists, o), slab', ListOf(lists', o))
    ensures Lists(slab', deques', lists')
    ensures forall p :: p != o ==> SameValues(slab, slab', ListOf(lists, p))
  {
    hide List;
    forall p ensures List(slab', EndsOf(deques', p), ListOf(lists', p))
      && (p != o ==> SameValues(slab, slab', ListOf(lists, p))) {
      if p != o {
        ListAt(slab, deques, lists, p);
        ListElsewhere(slab, slab', EndsOf(deques, p), ListOf(lists, p));
      }
    }
    forall k | k in slab' ensures exists p :: k in ListOf(lists', p) {
      if k !in ListOf(lists', o) {
        var p :| k in ListOf(lists, p);
        assert k in ListOf(lists', p);
      }
    }
    forall p, q, k | p != q && k in ListOf(lists', p) ensures k !in ListOf(lists', q) {
      ListAt(slab, deques, lists, p);
      ListAt(slab, deques, lists, q);
    }
  }

  /** The first slot of a list freed. */
  lemma PopLists<T>(slab: map<SlotKey, Slot<T>>, deques: map<nat, Indices>, lists: map<nat, seq<SlotKey>>, o: nat)
    requires Lists(slab, deques, lists) && o in deques
    ensures var (c, idx) := (ListOf(lists, o), deques[o]);
      && c != [] && c[0] == idx.head && idx.head in slab && (forall k :: k in c ==> k in slab)
      && (idx.head != idx.tail ==> slab[idx.head].next.Some?)
      && var slab' := slab - {idx.head};
      var deques' := if idx.head == idx.tail then deques - {o}
        else deques[o := Indices(slab[idx.head].next.value, idx.tail)];
      && Lists(slab', deques', lists[o := c[1..]])
      && (forall k :: k in c[1..] ==> k in slab') && Values(slab, c) == [slab[idx.head].value] + Values(slab', c[1..])
      && (forall p :: p != o ==> SameValues(slab, slab', ListOf(lists, p)))
  {
    hide List, Lists, OnlyOwn, SameValues, Values;
    var c, idx := ListOf(lists, o), deques[o];
    ListAt(slab, deques, lists, o);
    DistinctList(slab, c);
    ListPopFront(slab, c);
    PopIsOwn(slab, c);
    var deques' := if idx.head == idx.tail then deques - {o}
      else deques[o := Indices(slab[idx.head].next.value, idx.tail)];
    OneListChanged(slab, deques, lists, slab - {idx.head}, deques', lists[o := c[1..]], o);
    ListAt(slab - {idx.head}, deques', lists[o := c[1..]], o);
  }

  lemma DistinctList<T>(slab: map<SlotKey, Slot<T>>, c: seq<SlotKey>)
    requires c != [] && List(slab, Some(Indices(c[0], c[|c| - 1])), c)
    ensures Distinct(c)
  {
  }

  predicate SameValues<T(==)>(slab: map<SlotKey, Slot<T>>, slab': map<SlotKey, Slot<T>>, c: seq<SlotKey>) {
    forall k :: k in c ==> k in slab && k in slab' && slab'[k].value == slab[k].value
  }

  /** The slab, and where the lists of the streams begin and end. */
  class Buffer<T(==)> {
    var slab: map<SlotKey, Slot<T>>
    var deques: map<nat, Indices>
    ghost var lists: map<nat, seq<SlotKey>>

    ghost predicate Valid()
      reads this
    {
      Lists(slab, deques, lists)
    }

    /** The frames of a stream, first to last. */
    ghost function Frames(o: nat): seq<T>
      requires Valid()
      reads this
    {
      ListAt(slab, deques, lists, o);
      Values(slab, ListOf(lists, o))
    }

    constructor ()
      ensures Valid() && slab == map[] && forall o :: Frames(o) == []
    {
      slab, deques, lists := map[], map[], map[];
    }

    predicate IsEmpty(o: nat)
      reads this
    {
      o !in deques
    }

    lemma EmptyIsEmpty(o: nat)
      requires Valid()
      ensures IsEmpty(o) <==> Frames(o) == []
    {
      ListAt(slab, deques, lists, o);
    }

    /** Appends a frame, in the vacant slot the slab hands out. */
    method PushBack(o: nat, value: T, key: SlotKey)
      requires Valid() && key !in slab
      modifies this
      ensures Valid() && Frames(o) == old(Frames(o)) + [value]
      ensures forall p :: p != o ==> Frames(p) == old(Frames(p))
    {
      hide List, Lists;
      ghost var s, d, l, c := slab, deques, lists, ListOf(lists, o);
      ListAt(s, d, l, o);
      ListPushBack(s, c, key, value);
      slab := slab[key := Slot(value, None)];
      if o in deques {
        var tail := deques[o].tail;
        slab := slab[tail := slab[tail].(next := Some(key))];
        deques := deques[o := Indices(deques[o].head, key)];
      } else {
        deques := deques[o := Indices(key, key)];
      }
      lists := lists[o := c + [key]];
      OneListChanged(s, d, l, slab, deques, lists, o);
      OthersSame(s, d, l, o);
    }

    /** Puts a frame in front. */
    method PushFront(o: nat, value: T, key: SlotKey)
      requires Valid() && key !in slab
      modifies this
      ensures Valid() && Frames(o) == [value] + old(Frames(o))
      ensures forall p :: p != o ==> Frames(p) == old(Frames(p))
    {
      hide List, Lists;
      ghost var s, d, l, c := slab, deques, lists, ListOf(lists, o);
      ListAt(s, d, l, o);
      ListPushFront(s, c, key, value);
      slab := slab[key := Slot(value, None)];
      if o in deques {
        slab := slab[key := slab[key].(next := Some(deques[o].head))];
        deques := deques[o := Indices(key, deques[o].tail)];
      } else {
        deques := deques[o := Indices(key, key)];
      }
      lists := lists[o := [key] + c];
      assert slab == s[key := Slot(value, if c == [] then None else Some(c[0]))];
      OneListChanged(s, d, l, slab, deques, lists, o);
      OthersSame(s, d, l, o);
    }

    /** Takes the first frame off and frees its slot. */
    method PopFront(o: nat) returns (v: Option<T>)
      requires Valid()
      modifies this
      ensures Valid()
      ensures if v.Some? then old(Frames(o)) == [v.value] + Frames(o) else old(Frames(o)) == Frames(o) == []
      ensures forall p :: p != o ==> Frames(p) == old(Frames(p))
    {
      hide List, Lists, SameValues, Values;
      ghost var s, d, l := slab, deques, lists;
      if o !in deques {
        EmptyIsEmpty(o);
        return None;
      }
      PopLists(s, d, l, o);
      var idxs := deques[o];
      var slot := slab[idxs.head];
      slab := slab - {idxs.head};
      if idxs.head == idxs.tail {
        deques := deques - {o};
      } else {
        deques := deques[o := Indices(slot.next.value, idxs.tail)];
      }
      lists := lists[o := ListOf(l, o)[1..]];
      OthersSame(s, d, l, o);
      return Some(slot.value);
    }

    /** The frames of the other streams, seen through a slab in which only the slots of `o` changed. */
    lemma OthersSame(s: map<SlotKey, Slot<T>>, d: map<nat, Indices>, l: map<nat, seq<SlotKey>>, o: nat)
      requires Lists(s, d, l) && Valid()
      requires forall p :: p != o ==> ListOf(lists, p) == ListOf(l, p) && SameValues(s, slab, ListOf(l, p))
      ensures forall p :: p != o ==>
        (forall k :: k in ListOf(l, p) ==> k in s) && Frames(p) == Values(s, ListOf(l, p))
    {
      hide List, Lists;
      forall p | p != o ensures (forall k :: k in ListOf(l, p) ==> k in s) && Frames(p) == Values(s, ListOf(l, p)) {
        ListAt(s, d, l, p);
        assert SameValues(s, slab, ListOf(l, p));
      }
    }
  }
}
