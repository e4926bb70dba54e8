/** The dynamic table as section 2.3.2 of RFC 7541 describes it: a list, newest entry first, from whose end
    entries are evicted. Both the encoder's hashed table and the decoder's deque are measured against it. */
module FifoTable {
  import opened Headers

  const DYN_OFFSET: nat := 62

  type Entries = seq<Header>

  function Total(es: Entries): nat {
    if es == [] then 0 else Total(es[..|es| - 1]) + es[|es| - 1].Len()
  }

  /** Drops entries from the end until what is left fits `max`. */
  function Evict(es: Entries, max: int): Entries {
    if es != [] && Total(es) > max then Evict(es[..|es| - 1], max) else es
  }

  /** Section 4.4 of RFC 7541: evict until there is room for `h`, then put it at the front; an entry larger
      than the table empties it. */
  function Add(es: Entries, h: Header, max: nat): Entries {
    if h.Len() > max then [] else [h] + Evict(es, max - h.Len())
  }

  lemma {:induction false} TotalPush(h: Header, es: Entries)
    ensures Total([h] + es) == h.Len() + Total(es)
  {
    if es == [] {
      assert ([h] + es)[..0] == [];
    } else {
      assert ([h] + es)[..|es|] == [h] + es[..|es| - 1];
      TotalPush(h, es[..|es| - 1]);
    }
  }

  lemma {:induction false} TotalMonotone(es: Entries, n: nat)
    requires n <= |es|
    ensures Total(es[..n]) <= Total(es)
    ensures n < |es| ==> Total(es[..n]) < Total(es)
  {
    if n < |es| {
      TotalMonotone(es[..|es| - 1], n);
      assert es[..|es| - 1][..n] == es[..n];
    } else {
      assert es[..n] == es;
    }
  }

  /** Of the list `es`, newest first, `r` is the longest run of newest entries that fits `max`. */
  ghost predicate LongestFit(r: Entries, es: Entries, max: nat) {
    && r <= es && Total(r) <= max
    && forall n :: |r| < n <= |es| ==> Total(es[..n]) > max
  }

  /** Eviction keeps exactly the longest run of newest entries that fits: what stays is a prefix that fits,
      and one more entry would not have fitted. */
  lemma {:induction false} EvictIsLongestFit(es: Entries, max: nat)
    ensures LongestFit(Evict(es, max), es, max)
  {
    if es != [] && Total(es) > max {
      var front := es[..|es| - 1];
      EvictIsLongestFit(front, max);
      var r := Evict(es, max);
      forall n | |r| < n <= |es| ensures Total(es[..n]) > max {
        if n == |es| {
          assert es[..n] == es;
        } else {
          assert es[..n] == front[..n];
        }
      }
    }
  }

  /** Evicting with the new entry already counted and in place, as the hashed table does, is the same. */
  lemma {:induction false} EvictAfterPush(h: Header, es: Entries, max: nat)
    ensures Evict([h] + es, max) == Add(es, h, max)
  {
    TotalPush(h, es);
    if es == [] {
      assert [h] + es == [h];
      assert [h][..0] == [];
    } else if Total([h] + es) > max {
      assert ([h] + es)[..|es|] == [h] + es[..|es| - 1];
      EvictAfterPush(h, es[..|es| - 1], max);
    }
  }

  /** So whatever its size: adding keeps the longest run, the new entry in front, that fits. */
  lemma AddIsLongestFit(h: Header, es: Entries, max: nat)
    ensures LongestFit(Add(es, h, max), [h] + es, max)
    ensures h.Len() > max ==> Add(es, h, max) == []
  {
    EvictAfterPush(h, es, max);
    EvictIsLongestFit([h] + es, max);
  }

  /** Shrinking twice is shrinking to the smaller bound. */
  lemma {:induction false} EvictTwice(es: Entries, a: nat, b: nat)
    ensures Evict(Evict(es, a), b) == Evict(es, if a < b then a else b)
  {
    if es != [] && Total(es) > a {
      EvictTwice(es[..|es| - 1], a, b);
    } else if es != [] && Total(es) > b {
    }
  }

  // ----- lookup

  /** The newest entry equal to `h`, or -1. */
  function FindEqual(es: Entries, h: Header): (i: int)
    ensures -1 <= i < |es|
    ensures i >= 0 ==> es[i].Same(h)
    ensures forall j :: 0 <= j < (if i < 0 then |es| else i) ==> !es[j].Same(h)
  {
    if es == [] then -1
    else
      var i := FindEqual(es[..|es| - 1], h);
      if i >= 0 then i else if es[|es| - 1].Same(h) then |es| - 1 else -1
  }

  /** The newest entry named `name`, or -1. */
  function FindName(es: Entries, name: Bytes): (i: int)
    ensures -1 <= i < |es|
    ensures i >= 0 ==> es[i].name == name
    ensures forall j :: 0 <= j < (if i < 0 then |es| else i) ==> es[j].name != name
  {
    if es == [] then -1
    else
      var i := FindName(es[..|es| - 1], name);
      if i >= 0 then i else if es[|es| - 1].name == name then |es| - 1 else -1
  }

  ghost predicate NoDuplicates(es: Entries) {
    forall i, j :: 0 <= i < j < |es| ==> !es[i].Same(es[j])
  }

  // ----- indexing a header

  /** How a header goes on the wire. Slot numbers count from the front of the table just after indexing. */
  datatype Index =
    | Indexed(idx: nat, header: Header)
    | Name(idx: nat, header: Header)
    | Inserted(slot: nat)
    | InsertedValue(idx: nat, slot: nat)
    | NotIndexed(header: Header)

  function StaticIndex(statik: Option<(nat, bool)>, h: Header): Index {
    match statik
    case None => NotIndexed(h)
    case Some((n, true)) => Indexed(n, h)
    case Some((n, false)) => Name(n, h)
  }

  /** Which headers may enter the dynamic table at all: not those whose values are not worth it, not those
      the static table has whole, and none taking up more than three quarters of the table. */
  predicate Indexable(statik: Option<(nat, bool)>, skip: bool, h: Header, max: nat) {
    !skip && !(statik.Some? && statik.value.1) && h.Len() * 4 <= max * 3
  }

  /** What indexing `h` against the list `es` answers. */
  function IndexIn(statik: Option<(nat, bool)>, skip: bool, h: Header, es: Entries, max: nat): Index {
    var equal, named := FindEqual(es, h), FindName(es, h.name);
    if !Indexable(statik, skip, h, max) then StaticIndex(statik, h)
    else if equal >= 0 then Indexed(equal + DYN_OFFSET, h)
    else if h.sensitive then
      if named >= 0 then Name(named + DYN_OFFSET, h) else StaticIndex(statik, h)
    else if statik.Some? then InsertedValue(statik.value.0, 0)
    else if named >= 0 then InsertedValue(named + DYN_OFFSET, 0)
    else Inserted(0)
  }

  /** What it leaves behind. */
  function EntriesAfter(statik: Option<(nat, bool)>, skip: bool, h: Header, es: Entries, max: nat): Entries {
    if Indexable(statik, skip, h, max) && FindEqual(es, h) < 0 && !h.sensitive then Add(es, h, max) else es
  }

  /** Nothing is ever stored twice. */
  lemma IndexKeepsNoDuplicates(statik: Option<(nat, bool)>, skip: bool, h: Header, es: Entries, max: nat)
    requires NoDuplicates(es)
    ensures NoDuplicates(EntriesAfter(statik, skip, h, es, max))
  {
    if h.Len() <= max {
      EvictIsLongestFit(es, max - h.Len());
    }
  }

  /** Index `idx` of the static table and the list behind it has this name, and this value if one is given. */
  ghost predicate Denotes(t: StaticTable, es: Entries, idx: nat, name: Bytes, value: Option<Bytes>) {
    if 1 <= idx <= STATIC_LEN then
      t[idx - 1].name == name && (value.Some? ==> t[idx - 1].value == value.value)
    else
      && STATIC_LEN < idx <= STATIC_LEN + |es|
      && es[idx - STATIC_LEN - 1].name == name && (value.Some? ==> es[idx - STATIC_LEN - 1].value == value.value)
  }

  /** What the answer for a header is to be, told from the tables alone. A bare index if a static entry with a value
      equals it, or an entry of the list, which is looked at only for names that are not skipped and headers of at most
      three quarters of the table; else an index for the name if there is one, that of a static entry unless the header
      is sensitive. It enters the list if it could have been found there and was not, unless sensitive. */
  ghost predicate Answers(t: StaticTable, skipped: set<Bytes>, h: Header, es: Entries, max: nat, r: Index) {
    var whole := exists i :: 0 <= i < |t| && t[i].value != [] && t[i].name == h.name && t[i].value == h.value;
    var known := exists i :: 0 <= i < |t| && t[i].name == h.name;
    var equal := exists e :: e in es && e.name == h.name && e.value == h.value;
    var named := exists e :: e in es && e.name == h.name;
    var free := h.name !in skipped && 4 * (32 + |h.name| + |h.value|) <= 3 * max;
    match r
    case Indexed(idx, g) =>
      && g == h && (whole || (free && equal)) && Denotes(t, es, idx, h.name, Some(h.value))
      && (idx <= STATIC_LEN <==> whole)
    case Name(idx, g) =>
      && g == h && !whole && Denotes(t, es, idx, h.name, None)
      && if free then !equal && h.sensitive && (known || named) && (idx <= STATIC_LEN <==> !named)
         else known && idx <= STATIC_LEN
    case NotIndexed(g) => g == h && !known && (free ==> !equal && h.sensitive && !named)
    case Inserted(slot) => slot == 0 && free && !known && !named && !h.sensitive
    case InsertedValue(idx, slot) =>
      && slot == 0 && free && !whole && !equal && (known || named) && !h.sensitive
      && Denotes(t, es, idx, h.name, None) && (idx <= STATIC_LEN <==> known)
  }

  /** The list after indexing: with the header in front as far as all of it fits, or unchanged. */
  ghost predicate ListAfter(h: Header, es: Entries, max: nat, r: Index, es': Entries) {
    if r.Inserted? || r.InsertedValue? then es' != [] && es'[0] == h && LongestFit(es', [h] + es, max) else es' == es
  }

  lemma AnswersAre(t: StaticTable, skipped: set<Bytes>, h: Header, es: Entries, max: nat)
    ensures var statik, skip := IndexStatic(t, h), h.name in skipped;
      && Answers(t, skipped, h, es, max, IndexIn(statik, skip, h, es, max))
      && ListAfter(h, es, max, IndexIn(statik, skip, h, es, max), EntriesAfter(statik, skip, h, es, max))
  {
    hide FindEqual, FindName, IndexStatic, LongestFit;
    var equal, named := FindEqual(es, h), FindName(es, h.name);
    assert equal >= 0 ==> es[equal] in es;
    assert named >= 0 ==> es[named] in es;
    AddIsLongestFit(h, es, max);
  }

  /** A header enters the list exactly if its name is not skipped, it is not sensitive, it takes up at most three
      quarters of the table, and neither a static entry with a value nor an entry of the list equals it. */
  lemma EntersExactly(t: StaticTable, skipped: set<Bytes>, h: Header, es: Entries, max: nat, r: Index)
    requires Answers(t, skipped, h, es, max, r)
    ensures r.Inserted? || r.InsertedValue? <==>
      && h.name !in skipped && !h.sensitive && 4 * (32 + |h.name| + |h.value|) <= 3 * max
      && (forall i :: 0 <= i < |t| ==> t[i].value == [] || t[i].name != h.name || t[i].value != h.value)
      && (forall e :: e in es ==> e.name != h.name || e.value != h.value)
  {
  }

  /** What is answered without looking at the list. */
  lemma ChoiceIs(statik: Option<(nat, bool)>, skip: bool, h: Header, es: Entries, max: nat)
    ensures !Indexable(statik, skip, h, max) ==>
      IndexIn(statik, skip, h, es, max) == StaticIndex(statik, h) && EntriesAfter(statik, skip, h, es, max) == es
  {
  }

  /** An entry that may be in the list: not sensitive, of a name that is not skipped, and not in the static table with
      its value. */
  ghost predicate Worthy(t: StaticTable, skipped: set<Bytes>, e: Header) {
    && e.name !in skipped && !e.sensitive
    && forall i :: 0 <= i < |t| ==> t[i].value == [] || t[i].name != e.name || t[i].value != e.value
  }

  ghost predicate AllWorthy(t: StaticTable, skipped: set<Bytes>, es: Entries) {
    forall i :: 0 <= i < |es| ==> Worthy(t, skipped, es[i])
  }

  lemma EntersWorthy(t: StaticTable, skipped: set<Bytes>, h: Header, es: Entries, max: nat, r: Index)
    requires Answers(t, skipped, h, es, max, r) && (r.Inserted? || r.InsertedValue?)
    ensures Worthy(t, skipped, h)
  {
  }

  /** Indexing lets nothing else in. */
  lemma StaysWorthy(t: StaticTable, skipped: set<Bytes>, h: Header, es: Entries, max: nat, r: Index, es': Entries)
    requires Answers(t, skipped, h, es, max, r) && ListAfter(h, es, max, r, es') && AllWorthy(t, skipped, es)
    ensures AllWorthy(t, skipped, es')
  {
    hide Worthy;
    if r.Inserted? || r.InsertedValue? {
      EntersWorthy(t, skipped, h, es, max, r);
      forall i | 0 <= i < |es'| ensures Worthy(t, skipped, es'[i]) {
        assert es'[i] == ([h] + es)[i];
      }
    }
  }
}
