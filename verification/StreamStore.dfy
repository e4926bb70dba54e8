/** The slab of streams, the index of stream identifiers, and the six queues threaded through the slab: each is a
    singly linked list whose links and marks lie in the streams themselves. */
module StreamStore {
  import opened Headers

  /** A stream is referred to by its identifier; a reference dangles when the slab has no such stream. */
  type Key = nat

  datatype QueueName = NextSend | NextSendCapacity | NextOpen | NextAccept | NextWindowUpdate | NextResetExpire

  datatype Indices = Indices(head: Key, tail: Key)

  predicate NoDup<T(==)>(s: seq<T>) {
    forall i, j :: 0 <= i < j < |s| ==> s[i] != s[j]
  }

  /** The list of queue `q` is `c`: exactly its members are marked as queued, the links lead from each member to
      the next, and nothing else has a link. */
  ghost predicate Chain(q: QueueName, c: seq<Key>, idx: Option<Indices>, queued: set<(Key, QueueName)>,
                        next: map<(Key, QueueName), Key>) {
    && NoDup(c)
    && (forall k :: k in c <==> (k, q) in queued)
    && idx == (if c == [] then None else Some(Indices(c[0], c[|c| - 1])))
    && (forall i :: 0 <= i < |c| - 1 ==> (c[i], q) in next && next[(c[i], q)] == c[i + 1])
    && (forall k :: k in c[..if c == [] then 0 else |c| - 1] <==> (k, q) in next)
  }

  /** Queues do not share links or marks: what is done to those of one leaves every other chain as it was. */
  lemma ChainElsewhere(q: QueueName, c: seq<Key>, idx: Option<Indices>, queued: set<(Key, QueueName)>, next: map<(Key,
      QueueName), Key>, queued': set<(Key, QueueName)>, next': map<(Key, QueueName), Key>)
    requires Chain(q, c, idx, queued, next)
    requires forall k :: (k, q) in queued <==> (k, q) in queued'
    requires forall k :: (k, q) in next <==> (k, q) in next'
    requires forall k :: (k, q) in next ==> next[(k, q)] == next'[(k, q)]
    ensures Chain(q, c, idx, queued', next')
  {
  }

  /** Linking one more key behind the tail appends it. */
  lemma ChainPush(q: QueueName, c: seq<Key>, k: Key, queued: set<(Key, QueueName)>, next: map<(Key, QueueName), Key>)
    requires Chain(q, c, if c == [] then None else Some(Indices(c[0], c[|c| - 1])), queued, next) && (k, q) !in queued
    ensures c == [] ==> Chain(q, [k], Some(Indices(k, k)), queued + {(k, q)}, next)
    ensures c != [] ==> Chain(q, c + [k], Some(Indices(c[0], k)), queued + {(k, q)}, next[(c[|c| - 1], q) := k])
  {
    if c != [] {
      var c', next' := c + [k], next[(c[|c| - 1], q) := k];
      assert c'[..|c'| - 1] == c;
      assert c == c[..|c| - 1] + [c[|c| - 1]];
      forall j ensures j in c <==> (j, q) in next' {
      }
    }
  }

  /** Unlinking the head drops it. */
  lemma ChainPop(q: QueueName, c: seq<Key>, queued: set<(Key, QueueName)>, next: map<(Key, QueueName), Key>)
    requires c != [] && Chain(q, c, Some(Indices(c[0], c[|c| - 1])), queued, next)
    ensures |c| == 1 <==> c[0] == c[|c| - 1]
    ensures |c| == 1 ==> (c[0], q) !in next && Chain(q, [], None, queued - {(c[0], q)}, next)
    ensures |c| > 1 ==>
      && (c[0], q) in next && next[(c[0], q)] == c[1]
      && Chain(q, c[1..], Some(Indices(c[1], c[|c| - 1])), queued - {(c[0], q)}, next - {(c[0], q)})
  {
    if |c| > 1 {
      PopMembers(q, c, queued);
      PopLinks(q, c, next);
    }
  }

  /** The members of a chain without its head. */
  lemma PopMembers(q: QueueName, c: seq<Key>, queued: set<(Key, QueueName)>)
    requires |c| > 1 && NoDup(c) && forall k :: k in c <==> (k, q) in queued
    ensures NoDup(c[1..]) && forall k :: k in c[1..] <==> (k, q) in queued - {(c[0], q)}
  {
    assert c == [c[0]] + c[1..];
  }

  /** And its links. */
  lemma PopLinks(q: QueueName, c: seq<Key>, next: map<(Key, QueueName), Key>)
    requires |c| > 1 && NoDup(c) && forall i :: 0 <= i < |c| - 1 ==> (c[i], q) in next && next[(c[i], q)] == c[i + 1]
    requires forall k :: k in c[..|c| - 1] <==> (k, q) in next
    ensures var c', next' := c[1..], next - {(c[0], q)};
      && (forall i :: 0 <= i < |c'| - 1 ==> (c'[i], q) in next' && next'[(c'[i], q)] == c'[i + 1])
      && forall k :: k in c'[..|c'| - 1] <==> (k, q) in next'
  {
    var c', next' := c[1..], next - {(c[0], q)};
    assert c[..|c| - 1] == [c[0]] + c'[..|c'| - 1];
    forall i | 0 <= i < |c'| - 1 ensures (c'[i], q) in next' && next'[(c'[i], q)] == c'[i + 1] {
      assert c'[i] == c[i + 1] && c[i + 1] != c[0];
    }
    forall k ensures k in c'[..|c'| - 1] <==> (k, q) in next' {
      if k in c'[..|c'| - 1] {
        var i :| 0 <= i < |c'| - 1 && c'[i] == k;
        assert c[i + 1] == k && c[i + 1] != c[0];
      }
    }
  }

  function ListOf(contents: map<QueueName, seq<Key>>, q: QueueName): seq<Key> {
    if q in contents then contents[q] else []
  }

  function EndsOf(indices: map<QueueName, Indices>, q: QueueName): Option<Indices> {
    if q in indices then Some(indices[q]) else None
  }

  ghost predicate Chains(contents: map<QueueName, seq<Key>>, indices: map<QueueName, Indices>,
                         queued: set<(Key, QueueName)>, next: map<(Key, QueueName), Key>) {
    forall q :: Chain(q, ListOf(contents, q), EndsOf(indices, q), queued, next)
  }

  /** The links and marks of every queue but `q` are the same. */
  ghost predicate SameElsewhere(q: QueueName, queued: set<(Key, QueueName)>, next: map<(Key, QueueName), Key>,
                                queued': set<(Key, QueueName)>, next': map<(Key, QueueName), Key>) {
    && (forall k, p :: p != q ==> ((k, p) in queued <==> (k, p) in queued') && ((k, p) in next <==> (k, p) in next'))
    && (forall k, p :: p != q && (k, p) in next ==> next[(k, p)] == next'[(k, p)])
  }

  lemma OwnLinksOnly(q: QueueName, queued: set<(Key, QueueName)>, next: map<(Key, QueueName), Key>, k: Key, tail: Key)
    ensures SameElsewhere(q, queued, next, queued + {(k, q)}, next)
    ensures SameElsewhere(q, queued, next, queued + {(k, q)}, next[(tail, q) := k])
    ensures SameElsewhere(q, queued, next, queued - {(k, q)}, next)
    ensures SameElsewhere(q, queued, next, queued - {(k, q)}, next - {(k, q)})
  {
  }

  /** One queue changed and became a chain again, and the links and marks of the others were not touched. */
  lemma OneChainChanged(contents: map<QueueName, seq<Key>>, indices: map<QueueName, Indices>,
                        queued: set<(Key, QueueName)>, next: map<(Key, QueueName), Key>, contents': map<QueueName,
                        seq<Key>>, indices': map<QueueName, Indices>, queued': set<(Key, QueueName)>,
                        next': map<(Key, QueueName), Key>, q: QueueName)
    requires Chains(contents, indices, queued, next)
    requires Chain(q, ListOf(contents', q), EndsOf(indices', q), queued', next')
    requires forall p :: p != q ==>
      ListOf(contents', p) == ListOf(contents, p) && EndsOf(indices', p) == EndsOf(indices, p)
    requires SameElsewhere(q, queued, next, queued', next')
    ensures Chains(contents', indices', queued', next')
  {
    hide Chain;
    forall p ensures Chain(p, ListOf(contents', p), EndsOf(indices', p), queued', next') {
      assert Chain(p, ListOf(contents, p), EndsOf(indices, p), queued, next);
      if p != q {
        ChainElsewhere(p, ListOf(contents, p), EndsOf(indices, p), queued, next, queued', next');
      }
    }
  }

  lemma PushChains(contents: map<QueueName, seq<Key>>, indices: map<QueueName, Indices>, queued: set<(Key, QueueName)>,
                   next: map<(Key, QueueName), Key>, q: QueueName, k: Key)
    requires Chains(contents, indices, queued, next)
    ensures k in ListOf(contents, q) <==> (k, q) in queued
    ensures (k, q) !in queued ==>
      var contents' := contents[q := ListOf(contents, q) + [k]];
      if q in indices then
        Chains(contents', indices[q := Indices(indices[q].head, k)], queued + {(k, q)}, next[(indices[q].tail, q) := k])
      else Chains(contents', indices[q := Indices(k, k)], queued + {(k, q)}, next)
  {
    hide Chain, Chains, SameElsewhere;
    var c := ListOf(contents, q);
    OwnLinksOnly(q, queued, next, k, if q in indices then indices[q].tail else 0);
    ChainOf(contents, indices, queued, next, q);
    ChainParts(q, c, EndsOf(indices, q), queued, next, k);
    if (k, q) !in queued {
      ChainPush(q, c, k, queued, next);
      var contents' := contents[q := c + [k]];
      if c == [] {
        assert c + [k] == [k];
        OneChainChanged(contents, indices, queued, next, contents', indices[q := Indices(k, k)], queued + {(k, q)},
                        next, q);
      } else {
        OneChainChanged(contents, indices, queued, next, contents', indices[q := Indices(indices[q].head, k)],
                        queued + {(k, q)}, next[(indices[q].tail, q) := k], q);
      }
    }
  }

  lemma ChainOf(contents: map<QueueName, seq<Key>>, indices: map<QueueName, Indices>, queued: set<(Key, QueueName)>,
                next: map<(Key, QueueName), Key>, q: QueueName)
    requires Chains(contents, indices, queued, next)
    ensures Chain(q, ListOf(contents, q), EndsOf(indices, q), queued, next)
  {
    hide Chain;
  }

  lemma ChainParts(q: QueueName, c: seq<Key>, idx: Option<Indices>, queued: set<(Key, QueueName)>,
                   next: map<(Key, QueueName), Key>, k: Key)
    requires Chain(q, c, idx, queued, next)
    ensures k in c <==> (k, q) in queued
    ensures idx == if c == [] then None else Some(Indices(c[0], c[|c| - 1]))
  {
  }

  lemma PopChains(contents: map<QueueName, seq<Key>>, indices: map<QueueName, Indices>, queued: set<(Key, QueueName)>,
                  next: map<(Key, QueueName), Key>, q: QueueName)
    requires Chains(contents, indices, queued, next)
    ensures q in indices <==> ListOf(contents, q) != []
    ensures q in indices ==>
      var c, h := ListOf(contents, q), indices[q].head;
      && c[0] == h && (h, q) in queued
      && if h == indices[q].tail then
           |c| == 1 && (h, q) !in next && Chains(contents[q := c[1..]], indices - {q}, queued - {(h, q)}, next)
         else
           && (h, q) in next
           && Chains(contents[q := c[1..]], indices[q := Indices(next[(h, q)], indices[q].tail)], queued - {(h, q)},
                     next - {(h, q)})
  {
    hide Chain, Chains, SameElsewhere;
    var c := ListOf(contents, q);
    ChainOf(contents, indices, queued, next, q);
    if c != [] {
      OwnLinksOnly(q, queued, next, c[0], 0);
      ChainParts(q, c, EndsOf(indices, q), queued, next, c[0]);
      ChainPop(q, c, queued, next);
      var h := indices[q].head;
      var one := h == indices[q].tail;
      assert one ==> c[1..] == [];
      var indices' := if one then indices - {q} else indices[q := Indices(next[(h, q)], indices[q].tail)];
      var next' := if one then next else next - {(h, q)};
      OneChainChanged(contents, indices, queued, next, contents[q := c[1..]], indices', queued - {(h, q)}, next', q);
    } else {
      ChainParts(q, c, EndsOf(indices, q), queued, next, 0);
    }
  }

  class Store<S> {
    var slab: map<Key, S>
    var ids: seq<Key>
    var queued: set<(Key, QueueName)>
    var next: map<(Key, QueueName), Key>
    var indices: map<QueueName, Indices>
    ghost var contents: map<QueueName, seq<Key>>

    /** What a queue holds, first to last. */
    ghost function Queue(q: QueueName): seq<Key>
      reads this`contents
    {
      ListOf(contents, q)
    }

    predicate IsQueued(q: QueueName, k: Key)
      reads this`queued
    {
      (k, q) in queued
    }

    /** The queues are chains of streams that exist, and so is everything in the index of identifiers. */
    ghost predicate Valid()
      reads this
    {
      && Chains(contents, indices, queued, next)
      && (forall k, q :: (k, q) in queued ==> k in slab)
      && NoDup(ids) && (forall k :: k in ids ==> k in slab)
    }

    constructor ()
      ensures Valid() && slab == map[] && ids == [] && forall q :: Queue(q) == []
    {
      slab, ids, queued, next, indices, contents := map[], [], {}, map[], map[], map[];
    }

    lemma IsMember(q: QueueName, k: Key)
      requires Valid()
      ensures IsQueued(q, k) <==> k in Queue(q)
      ensures k in Queue(q) ==> k in slab
    {
      hide Chain, Chains;
      ChainOf(contents, indices, queued, next, q);
      ChainParts(q, Queue(q), EndsOf(indices, q), queued, next, k);
    }

    /** Puts a stream at the end of a queue, unless it is in it already. */
    method Push(q: QueueName, k: Key) returns (pushed: bool)
      requires Valid() && k in slab
      modifies this`queued, this`next, this`indices, this`contents
      ensures Valid() && pushed == (k !in old(Queue(q)))
      ensures Queue(q) == if pushed then old(Queue(q)) + [k] else old(Queue(q))
      ensures forall p :: p != q ==> Queue(p) == old(Queue(p))
      ensures queued == old(queued) + {(k, q)}
    {
      hide Chains;
      PushChains(contents, indices, queued, next, q, k);
      contents := if (k, q) in queued then contents else contents[q := Queue(q) + [k]];
      if IsQueued(q, k) {
        return false;
      }
      queued := queued + {(k, q)};
      if q in indices {
        next := next[(indices[q].tail, q) := k];
        indices := indices[q := Indices(indices[q].head, k)];
      } else {
        indices := indices[q := Indices(k, k)];
      }
      return true;
    }

    /** Takes the first stream off a queue. Its key is never dangling. */
    method Pop(q: QueueName) returns (k: Option<Key>)
      requires Valid()
      modifies this`queued, this`next, this`indices, this`contents
      ensures Valid() && (k.None? <==> old(Queue(q)) == [])
      ensures k.Some? ==>
        k.value in slab && old(Queue(q)) == [k.value] + Queue(q) && queued == old(queued) - {(k.value, q)}
      ensures k.None? ==> Queue(q) == [] && queued == old(queued)
      ensures forall p :: p != q ==> Queue(p) == old(Queue(p))
    {
      hide Chains;
      PopChains(contents, indices, queued, next, q);
      if q !in indices {
        return None;
      }
      var idxs := indices[q];
      assert Queue(q) == [idxs.head] + Queue(q)[1..];
      contents := contents[q := Queue(q)[1..]];
      if idxs.head == idxs.tail {
        indices := indices - {q};
      } else {
        indices := indices[q := Indices(next[(idxs.head, q)], idxs.tail)];
        next := next - {(idxs.head, q)};
      }
      queued := queued - {(idxs.head, q)};
      return Some(idxs.head);
    }

    /** A new stream, in no queue. */
    method Insert(k: Key, s: S)
      requires Valid() && k !in slab
      modifies this`slab, this`ids
      ensures Valid() && slab == old(slab)[k := s] && ids == old(ids) + [k]
      ensures forall q :: !IsQueued(q, k)
    {
      slab := slab[k := s];
      ids := ids + [k];
    }

    method Set(k: Key, s: S)
      requires Valid() && k in slab
      modifies this`slab
      ensures Valid() && slab == old(slab)[k := s] && slab.Keys == old(slab).Keys
    {
      slab := slab[k := s];
    }

    /** Takes an identifier out of the index; the last one takes its place. */
    method Unlink(k: Key)
      requires Valid()
      modifies this`ids
      ensures Valid() && ids == SwapRemove(old(ids), k)
    {
      var i := 0;
      while i < |ids| && ids[i] != k
        invariant 0 <= i <= |ids| && k !in ids[..i]
      {
        i := i + 1;
      }
      if i < |ids| {
        OnlyIndex(ids, k, i);
        SwapRemoved(ids, k);
        var last := ids[|ids| - 1];
        ids := ids[i := last][..|ids| - 1];
      } else {
        assert ids[..i] == ids;
      }
    }

    /** Frees a stream. Nothing may refer to it any more. */
    method Remove(k: Key)
      requires Valid() && k in slab && k !in ids && forall q :: !IsQueued(q, k)
      modifies this`slab
      ensures Valid() && slab == old(slab) - {k}
    {
      slab := slab - {k};
      forall j, q | (j, q) in queued ensures j in slab {
        assert IsQueued(q, j);
      }
    }
  }

  function IndexOf(s: seq<Key>, k: Key): (i: nat)
    requires k in s
    ensures i < |s| && s[i] == k
  {
    if s[0] == k then 0
    else 1 + IndexOf(s[1..], k)
  }

  lemma OnlyIndex(s: seq<Key>, k: Key, i: nat)
    requires NoDup(s) && i < |s| && s[i] == k
    ensures IndexOf(s, k) == i
  {
  }

  /** The list without `k`, the last member in its place. */
  function SwapRemove(s: seq<Key>, k: Key): (r: seq<Key>)
    ensures k !in s ==> r == s
    ensures k in s ==> |r| == |s| - 1
  {
    if k in s then s[IndexOf(s, k) := s[|s| - 1]][..|s| - 1] else s
  }

  lemma SwapRemoved(s: seq<Key>, k: Key)
    requires NoDup(s)
    ensures var r := SwapRemove(s, k); NoDup(r) && forall j :: j in r <==> j in s && j != k
  {
    if k in s {
      var i, r := IndexOf(s, k), SwapRemove(s, k);
      forall j ensures j in r <==> j in s && j != k {
        if j in s && j != k {
          var n :| 0 <= n < |s| && s[n] == j;
          assert r[if n == |s| - 1 then i else n] == j;
        }
      }
    }
  }
}
