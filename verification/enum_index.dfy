/**
 The enumeration index the contract writes out by hand five times
 (owner -> tokens, issuer -> sets, set -> tokens, account -> ask swaps,
 account -> bid swaps): a forward map `(key, position) -> item`, a reverse
 map `item -> position` and a per-key count. Items are appended at position
 `count[key]` and removed by moving the last item of the key into the hole.
 */
module EnumIndex {
  import opened Common

  /** The composite key `(key, position)` of the forward map. */
  datatype Slot<K> = Slot(key: K, pos: nat)

  datatype Index<K, V> = Index(forward: map<Slot<K>, V>, reverse: map<V, nat>, count: map<K, nat>)

  function Empty<K(==,!new), V(==,!new)>(): Index<K, V>
  {
    Index(map[], map[], map[])
  }

  /** The number of items listed under `k` (`count.get(k).unwrap_or(0)`). */
  function Count<K(==,!new), V(==,!new)>(ix: Index<K, V>, k: K): nat
  {
    Lookup(ix.count, k).GetOr(0)
  }

  /** The item at position `p` of `k`'s listing, if any. */
  function ItemAt<K(==,!new), V(==,!new)>(ix: Index<K, V>, k: K, p: nat): Option<V>
  {
    Lookup(ix.forward, Slot(k, p))
  }

  /** `v` is listed under `k`, at the position its reverse entry records. */
  predicate Holds<K(==,!new), V(==,!new)>(ix: Index<K, V>, k: K, v: V)
  {
    && v in ix.reverse
    && Slot(k, ix.reverse[v]) in ix.forward
    && ix.forward[Slot(k, ix.reverse[v])] == v
  }

  /**
   Well-formedness: the defined positions of every key are exactly
   `0 .. Count(k) - 1`, every listed item's reverse entry is its position,
   and no item is listed twice (under one key or under two).
   */
  ghost predicate Valid<K(!new), V(!new)>(ix: Index<K, V>)
  {
    && (forall s | s in ix.forward :: s.pos < Count(ix, s.key))
    && (forall k, p: nat | p < Count(ix, k) :: Slot(k, p) in ix.forward)
    && (forall s | s in ix.forward :: ix.forward[s] in ix.reverse && ix.reverse[ix.forward[s]] == s.pos)
    && (forall s1, s2 | s1 in ix.forward && s2 in ix.forward && ix.forward[s1] == ix.forward[s2] :: s1 == s2)
  }

  /** The listing of `k`, position by position. */
  ghost function Items<K(!new), V(!new)>(ix: Index<K, V>, k: K): (s: seq<V>)
    requires Valid(ix)
    ensures |s| == Count(ix, k)
    ensures forall p | 0 <= p < |s| :: Slot(k, p) in ix.forward && s[p] == ix.forward[Slot(k, p)]
  {
    seq(Count(ix, k), p requires 0 <= p < Count(ix, k) => ix.forward[Slot(k, p)])
  }

  predicate Distinct<V(==)>(s: seq<V>)
  {
    forall i, j | 0 <= i < j < |s| :: s[i] != s[j]
  }

  /** Swap-with-last removal of position `i`, on a plain sequence. */
  ghost function SwapRemove<V>(s: seq<V>, i: nat): seq<V>
    requires i < |s|
  {
    var last := |s| - 1;
    if i == last then s[..last] else s[..last][i := s[last]]
  }

  // ---------------------------------------------------------------------
  // Counters

  /** `increase_counter_of`: one more under `k`, starting from 1 when absent. */
  function IncreaseCounterOf<K(==,!new)>(m: map<K, nat>, k: K): (r: map<K, nat>)
    ensures k in r && r[k] == Lookup(m, k).GetOr(0) + 1
    ensures forall k' | k' != k :: Lookup(r, k') == Lookup(m, k')
  {
    if k in m then m[k := m[k] + 1] else m[k := 1]
  }

  /**
   `decrease_counter_of`: fails with `CannotFetchValue` when `k` has no
   counter and with `Underflow` when it is zero; otherwise one less.
   */
  function DecreaseCounterOf<K(==,!new)>(m: map<K, nat>, k: K): (r: (Status, map<K, nat>))
    ensures r.0 == Err(CannotFetchValue) <==> k !in m
    ensures r.0 == Err(Underflow) <==> k in m && m[k] == 0
    ensures r.0.Err? ==> r.1 == m
    ensures r.0 == Ok ==> k in r.1 && r.1[k] + 1 == m[k]
    ensures forall k' | k' != k :: Lookup(r.1, k') == Lookup(m, k')
  {
    if k !in m then (Err(CannotFetchValue), m)
    else if m[k] == 0 then (Err(Underflow), m)
    else (Ok, m[k := m[k] - 1])
  }

  // ---------------------------------------------------------------------
  // Append

  /**
   Write `v` at position `Count(k)` and record that position in the reverse
   map, leaving the count alone (the first half of every append; for the
   owner index the count is raised later by the registry).
   */
  function Place<K(==,!new), V(==,!new)>(ix: Index<K, V>, k: K, v: V): (r: Index<K, V>)
    ensures ItemAt(r, k, Count(ix, k)) == Some(v) && v in r.reverse && r.reverse[v] == Count(ix, k)
    ensures r.count == ix.count
    ensures forall s | s != Slot(k, Count(ix, k)) :: Lookup(r.forward, s) == Lookup(ix.forward, s)
    ensures forall w | w != v :: Lookup(r.reverse, w) == Lookup(ix.reverse, w)
  {
    var n := Count(ix, k);
    Index(ix.forward[Slot(k, n) := v], ix.reverse[v := n], ix.count)
  }

  /** Raise the count of `k` by one. */
  function Bump<K(==,!new), V(==,!new)>(ix: Index<K, V>, k: K): (r: Index<K, V>)
    ensures Count(r, k) == Count(ix, k) + 1
    ensures forall k' | k' != k :: Count(r, k') == Count(ix, k')
    ensures r.forward == ix.forward && r.reverse == ix.reverse
  {
    ix.(count := IncreaseCounterOf(ix.count, k))
  }

  /** Append `v` to `k`'s listing. */
  function Append<K(==,!new), V(==,!new)>(ix: Index<K, V>, k: K, v: V): (r: Index<K, V>)
    ensures ItemAt(r, k, Count(ix, k)) == Some(v) && v in r.reverse && r.reverse[v] == Count(ix, k)
    ensures Count(r, k) == Count(ix, k) + 1
    ensures forall k' | k' != k :: Count(r, k') == Count(ix, k')
    ensures forall s | s != Slot(k, Count(ix, k)) :: Lookup(r.forward, s) == Lookup(ix.forward, s)
    ensures forall w | w != v :: Lookup(r.reverse, w) == Lookup(ix.reverse, w)
  {
    Bump(Place(ix, k, v), k)
  }

  // ---------------------------------------------------------------------
  // Swap-remove

  /**
   Remove `v` from `k`'s listing by moving the last item into its position,
   leaving the count alone. The position of `v` is read from the reverse map
   and defaults to 0 when `v` has no entry.
   */
  function Detach<K(==,!new), V(==,!new)>(ix: Index<K, V>, k: K, v: V): (r: (Status, Index<K, V>))
    ensures r.0 == Err(Underflow) <==> Count(ix, k) == 0
    ensures r.0 == Err(CannotFetchValue) <==>
              Count(ix, k) > 0 && Lookup(ix.reverse, v).GetOr(0) != Count(ix, k) - 1 && Slot(k, Count(ix, k) - 1) !in ix.forward
    ensures r.0.Err? ==> r.1 == ix
    ensures r.0 == Ok ==> r.1.count == ix.count && v !in r.1.reverse && Slot(k, Count(ix, k) - 1) !in r.1.forward
  {
    var n := Count(ix, k);
    if n == 0 then (Err(Underflow), ix)
    else
      var last := n - 1;
      var i := Lookup(ix.reverse, v).GetOr(0);
      if i != last && Slot(k, last) !in ix.forward then (Err(CannotFetchValue), ix)
      else
        var moved :=
          if i != last then
            var lastItem := ix.forward[Slot(k, last)];
            Index(ix.forward[Slot(k, i) := lastItem], ix.reverse[lastItem := i], ix.count)
          else ix;
        (Ok, Index(moved.forward - {Slot(k, last)}, moved.reverse - {v}, moved.count))
  }

  /** Lower the count of `k` by one (`decrease_counter_of` on the index's count). */
  function Drop<K(==,!new), V(==,!new)>(ix: Index<K, V>, k: K): (r: (Status, Index<K, V>))
    ensures r.0 == Err(CannotFetchValue) <==> k !in ix.count
    ensures r.0 == Err(Underflow) <==> k in ix.count && ix.count[k] == 0
    ensures r.0.Err? ==> r.1 == ix
    ensures r.0 == Ok ==> Count(r.1, k) + 1 == Count(ix, k)
    ensures forall k' | k' != k :: Count(r.1, k') == Count(ix, k')
    ensures r.1.forward == ix.forward && r.1.reverse == ix.reverse
  {
    var (st, c) := DecreaseCounterOf(ix.count, k);
    (st, ix.(count := c))
  }

  /** Swap-remove `v` from `k`'s listing and lower the count. */
  function Remove<K(==,!new), V(==,!new)>(ix: Index<K, V>, k: K, v: V): (r: (Status, Index<K, V>))
    ensures Count(ix, k) == 0 ==> r == (Err(Underflow), ix)
    ensures r.0 == Ok ==> Count(r.1, k) + 1 == Count(ix, k) && v !in r.1.reverse
    ensures forall k' | k' != k :: Count(r.1, k') == Count(ix, k')
  {
    var (st, d) := Detach(ix, k, v);
    if st.Err? then (st, d) else Drop(d, k)
  }

  // ---------------------------------------------------------------------
  // Lemmas

  /** Positions `0 .. Count(k) - 1` are exactly the ones that answer an item. */
  lemma ItemAtDense<K(!new), V(!new)>(ix: Index<K, V>, k: K, p: nat)
    requires Valid(ix)
    ensures ItemAt(ix, k, p).Some? <==> p < Count(ix, k)
    ensures p < Count(ix, k) ==> ItemAt(ix, k, p) == Some(Items(ix, k)[p])
  {
  }

  /** A valid index lists every item at most once. */
  lemma ItemsDistinct<K(!new), V(!new)>(ix: Index<K, V>, k: K)
    requires Valid(ix)
    ensures Distinct(Items(ix, k))
  {
    var s := Items(ix, k);
    forall i, j | 0 <= i < j < |s|
      ensures s[i] != s[j]
    {
      assert Slot(k, i) in ix.forward && Slot(k, j) in ix.forward;
      assert Slot(k, i) != Slot(k, j);
    }
  }

  /** Under a valid index, `Holds` means "appears in the listing". */
  lemma HoldsIffListed<K(!new), V(!new)>(ix: Index<K, V>, k: K, v: V)
    requires Valid(ix)
    ensures Holds(ix, k, v) <==> v in Items(ix, k)
    ensures Holds(ix, k, v) ==> ix.reverse[v] < Count(ix, k) && Items(ix, k)[ix.reverse[v]] == v
  {
    var s := Items(ix, k);
    if v in s {
      var p :| 0 <= p < |s| && s[p] == v;
      assert Slot(k, p) in ix.forward;
    }
  }

  /** An item is listed under at most one key. */
  lemma HoldsUnique<K(!new), V(!new)>(ix: Index<K, V>, k1: K, k2: K, v: V)
    requires Valid(ix) && Holds(ix, k1, v) && Holds(ix, k2, v)
    ensures k1 == k2
  {
    assert Slot(k1, ix.reverse[v]) in ix.forward && Slot(k2, ix.reverse[v]) in ix.forward;
  }

  lemma SwapRemoveMultiset<V>(s: seq<V>, i: nat)
    requires i < |s|
    ensures |SwapRemove(s, i)| == |s| - 1
    ensures multiset(SwapRemove(s, i)) == multiset(s) - multiset{s[i]}
  {
    var last := |s| - 1;
    assert s == s[..last] + [s[last]];
    if i != last {
      var t := s[..last];
      assert t == t[..i] + [t[i]] + t[i+1..];
      assert t[i := s[last]] == t[..i] + [s[last]] + t[i+1..];
      assert t[i] == s[i];
    }
  }

  /** The empty index is valid and lists nothing. */
  lemma EmptyValid<K(!new), V(!new)>(k: K)
    ensures Valid(Empty<K, V>())
    ensures Items(Empty<K, V>(), k) == []
  {
  }

  /**
   Appending an item not yet in the index keeps it valid, adds the item at
   the end of `k`'s listing and changes no other listing.
   */
  lemma AppendValid<K(!new), V(!new)>(ix: Index<K, V>, k: K, v: V)
    requires Valid(ix) && v !in ix.reverse
    ensures var r := Append(ix, k, v);
      && Valid(r)
      && Items(r, k) == Items(ix, k) + [v]
      && (forall k' | k' != k :: Items(r, k') == Items(ix, k'))
      && r.reverse.Keys == ix.reverse.Keys + {v}
      && Holds(r, k, v)
      && (forall k', w | Holds(ix, k', w) :: Holds(r, k', w))
  {
    var r := Append(ix, k, v);
    var n := Count(ix, k);
    var ns := Slot(k, n);
    assert ns !in ix.forward;
    forall s | s in r.forward
      ensures s.pos < Count(r, s.key)
    {
      if s != ns {
        assert s in ix.forward;
      }
    }
    forall k', p: nat | p < Count(r, k')
      ensures Slot(k', p) in r.forward
    {
      if Slot(k', p) != ns {
        assert Slot(k', p) in ix.forward;
      }
    }
    forall s | s in r.forward
      ensures r.forward[s] in r.reverse && r.reverse[r.forward[s]] == s.pos
    {
      if s != ns {
        assert s in ix.forward && ix.forward[s] != v;
      }
    }
    assert forall s | s in r.forward && s != ns :: s in ix.forward && r.forward[s] != v;
    forall s1, s2 | s1 in r.forward && s2 in r.forward && r.forward[s1] == r.forward[s2]
      ensures s1 == s2
    {
      if s1 != ns && s2 != ns {
        assert s1 in ix.forward && s2 in ix.forward;
      }
    }
    assert Valid(r);
    assert Items(r, k) == Items(ix, k) + [v];
    forall k' | k' != k
      ensures Items(r, k') == Items(ix, k')
    {
    }
    forall k', w | Holds(ix, k', w)
      ensures Holds(r, k', w)
    {
      assert w != v;
    }
  }

  /**
   Swap-remove of a listed item: the last item of `k` moves into the hole
   (nothing moves when the removed item was last), the removed item loses its
   reverse entry, the count drops by one and no other listing changes.
   */
  lemma RemoveValid<K(!new), V(!new)>(ix: Index<K, V>, k: K, v: V)
    requires Valid(ix) && Holds(ix, k, v)
    ensures var (st, r) := Remove(ix, k, v);
      && st == Ok
      && Valid(r)
      && ix.reverse[v] < Count(ix, k)
      && Items(r, k) == SwapRemove(Items(ix, k), ix.reverse[v])
      && (forall k' | k' != k :: Items(r, k') == Items(ix, k'))
      && r.reverse.Keys == ix.reverse.Keys - {v}
      && (forall k', w | w != v && Holds(ix, k', w) :: Holds(r, k', w))
  {
    var n := Count(ix, k);
    var i := ix.reverse[v];
    var last := n - 1;
    assert Slot(k, i) in ix.forward;
    assert i < n;
    assert Slot(k, last) in ix.forward;
    var x := ix.forward[Slot(k, last)];
    var (st, r) := Remove(ix, k, v);
    assert st == Ok;
    var ls := Slot(k, last);
    var hs := Slot(k, i);
    if i == last {
      assert r.forward == ix.forward - {ls};
      assert r.reverse == ix.reverse - {v};
      RemoveValidLast(ix, k, v, r);
    } else {
      assert x != v by {
        assert ls != hs;
      }
      assert r.forward == ix.forward[hs := x] - {ls};
      assert r.reverse == ix.reverse[x := i] - {v};
      RemoveValidMove(ix, k, v, x, r);
    }
  }

  /**
   `r` is `ix` with `v` taken out of `k`'s listing and nothing else: `v`
   loses its reverse entry and no other item does, `k`'s listing holds the
   old items less one copy of `v`, and every other listing is as it was.
   */
  ghost predicate RemovedOnly<K(!new), V(!new)>(ix: Index<K, V>, r: Index<K, V>, k: K, v: V)
  {
    && Valid(ix) && Valid(r)
    && r.reverse.Keys == ix.reverse.Keys - {v}
    && Count(r, k) + 1 == Count(ix, k)
    && multiset(Items(r, k)) == multiset(Items(ix, k)) - multiset{v}
    && (forall k' | k' != k :: Items(r, k') == Items(ix, k'))
  }

  /** Removing a listed item from its own key's listing succeeds and takes out that item alone. */
  lemma RemoveListedOnly<K(!new), V(!new)>(ix: Index<K, V>, k: K, v: V)
    requires Valid(ix) && Holds(ix, k, v)
    ensures Remove(ix, k, v).0 == Ok && RemovedOnly(ix, Remove(ix, k, v).1, k, v)
  {
    RemoveValid(ix, k, v);
    SwapRemoveMultiset(Items(ix, k), ix.reverse[v]);
  }

  lemma RemoveValidLast<K(!new), V(!new)>(ix: Index<K, V>, k: K, v: V, r: Index<K, V>)
    requires Valid(ix) && Holds(ix, k, v)
    requires ix.reverse[v] == Count(ix, k) - 1
    requires r.forward == ix.forward - {Slot(k, ix.reverse[v])}
    requires r.reverse == ix.reverse - {v}
    requires Count(r, k) + 1 == Count(ix, k)
    requires forall k' | k' != k :: Count(r, k') == Count(ix, k')
    ensures Valid(r)
    ensures Items(r, k) == SwapRemove(Items(ix, k), ix.reverse[v])
    ensures forall k' | k' != k :: Items(r, k') == Items(ix, k')
    ensures r.reverse.Keys == ix.reverse.Keys - {v}
    ensures forall k', w | w != v && Holds(ix, k', w) :: Holds(r, k', w)
  {
    var ls := Slot(k, ix.reverse[v]);
    forall s | s in r.forward
      ensures s.pos < Count(r, s.key)
    {
      assert s in ix.forward;
    }
    forall s | s in r.forward
      ensures r.forward[s] in r.reverse && r.reverse[r.forward[s]] == s.pos
    {
      assert s in ix.forward && s != ls;
    }
    assert Valid(r);
    assert Items(r, k) == SwapRemove(Items(ix, k), ix.reverse[v]);
    forall k' | k' != k
      ensures Items(r, k') == Items(ix, k')
    {
    }
    forall k', w | w != v && Holds(ix, k', w)
      ensures Holds(r, k', w)
    {
      assert Slot(k', ix.reverse[w]) != ls;
    }
  }

  lemma RemoveValidMove<K(!new), V(!new)>(ix: Index<K, V>, k: K, v: V, x: V, r: Index<K, V>)
    requires Valid(ix) && Holds(ix, k, v)
    requires ix.reverse[v] < Count(ix, k) - 1
    requires Slot(k, Count(ix, k) - 1) in ix.forward && x == ix.forward[Slot(k, Count(ix, k) - 1)]
    requires r.forward == ix.forward[Slot(k, ix.reverse[v]) := x] - {Slot(k, Count(ix, k) - 1)}
    requires r.reverse == ix.reverse[x := ix.reverse[v]] - {v}
    requires Count(r, k) + 1 == Count(ix, k)
    requires forall k' | k' != k :: Count(r, k') == Count(ix, k')
    ensures Valid(r)
    ensures Items(r, k) == SwapRemove(Items(ix, k), ix.reverse[v])
    ensures forall k' | k' != k :: Items(r, k') == Items(ix, k')
    ensures r.reverse.Keys == ix.reverse.Keys - {v}
    ensures forall k', w | w != v && Holds(ix, k', w) :: Holds(r, k', w)
  {
    var i := ix.reverse[v];
    var ls := Slot(k, Count(ix, k) - 1);
    var hs := Slot(k, i);
    assert x != v by {
      assert ls != hs;
    }
    assert x in ix.reverse && ix.reverse[x] == ls.pos;
    forall s | s in r.forward
      ensures s.pos < Count(r, s.key)
    {
      if s != hs {
        assert s in ix.forward;
      }
    }
    forall k', p: nat | p < Count(r, k')
      ensures Slot(k', p) in r.forward
    {
      assert Slot(k', p) in ix.forward;
    }
    forall s | s in r.forward
      ensures r.forward[s] in r.reverse && r.reverse[r.forward[s]] == s.pos
    {
      if s != hs {
        assert s in ix.forward && s != ls;
        assert ix.forward[s] != x && ix.forward[s] != v;
      }
    }
    forall s | s in r.forward && s != hs
      ensures s in ix.forward && r.forward[s] == ix.forward[s] && r.forward[s] != x
    {
      assert s != ls;
    }
    forall s1, s2 | s1 in r.forward && s2 in r.forward && r.forward[s1] == r.forward[s2]
      ensures s1 == s2
    {
      if s1 != hs && s2 != hs {
        assert s1 in ix.forward && s2 in ix.forward;
      }
    }
    assert Valid(r);
    assert Items(r, k) == SwapRemove(Items(ix, k), i);
    forall k' | k' != k
      ensures Items(r, k') == Items(ix, k')
    {
    }
    forall k', w | w != v && Holds(ix, k', w)
      ensures Holds(r, k', w)
    {
      if w == x {
        HoldsUnique(ix, k', k, x);
      } else {
        assert Slot(k', ix.reverse[w]) != ls && Slot(k', ix.reverse[w]) != hs;
      }
    }
  }

  /**
   Appending a fresh item and removing it again restores the forward and
   reverse maps and every count.
   */
  lemma AppendThenRemove<K(!new), V(!new)>(ix: Index<K, V>, k: K, v: V)
    requires Valid(ix) && v !in ix.reverse
    ensures var (st, r) := Remove(Append(ix, k, v), k, v);
      && st == Ok
      && r.forward == ix.forward
      && r.reverse == ix.reverse
      && (forall k' :: Count(r, k') == Count(ix, k'))
  {
    var a := Append(ix, k, v);
    var n := Count(ix, k);
    assert Slot(k, n) !in ix.forward;
    var (st, r) := Remove(a, k, v);
    assert a.reverse[v] == n;
    assert r.forward == a.forward - {Slot(k, n)};
    assert r.forward == ix.forward;
    assert r.reverse == ix.reverse;
  }

  /**
   Removing an item that has no reverse entry takes position 0 as its
   position: on a non-empty listing the call succeeds and evicts whatever is
   listed first, whose reverse entry survives.
   */
  lemma RemoveUnlistedEvictsFirst<K(!new), V(!new)>(ix: Index<K, V>, k: K, v: V)
    requires Valid(ix) && v !in ix.reverse && Count(ix, k) > 0
    ensures var (st, r) := Remove(ix, k, v);
      && st == Ok
      && Items(ix, k)[0] != v
      && Items(ix, k)[0] in r.reverse
      && Valid(r)
      && Items(r, k) == SwapRemove(Items(ix, k), 0)
      && Items(ix, k)[0] !in Items(r, k)
  {
    var n := Count(ix, k);
    var first := ix.forward[Slot(k, 0)];
    assert first in ix.reverse && ix.reverse[first] == 0;
    assert Holds(ix, k, first);
    RemoveValid(ix, k, first);
    var (st', r') := Remove(ix, k, first);
    var (st, r) := Remove(ix, k, v);
    if n > 1 {
      var x := ix.forward[Slot(k, n - 1)];
      assert x in ix.reverse;
      assert x != first by {
        assert Slot(k, n - 1) != Slot(k, 0);
      }
    }
    assert r.forward == r'.forward && r.count == r'.count;
    assert r.reverse == r'.reverse[first := 0];
    StaleReverseKeepsValid(r', first, 0);
    assert Items(r, k) == Items(r', k);
  }

  /** Removing a listed item from its own key succeeds and drops its reverse entry. */
  lemma RemoveListedSucceeds<K(!new), V(!new)>(ix: Index<K, V>, k: K, v: V)
    requires Valid(ix) && Holds(ix, k, v)
    ensures Remove(ix, k, v).0 == Ok && v !in Remove(ix, k, v).1.reverse
  {
    assert Slot(k, Count(ix, k) - 1) in ix.forward;
  }

  /**
   Removing a listed item under a key other than its own, from a non-empty
   listing, succeeds and drops the item's reverse entry while its own slot
   still names it, so the index is no longer valid.
   */
  lemma RemoveElsewhereStrands<K(!new), V(!new)>(ix: Index<K, V>, own: K, k: K, v: V)
    requires Valid(ix) && Holds(ix, own, v)
    requires k != own && Count(ix, k) > 0
    ensures Remove(ix, k, v).0 == Ok
    ensures Count(Remove(ix, k, v).1, k) + 1 == Count(ix, k)
    ensures !Valid(Remove(ix, k, v).1)
  {
    var p := ix.reverse[v];
    assert Slot(k, Count(ix, k) - 1) in ix.forward;
    var r := Remove(ix, k, v).1;
    assert r.forward[Slot(own, p)] == v;
    assert v !in r.reverse;
  }

  /**
   Removing a listed item under a key other than its own, from a non-empty
   listing, succeeds without touching the item's own slot; appending the
   item anywhere afterwards lists it twice, so the index is no longer valid.
   Its own key's count does not drop; the other key's count does.
   */
  lemma RemoveElsewhereListsTwice<K(!new), V(!new)>(ix: Index<K, V>, own: K, k: K, v: V, to: K)
    requires Valid(ix) && Holds(ix, own, v)
    requires k != own && Count(ix, k) > 0
    ensures Remove(ix, k, v).0 == Ok
    ensures var r := Append(Remove(ix, k, v).1, to, v);
      && Count(r, own) == Count(ix, own) + (if to == own then 1 else 0)
      && Count(r, k) + 1 == Count(ix, k) + (if to == k then 1 else 0)
      && !Valid(r)
  {
  }


  /** A reverse entry for an item that is not listed does not disturb validity. */
  lemma StaleReverseKeepsValid<K(!new), V(!new)>(ix: Index<K, V>, w: V, p: nat)
    requires Valid(ix) && w !in ix.reverse
    ensures Valid(ix.(reverse := ix.reverse[w := p]))
    ensures forall k :: Items(ix.(reverse := ix.reverse[w := p]), k) == Items(ix, k)
    ensures forall k :: w !in Items(ix, k)
  {
    var r := ix.(reverse := ix.reverse[w := p]);
    forall s | s in r.forward
      ensures r.forward[s] in r.reverse && r.reverse[r.forward[s]] == s.pos
    {
      assert ix.forward[s] in ix.reverse;
    }
    assert Valid(r);
  }

  // ---------------------------------------------------------------------
  // An index kept in step with a map that records each item's key

  /** The items `keyOf` maps to `k`. */
  ghost function KeyedTo<K(!new), V(!new)>(keyOf: map<V, K>, k: K): set<V>
  {
    set v | v in keyOf && keyOf[v] == k
  }

  /**
   `ix` lists exactly the items of `keyOf`, each under the key `keyOf`
   records for it (e.g. the owner listing and `token_owner`).
   */
  ghost predicate Coupled<K(!new), V(!new)>(ix: Index<K, V>, keyOf: map<V, K>)
  {
    && Valid(ix)
    && ix.reverse.Keys == keyOf.Keys
    && (forall v | v in keyOf :: Holds(ix, keyOf[v], v))
  }

  lemma {:induction false} DistinctCardinality<V>(s: seq<V>)
    requires Distinct(s)
    ensures |set x | x in s| == |s|
  {
    if |s| > 0 {
      var t := s[1..];
      assert Distinct(t);
      DistinctCardinality(t);
      assert s[0] !in t;
      assert (set x | x in s) == (set x | x in t) + {s[0]};
    }
  }

  /**
   Under coupling, the listing of `k` holds exactly the items mapped to `k`,
   each once, so the count of `k` is the number of those items.
   */
  lemma CoupledListing<K(!new), V(!new)>(ix: Index<K, V>, keyOf: map<V, K>, k: K)
    requires Coupled(ix, keyOf)
    ensures (set v | v in Items(ix, k)) == KeyedTo(keyOf, k)
    ensures Distinct(Items(ix, k))
    ensures Count(ix, k) == |KeyedTo(keyOf, k)|
  {
    var s := Items(ix, k);
    forall v | v in s
      ensures v in keyOf && keyOf[v] == k
    {
      var p :| 0 <= p < |s| && s[p] == v;
      assert Slot(k, p) in ix.forward;
      assert Holds(ix, k, v);
      HoldsUnique(ix, k, keyOf[v], v);
    }
    forall v | v in keyOf && keyOf[v] == k
      ensures v in s
    {
      HoldsIffListed(ix, k, v);
    }
    ItemsDistinct(ix, k);
    DistinctCardinality(s);
  }

  /**
   Reading a coupled index by position: a position answers exactly when it
   is below the key's count, and the item it answers is mapped to that key.
   */
  lemma CoupledItemAt<K(!new), V(!new)>(ix: Index<K, V>, keyOf: map<V, K>, k: K, p: nat)
    requires Coupled(ix, keyOf)
    ensures ItemAt(ix, k, p).Some? <==> p < Count(ix, k)
    ensures ItemAt(ix, k, p).Some? ==> ItemAt(ix, k, p).value in keyOf && keyOf[ItemAt(ix, k, p).value] == k
  {
    if p < Count(ix, k) {
      var v := ix.forward[Slot(k, p)];
      assert Holds(ix, k, v);
      HoldsUnique(ix, k, keyOf[v], v);
    }
  }

  /** In a coupled index an item is listed under a key exactly when the map assigns it that key. */
  lemma CoupledHolds<K(!new), V(!new)>(ix: Index<K, V>, keyOf: map<V, K>, k: K, v: V)
    requires Coupled(ix, keyOf)
    ensures Holds(ix, k, v) <==> v in keyOf && keyOf[v] == k
  {
    if Holds(ix, k, v) {
      HoldsUnique(ix, k, keyOf[v], v);
    }
  }

  /** Appending a fresh item under `k` keeps the coupling once `keyOf` maps it to `k`. */
  lemma CoupledAppend<K(!new), V(!new)>(ix: Index<K, V>, keyOf: map<V, K>, k: K, v: V)
    requires Coupled(ix, keyOf) && v !in keyOf
    ensures Coupled(Append(ix, k, v), keyOf[v := k])
  {
    AppendValid(ix, k, v);
  }

  /** Swap-removing an item from its key keeps the coupling once `keyOf` forgets it. */
  lemma CoupledRemove<K(!new), V(!new)>(ix: Index<K, V>, keyOf: map<V, K>, v: V)
    requires Coupled(ix, keyOf) && v in keyOf
    ensures Remove(ix, keyOf[v], v).0 == Ok
    ensures Coupled(Remove(ix, keyOf[v], v).1, keyOf - {v})
  {
    RemoveValid(ix, keyOf[v], v);
  }

  /**
   Moving an item from its key `from` to `to` (swap-remove, then append)
   keeps the coupling with `keyOf[v := to]`.
   */
  lemma CoupledMove<K(!new), V(!new)>(ix: Index<K, V>, keyOf: map<V, K>, v: V, from: K, to: K)
    requires Coupled(ix, keyOf) && v in keyOf && keyOf[v] == from
    ensures Remove(ix, from, v).0 == Ok
    ensures Coupled(Append(Remove(ix, from, v).1, to, v), keyOf[v := to])
  {
    CoupledRemove(ix, keyOf, v);
    var rem := Remove(ix, from, v).1;
    assert (keyOf - {v})[v := to] == keyOf[v := to];
    CoupledAppend(rem, keyOf - {v}, to, v);
  }

  /** A successful removal followed by an append puts the item last under `to` and moves one unit of count. */
  lemma MoveCounts<K(!new), V(!new)>(ix: Index<K, V>, from: K, v: V, to: K)
    requires Remove(ix, from, v).0 == Ok
    ensures var r := Append(Remove(ix, from, v).1, to, v);
      && Count(r, to) > 0
      && ItemAt(r, to, Count(r, to) - 1) == Some(v)
      && (forall k :: Count(r, k) == Count(ix, k) - (if k == from then 1 else 0) + (if k == to then 1 else 0))
  {
  }
}
