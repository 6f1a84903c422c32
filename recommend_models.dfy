/**
 * The functional recommender state of voice_browser/recommend_models.py: items
 * with a lexicographic priority, and a state whose `update` returns a new
 * state with one waiting entry set. The waiting dictionary keeps Python's
 * insertion order, so it is an association list with distinct keys.
 */
module RecommendModels {
  import opened Wrappers

  /**
   * `ItemWithIndex`. The item is a string, as in the recommender the tests
   * drive. Equality is the dataclass equality over all four fields.
   */
  datatype ItemWithIndex = ItemWithIndex(item: string, playIndex: int, groupIndex: int, recommendationIndex: int)
  {
    /** `priority`: the tuple (play, group, recommendation). */
    function Priority(): (int, int, int)
    {
      (playIndex, groupIndex, recommendationIndex)
    }

    /** `__hash__`: only the item takes part. */
    function Hash(): string
    {
      item
    }
  }

  /** Python's tuple `<` on two priorities: lexicographic. */
  predicate PriorityLess(a: ItemWithIndex, b: ItemWithIndex)
  {
    var (a0, a1, a2) := a.Priority();
    var (b0, b1, b2) := b.Priority();
    a0 < b0 || (a0 == b0 && (a1 < b1 || (a1 == b1 && a2 < b2)))
  }

  /** The priority order is a strict total order on priorities. */
  lemma PriorityLessOrder(a: ItemWithIndex, b: ItemWithIndex, c: ItemWithIndex)
    ensures !PriorityLess(a, a)
    ensures PriorityLess(a, b) && PriorityLess(b, c) ==> PriorityLess(a, c)
    ensures PriorityLess(a, b) || PriorityLess(b, a) || a.Priority() == b.Priority()
    ensures PriorityLess(a, b) ==> !PriorityLess(b, a)
  {
  }

  /**
   * Hashing is consistent with equality, but coarser: two entries for the
   * same item at different indices are different keys with the same hash.
   */
  lemma HashCoarserThanEquality(a: ItemWithIndex, b: ItemWithIndex)
    ensures a == b ==> a.Hash() == b.Hash()
    ensures var x := ItemWithIndex("t", 0, 0, 0);
      var y := ItemWithIndex("t", 1, 0, 0);
      x != y && x.Hash() == y.Hash()
  {
  }

  /** `WaitingState`. */
  datatype WaitingState = WaitingState(selected: bool)

  /** A dictionary from items to waiting states, in insertion order. */
  type WaitingList = seq<(ItemWithIndex, WaitingState)>

  predicate DistinctKeys(wl: WaitingList)
  {
    forall i, j :: 0 <= i < j < |wl| ==> wl[i].0 != wl[j].0
  }

  function KeysOf(wl: WaitingList): (ks: seq<ItemWithIndex>)
    ensures |ks| == |wl| && forall i :: 0 <= i < |wl| ==> ks[i] == wl[i].0
  {
    seq(|wl|, i requires 0 <= i < |wl| => wl[i].0)
  }

  /** `wl.get(k)`. */
  function Get(wl: WaitingList, k: ItemWithIndex): (r: Option<WaitingState>)
    ensures r.None? <==> k !in KeysOf(wl)
    ensures r.Some? ==> exists i :: 0 <= i < |wl| && wl[i] == (k, r.value)
  {
    if wl == [] then None
    else if wl[|wl| - 1].0 == k && Get(wl[..|wl| - 1], k).None? then Some(wl[|wl| - 1].1)
    else
      var r := Get(wl[..|wl| - 1], k);
      assert KeysOf(wl[..|wl| - 1]) == KeysOf(wl)[..|wl| - 1];
      r
  }

  /** `wl[k] = v`: an existing key keeps its place and takes the new value; a new key goes last. */
  function Set(wl: WaitingList, k: ItemWithIndex, v: WaitingState): (r: WaitingList)
  {
    if k in KeysOf(wl) then seq(|wl|, i requires 0 <= i < |wl| => if wl[i].0 == k then (k, v) else wl[i])
    else wl + [(k, v)]
  }

  /** The entry at index `i` is what Get finds for its key. */
  lemma GetAt(wl: WaitingList, i: nat)
    requires DistinctKeys(wl) && i < |wl|
    ensures Get(wl, wl[i].0) == Some(wl[i].1)
  {
    var r := Get(wl, wl[i].0);
    assert wl[i].0 in KeysOf(wl);
    var j :| 0 <= j < |wl| && wl[j] == (wl[i].0, r.value);
  }

  /**
   * Setting a key keeps the keys distinct, makes the key map to the new value,
   * leaves every other key's value as it was, and keeps the order of the keys
   * (appending a new key at the end).
   */
  lemma SetSpec(wl: WaitingList, k: ItemWithIndex, v: WaitingState, other: ItemWithIndex)
    requires DistinctKeys(wl)
    ensures DistinctKeys(Set(wl, k, v))
    ensures Get(Set(wl, k, v), k) == Some(v)
    ensures other != k ==> Get(Set(wl, k, v), other) == Get(wl, other)
    ensures KeysOf(Set(wl, k, v)) == if k in KeysOf(wl) then KeysOf(wl) else KeysOf(wl) + [k]
  {
    var r := Set(wl, k, v);
    assert KeysOf(r) == if k in KeysOf(wl) then KeysOf(wl) else KeysOf(wl) + [k];
    assert DistinctKeys(r);
    assert k in KeysOf(r);
    var i :| 0 <= i < |r| && r[i].0 == k;
    GetAt(r, i);
    if other in KeysOf(wl) {
      var j :| 0 <= j < |wl| && wl[j].0 == other;
      GetAt(wl, j);
      if other != k {
        assert r[j] == wl[j];
        GetAt(r, j);
      }
    } else if other != k {
      assert other !in KeysOf(r);
    }
  }

  /** `RecommendState`. */
  datatype RecommendState = RecommendState(currentItem: ItemWithIndex, history: seq<ItemWithIndex>,
                                           waitingList: WaitingList)

  /**
   * `update`: a new state with `item` set to `waitingState` in a copy of the
   * waiting list; the current item and the history are kept. The receiver is
   * a value, so it is not changed.
   */
  function Update(s: RecommendState, item: ItemWithIndex, waitingState: WaitingState): (r: RecommendState)
  {
    RecommendState(s.currentItem, s.history, Set(s.waitingList, item, waitingState))
  }

  /** What `update` promises: the one entry set, the others and the rest of the state kept. */
  lemma UpdateSpec(s: RecommendState, item: ItemWithIndex, waitingState: WaitingState, other: ItemWithIndex)
    requires DistinctKeys(s.waitingList)
    ensures var r := Update(s, item, waitingState);
      && r.currentItem == s.currentItem && r.history == s.history
      && DistinctKeys(r.waitingList)
      && Get(r.waitingList, item) == Some(waitingState)
      && (other != item ==> Get(r.waitingList, other) == Get(s.waitingList, other))
  {
    SetSpec(s.waitingList, item, waitingState, other);
  }
}
