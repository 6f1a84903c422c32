/**
 * The toy recommender of voice_browser/recommend_models_test.py and the loop
 * its test drives: pick the selected waiting item of least priority, or, with
 * none selected, open a new play index with two added waiting items.
 */
module RecommendToy {
  import opened Wrappers
  import opened Decimal
  import opened RecommendModels

  /** `initial_state`: item "0_0_0_<text>" at indices 0, no history, nothing waiting. */
  function InitialState(text: string): (s: RecommendState)
    ensures s.currentItem.item == "0_0_0_" + text && s.currentItem.Priority() == (0, 0, 0)
    ensures s.history == [] && s.waitingList == []
  {
    RecommendState(ItemWithIndex("0_0_0_" + text, 0, 0, 0), [], [])
  }

  /** The waiting items whose state is selected, in dictionary order. */
  function SelectedItems(wl: WaitingList): seq<ItemWithIndex>
  {
    if wl == [] then []
    else
      var init := SelectedItems(wl[..|wl| - 1]);
      var (k, w) := wl[|wl| - 1];
      if w.selected then init + [k] else init
  }

  /** An item is selected exactly when it has a selected entry. */
  lemma {:induction false} SelectedItemsSpec(wl: WaitingList, k: ItemWithIndex)
    ensures k in SelectedItems(wl) <==> exists i :: 0 <= i < |wl| && wl[i] == (k, WaitingState(true))
  {
    if wl != [] {
      var init := wl[..|wl| - 1];
      SelectedItemsSpec(init, k);
      assert forall i :: 0 <= i < |init| ==> init[i] == wl[i];
      if exists i :: 0 <= i < |wl| && wl[i] == (k, WaitingState(true)) {
        var i :| 0 <= i < |wl| && wl[i] == (k, WaitingState(true));
        if i < |init| {
          assert init[i] == (k, WaitingState(true));
        }
      }
    }
  }

  /**
   * The first item of the list after a stable sort by priority: the first of
   * those with the least priority.
   */
  function FirstMinIndex(items: seq<ItemWithIndex>): (i: nat)
    requires items != []
    ensures i < |items|
  {
    if |items| == 1 then 0
    else
      var m := FirstMinIndex(items[..|items| - 1]);
      if PriorityLess(items[|items| - 1], items[m]) then |items| - 1 else m
  }

  /** No item has a lower priority, and every earlier item has a higher one. */
  lemma {:induction false} FirstMinSpec(items: seq<ItemWithIndex>)
    requires items != []
    ensures var i := FirstMinIndex(items);
      && (forall j :: 0 <= j < |items| ==> !PriorityLess(items[j], items[i]))
      && (forall j :: 0 <= j < i ==> PriorityLess(items[i], items[j]))
  {
    if |items| > 1 {
      var init := items[..|items| - 1];
      var last := items[|items| - 1];
      FirstMinSpec(init);
      var m := FirstMinIndex(init);
      assert forall j :: 0 <= j < |init| ==> init[j] == items[j];
      if PriorityLess(last, items[m]) {
        forall j | 0 <= j < |items| ensures !PriorityLess(items[j], last) {
          PriorityLessOrder(items[j], last, items[m]);
        }
        forall j | 0 <= j < |items| - 1 ensures PriorityLess(last, items[j]) {
          PriorityLessOrder(last, items[m], items[j]);
        }
      } else {
        PriorityLessOrder(last, items[m], items[m]);
      }
    }
  }

  /** `max(items, key=priority)`: the first of those with the greatest priority. */
  function FirstMaxIndex(items: seq<ItemWithIndex>): (i: nat)
    requires items != []
    ensures i < |items|
  {
    if |items| == 1 then 0
    else
      var m := FirstMaxIndex(items[..|items| - 1]);
      if PriorityLess(items[m], items[|items| - 1]) then |items| - 1 else m
  }

  /** No item has a higher priority, and every earlier item has a lower one. */
  lemma {:induction false} FirstMaxSpec(items: seq<ItemWithIndex>)
    requires items != []
    ensures var i := FirstMaxIndex(items);
      && (forall j :: 0 <= j < |items| ==> !PriorityLess(items[i], items[j]))
      && (forall j :: 0 <= j < i ==> PriorityLess(items[j], items[i]))
  {
    if |items| > 1 {
      var init := items[..|items| - 1];
      var last := items[|items| - 1];
      FirstMaxSpec(init);
      var m := FirstMaxIndex(init);
      assert forall j :: 0 <= j < |init| ==> init[j] == items[j];
      if PriorityLess(items[m], last) {
        forall j | 0 <= j < |items| ensures !PriorityLess(last, items[j]) {
          PriorityLessOrder(items[m], last, items[j]);
        }
        forall j | 0 <= j < |items| - 1 ensures PriorityLess(items[j], last) {
          PriorityLessOrder(items[j], items[m], last);
        }
      } else {
        PriorityLessOrder(items[m], last, items[m]);
      }
    }
  }

  /** The dictionary comprehension that drops `k`: every other entry, in order. */
  function RemoveKey(wl: WaitingList, k: ItemWithIndex): WaitingList
  {
    if wl == [] then []
    else RemoveKey(wl[..|wl| - 1], k) + (if wl[|wl| - 1].0 == k then [] else [wl[|wl| - 1]])
  }

  /** With distinct keys, dropping the key at index `i` removes that one entry and nothing else. */
  lemma {:induction false} RemoveKeyAt(wl: WaitingList, i: nat)
    requires DistinctKeys(wl) && i < |wl|
    ensures RemoveKey(wl, wl[i].0) == wl[..i] + wl[i + 1..]
    decreases |wl|
  {
    var k := wl[i].0;
    var init := wl[..|wl| - 1];
    if i == |wl| - 1 {
      RemoveKeyAbsent(init, k);
      assert wl[i + 1..] == [];
    } else {
      RemoveKeyAt(init, i);
      assert init[..i] == wl[..i];
      assert init[i + 1..] + [wl[|wl| - 1]] == wl[i + 1..];
    }
  }

  lemma {:induction false} RemoveKeyAbsent(wl: WaitingList, k: ItemWithIndex)
    requires forall j :: 0 <= j < |wl| ==> wl[j].0 != k
    ensures RemoveKey(wl, k) == wl
    decreases |wl|
  {
    if wl != [] {
      RemoveKeyAbsent(wl[..|wl| - 1], k);
      assert wl[..|wl| - 1] + [wl[|wl| - 1]] == wl;
    }
  }

  /** A dictionary display: the pairs inserted left to right, a repeated key keeping its first place. */
  function FromPairs(pairs: WaitingList): WaitingList
  {
    if pairs == [] then []
    else
      var (k, v) := pairs[|pairs| - 1];
      Set(FromPairs(pairs[..|pairs| - 1]), k, v)
  }

  /** The value the last pair with key `k` gives. */
  function LastValue(pairs: WaitingList, k: ItemWithIndex): Option<WaitingState>
  {
    if pairs == [] then None
    else if pairs[|pairs| - 1].0 == k then Some(pairs[|pairs| - 1].1)
    else LastValue(pairs[..|pairs| - 1], k)
  }

  /** A display has distinct keys, each with the value of its last pair, and only ever appends keys. */
  lemma {:induction false} FromPairsSpec(pairs: WaitingList, k: ItemWithIndex)
    ensures DistinctKeys(FromPairs(pairs))
    ensures Get(FromPairs(pairs), k) == LastValue(pairs, k)
    decreases |pairs|
  {
    if pairs != [] {
      var (k2, v) := pairs[|pairs| - 1];
      FromPairsSpec(pairs[..|pairs| - 1], k);
      SetSpec(FromPairs(pairs[..|pairs| - 1]), k2, v, k);
    }
  }

  /** Inserting more pairs never moves the keys already there. */
  lemma {:induction false} FromPairsPrefix(x: WaitingList, y: WaitingList)
    ensures |KeysOf(FromPairs(x))| <= |KeysOf(FromPairs(x + y))|
    ensures KeysOf(FromPairs(x + y))[..|KeysOf(FromPairs(x))|] == KeysOf(FromPairs(x))
    decreases |y|
  {
    if y == [] {
      assert x + y == x;
    } else {
      var y0 := y[..|y| - 1];
      FromPairsPrefix(x, y0);
      assert (x + y)[..|x + y| - 1] == x + y0;
      var (k, v) := y[|y| - 1];
      assert FromPairs(x + y) == Set(FromPairs(x + y0), k, v);
      FromPairsSpec(x + y0, k);
      SetSpec(FromPairs(x + y0), k, v, k);
    }
  }

  /** Later pairs override earlier ones. */
  lemma {:induction false} LastValueAppend(x: WaitingList, y: WaitingList, k: ItemWithIndex)
    ensures LastValue(x + y, k) == if LastValue(y, k).Some? then LastValue(y, k) else LastValue(x, k)
    decreases |y|
  {
    if y == [] {
      assert x + y == x;
    } else {
      assert (x + y)[..|x + y| - 1] == x + y[..|y| - 1];
      LastValueAppend(x, y[..|y| - 1], k);
    }
  }

  /** In a dictionary with distinct keys the last pair with a key is its only pair. */
  lemma {:induction false} LastValueIsGet(wl: WaitingList, k: ItemWithIndex)
    requires DistinctKeys(wl)
    ensures LastValue(wl, k) == Get(wl, k)
    decreases |wl|
  {
    if wl != [] {
      var init := wl[..|wl| - 1];
      LastValueIsGet(init, k);
      if wl[|wl| - 1].0 == k {
        GetAt(wl, |wl| - 1);
      } else if Get(wl, k).Some? {
        var i :| 0 <= i < |wl| && wl[i] == (k, Get(wl, k).value);
        assert init[i] == wl[i];
        GetAt(init, i);
      } else {
        assert k !in KeysOf(init);
      }
    }
  }

  /** The three labels of play index `n`. */
  function CurrentLabel(n: int, text: string): string { PyStr(n) + "_0_0_" + text }
  function FirstWaitingLabel(n: int, text: string): string { PyStr(n) + "_1_0_" + text }
  function SecondWaitingLabel(n: int, text: string): string { PyStr(n) + "_1_1_" + text }

  /** The two entries a new play index adds: recommendation 0 selected, recommendation 1 not. */
  function NewEntries(n: int, text: string): WaitingList
  {
    [(ItemWithIndex(FirstWaitingLabel(n, text), n, 1, 0), WaitingState(true)),
     (ItemWithIndex(SecondWaitingLabel(n, text), n, 1, 1), WaitingState(false))]
  }

  /** `next_state`. */
  function NextState(text: string, s: RecommendState): RecommendState
  {
    var selected := SelectedItems(s.waitingList);
    if selected != [] then
      var next := selected[FirstMinIndex(selected)];
      RecommendState(next, s.history + [s.currentItem], RemoveKey(s.waitingList, next))
    else
      var n := s.currentItem.playIndex + 1;
      RecommendState(ItemWithIndex(CurrentLabel(n, text), n, 0, 0), s.history + [s.currentItem],
                     FromPairs(NewEntries(n, text) + s.waitingList))
  }

  /**
   * With a selected item waiting, the next item is a selected one of least
   * priority, ahead of every selected item of the same priority; only its
   * entry leaves the waiting list, and the old current item joins the history.
   */
  lemma NextStateSelected(text: string, s: RecommendState)
    requires DistinctKeys(s.waitingList) && SelectedItems(s.waitingList) != []
    ensures var r := NextState(text, s);
      var selected := SelectedItems(s.waitingList);
      && r.history == s.history + [s.currentItem]
      && r.currentItem in selected
      && (forall k :: k in selected ==> !PriorityLess(k, r.currentItem))
      && (exists i :: 0 <= i < |s.waitingList| && s.waitingList[i] == (r.currentItem, WaitingState(true))
                      && r.waitingList == s.waitingList[..i] + s.waitingList[i + 1..]
                      && forall j :: 0 <= j < i && s.waitingList[j].1.selected ==>
                           PriorityLess(r.currentItem, s.waitingList[j].0))
  {
    var wl := s.waitingList;
    var selected := SelectedItems(wl);
    var m := FirstMinIndex(selected);
    var next := selected[m];
    FirstMinSpec(selected);
    SelectedAt(wl, m);
    var i :| 0 <= i < |wl| && wl[i] == (next, WaitingState(true)) && |SelectedItems(wl[..i])| == m;
    SelectedPrefix(wl, i);
    forall j | 0 <= j < i && wl[j].1.selected ensures PriorityLess(next, wl[j].0) {
      assert wl[..i][j] == wl[j] == (wl[j].0, WaitingState(true));
      SelectedItemsSpec(wl[..i], wl[j].0);
      var q :| 0 <= q < m && selected[q] == wl[j].0;
    }
    RemoveKeyAt(wl, i);
  }

  /** The selected items of a prefix of the waiting list are a prefix of its selected items. */
  lemma {:induction false} SelectedPrefix(wl: WaitingList, i: nat)
    requires i <= |wl|
    ensures var p := SelectedItems(wl[..i]);
      |p| <= |SelectedItems(wl)| && p == SelectedItems(wl)[..|p|]
  {
    if i < |wl| {
      var init := wl[..|wl| - 1];
      assert wl[..i] == init[..i];
      SelectedPrefix(init, i);
    } else {
      assert wl[..i] == wl;
    }
  }

  /** The m-th selected item sits at a position of the list with m selected entries before it. */
  lemma {:induction false} SelectedAt(wl: WaitingList, m: nat)
    requires m < |SelectedItems(wl)|
    ensures exists i :: 0 <= i < |wl| && wl[i] == (SelectedItems(wl)[m], WaitingState(true))
                        && |SelectedItems(wl[..i])| == m
  {
    var init := wl[..|wl| - 1];
    if m < |SelectedItems(init)| {
      SelectedAt(init, m);
      var i :| 0 <= i < |init| && init[i] == (SelectedItems(init)[m], WaitingState(true))
               && |SelectedItems(init[..i])| == m;
      assert wl[..i] == init[..i] && wl[i] == init[i];
    } else {
      assert wl[..|wl| - 1] == init;
    }
  }

  /** A display of two pairs with different keys is those two entries. */
  lemma FromPairsTwo(added: WaitingList)
    requires |added| == 2 && added[0].0 != added[1].0
    ensures FromPairs(added) == added
  {
    assert added[..1] == [added[0]];
    assert added[..1][..0] == [];
    assert FromPairs(added[..1]) == [added[0]];
  }

  /**
   * `{a: x, b: y, **old}`: the keys a and b come first, every key of `prior`
   * keeps its value from `prior`, and a or b takes its given value only when
   * `prior` lacks it.
   */
  lemma MergeSpec(added: WaitingList, prior: WaitingList, k: ItemWithIndex)
    requires |added| == 2 && added[0].0 != added[1].0 && DistinctKeys(prior)
    ensures DistinctKeys(FromPairs(added + prior))
    ensures |FromPairs(added + prior)| >= 2 && KeysOf(FromPairs(added + prior))[..2] == [added[0].0, added[1].0]
    ensures Get(FromPairs(added + prior), k) == if k in KeysOf(prior) then Get(prior, k) else LastValue(added, k)
  {
    FromPairsSpec(added + prior, k);
    LastValueAppend(added, prior, k);
    LastValueIsGet(prior, k);
    FromPairsPrefix(added, prior);
    FromPairsTwo(added);
  }

  /**
   * With nothing selected, the next item opens play index n = old + 1 as
   * "<n>_0_0_<text>"; the two new entries come first in the waiting list,
   * but an entry already waiting under the same key keeps its state, and every
   * other waiting entry keeps its state.
   */
  lemma NextStateUnselected(text: string, s: RecommendState, k: ItemWithIndex)
    requires DistinctKeys(s.waitingList) && SelectedItems(s.waitingList) == []
    ensures var r := NextState(text, s);
      var n := s.currentItem.playIndex + 1;
      var added := NewEntries(n, text);
      && r.currentItem == ItemWithIndex(CurrentLabel(n, text), n, 0, 0)
      && r.history == s.history + [s.currentItem]
      && DistinctKeys(r.waitingList)
      && |r.waitingList| >= 2 && KeysOf(r.waitingList)[..2] == [added[0].0, added[1].0]
      && Get(r.waitingList, k) == (if k in KeysOf(s.waitingList) then Get(s.waitingList, k) else LastValue(added, k))
  {
    var n := s.currentItem.playIndex + 1;
    var added := NewEntries(n, text);
    MergeSpec(added, s.waitingList, k);
  }

  /** Dropping one entry keeps the keys distinct. */
  lemma RemoveAtDistinct(wl: WaitingList, i: nat)
    requires DistinctKeys(wl) && i < |wl|
    ensures DistinctKeys(wl[..i] + wl[i + 1..])
  {
    var r := wl[..i] + wl[i + 1..];
    forall a, b | 0 <= a < b < |r| ensures r[a].0 != r[b].0 {
      var a' := if a < i then a else a + 1;
      var b' := if b < i then b else b + 1;
      assert r[a] == wl[a'] && r[b] == wl[b'];
    }
  }

  /** Every step keeps the waiting keys distinct and adds the old current item to the history. */
  lemma NextStateDistinct(text: string, s: RecommendState)
    requires DistinctKeys(s.waitingList)
    ensures DistinctKeys(NextState(text, s).waitingList)
    ensures NextState(text, s).history == s.history + [s.currentItem]
  {
    if SelectedItems(s.waitingList) != [] {
      var selected := SelectedItems(s.waitingList);
      var next := selected[FirstMinIndex(selected)];
      SelectedItemsSpec(s.waitingList, next);
      var i :| 0 <= i < |s.waitingList| && s.waitingList[i] == (next, WaitingState(true));
      RemoveKeyAt(s.waitingList, i);
      RemoveAtDistinct(s.waitingList, i);
    } else {
      FromPairsSpec(NewEntries(s.currentItem.playIndex + 1, text) + s.waitingList, s.currentItem);
    }
  }

  // ---------------------------------------------------------------------------
  // test_foo

  /** After step `i`: on every fourth step, mark the waiting item of greatest priority as selected. */
  function MarkStep(i: nat, s: RecommendState): RecommendState
  {
    if i % 4 == 0 && s.waitingList != [] then
      var keys := KeysOf(s.waitingList);
      Update(s, keys[FirstMaxIndex(keys)], WaitingState(true))
    else s
  }

  /** Marking keeps the current item, the history, the keys in their order, and distinct keys. */
  lemma MarkStepKeeps(i: nat, s: RecommendState)
    requires DistinctKeys(s.waitingList)
    ensures var r := MarkStep(i, s);
      && r.currentItem == s.currentItem && r.history == s.history
      && DistinctKeys(r.waitingList)
      && KeysOf(r.waitingList) == KeysOf(s.waitingList)
  {
    if i % 4 == 0 && s.waitingList != [] {
      var keys := KeysOf(s.waitingList);
      var m := FirstMaxIndex(keys);
      SetSpec(s.waitingList, keys[m], WaitingState(true), keys[m]);
    }
  }

  /**
   * When marking acts, the first waiting item of greatest priority becomes
   * selected and no other entry changes; otherwise the state is unchanged.
   */
  lemma MarkStepSelects(i: nat, s: RecommendState, other: ItemWithIndex)
    requires DistinctKeys(s.waitingList)
    ensures var r := MarkStep(i, s);
      var keys := KeysOf(s.waitingList);
      && (i % 4 == 0 && keys != [] ==>
            exists m :: 0 <= m < |keys| && Get(r.waitingList, keys[m]) == Some(WaitingState(true))
              && (forall j :: 0 <= j < |keys| ==> !PriorityLess(keys[m], keys[j]))
              && (forall j :: 0 <= j < m ==> PriorityLess(keys[j], keys[m]))
              && (other != keys[m] ==> Get(r.waitingList, other) == Get(s.waitingList, other)))
      && (i % 4 != 0 || keys == [] ==> r == s)
  {
    if i % 4 == 0 && s.waitingList != [] {
      var keys := KeysOf(s.waitingList);
      var m := FirstMaxIndex(keys);
      FirstMaxSpec(keys);
      UpdateSpec(s, keys[m], WaitingState(true), other);
    }
  }

  /** Every step adds the old current item to the history. */
  lemma NextStateHistory(text: string, s: RecommendState)
    ensures NextState(text, s).history == s.history + [s.currentItem]
  {
  }

  /** Marking leaves the history alone. */
  lemma MarkStepHistory(i: nat, s: RecommendState)
    ensures MarkStep(i, s).history == s.history
  {
  }

  /**
   * The state after the first `n` steps of the test's loop: the history holds
   * one item per step, and the waiting keys stay distinct.
   */
  function Drive(text: string, n: nat): (r: RecommendState)
    ensures |r.history| == n && DistinctKeys(r.waitingList)
  {
    if n == 0 then InitialState(text)
    else
      var prev := Drive(text, n - 1);
      var next := NextState(text, prev);
      NextStateHistory(text, prev);
      NextStateDistinct(text, prev);
      MarkStepHistory(n - 1, next);
      MarkStepKeeps(n - 1, next);
      MarkStep(n - 1, next)
  }

  /** The labels of play index 1, spelled out. */
  lemma LabelsOfOne(text: string)
    ensures CurrentLabel(1, text) == "1_0_0_" + text
    ensures FirstWaitingLabel(1, text) == "1_1_0_" + text
    ensures SecondWaitingLabel(1, text) == "1_1_1_" + text
    ensures CurrentLabel(2, text) == "2_0_0_" + text
  {
    assert PyStr(1) == "1" && PyStr(2) == "2";
    assert "1" + "_0_0_" == "1_0_0_" && "1" + "_1_0_" == "1_1_0_";
    assert "1" + "_1_1_" == "1_1_1_" && "2" + "_0_0_" == "2_0_0_";
  }

  /** With nothing waiting, a step opens the next play index with its two new entries. */
  lemma OpenWhenEmpty(text: string, s: RecommendState)
    requires s.waitingList == []
    ensures var n := s.currentItem.playIndex + 1;
      NextState(text, s) == RecommendState(ItemWithIndex(CurrentLabel(n, text), n, 0, 0),
                                           s.history + [s.currentItem], NewEntries(n, text))
  {
    var n := s.currentItem.playIndex + 1;
    assert NewEntries(n, text) + s.waitingList == NewEntries(n, text);
    FromPairsTwo(NewEntries(n, text));
  }

  /** Marking two waiting entries in priority order selects the second. */
  lemma MarkSecondOfTwo(i: nat, s: RecommendState, a: ItemWithIndex, b: ItemWithIndex, va: WaitingState, vb: WaitingState)
    requires i % 4 == 0 && s.waitingList == [(a, va), (b, vb)] && PriorityLess(a, b)
    ensures MarkStep(i, s) == s.(waitingList := [(a, va), (b, WaitingState(true))])
  {
    assert KeysOf(s.waitingList) == [a, b];
    assert FirstMaxIndex([a, b]) == 1;
    assert a != b;
    assert Set(s.waitingList, b, WaitingState(true)) == [(a, va), (b, WaitingState(true))];
  }

  /** Of two selected entries in priority order, the first is played. */
  lemma PlayFirstOfTwo(text: string, s: RecommendState, a: ItemWithIndex, b: ItemWithIndex)
    requires s.waitingList == [(a, WaitingState(true)), (b, WaitingState(true))] && PriorityLess(a, b)
    ensures NextState(text, s) == RecommendState(a, s.history + [s.currentItem], [(b, WaitingState(true))])
  {
    var wl := s.waitingList;
    assert wl[..1] == [(a, WaitingState(true))] && wl[..1][..0] == [];
    assert SelectedItems(wl[..1]) == [a];
    assert SelectedItems(wl) == [a, b];
    assert FirstMinIndex([a, b]) == 0;
    assert a != b;
    assert RemoveKey(wl[..1], a) == [];
  }

  /** A single selected entry is played, and nothing is left waiting. */
  lemma PlayOnly(text: string, s: RecommendState, b: ItemWithIndex)
    requires s.waitingList == [(b, WaitingState(true))]
    ensures NextState(text, s) == RecommendState(b, s.history + [s.currentItem], [])
  {
    var wl := s.waitingList;
    assert wl[..0] == [];
    assert SelectedItems(wl) == [b];
    assert RemoveKey(wl, b) == RemoveKey(wl[..0], b) + [];
  }

  /** The items of play index 1. */
  function Opened(text: string): ItemWithIndex { ItemWithIndex(CurrentLabel(1, text), 1, 0, 0) }
  function FirstWaiting(text: string): ItemWithIndex { ItemWithIndex(FirstWaitingLabel(1, text), 1, 1, 0) }
  function SecondWaiting(text: string): ItemWithIndex { ItemWithIndex(SecondWaitingLabel(1, text), 1, 1, 1) }

  /** The first step opens play index 1, and the mark selects its second entry too. */
  lemma DriveStep1(text: string)
    ensures Drive(text, 1).currentItem == Opened(text)
    ensures Drive(text, 1).waitingList == [(FirstWaiting(text), WaitingState(true)), (SecondWaiting(text), WaitingState(true))]
  {
    var s0 := Drive(text, 0);
    OpenWhenEmpty(text, s0);
    var n1 := NextState(text, s0);
    assert n1.waitingList == [(FirstWaiting(text), WaitingState(true)), (SecondWaiting(text), WaitingState(false))];
    MarkSecondOfTwo(0, n1, FirstWaiting(text), SecondWaiting(text), WaitingState(true), WaitingState(false));
  }

  /** The second step plays the selected entry of least priority. */
  lemma DriveStep2(text: string)
    ensures Drive(text, 2).currentItem == FirstWaiting(text)
    ensures Drive(text, 2).waitingList == [(SecondWaiting(text), WaitingState(true))]
  {
    DriveStep1(text);
    PlayFirstOfTwo(text, Drive(text, 1), FirstWaiting(text), SecondWaiting(text));
  }

  /** The third step plays the last waiting entry and empties the list. */
  lemma DriveStep3(text: string)
    ensures Drive(text, 3).currentItem == SecondWaiting(text) && Drive(text, 3).waitingList == []
  {
    DriveStep2(text);
    PlayOnly(text, Drive(text, 2), SecondWaiting(text));
  }

  /** With nothing waiting, the fourth step opens play index 2. */
  lemma DriveStep4(text: string)
    ensures Drive(text, 4).currentItem == ItemWithIndex(CurrentLabel(2, text), 2, 0, 0)
  {
    DriveStep3(text);
    OpenWhenEmpty(text, Drive(text, 3));
  }

  /** The first items the test prints: 1_0_0, 1_1_0, 1_1_1, 2_0_0. */
  lemma DriveOpening(text: string)
    ensures Drive(text, 1).currentItem.item == "1_0_0_" + text
    ensures Drive(text, 2).currentItem.item == "1_1_0_" + text
    ensures Drive(text, 3).currentItem.item == "1_1_1_" + text
    ensures Drive(text, 4).currentItem.item == "2_0_0_" + text
  {
    LabelsOfOne(text);
    DriveStep1(text);
    DriveStep2(text);
    DriveStep3(text);
    DriveStep4(text);
  }

  /** What the test prints in its first `n` steps: the current item after each. */
  function Transcript(text: string, n: nat): (r: seq<string>)
    ensures |r| == n
  {
    if n == 0 then [] else Transcript(text, n - 1) + [Drive(text, n).currentItem.item]
  }

  /** Line `j` of the transcript is the item current after step j + 1. */
  lemma {:induction false} TranscriptAt(text: string, n: nat, j: nat)
    requires j < n
    ensures Transcript(text, n)[j] == Drive(text, j + 1).currentItem.item
  {
    var prefix := Transcript(text, n - 1);
    assert Transcript(text, n) == prefix + [Drive(text, n).currentItem.item];
    if j < n - 1 {
      TranscriptAt(text, n - 1, j);
      assert Transcript(text, n)[j] == prefix[j];
    }
  }

  /**
   * `test_foo`: twenty steps from the initial state of `text` (the test uses
   * "text"), marking an item on every fourth; `printed` is what the loop
   * prints, one current item per step.
   */
  method TestFoo(text: string) returns (state: RecommendState, printed: seq<string>)
    ensures state == Drive(text, 20) && |state.history| == 20 && DistinctKeys(state.waitingList)
    ensures printed == Transcript(text, 20)
  {
    state := InitialState(text);
    printed := [];
    for i := 0 to 20
      invariant state == Drive(text, i)
      invariant printed == Transcript(text, i)
    {
      ghost var before := state;
      state := NextState(text, state);
      if i % 4 == 0 && state.waitingList != [] {
        var keys := KeysOf(state.waitingList);
        var editItem := keys[FirstMaxIndex(keys)];
        state := Update(state, editItem, WaitingState(true));
      }
      assert state == MarkStep(i, NextState(text, before));
      printed := printed + [state.currentItem.item];
    }
  }
}
