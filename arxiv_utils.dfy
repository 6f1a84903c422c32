/**
 * The pure parts of utils/arxiv_utils.py: arXiv ids from URLs and entry ids,
 * the key-indexed store, the update-time stop condition and the loop that
 * stops at it, and the result-count checks of a lookup by URL. The arXiv
 * client is an oracle.
 */
module ArxivUtils {
  import opened Wrappers

  // ---------------------------------------------------------------------------
  // str.split with a one-character separator

  /** `s.split(d)`: the maximal runs between occurrences of `d`, empty runs included. */
  function SplitOn(s: string, d: char): (r: seq<string>)
    ensures |r| >= 1
    ensures forall k :: 0 <= k < |r| ==> d !in r[k]
  {
    if s == [] then [""]
    else
      var init := SplitOn(s[..|s| - 1], d);
      var c := s[|s| - 1];
      if c == d then init + [""]
      else init[..|init| - 1] + [init[|init| - 1] + [c]]
  }

  /** `d.join(segs)`. */
  function JoinOn(segs: seq<string>, d: char): string
    requires |segs| >= 1
  {
    if |segs| == 1 then segs[0] else JoinOn(segs[..|segs| - 1], d) + [d] + segs[|segs| - 1]
  }

  /** Splitting loses nothing: joining the segments gives the string back. */
  lemma {:induction false} SplitJoin(s: string, d: char)
    ensures JoinOn(SplitOn(s, d), d) == s
  {
    if s != [] {
      var u := s[..|s| - 1];
      var init := SplitOn(u, d);
      var c := s[|s| - 1];
      assert s == u + [c];
      SplitJoin(u, d);
      if c == d {
        var r := init + [""];
        assert r[..|init|] == init;
        assert JoinOn(r, d) == JoinOn(init, d) + [d] + "";
      } else {
        JoinExtendLast(init, d, c);
      }
    }
  }

  /** Lengthening the last segment lengthens the joined string. */
  lemma JoinExtendLast(segs: seq<string>, d: char, c: char)
    requires |segs| >= 1
    ensures JoinOn(segs[..|segs| - 1] + [segs[|segs| - 1] + [c]], d) == JoinOn(segs, d) + [c]
  {
    var r := segs[..|segs| - 1] + [segs[|segs| - 1] + [c]];
    if |segs| > 1 {
      assert r[..|r| - 1] == segs[..|segs| - 1];
      assert JoinOn(r, d) == JoinOn(segs[..|segs| - 1], d) + [d] + (segs[|segs| - 1] + [c]);
    }
  }

  /** The segments with `b` appended to the last one. */
  function ExtendLast(r: seq<string>, b: string): (e: seq<string>)
    requires |r| >= 1
    ensures |e| == |r|
  {
    r[..|r| - 1] + [r[|r| - 1] + b]
  }

  lemma ExtendLastTwice(r: seq<string>, b: string, c: char)
    requires |r| >= 1
    ensures ExtendLast(ExtendLast(r, b), [c]) == ExtendLast(r, b + [c])
  {
    var e := ExtendLast(r, b);
    assert e[..|e| - 1] == r[..|r| - 1];
    assert e[|e| - 1] + [c] == r[|r| - 1] + (b + [c]);
  }

  /** One more character that is not the separator lengthens the last segment. */
  lemma SplitAppendChar(s: string, c: char, d: char)
    requires c != d
    ensures SplitOn(s + [c], d) == ExtendLast(SplitOn(s, d), [c])
  {
    assert (s + [c])[..|s + [c]| - 1] == s;
  }

  /** Characters without the separator only lengthen the last segment. */
  lemma {:induction false} SplitExtendLast(s: string, b: string, d: char)
    requires d !in b
    ensures SplitOn(s + b, d) == ExtendLast(SplitOn(s, d), b)
    decreases |b|
  {
    var r := SplitOn(s, d);
    if b == [] {
      assert s + b == s;
      assert r[|r| - 1] + b == r[|r| - 1];
      assert r[..|r| - 1] + [r[|r| - 1]] == r;
    } else {
      var b0 := b[..|b| - 1];
      var c := b[|b| - 1];
      assert c in b;
      assert b == b0 + [c];
      SplitExtendLast(s, b0, d);
      assert s + b == (s + b0) + [c];
      SplitAppendChar(s + b0, c, d);
      ExtendLastTwice(r, b0, c);
    }
  }

  // ---------------------------------------------------------------------------
  // to_arxiv_id and short_id

  /** The segments that are not empty, in order. */
  function NonEmpty(segs: seq<string>): (r: seq<string>)
    ensures forall k :: 0 <= k < |r| ==> r[k] != "" && r[k] in segs
  {
    if segs == [] then []
    else
      var init := NonEmpty(segs[..|segs| - 1]);
      var last := segs[|segs| - 1];
      if last == "" then init else init + [last]
  }

  function EndsWith(s: string, suffix: string): bool
  {
    |s| >= |suffix| && s[|s| - |suffix|..] == suffix
  }

  datatype ArxivError =
    | IndexError          // no non-empty segment to take the last of
    | NotFound(id: string)
    | NotUnique(id: string)

  /** `to_arxiv_id`: the last non-empty `/`-segment, without one trailing ".pdf". */
  function ToArxivId(url: string): (r: Result<string, ArxivError>)
    ensures r.Ok? ==> '/' !in r.value
  {
    var ids := NonEmpty(SplitOn(url, '/'));
    if ids == [] then Err(IndexError)
    else
      var id := ids[|ids| - 1];
      if EndsWith(id, ".pdf") then Ok(id[..|id| - 4]) else Ok(id)
  }

  /** A URL has no id exactly when it is made of slashes only (the empty URL included). */
  lemma {:induction false} NoIdIffOnlySlashes(url: string)
    ensures NonEmpty(SplitOn(url, '/')) == [] <==> forall i :: 0 <= i < |url| ==> url[i] == '/'
  {
    if url != [] {
      var init := url[..|url| - 1];
      var c := url[|url| - 1];
      NoIdIffOnlySlashes(init);
      var segs := SplitOn(init, '/');
      if c == '/' {
        assert SplitOn(url, '/')[..|segs|] == segs;
        assert (forall i :: 0 <= i < |url| ==> url[i] == '/') <==> (forall i :: 0 <= i < |init| ==> init[i] == '/') by {
          if forall i :: 0 <= i < |init| ==> init[i] == '/' {
            forall i | 0 <= i < |url| ensures url[i] == '/' { if i < |init| { assert url[i] == init[i]; } }
          }
        }
      } else {
        var r := SplitOn(url, '/');
        assert r[|r| - 1] != "";
        assert NonEmpty(r) != [];
      }
    }
  }

  /** `to_arxiv_id` raises exactly on URLs made of slashes only. */
  lemma ToArxivIdFails(url: string)
    ensures ToArxivId(url).Err? <==> forall i :: 0 <= i < |url| ==> url[i] == '/'
  {
    NoIdIffOnlySlashes(url);
  }

  /** Trailing slashes do not change the id. */
  lemma TrailingSlashIgnored(url: string)
    ensures ToArxivId(url + "/") == ToArxivId(url)
  {
    var s := url + "/";
    assert s[..|s| - 1] == url;
    var segs := SplitOn(url, '/');
    assert SplitOn(s, '/') == segs + [""];
    assert (segs + [""])[..|segs|] == segs;
  }

  /**
   * The id is the last segment after the last slash, when that segment is not
   * empty, with exactly one ".pdf" removed: a segment "x.pdf.pdf" gives "x.pdf".
   */
  lemma IdIsLastSegment(prefix: string, segment: string)
    requires segment != "" && '/' !in segment
    ensures ToArxivId(prefix + "/" + segment) ==
      Ok(if EndsWith(segment, ".pdf") then segment[..|segment| - 4] else segment)
  {
    var s := prefix + "/";
    assert s[..|s| - 1] == prefix;
    var segs := SplitOn(prefix, '/');
    assert SplitOn(s, '/') == segs + [""];
    SplitExtendLast(s, segment, '/');
    var all := SplitOn(s + segment, '/');
    var r := segs + [""];
    assert r[..|r| - 1] == segs && r[|r| - 1] + segment == segment;
    assert all == segs + [segment];
    assert all[..|all| - 1] == segs;
    assert prefix + "/" + segment == s + segment;
  }

  /** A summary as the lookups here see it: its entry id and its last update time (seconds). */
  datatype ArxivSummary = ArxivSummary(entryId: string, updated: int)

  /** `short_id`: what follows the last slash of the entry id, or the whole id without a slash. */
  function ShortId(s: ArxivSummary): (r: string)
    ensures '/' !in r
  {
    var segs := SplitOn(s.entryId, '/');
    segs[|segs| - 1]
  }

  lemma ShortIdCases(prefix: string, tail: string, updated: int)
    requires '/' !in tail
    ensures ShortId(ArxivSummary(prefix + "/" + tail, updated)) == tail
    ensures ShortId(ArxivSummary(tail, updated)) == tail
  {
    var s := prefix + "/";
    assert s[..|s| - 1] == prefix;
    SplitExtendLast(s, tail, '/');
    assert prefix + "/" + tail == s + tail;
    SplitExtendLast("", tail, '/');
    assert "" + tail == tail;
  }

  // ---------------------------------------------------------------------------
  // DictDB

  /** The dictionary after writing each item under its key, in order. */
  function Overlay<T>(m: map<string, T>, items: seq<T>, keyFn: T -> string): map<string, T>
  {
    if items == [] then m
    else
      var last := items[|items| - 1];
      Overlay(m, items[..|items| - 1], keyFn)[keyFn(last) := last]
  }

  /** Each key written holds the last item written under it. */
  lemma {:induction false} OverlayLastWins<T>(m: map<string, T>, items: seq<T>, keyFn: T -> string, i: nat)
    requires i < |items|
    requires forall j :: i < j < |items| ==> keyFn(items[j]) != keyFn(items[i])
    ensures keyFn(items[i]) in Overlay(m, items, keyFn)
    ensures Overlay(m, items, keyFn)[keyFn(items[i])] == items[i]
  {
    if i < |items| - 1 {
      OverlayLastWins(m, items[..|items| - 1], keyFn, i);
    }
  }

  /** A key no item is written under keeps what it had, and stays absent if it was. */
  lemma {:induction false} OverlayUntouched<T>(m: map<string, T>, items: seq<T>, keyFn: T -> string, k: string)
    requires forall j :: 0 <= j < |items| ==> keyFn(items[j]) != k
    ensures k in Overlay(m, items, keyFn) <==> k in m
    ensures k in m ==> Overlay(m, items, keyFn)[k] == m[k]
  {
    if items != [] {
      OverlayUntouched(m, items[..|items| - 1], keyFn, k);
    }
  }

  /** `DictDB`: a dictionary of items by key. */
  class DictDB<T> {
    var keyToItem: map<string, T>
    const keyFn: T -> string

    constructor(keyFn: T -> string)
      ensures this.keyFn == keyFn && keyToItem == map[]
    {
      this.keyFn := keyFn;
      keyToItem := map[];
    }

    /** `update`: each item in turn is stored under its key. */
    method Update(items: seq<T>)
      modifies this
      ensures keyToItem == Overlay(old(keyToItem), items, keyFn)
    {
      ghost var start := keyToItem;
      for i := 0 to |items|
        invariant keyToItem == Overlay(start, items[..i], keyFn)
      {
        assert items[..i + 1][..i] == items[..i];
        keyToItem := keyToItem[keyFn(items[i]) := items[i]];
      }
      assert items[..|items|] == items;
    }
  }

  // ---------------------------------------------------------------------------
  // The stop condition and the loop that honours it

  /** `UpdateTimeStopCondition.__call__`: stop at the first summary updated no later than `limit`. */
  predicate StopAt(limit: int, s: ArxivSummary)
  {
    s.updated <= limit
  }

  /** What `iter_per_category` yields: the results before the first one the condition stops at. */
  function Yielded(results: seq<ArxivSummary>, stop: Option<ArxivSummary -> bool>): (r: seq<ArxivSummary>)
    ensures |r| <= |results| && r == results[..|r|]
    ensures stop.Some? ==> forall k :: 0 <= k < |r| ==> !stop.value(r[k])
    ensures |r| < |results| ==> stop.Some? && stop.value(results[|r|])
    decreases |results|
  {
    if results == [] then []
    else if stop.Some? && stop.value(results[0]) then []
    else [results[0]] + Yielded(results[1..], stop)
  }

  /** The prefix of length `i` is what is yielded when none of it stops and the loop ends at `i`. */
  lemma YieldedAt(results: seq<ArxivSummary>, stop: Option<ArxivSummary -> bool>, i: nat)
    requires i <= |results|
    requires stop.Some? ==> forall k :: 0 <= k < i ==> !stop.value(results[k])
    requires i < |results| ==> stop.Some? && stop.value(results[i])
    ensures Yielded(results, stop) == results[..i]
  {
  }

  /** `iter_per_category`'s loop over the search results, with its `break`. */
  method IterPerCategory(results: seq<ArxivSummary>, stop: Option<ArxivSummary -> bool>)
    returns (yielded: seq<ArxivSummary>)
    ensures yielded == Yielded(results, stop)
  {
    yielded := [];
    for i := 0 to |results|
      invariant yielded == results[..i]
      invariant stop.Some? ==> forall k :: 0 <= k < i ==> !stop.value(results[k])
    {
      if stop.Some? && stop.value(results[i]) {
        YieldedAt(results, stop, i);
        return;
      }
      yielded := yielded + [results[i]];
    }
    YieldedAt(results, stop, |results|);
  }

  /** The results updated strictly after `limit`. */
  function NewerThan(results: seq<ArxivSummary>, limit: int): seq<ArxivSummary>
  {
    if results == [] then []
    else (if results[0].updated > limit then [results[0]] else []) + NewerThan(results[1..], limit)
  }

  /**
   * With the search's newest-first order, stopping at the update-time limit
   * yields exactly the results updated after the limit.
   */
  lemma {:induction false} StopYieldsNewer(results: seq<ArxivSummary>, limit: int)
    requires forall i, j :: 0 <= i < j < |results| ==> results[i].updated >= results[j].updated
    ensures Yielded(results, Some(s => StopAt(limit, s))) == NewerThan(results, limit)
    decreases |results|
  {
    if results != [] {
      if results[0].updated <= limit {
        NoneNewer(results, limit);
      } else {
        StopYieldsNewer(results[1..], limit);
      }
    }
  }

  lemma {:induction false} NoneNewer(results: seq<ArxivSummary>, limit: int)
    requires forall i :: 0 <= i < |results| ==> results[i].updated <= limit
    ensures NewerThan(results, limit) == []
    decreases |results|
  {
    if results != [] {
      NoneNewer(results[1..], limit);
    }
  }

  // ---------------------------------------------------------------------------
  // from_arxiv_url

  /** `from_arxiv_url`: the id, then exactly one search result, or the matching error. */
  function FromArxivUrl(url: string, search: string -> seq<ArxivSummary>): (r: Result<ArxivSummary, ArxivError>)
    ensures r.Ok? <==> ToArxivId(url).Ok? && |search(ToArxivId(url).value)| == 1
    ensures r.Ok? ==> r.value == search(ToArxivId(url).value)[0]
  {
    match ToArxivId(url)
    case Err(e) => Err(e)
    case Ok(id) =>
      var results := search(id);
      if results == [] then Err(NotFound(id))
      else if |results| > 1 then Err(NotUnique(id))
      else Ok(results[0])
  }
}
