/**
 * Collecting the leaf texts under a block (`gather_child_texts`) and joining
 * them into a part's text (utils/pdf_extract.py).
 */
module PdfText {
  import opened Wrappers
  import opened BlockTypes
  import opened PdfLayout
  import opened PdfGraph

  /**
   * How the walk fails: a child id with no block on the page (KeyError, raised
   * while the call's argument is evaluated, so before the call could hit the
   * limit), or a chain of children deeper than the interpreter's recursion
   * limit (RecursionError, which a cycle of CHILD edges always reaches).
   */
  datatype GatherError = MissingChild(id: string) | RecursionLimit

  /** `block.get("Text")` is truthy: present and not empty. */
  predicate HasText(b: Block)
  {
    b.text.Some? && b.text.value != ""
  }

  /**
   * The texts the walk collects from `b`: its own text if it has one, and
   * otherwise what its children collect, in `to_children` order. `depth` is how
   * many nested calls the recursion limit still allows.
   */
  function GatherTexts(b: Block, idToBlock: map<string, Block>, toChildren: map<string, seq<string>>,
                       depth: nat): Result<seq<string>, GatherError>
    decreases depth, 1, 0
  {
    if HasText(b) then Ok([b.text.value])
    else GatherList(Lookup(toChildren, b.id), idToBlock, toChildren, depth)
  }

  /** What the children `ids` collect, one after the other; the first failure stops the walk. */
  function GatherList(ids: seq<string>, idToBlock: map<string, Block>, toChildren: map<string, seq<string>>,
                      depth: nat): Result<seq<string>, GatherError>
    decreases depth, 0, |ids|
  {
    if ids == [] then Ok([])
    else
      match GatherList(ids[..|ids| - 1], idToBlock, toChildren, depth)
      case Err(e) => Err(e)
      case Ok(front) =>
        var id := ids[|ids| - 1];
        if id !in idToBlock then Err(MissingChild(id))
        else if depth == 0 then Err(RecursionLimit)
        else
          match GatherTexts(idToBlock[id], idToBlock, toChildren, depth - 1)
          case Err(e) => Err(e)
          case Ok(more) => Ok(front + more)
  }

  /** The accumulator `texts` after a walk that collected `r`. */
  function Appended(texts: seq<string>, r: Result<seq<string>, GatherError>): Result<seq<string>, GatherError>
  {
    match r
    case Ok(ts) => Ok(texts + ts)
    case Err(e) => Err(e)
  }

  /**
   * `gather_child_texts`: the recursive walk appending to the shared list
   * `texts`. It appends exactly what GatherTexts collects, or fails as it does.
   */
  method GatherChildTexts(block: Block, idToBlock: map<string, Block>, toChildren: map<string, seq<string>>,
                          texts: seq<string>, depth: nat) returns (r: Result<seq<string>, GatherError>)
    ensures r == Appended(texts, GatherTexts(block, idToBlock, toChildren, depth))
    decreases depth
  {
    if block.text.Some? && block.text.value != "" {
      return Ok(texts + [block.text.value]);
    }
    var children := Lookup(toChildren, block.id);
    var acc := texts;
    assert children[..0] == [];
    assert texts + [] == texts;
    for i := 0 to |children|
      invariant Appended(texts, GatherList(children[..i], idToBlock, toChildren, depth)) == Ok(acc)
    {
      ghost var front := GatherList(children[..i], idToBlock, toChildren, depth).value;
      ghost var upTo := children[..i + 1];
      assert upTo[..|upTo| - 1] == children[..i];
      assert children == upTo + children[i + 1..];
      var id := children[i];
      if id !in idToBlock {
        GatherListAfterFailure(upTo, children[i + 1..], idToBlock, toChildren, depth);
        return Err(MissingChild(id));
      }
      if depth == 0 {
        GatherListAfterFailure(upTo, children[i + 1..], idToBlock, toChildren, depth);
        return Err(RecursionLimit);
      }
      var sub := GatherChildTexts(idToBlock[id], idToBlock, toChildren, acc, depth - 1);
      if sub.Err? {
        GatherListAfterFailure(upTo, children[i + 1..], idToBlock, toChildren, depth);
        return Err(sub.error);
      }
      ghost var more := GatherTexts(idToBlock[id], idToBlock, toChildren, depth - 1).value;
      assert GatherList(upTo, idToBlock, toChildren, depth) == Ok(front + more);
      assert texts + (front + more) == (texts + front) + more;
      acc := sub.value;
    }
    assert children[..|children|] == children;
    return Ok(acc);
  }

  /** Once a prefix of the children fails, the whole walk fails the same way. */
  lemma GatherListAfterFailure(a: seq<string>, b: seq<string>, idToBlock: map<string, Block>,
                               toChildren: map<string, seq<string>>, depth: nat)
    requires GatherList(a, idToBlock, toChildren, depth).Err?
    ensures GatherList(a + b, idToBlock, toChildren, depth) == GatherList(a, idToBlock, toChildren, depth)
  {
    GatherListAppend(a, b, idToBlock, toChildren, depth);
  }

  /** A block with text contributes exactly that text; its children are never visited. */
  lemma GatherLeafIgnoresChildren(b: Block, idToBlock: map<string, Block>, toChildren: map<string, seq<string>>,
                                  depth: nat, otherChildren: map<string, seq<string>>, otherDepth: nat)
    requires HasText(b)
    ensures GatherTexts(b, idToBlock, toChildren, depth) == Ok([b.text.value])
    ensures GatherTexts(b, idToBlock, toChildren, depth) == GatherTexts(b, idToBlock, otherChildren, otherDepth)
  {
  }

  /** An empty `Text` counts as no text at all. */
  lemma GatherEmptyTextIsAbsent(b: Block, idToBlock: map<string, Block>, toChildren: map<string, seq<string>>,
                                depth: nat)
    requires b.text == Some("")
    ensures GatherTexts(b, idToBlock, toChildren, depth) == GatherTexts(b.(text := None), idToBlock, toChildren, depth)
  {
  }

  /** Splitting a child list: the contributions of the two halves, concatenated in order. */
  lemma {:induction false} GatherListAppend(a: seq<string>, b: seq<string>, idToBlock: map<string, Block>,
                                            toChildren: map<string, seq<string>>, depth: nat)
    ensures GatherList(a + b, idToBlock, toChildren, depth) ==
      match GatherList(a, idToBlock, toChildren, depth)
      case Err(e) => Err(e)
      case Ok(x) => Appended(x, GatherList(b, idToBlock, toChildren, depth))
    decreases |b|
  {
    if b == [] {
      assert a + b == a;
      match GatherList(a, idToBlock, toChildren, depth)
      case Err(e) =>
      case Ok(x) => assert x + [] == x;
    } else {
      var bi := b[..|b| - 1];
      var id := b[|b| - 1];
      assert (a + b)[..|a + b| - 1] == a + bi;
      assert (a + b)[|a + b| - 1] == id;
      GatherListAppend(a, bi, idToBlock, toChildren, depth);
      match GatherList(a, idToBlock, toChildren, depth)
      case Err(e) =>
      case Ok(x) =>
        match GatherList(bi, idToBlock, toChildren, depth)
        case Err(e) =>
        case Ok(y) =>
          if depth > 0 && id in idToBlock {
            match GatherTexts(idToBlock[id], idToBlock, toChildren, depth - 1)
            case Err(e) =>
            case Ok(m) =>
              assert (x + y) + m == x + (y + m);
          }
    }
  }

  /** A walk that succeeds within a recursion limit succeeds, with the same texts, under any higher one. */
  lemma {:induction false} GatherDepthMonotone(b: Block, idToBlock: map<string, Block>,
                                               toChildren: map<string, seq<string>>, depth: nat, more: nat)
    requires GatherTexts(b, idToBlock, toChildren, depth).Ok?
    ensures GatherTexts(b, idToBlock, toChildren, depth + more) == GatherTexts(b, idToBlock, toChildren, depth)
    decreases depth, 1, 0
  {
    if !HasText(b) {
      GatherListDepthMonotone(Lookup(toChildren, b.id), idToBlock, toChildren, depth, more);
    }
  }

  lemma {:induction false} GatherListDepthMonotone(ids: seq<string>, idToBlock: map<string, Block>,
                                                   toChildren: map<string, seq<string>>, depth: nat, more: nat)
    requires GatherList(ids, idToBlock, toChildren, depth).Ok?
    ensures GatherList(ids, idToBlock, toChildren, depth + more) == GatherList(ids, idToBlock, toChildren, depth)
    decreases depth, 0, |ids|
  {
    if ids != [] {
      GatherListDepthMonotone(ids[..|ids| - 1], idToBlock, toChildren, depth, more);
      var id := ids[|ids| - 1];
      GatherDepthMonotone(idToBlock[id], idToBlock, toChildren, depth - 1, more);
      assert depth + more - 1 == depth - 1 + more;
    }
  }

  /** `sep.join(xs)`. */
  function JoinWith(sep: string, xs: seq<string>): string
  {
    if xs == [] then ""
    else if |xs| == 1 then xs[0]
    else xs[0] + sep + JoinWith(sep, xs[1..])
  }

  predicate EndsWithHyphen(t: string)
  {
    |t| > 0 && t[|t| - 1] == '-'
  }

  /** One piece of a non-list text: a trailing hyphen is dropped, anything else gets a space. */
  function Piece(t: string): string
  {
    if EndsWithHyphen(t) then t[..|t| - 1] else t + " "
  }

  /** The non-list join: the pieces of the non-empty texts, concatenated. */
  function HyphenJoin(texts: seq<string>): string
  {
    if texts == [] then ""
    else (if texts[0] != "" then Piece(texts[0]) else "") + HyphenJoin(texts[1..])
  }

  /** The join rule, keyed by the part's own type: blank lines for lists, hyphen-aware otherwise. */
  function JoinTexts(t: BlockType, texts: seq<string>): string
  {
    if t == LayoutList then JoinWith("\n\n", texts) else HyphenJoin(texts)
  }

  /** A list's items are separated by one blank line each. */
  lemma ListJoinExample()
    ensures JoinTexts(LayoutList, ["Item A", "Item B"]) == "Item A\n\nItem B"
  {
  }

  /** A hyphenated word is glued back together; the last piece keeps its trailing space. */
  lemma HyphenJoinExample()
    ensures JoinTexts(LayoutText, ["Long", "para-", "graph"]) == "Long paragraph "
  {
    assert HyphenJoin(["graph"]) == "graph ";
    assert HyphenJoin(["para-", "graph"]) == "para" + "graph ";
  }

  /** The non-list join works piece by piece: it distributes over concatenation. */
  lemma {:induction false} HyphenJoinAppend(a: seq<string>, b: seq<string>)
    ensures HyphenJoin(a + b) == HyphenJoin(a) + HyphenJoin(b)
  {
    if a != [] {
      assert (a + b)[1..] == a[1..] + b;
      HyphenJoinAppend(a[1..], b);
    } else {
      assert a + b == b;
    }
  }

  /**
   * Without hyphens the non-list join is the single-space join plus one
   * trailing space.
   */
  lemma {:induction false} HyphenJoinWithoutHyphens(texts: seq<string>)
    requires texts != []
    requires forall i :: 0 <= i < |texts| ==> texts[i] != "" && !EndsWithHyphen(texts[i])
    ensures HyphenJoin(texts) == JoinWith(" ", texts) + " "
  {
    if |texts| > 1 {
      HyphenJoinWithoutHyphens(texts[1..]);
    }
  }
}
