/**
 * `gather_pdf_parts` (utils/pdf_extract.py): from one block list per page and
 * one rasterised image per page, the ordered list of parts of the document,
 * with a part index and an image index that run across the whole document.
 */
module PdfExtract {
  import opened Wrappers
  import opened BlockTypes
  import opened PdfLayout
  import opened PdfGraph
  import opened PdfText

  /** A rasterised page; only its pixel size enters the model. */
  datatype PageImage = PageImage(width: nat, height: nat)

  datatype ExtractError =
    | LayoutFailed(layoutError: LayoutError)   // KeyError from an unknown block type name
    | GatherFailed(gatherError: GatherError)   // KeyError or RecursionError from the text walk
    | PageCountMismatch                        // ValueError from zip(..., strict=True)

  /** The two counters threaded through the whole document. */
  datatype Counters = Counters(partIndex: nat, imageIndex: nat)

  /** `id_to_blocks`: each id maps to the last block carrying it. */
  function IdToBlock(blocks: seq<Block>): (m: map<string, Block>)
    ensures m.Keys == Ids(blocks)
    ensures forall id :: id in m ==> m[id].id == id
  {
    if blocks == [] then map[]
    else
      var b := blocks[|blocks| - 1];
      IdsSnoc(blocks);
      IdToBlock(blocks[..|blocks| - 1])[b.id := b]
  }

  lemma IdsSnoc(blocks: seq<Block>)
    requires blocks != []
    ensures Ids(blocks) == Ids(blocks[..|blocks| - 1]) + {blocks[|blocks| - 1].id}
  {
    var init := blocks[..|blocks| - 1];
    forall x | x in Ids(blocks) ensures x in Ids(init) + {blocks[|blocks| - 1].id} {
      var i :| 0 <= i < |blocks| && blocks[i].id == x;
      if i < |init| { assert init[i].id == x; }
    }
    forall x | x in Ids(init) ensures x in Ids(blocks) {
      var i :| 0 <= i < |init| && init[i].id == x;
      assert blocks[i].id == x;
    }
  }

  /** `id_to_layout`: every block's layout by id; the first unknown type name raises. */
  function IdToLayout(blocks: seq<Block>): (r: Result<map<string, Layout>, LayoutError>)
    ensures r.Ok? ==> r.value.Keys == Ids(blocks)
  {
    if blocks == [] then Ok(map[])
    else
      var b := blocks[|blocks| - 1];
      IdsSnoc(blocks);
      match IdToLayout(blocks[..|blocks| - 1])
      case Err(e) => Err(e)
      case Ok(m) =>
        match FromDict(b)
        case Err(e) => Err(e)
        case Ok(layout) => Ok(m[b.id := layout])
  }

  /** Block i is the last block of the page carrying its id. */
  predicate LastOfId(blocks: seq<Block>, i: int)
  {
    0 <= i < |blocks| && forall j :: i < j < |blocks| ==> blocks[j].id != blocks[i].id
  }

  lemma LastOfIdInit(blocks: seq<Block>, i: int)
    requires blocks != [] && 0 <= i < |blocks| - 1
    requires blocks[i].id != blocks[|blocks| - 1].id
    ensures LastOfId(blocks, i) <==> LastOfId(blocks[..|blocks| - 1], i)
  {
    var init := blocks[..|blocks| - 1];
    if LastOfId(init, i) {
      forall j | i < j < |blocks| ensures blocks[j].id != blocks[i].id {
        if j < |init| { assert blocks[j] == init[j]; }
      }
    }
    if LastOfId(blocks, i) {
      forall j | i < j < |init| ensures init[j].id != init[i].id {
        assert init[j] == blocks[j];
      }
    }
  }

  /** Every value of `id_to_blocks` is the last block of the page with that id, and conversely. */
  lemma {:induction false} IdToBlockFromPage(blocks: seq<Block>)
    ensures var m := IdToBlock(blocks);
      forall id :: id in m ==> exists i :: LastOfId(blocks, i) && blocks[i] == m[id]
    ensures forall i :: LastOfId(blocks, i) ==> IdToBlock(blocks)[blocks[i].id] == blocks[i]
  {
    if blocks != [] {
      var init := blocks[..|blocks| - 1];
      var b := blocks[|blocks| - 1];
      var m := IdToBlock(blocks);
      IdToBlockFromPage(init);
      assert m == IdToBlock(init)[b.id := b];
      assert LastOfId(blocks, |blocks| - 1);
      forall id | id in m ensures exists i :: LastOfId(blocks, i) && blocks[i] == m[id] {
        if id != b.id {
          var i :| LastOfId(init, i) && init[i] == IdToBlock(init)[id];
          LastOfIdInit(blocks, i);
          assert blocks[i] == init[i];
        }
      }
      forall i | LastOfId(blocks, i) ensures m[blocks[i].id] == blocks[i] {
        if i < |blocks| - 1 {
          LastOfIdInit(blocks, i);
          assert blocks[i] == init[i];
        }
      }
    }
  }

  /** Every block of the page has a known type name, checked from the last block back. */
  predicate AllLayoutsKnown(blocks: seq<Block>)
    decreases |blocks|
  {
    blocks == [] || (AllLayoutsKnown(blocks[..|blocks| - 1]) && FromDict(blocks[|blocks| - 1]).Ok?)
  }

  lemma {:induction false} IdToLayoutOkKnown(blocks: seq<Block>)
    ensures IdToLayout(blocks).Ok? <==> AllLayoutsKnown(blocks)
  {
    if blocks != [] {
      IdToLayoutOkKnown(blocks[..|blocks| - 1]);
    }
  }

  lemma {:induction false} AllLayoutsKnownIff(blocks: seq<Block>)
    ensures AllLayoutsKnown(blocks) <==> forall i :: 0 <= i < |blocks| ==> FromDict(blocks[i]).Ok?
  {
    if blocks != [] {
      var init := blocks[..|blocks| - 1];
      AllLayoutsKnownIff(init);
      if AllLayoutsKnown(blocks) {
        forall i | 0 <= i < |blocks| - 1 ensures FromDict(blocks[i]).Ok? {
          assert blocks[i] == init[i];
        }
      } else if !AllLayoutsKnown(init) {
        var i :| 0 <= i < |init| && !FromDict(init[i]).Ok?;
        assert blocks[i] == init[i];
      }
    }
  }

  /** `id_to_layout` is built exactly when every block of the page has a known type name. */
  lemma IdToLayoutOkIff(blocks: seq<Block>)
    ensures IdToLayout(blocks).Ok? <==> forall i :: 0 <= i < |blocks| ==> FromDict(blocks[i]).Ok?
  {
    IdToLayoutOkKnown(blocks);
    AllLayoutsKnownIff(blocks);
  }

  /** When `id_to_layout` raises, the error is the first unknown type name's. */
  lemma {:induction false} IdToLayoutFirstError(blocks: seq<Block>)
    requires IdToLayout(blocks).Err?
    ensures exists i :: 0 <= i < |blocks| && FromDict(blocks[i]) == Err(IdToLayout(blocks).error)
                        && forall j :: 0 <= j < i ==> FromDict(blocks[j]).Ok?
  {
    var init := blocks[..|blocks| - 1];
    var last := |blocks| - 1;
    if IdToLayout(init).Err? {
      IdToLayoutFirstError(init);
      var i :| 0 <= i < |init| && FromDict(init[i]) == Err(IdToLayout(init).error)
        && forall j :: 0 <= j < i ==> FromDict(init[j]).Ok?;
      assert blocks[i] == init[i];
      forall j | 0 <= j < i ensures FromDict(blocks[j]).Ok? {
        assert blocks[j] == init[j];
      }
    } else {
      IdToLayoutOkIff(init);
      forall j | 0 <= j < last ensures FromDict(blocks[j]).Ok? {
        assert blocks[j] == init[j];
      }
    }
  }

  /** Each id of `id_to_layout` holds the layout read from the last block with that id. */
  lemma {:induction false} IdToLayoutValues(blocks: seq<Block>)
    requires IdToLayout(blocks).Ok?
    ensures forall i :: LastOfId(blocks, i) ==> Ok(IdToLayout(blocks).value[blocks[i].id]) == FromDict(blocks[i])
    ensures forall id :: id in IdToLayout(blocks).value ==>
      id in IdToBlock(blocks) && Ok(IdToLayout(blocks).value[id]) == FromDict(IdToBlock(blocks)[id])
  {
    if blocks != [] {
      var init := blocks[..|blocks| - 1];
      var b := blocks[|blocks| - 1];
      IdToLayoutValues(init);
      var m0 := IdToLayout(init).value;
      var m := IdToLayout(blocks).value;
      assert m == m0[b.id := FromDict(b).value];
      assert IdToBlock(blocks) == IdToBlock(init)[b.id := b];
      forall i | LastOfId(blocks, i) ensures Ok(m[blocks[i].id]) == FromDict(blocks[i]) {
        if i < |blocks| - 1 {
          LastOfIdInit(blocks, i);
          assert blocks[i] == init[i];
        }
      }
    }
  }

  /** What the loop over one page's blocks reads: the two dictionaries and the graph. */
  datatype PageEnv = PageEnv(idToBlock: map<string, Block>, idToLayout: map<string, Layout>, graph: Graph)

  /** A parent of a block with a flagged type makes the block part of that parent. */
  predicate Subsumed(parents: seq<string>, idToLayout: map<string, Layout>)
  {
    exists p :: p in parents && p in idToLayout && Flagged(idToLayout[p].blockType)
  }

  /** The containment filter: a block becomes a part iff no parent is flagged and its own type is. */
  predicate Emitted(env: PageEnv, b: Block)
  {
    && b.id in env.idToLayout
    && !Subsumed(Lookup(env.graph.toParents, b.id), env.idToLayout)
    && Flagged(env.idToLayout[b.id].blockType)
  }

  /** The pixel box a figure is cropped with: the normalised corners scaled by the page size. */
  function CropOf(l: Layout, image: PageImage): Crop
  {
    Crop(l.xmin * image.width as real, l.ymin * image.height as real,
         l.xmax * image.width as real, l.ymax * image.height as real)
  }

  /** What one block adds to the output (nothing, or one part) and the counters after it. */
  function BlockStep(page: nat, env: PageEnv, image: PageImage, b: Block, c: Counters, depth: nat)
    : Result<(seq<Part>, Counters), ExtractError>
  {
    if !Emitted(env, b) then Ok(([], c))
    else
      var layout := env.idToLayout[b.id];
      var figure := IsFigure(layout.blockType);
      var crop := if figure then Some(CropOf(layout, image)) else None;
      var imageIndex := if figure then Some(c.imageIndex as int) else None;
      var nextImage := if figure then c.imageIndex + 1 else c.imageIndex;
      match GatherTexts(b, env.idToBlock, env.graph.toChildren, depth)
      case Err(e) => Err(GatherFailed(e))
      case Ok(texts) =>
        var part := Part(page, c.partIndex, layout, Some(JoinTexts(layout.blockType, texts)), crop, imageIndex, None);
        Ok(([part], Counters(c.partIndex + 1, nextImage)))
  }

  /** The parts of the first `n` blocks of a page, in block-list order. */
  function BlockSteps(page: nat, env: PageEnv, image: PageImage, blocks: seq<Block>, n: nat, c: Counters, depth: nat)
    : Result<(seq<Part>, Counters), ExtractError>
    requires n <= |blocks|
  {
    if n == 0 then Ok(([], c))
    else
      match BlockSteps(page, env, image, blocks, n - 1, c, depth)
      case Err(e) => Err(e)
      case Ok((ps, c1)) =>
        match BlockStep(page, env, image, blocks[n - 1], c1, depth)
        case Err(e) => Err(e)
        case Ok((qs, c2)) => Ok((ps + qs, c2))
  }

  /** The dictionaries and the graph a page's block list gives. */
  function PageEnvOf(blocks: seq<Block>): Result<PageEnv, ExtractError>
  {
    match IdToLayout(blocks)
    case Err(e) => Err(LayoutFailed(e))
    case Ok(layouts) => Ok(PageEnv(IdToBlock(blocks), layouts, GraphOf(Edges(blocks))))
  }

  /** The parts of one page, numbered on from the counters `c`. */
  function PageParts(page: nat, blocks: seq<Block>, image: PageImage, c: Counters, depth: nat)
    : Result<(seq<Part>, Counters), ExtractError>
  {
    match PageEnvOf(blocks)
    case Err(e) => Err(e)
    case Ok(env) => BlockSteps(page, env, image, blocks, |blocks|, c, depth)
  }

  /** The parts of the first `n` pages; pages are numbered from 1. */
  function Pages(results: seq<seq<Block>>, images: seq<PageImage>, n: nat, depth: nat)
    : Result<(seq<Part>, Counters), ExtractError>
    requires n <= |results| && n <= |images|
  {
    if n == 0 then Ok(([], Counters(0, 0)))
    else
      match Pages(results, images, n - 1, depth)
      case Err(e) => Err(e)
      case Ok((ps, c1)) =>
        match PageParts(n, results[n - 1], images[n - 1], c1, depth)
        case Err(e) => Err(e)
        case Ok((qs, c2)) => Ok((ps + qs, c2))
  }

  function Min(a: nat, b: nat): nat { if a <= b then a else b }

  /**
   * The whole document. The pages are walked in step with the images; a count
   * mismatch is noticed once the shorter list runs out, so an error on an
   * earlier page is raised first.
   */
  function Extract(results: seq<seq<Block>>, images: seq<PageImage>, depth: nat)
    : Result<seq<Part>, ExtractError>
  {
    match Pages(results, images, Min(|results|, |images|), depth)
    case Err(e) => Err(e)
    case Ok((parts, _)) => if |results| != |images| then Err(PageCountMismatch) else Ok(parts)
  }

  // ---------------------------------------------------------------------------
  // What the parts satisfy

  /** The number of figure parts (those that carry an image). */
  function FigureCount(ps: seq<Part>): nat
  {
    if ps == [] then 0
    else FigureCount(ps[..|ps| - 1]) + (if IsFigure(ps[|ps| - 1].layout.blockType) then 1 else 0)
  }

  lemma {:induction false} FigureCountAppend(a: seq<Part>, b: seq<Part>)
    ensures FigureCount(a + b) == FigureCount(a) + FigureCount(b)
    decreases |b|
  {
    if b == [] {
      assert a + b == a;
    } else {
      assert (a + b)[..|a + b| - 1] == a + b[..|b| - 1];
      FigureCountAppend(a, b[..|b| - 1]);
    }
  }

  /** Part indices of `ps` run on consecutively from `c0` to `c1`. */
  ghost predicate PartIndicesFrom(ps: seq<Part>, c0: Counters, c1: Counters)
  {
    && c1.partIndex == c0.partIndex + |ps|
    && forall k :: 0 <= k < |ps| ==> ps[k].partIndex == c0.partIndex + k
  }

  /** Image indices of `ps` run on consecutively over the figure parts only, from `c0` to `c1`. */
  ghost predicate ImageIndicesFrom(ps: seq<Part>, c0: Counters, c1: Counters)
  {
    && c1.imageIndex == c0.imageIndex + FigureCount(ps)
    && forall k :: 0 <= k < |ps| ==>
         ps[k].imageIndex == (if IsFigure(ps[k].layout.blockType) then Some(c0.imageIndex + FigureCount(ps[..k])) else None)
  }

  /** A part carries an image exactly when it is a figure. */
  ghost predicate ImagesOnFigures(ps: seq<Part>)
  {
    forall k :: 0 <= k < |ps| ==> (ps[k].image.Some? <==> IsFigure(ps[k].layout.blockType))
  }

  ghost predicate NumberedFrom(ps: seq<Part>, c0: Counters, c1: Counters)
  {
    PartIndicesFrom(ps, c0, c1) && ImageIndicesFrom(ps, c0, c1) && ImagesOnFigures(ps)
  }

  /** Every part of `ps` is a top-level part of page `page` with a flagged type. */
  ghost predicate PartsOfPage(ps: seq<Part>, page: nat)
  {
    forall k :: 0 <= k < |ps| ==>
      ps[k].page == page && Flagged(ps[k].layout.blockType) && ps[k].text.Some? && ps[k].parent.None?
  }

  lemma {:induction false} PartIndicesAppend(a: seq<Part>, b: seq<Part>, c0: Counters, c1: Counters, c2: Counters)
    requires PartIndicesFrom(a, c0, c1) && PartIndicesFrom(b, c1, c2)
    ensures PartIndicesFrom(a + b, c0, c2)
  {
    var ab := a + b;
    forall k | 0 <= k < |ab| ensures ab[k].partIndex == c0.partIndex + k {
      if k >= |a| { assert ab[k] == b[k - |a|]; } else { assert ab[k] == a[k]; }
    }
  }

  lemma {:induction false} ImageIndicesAppend(a: seq<Part>, b: seq<Part>, c0: Counters, c1: Counters, c2: Counters)
    requires ImageIndicesFrom(a, c0, c1) && ImageIndicesFrom(b, c1, c2)
    ensures ImageIndicesFrom(a + b, c0, c2)
  {
    FigureCountAppend(a, b);
    var ab := a + b;
    forall k | 0 <= k < |ab|
      ensures ab[k].imageIndex ==
        (if IsFigure(ab[k].layout.blockType) then Some(c0.imageIndex + FigureCount(ab[..k])) else None)
    {
      ImageIndexAt(a, b, c0, c1, c2, k);
    }
  }

  lemma ImageIndexAt(a: seq<Part>, b: seq<Part>, c0: Counters, c1: Counters, c2: Counters, k: nat)
    requires ImageIndicesFrom(a, c0, c1) && ImageIndicesFrom(b, c1, c2)
    requires k < |a + b|
    ensures (a + b)[k].imageIndex ==
      (if IsFigure((a + b)[k].layout.blockType) then Some(c0.imageIndex + FigureCount((a + b)[..k])) else None)
  {
    var ab := a + b;
    if k >= |a| {
      var j := k - |a|;
      assert ab[..k] == a + b[..j];
      FigureCountAppend(a, b[..j]);
      assert ab[k] == b[j];
      assert b[j].imageIndex ==
        (if IsFigure(b[j].layout.blockType) then Some(c1.imageIndex + FigureCount(b[..j])) else None);
    } else {
      assert ab[..k] == a[..k];
      assert ab[k] == a[k];
    }
  }

  lemma {:induction false} NumberedFromAppend(a: seq<Part>, b: seq<Part>, c0: Counters, c1: Counters, c2: Counters)
    requires NumberedFrom(a, c0, c1) && NumberedFrom(b, c1, c2)
    ensures NumberedFrom(a + b, c0, c2)
  {
    PartIndicesAppend(a, b, c0, c1, c2);
    ImageIndicesAppend(a, b, c0, c1, c2);
    var ab := a + b;
    forall k | 0 <= k < |ab| ensures (ab[k].image.Some? <==> IsFigure(ab[k].layout.blockType)) {
      if k >= |a| { assert ab[k] == b[k - |a|]; } else { assert ab[k] == a[k]; }
    }
  }

  lemma {:induction false} PartsOfPageAppend(a: seq<Part>, b: seq<Part>, page: nat)
    requires PartsOfPage(a, page) && PartsOfPage(b, page)
    ensures PartsOfPage(a + b, page)
  {
    var ab := a + b;
    forall k | 0 <= k < |ab|
      ensures ab[k].page == page && Flagged(ab[k].layout.blockType) && ab[k].text.Some? && ab[k].parent.None?
    {
      if k >= |a| { assert ab[k] == b[k - |a|]; } else { assert ab[k] == a[k]; }
    }
  }

  /** One block step numbers what it adds on from the counters it was given. */
  lemma {:induction false} BlockStepNumbered(page: nat, env: PageEnv, image: PageImage, b: Block, c: Counters, depth: nat)
    requires BlockStep(page, env, image, b, c, depth).Ok?
    ensures var (qs, c2) := BlockStep(page, env, image, b, c, depth).value;
      NumberedFrom(qs, c, c2) && PartsOfPage(qs, page) && |qs| <= 1
  {
    var (qs, c2) := BlockStep(page, env, image, b, c, depth).value;
    if qs == [] {
      assert FigureCount(qs) == 0;
    } else {
      assert qs[..|qs| - 1] == [] == qs[..0];
      assert FigureCount(qs) == (if IsFigure(qs[0].layout.blockType) then 1 else 0);
    }
  }

  lemma {:induction false} BlockStepsNumbered(page: nat, env: PageEnv, image: PageImage, blocks: seq<Block>,
                                              n: nat, c: Counters, depth: nat)
    requires n <= |blocks|
    requires BlockSteps(page, env, image, blocks, n, c, depth).Ok?
    ensures var (ps, c2) := BlockSteps(page, env, image, blocks, n, c, depth).value;
      NumberedFrom(ps, c, c2) && PartsOfPage(ps, page)
  {
    if n == 0 {
      assert FigureCount([]) == 0;
    } else {
      BlockStepsNumbered(page, env, image, blocks, n - 1, c, depth);
      var (ps, c1) := BlockSteps(page, env, image, blocks, n - 1, c, depth).value;
      BlockStepNumbered(page, env, image, blocks[n - 1], c1, depth);
      var (qs, c2) := BlockStep(page, env, image, blocks[n - 1], c1, depth).value;
      NumberedFromAppend(ps, qs, c, c1, c2);
      PartsOfPageAppend(ps, qs, page);
    }
  }

  lemma PagePartsNumbered(page: nat, blocks: seq<Block>, image: PageImage, c: Counters, depth: nat)
    requires PageParts(page, blocks, image, c, depth).Ok?
    ensures var (qs, c2) := PageParts(page, blocks, image, c, depth).value;
      NumberedFrom(qs, c, c2) && PartsOfPage(qs, page)
  {
    BlockStepsNumbered(page, PageEnvOf(blocks).value, image, blocks, |blocks|, c, depth);
  }

  /** The parts of the first `n` pages are numbered from zero. */
  lemma {:induction false} PagesNumbered(results: seq<seq<Block>>, images: seq<PageImage>, n: nat, depth: nat)
    requires n <= |results| && n <= |images|
    requires Pages(results, images, n, depth).Ok?
    ensures var (ps, c) := Pages(results, images, n, depth).value;
      NumberedFrom(ps, Counters(0, 0), c)
  {
    if n == 0 {
      assert FigureCount([]) == 0;
    } else {
      PagesNumbered(results, images, n - 1, depth);
      var (ps, c1) := Pages(results, images, n - 1, depth).value;
      PagePartsNumbered(n, results[n - 1], images[n - 1], c1, depth);
      var (qs, c2) := PageParts(n, results[n - 1], images[n - 1], c1, depth).value;
      NumberedFromAppend(ps, qs, Counters(0, 0), c1, c2);
    }
  }

  /** Every part lies on a page in 1..n, pages never go back, and every part is a flagged top-level part. */
  ghost predicate PagesUpTo(ps: seq<Part>, n: nat)
  {
    && (forall k :: 0 <= k < |ps| ==> 1 <= ps[k].page <= n)
    && (forall k :: 0 <= k < |ps| ==> Flagged(ps[k].layout.blockType) && ps[k].text.Some? && ps[k].parent.None?)
    && (forall j, k :: 0 <= j < k < |ps| ==> ps[j].page <= ps[k].page)
  }

  lemma {:induction false} PagesUpToAppend(ps: seq<Part>, qs: seq<Part>, n: nat)
    requires n >= 1 && PagesUpTo(ps, n - 1) && PartsOfPage(qs, n)
    ensures PagesUpTo(ps + qs, n)
  {
    var all := ps + qs;
    forall k | 0 <= k < |all|
      ensures 1 <= all[k].page <= n
      ensures Flagged(all[k].layout.blockType) && all[k].text.Some? && all[k].parent.None?
    {
      if k >= |ps| { assert all[k] == qs[k - |ps|]; } else { assert all[k] == ps[k]; }
    }
    forall j, k | 0 <= j < k < |all| ensures all[j].page <= all[k].page {
      if k >= |ps| { assert all[k] == qs[k - |ps|]; } else { assert all[k] == ps[k]; }
      if j >= |ps| { assert all[j] == qs[j - |ps|]; } else { assert all[j] == ps[j]; }
    }
  }

  /** The parts of the first `n` pages come page by page, each a flagged top-level part. */
  lemma {:induction false} PagesOrdered(results: seq<seq<Block>>, images: seq<PageImage>, n: nat, depth: nat)
    requires n <= |results| && n <= |images|
    requires Pages(results, images, n, depth).Ok?
    ensures PagesUpTo(Pages(results, images, n, depth).value.0, n)
  {
    if n > 0 {
      PagesOrdered(results, images, n - 1, depth);
      var (ps, c1) := Pages(results, images, n - 1, depth).value;
      PagePartsNumbered(n, results[n - 1], images[n - 1], c1, depth);
      var qs := PageParts(n, results[n - 1], images[n - 1], c1, depth).value.0;
      PagesUpToAppend(ps, qs, n);
    }
  }

  /**
   * Part indices are exactly 0..N-1 in output order; image indices are 0..M-1
   * over the figure parts in output order and None on every other part, and a
   * part carries an image exactly when it is a figure.
   */
  lemma DenseIndices(results: seq<seq<Block>>, images: seq<PageImage>, depth: nat)
    requires Extract(results, images, depth).Ok?
    ensures var parts := Extract(results, images, depth).value;
      && (forall k :: 0 <= k < |parts| ==> parts[k].partIndex == k)
      && (forall k :: 0 <= k < |parts| ==>
            parts[k].imageIndex == if IsFigure(parts[k].layout.blockType) then Some(FigureCount(parts[..k]) as int) else None)
      && (forall k :: 0 <= k < |parts| ==> (parts[k].image.Some? <==> IsFigure(parts[k].layout.blockType)))
  {
    PagesNumbered(results, images, Min(|results|, |images|), depth);
  }

  /**
   * Pages are numbered from 1, follow the input order, and every part is a
   * top-level part with a flagged type, a text and no parent.
   */
  lemma PagesInOrder(results: seq<seq<Block>>, images: seq<PageImage>, depth: nat)
    requires Extract(results, images, depth).Ok?
    ensures var parts := Extract(results, images, depth).value;
      && (forall k :: 0 <= k < |parts| ==> 1 <= parts[k].page <= |results|)
      && (forall j, k :: 0 <= j < k < |parts| ==> parts[j].page <= parts[k].page)
      && (forall k :: 0 <= k < |parts| ==>
            Flagged(parts[k].layout.blockType) && parts[k].text.Some? && parts[k].parent.None?)
  {
    PagesOrdered(results, images, Min(|results|, |images|), depth);
  }

  /** A different number of block lists and page images always raises, and only then with that error. */
  lemma PageCountChecked(results: seq<seq<Block>>, images: seq<PageImage>, depth: nat)
    ensures |results| != |images| ==> Extract(results, images, depth).Err?
    ensures |results| == |images| ==> Extract(results, images, depth) != Err(PageCountMismatch)
  {
    if |results| == |images| {
      PagesNeverMismatch(results, images, |results|, depth);
    }
  }

  lemma {:induction false} PagesNeverMismatch(results: seq<seq<Block>>, images: seq<PageImage>, n: nat, depth: nat)
    requires n <= |results| && n <= |images|
    ensures Pages(results, images, n, depth) != Err(PageCountMismatch)
  {
    if n > 0 {
      PagesNeverMismatch(results, images, n - 1, depth);
      var prev := Pages(results, images, n - 1, depth);
      if prev.Ok? {
        PagePartsNeverMismatch(n, results[n - 1], images[n - 1], prev.value.1, depth);
      }
    }
  }

  lemma PagePartsNeverMismatch(page: nat, blocks: seq<Block>, image: PageImage, c: Counters, depth: nat)
    ensures PageParts(page, blocks, image, c, depth) != Err(PageCountMismatch)
  {
    var envr := PageEnvOf(blocks);
    if envr.Ok? {
      BlockStepsNeverMismatch(page, envr.value, image, blocks, |blocks|, c, depth);
    }
  }

  lemma {:induction false} BlockStepsNeverMismatch(page: nat, env: PageEnv, image: PageImage, blocks: seq<Block>,
                                                   n: nat, c: Counters, depth: nat)
    requires n <= |blocks|
    ensures BlockSteps(page, env, image, blocks, n, c, depth) != Err(PageCountMismatch)
  {
    if n > 0 {
      BlockStepsNeverMismatch(page, env, image, blocks, n - 1, c, depth);
      var prev := BlockSteps(page, env, image, blocks, n - 1, c, depth);
      if prev.Ok? {
        var r := BlockStep(page, env, image, blocks[n - 1], prev.value.1, depth);
        assert r != Err(PageCountMismatch);
      }
    }
  }

  /** The blocks among the first `n` that the containment filter keeps, in block-list order. */
  function Candidates(env: PageEnv, blocks: seq<Block>, n: nat): (r: seq<Block>)
    requires n <= |blocks|
    ensures forall k :: 0 <= k < |r| ==> Emitted(env, r[k])
  {
    if n == 0 then []
    else Candidates(env, blocks, n - 1) + (if Emitted(env, blocks[n - 1]) then [blocks[n - 1]] else [])
  }

  /** The positions among the first `n` blocks that the containment filter keeps, ascending. */
  function KeptIndices(env: PageEnv, blocks: seq<Block>, n: nat): (r: seq<nat>)
    requires n <= |blocks|
    ensures forall k :: 0 <= k < |r| ==> r[k] < n
  {
    if n == 0 then []
    else KeptIndices(env, blocks, n - 1) + (if Emitted(env, blocks[n - 1]) then [n - 1] else [])
  }

  /** The k-th kept block is the block at the k-th kept position. */
  lemma {:induction false} CandidatesAtKept(env: PageEnv, blocks: seq<Block>, n: nat)
    requires n <= |blocks|
    ensures var r := Candidates(env, blocks, n);
      var ix := KeptIndices(env, blocks, n);
      |r| == |ix| && forall k :: 0 <= k < |ix| ==> r[k] == blocks[ix[k]]
  {
    if n > 0 {
      CandidatesAtKept(env, blocks, n - 1);
      var r0 := Candidates(env, blocks, n - 1);
      var ix0 := KeptIndices(env, blocks, n - 1);
      var keep := Emitted(env, blocks[n - 1]);
      var r := r0 + (if keep then [blocks[n - 1]] else []);
      var ix := ix0 + (if keep then [n - 1] else []);
      assert Candidates(env, blocks, n) == r && KeptIndices(env, blocks, n) == ix;
      forall k | 0 <= k < |ix| ensures r[k] == blocks[ix[k]] {
        if k < |ix0| { assert r[k] == r0[k] && ix[k] == ix0[k]; }
      }
    }
  }

  /** The kept positions ascend, and every position passing the filter is among them. */
  lemma {:induction false} KeptIndicesSpec(env: PageEnv, blocks: seq<Block>, n: nat)
    requires n <= |blocks|
    ensures forall k, l :: 0 <= k < l < |KeptIndices(env, blocks, n)| ==>
              KeptIndices(env, blocks, n)[k] < KeptIndices(env, blocks, n)[l]
    ensures forall i :: 0 <= i < n && Emitted(env, blocks[i]) ==> i in KeptIndices(env, blocks, n)
  {
    if n > 0 {
      KeptIndicesSpec(env, blocks, n - 1);
      var ix0 := KeptIndices(env, blocks, n - 1);
      var keep := Emitted(env, blocks[n - 1]);
      var ix := ix0 + (if keep then [n - 1] else []);
      assert KeptIndices(env, blocks, n) == ix;
      forall k, l | 0 <= k < l < |ix| ensures ix[k] < ix[l] {
        assert ix[k] == ix0[k] && ix0[k] < n - 1;
        if l < |ix0| {
          assert ix[l] == ix0[l];
          assert ix0[k] < ix0[l];
        } else {
          assert keep && ix[l] == n - 1;
        }
      }
      forall i | 0 <= i < n && Emitted(env, blocks[i]) ensures i in ix {
        if i < n - 1 {
          var k :| 0 <= k < |ix0| && ix0[k] == i;
          assert ix[k] == i;
        } else {
          assert ix[|ix0|] == i;
        }
      }
    }
  }

  /** No block passing the filter is left out. */
  lemma CandidatesComplete(env: PageEnv, blocks: seq<Block>, n: nat)
    requires n <= |blocks|
    ensures forall i :: 0 <= i < n && Emitted(env, blocks[i]) ==> blocks[i] in Candidates(env, blocks, n)
  {
    CandidatesAtKept(env, blocks, n);
    KeptIndicesSpec(env, blocks, n);
    var r := Candidates(env, blocks, n);
    var ix := KeptIndices(env, blocks, n);
    forall i | 0 <= i < n && Emitted(env, blocks[i]) ensures blocks[i] in r {
      var k :| 0 <= k < |ix| && ix[k] == i;
      assert r[k] == blocks[i];
    }
  }

  /**
   * A page yields one part per kept block and nothing else, in block-list
   * order: the part has the block's layout and the joined texts of its walk.
   * So a block with an unflagged type, or with a flagged parent, never appears.
   */
  lemma {:induction false} PartsAreCandidates(page: nat, env: PageEnv, image: PageImage, blocks: seq<Block>,
                                              n: nat, c: Counters, depth: nat)
    requires n <= |blocks|
    requires BlockSteps(page, env, image, blocks, n, c, depth).Ok?
    ensures var ps := BlockSteps(page, env, image, blocks, n, c, depth).value.0;
      var cs := Candidates(env, blocks, n);
      && |ps| == |cs|
      && forall k :: 0 <= k < |ps| ==>
           && ps[k].layout == env.idToLayout[cs[k].id]
           && GatherTexts(cs[k], env.idToBlock, env.graph.toChildren, depth).Ok?
           && ps[k].text == Some(JoinTexts(ps[k].layout.blockType,
                                           GatherTexts(cs[k], env.idToBlock, env.graph.toChildren, depth).value))
  {
    if n > 0 {
      PartsAreCandidates(page, env, image, blocks, n - 1, c, depth);
      var (ps, c1) := BlockSteps(page, env, image, blocks, n - 1, c, depth).value;
      var qs := BlockStep(page, env, image, blocks[n - 1], c1, depth).value.0;
      var cs := Candidates(env, blocks, n - 1);
      var all := ps + qs;
      var allCs := Candidates(env, blocks, n);
      forall k | 0 <= k < |all|
        ensures all[k].layout == env.idToLayout[allCs[k].id]
        ensures GatherTexts(allCs[k], env.idToBlock, env.graph.toChildren, depth).Ok?
        ensures all[k].text == Some(JoinTexts(all[k].layout.blockType,
                                              GatherTexts(allCs[k], env.idToBlock, env.graph.toChildren, depth).value))
      {
        if k < |ps| {
          assert all[k] == ps[k] && allCs[k] == cs[k];
        } else {
          assert all[k] == qs[0] && allCs[k] == blocks[n - 1];
        }
      }
    }
  }

  // ---------------------------------------------------------------------------
  // The loops themselves

  /** Every parent recorded for a block is the id of some block of the page. */
  lemma ParentsKnown(blocks: seq<Block>, c: string)
    ensures forall p :: p in ParentsOf(Edges(blocks), c) ==> p in Ids(blocks)
  {
    forall p | p in ParentsOf(Edges(blocks), c) ensures p in Ids(blocks) {
      ParentsOfMembership(Edges(blocks), p, c);
      var es := Edges(blocks);
      var k :| 0 <= k < |es| && es[k] == (p, c);
    }
  }

  /** Once a block raises, the page raises the same error whatever blocks follow. */
  lemma {:induction false} BlockStepsAfterFailure(page: nat, env: PageEnv, image: PageImage, blocks: seq<Block>,
                                                  n: nat, m: nat, c: Counters, depth: nat)
    requires n <= m <= |blocks|
    requires BlockSteps(page, env, image, blocks, n, c, depth).Err?
    ensures BlockSteps(page, env, image, blocks, m, c, depth) == BlockSteps(page, env, image, blocks, n, c, depth)
    decreases m
  {
    if m > n {
      BlockStepsAfterFailure(page, env, image, blocks, n, m - 1, c, depth);
    }
  }

  /** Once a page raises, the document raises the same error whatever pages follow. */
  lemma {:induction false} PagesAfterFailure(results: seq<seq<Block>>, images: seq<PageImage>, n: nat, m: nat, depth: nat, e: ExtractError)
    requires n <= m <= |results| && m <= |images|
    requires Pages(results, images, n, depth) == Err(e)
    ensures Pages(results, images, m, depth) == Err(e)
    decreases m - n
  {
    if n < m {
      PagesStepAfterFailure(results, images, n + 1, depth);
      PagesAfterFailure(results, images, n + 1, m, depth, e);
    }
  }

  /** A raising page makes the next step raise the same error. */
  lemma PagesStepAfterFailure(results: seq<seq<Block>>, images: seq<PageImage>, m: nat, depth: nat)
    requires 0 < m <= |results| && m <= |images|
    requires Pages(results, images, m - 1, depth).Err?
    ensures Pages(results, images, m, depth) == Pages(results, images, m - 1, depth)
  {
  }

  /**
   * One pass of the block loop: the containment filter, the crop and image
   * index of a figure, the text walk and the joined text.
   */
  method GatherBlockPart(page: nat, env: PageEnv, image: PageImage, b: Block, c: Counters, depth: nat)
    returns (r: Result<(seq<Part>, Counters), ExtractError>)
    requires b.id in env.idToLayout
    requires forall p :: p in Lookup(env.graph.toParents, b.id) ==> p in env.idToLayout
    ensures r == BlockStep(page, env, image, b, c, depth)
  {
    var layout := env.idToLayout[b.id];
    var skip := IsSubsumed(Lookup(env.graph.toParents, b.id), env.idToLayout);
    if skip || !Flagged(layout.blockType) {
      return Ok(([], c));
    }
    var crop: Option<Crop> := None;
    var currentImageIndex: Option<int> := None;
    var imageIndex := c.imageIndex;
    if IsFigure(layout.blockType) {
      crop := Some(CropOf(layout, image));
      currentImageIndex := Some(imageIndex);
      imageIndex := imageIndex + 1;
    }
    var texts := GatherChildTexts(b, env.idToBlock, env.graph.toChildren, [], depth);
    if texts.Err? {
      return Err(GatherFailed(texts.error));
    }
    ghost var walked := GatherTexts(b, env.idToBlock, env.graph.toChildren, depth);
    assert walked.Ok? && [] + walked.value == walked.value;
    assert Emitted(env, b);
    var text := JoinTexts(layout.blockType, texts.value);
    return Ok(([Part(page, c.partIndex, layout, Some(text), crop, currentImageIndex, None)],
               Counters(c.partIndex + 1, imageIndex)));
  }

  /**
   * The body of the page loop of `gather_pdf_parts`: the two dictionaries, the
   * graph, then the loop over the blocks that appends the parts and advances
   * the two counters.
   */
  method GatherPageParts(page: nat, blocks: seq<Block>, image: PageImage, c0: Counters, depth: nat)
    returns (r: Result<(seq<Part>, Counters), ExtractError>)
    ensures r == PageParts(page, blocks, image, c0, depth)
  {
    var idToBlock := IdToBlock(blocks);
    var layouts := IdToLayout(blocks);
    if layouts.Err? {
      return Err(LayoutFailed(layouts.error));
    }
    var graph := BuildGraph(Edges(blocks));
    var env := PageEnv(idToBlock, layouts.value, graph);
    assert PageEnvOf(blocks) == Ok(env);

    var parts: seq<Part> := [];
    var c := c0;
    for i := 0 to |blocks|
      invariant BlockSteps(page, env, image, blocks, i, c0, depth) == Ok((parts, c))
    {
      var b := blocks[i];
      assert b.id in Ids(blocks);
      ParentsKnown(blocks, b.id);
      var step := GatherBlockPart(page, env, image, b, c, depth);
      if step.Err? {
        BlockStepsAfterFailure(page, env, image, blocks, i + 1, |blocks|, c0, depth);
        return Err(step.error);
      }
      parts := parts + step.value.0;
      c := step.value.1;
    }
    return Ok((parts, c));
  }

  /**
   * `gather_pdf_parts`: the pages in step with their images, page numbers from
   * 1, and the counters carried from page to page; the page-count check comes
   * after the shorter list is used up.
   */
  method GatherPdfParts(results: seq<seq<Block>>, images: seq<PageImage>, depth: nat)
    returns (r: Result<seq<Part>, ExtractError>)
    ensures r == Extract(results, images, depth)
  {
    var n := Min(|results|, |images|);
    var parts: seq<Part> := [];
    var c := Counters(0, 0);
    for i := 0 to n
      invariant Pages(results, images, i, depth) == Ok((parts, c))
    {
      var pageParts := GatherPageParts(i + 1, results[i], images[i], c, depth);
      if pageParts.Err? {
        PagesAfterFailure(results, images, i + 1, n, depth, pageParts.error);
        return Err(pageParts.error);
      }
      parts := parts + pageParts.value.0;
      c := pageParts.value.1;
    }
    if |results| != |images| {
      return Err(PageCountMismatch);
    }
    return Ok(parts);
  }
}
