/**
 * The per-page relationship graph and the containment filter of
 * `gather_pdf_parts` (utils/pdf_extract.py).
 */
module PdfGraph {
  import opened Wrappers
  import opened BlockTypes
  import opened PdfLayout

  /** A `CHILD` edge as `(parent id, child id)`. */
  type Edge = (string, string)

  /** The ids of the blocks of a page. */
  function Ids(blocks: seq<Block>): set<string>
  {
    set i | 0 <= i < |blocks| :: blocks[i].id
  }

  /**
   * The ids a block lists in its `CHILD` relationships, relationship by
   * relationship and in `Ids` order; relationships of any other type add nothing.
   */
  function ChildIds(rels: seq<Relationship>): (r: seq<string>)
    ensures forall c :: c in r <==>
      exists j :: 0 <= j < |rels| && rels[j].relType == "CHILD" && c in rels[j].ids
  {
    if rels == [] then []
    else
      var last := rels[|rels| - 1];
      var init := ChildIds(rels[..|rels| - 1]);
      assert forall j :: 0 <= j < |rels| - 1 ==> rels[..|rels| - 1][j] == rels[j];
      init + (if last.relType == "CHILD" then last.ids else [])
  }

  /** The edges one block contributes: itself paired with each of its child ids. */
  function BlockEdges(b: Block): (r: seq<Edge>)
    ensures |r| == |ChildIds(b.relationships)|
    ensures forall k :: 0 <= k < |r| ==> r[k] == (b.id, ChildIds(b.relationships)[k])
  {
    var ids := ChildIds(b.relationships);
    seq(|ids|, k requires 0 <= k < |ids| => (b.id, ids[k]))
  }

  /** `parent_child_pairs`: the edges of every block, in block-list order. */
  function Edges(blocks: seq<Block>): (r: seq<Edge>)
    ensures forall k :: 0 <= k < |r| ==> r[k].0 in Ids(blocks)
  {
    if blocks == [] then []
    else
      var init := blocks[..|blocks| - 1];
      var e := Edges(init);
      assert Ids(init) <= Ids(blocks) by {
        forall x | x in Ids(init) ensures x in Ids(blocks) {
          var i :| 0 <= i < |init| && init[i].id == x;
          assert blocks[i].id == x;
        }
      }
      assert blocks[|blocks| - 1].id in Ids(blocks);
      e + BlockEdges(blocks[|blocks| - 1])
  }

  /** A defaultdict read: the list stored under `k`, or the empty list. */
  function Lookup(m: map<string, seq<string>>, k: string): seq<string>
  {
    if k in m then m[k] else []
  }

  /** The parents recorded for `c`, in edge order. */
  function ParentsOf(edges: seq<Edge>, c: string): seq<string>
  {
    if edges == [] then []
    else
      var e := edges[|edges| - 1];
      ParentsOf(edges[..|edges| - 1], c) + (if e.1 == c then [e.0] else [])
  }

  /** The children recorded for `p`, in edge order. */
  function ChildrenOf(edges: seq<Edge>, p: string): seq<string>
  {
    if edges == [] then []
    else
      var e := edges[|edges| - 1];
      ChildrenOf(edges[..|edges| - 1], p) + (if e.0 == p then [e.1] else [])
  }

  /** A parent is recorded for `c` exactly when the edge from it to `c` exists. */
  lemma {:induction false} ParentsOfMembership(edges: seq<Edge>, p: string, c: string)
    ensures p in ParentsOf(edges, c) <==> (p, c) in edges
  {
    if edges != [] {
      var init := edges[..|edges| - 1];
      ParentsOfMembership(init, p, c);
      assert edges == init + [edges[|edges| - 1]];
    }
  }

  /** A child is recorded for `p` exactly when the edge from `p` to it exists. */
  lemma {:induction false} ChildrenOfMembership(edges: seq<Edge>, p: string, c: string)
    ensures c in ChildrenOf(edges, p) <==> (p, c) in edges
  {
    if edges != [] {
      var init := edges[..|edges| - 1];
      ChildrenOfMembership(init, p, c);
      assert edges == init + [edges[|edges| - 1]];
    }
  }

  /** `to_parents` and `to_children`, both read as defaultdicts of lists. */
  datatype Graph = Graph(toParents: map<string, seq<string>>, toChildren: map<string, seq<string>>)

  /** The two dictionaries after the edges were appended one by one. */
  function GraphOf(edges: seq<Edge>): Graph
  {
    if edges == [] then Graph(map[], map[])
    else
      var g := GraphOf(edges[..|edges| - 1]);
      var (parent, child) := edges[|edges| - 1];
      Graph(g.toParents[child := Lookup(g.toParents, child) + [parent]],
            g.toChildren[parent := Lookup(g.toChildren, parent) + [child]])
  }

  /**
   * The loop that fills `to_parents` and `to_children`: every edge appends the
   * parent to the child's list and the child to the parent's list.
   */
  method BuildGraph(edges: seq<Edge>) returns (g: Graph)
    ensures g == GraphOf(edges)
    ensures forall c :: Lookup(g.toParents, c) == ParentsOf(edges, c)
    ensures forall p :: Lookup(g.toChildren, p) == ChildrenOf(edges, p)
  {
    var toParents: map<string, seq<string>> := map[];
    var toChildren: map<string, seq<string>> := map[];
    for i := 0 to |edges|
      invariant Graph(toParents, toChildren) == GraphOf(edges[..i])
      invariant forall c :: Lookup(toParents, c) == ParentsOf(edges[..i], c)
      invariant forall p :: Lookup(toChildren, p) == ChildrenOf(edges[..i], p)
    {
      var (parent, child) := edges[i];
      assert edges[..i + 1][..i] == edges[..i];
      ghost var before := edges[..i];
      toParents := toParents[child := Lookup(toParents, child) + [parent]];
      toChildren := toChildren[parent := Lookup(toChildren, parent) + [child]];
      forall c ensures Lookup(toParents, c) == ParentsOf(edges[..i + 1], c) {
        assert ParentsOf(edges[..i + 1], c) == ParentsOf(before, c) + (if child == c then [parent] else []);
      }
      forall p ensures Lookup(toChildren, p) == ChildrenOf(edges[..i + 1], p) {
        assert ChildrenOf(edges[..i + 1], p) == ChildrenOf(before, p) + (if parent == p then [child] else []);
      }
    }
    assert edges[..|edges|] == edges;
    g := Graph(toParents, toChildren);
  }

  /** The blocks of a page with a given id, in block-list order. */
  function BlocksWithId(blocks: seq<Block>, p: string): seq<Block>
  {
    if blocks == [] then []
    else
      var b := blocks[|blocks| - 1];
      BlocksWithId(blocks[..|blocks| - 1], p) + (if b.id == p then [b] else [])
  }

  function ConcatChildIds(bs: seq<Block>): seq<string>
  {
    if bs == [] then [] else ConcatChildIds(bs[..|bs| - 1]) + ChildIds(bs[|bs| - 1].relationships)
  }

  lemma {:induction false} ChildrenOfAppend(a: seq<Edge>, b: seq<Edge>, p: string)
    ensures ChildrenOf(a + b, p) == ChildrenOf(a, p) + ChildrenOf(b, p)
    decreases |b|
  {
    if b != [] {
      var last := b[|b| - 1];
      assert (a + b)[..|a + b| - 1] == a + b[..|b| - 1];
      ChildrenOfAppend(a, b[..|b| - 1], p);
    } else {
      assert a + b == a;
    }
  }

  lemma {:induction false} ChildrenOfBlockEdges(b: Block, p: string)
    ensures ChildrenOf(BlockEdges(b), p) == if b.id == p then ChildIds(b.relationships) else []
  {
    ChildrenOfEdgesFrom(b.id, ChildIds(b.relationships), BlockEdges(b), p);
  }

  lemma {:induction false} ChildrenOfEdgesFrom(q: string, ids: seq<string>, es: seq<Edge>, p: string)
    requires |es| == |ids| && forall k :: 0 <= k < |es| ==> es[k] == (q, ids[k])
    ensures ChildrenOf(es, p) == if q == p then ids else []
    decreases |ids|
  {
    if ids != [] {
      var init := ids[..|ids| - 1];
      ChildrenOfEdgesFrom(q, init, es[..|es| - 1], p);
      assert ids == init + [ids[|ids| - 1]];
    }
  }

  /**
   * `to_children[p]` lists the CHILD ids of the blocks whose id is `p`, in
   * block-list order and then in `Ids` order.
   */
  lemma {:induction false} ChildrenFollowBlockOrder(blocks: seq<Block>, p: string)
    ensures ChildrenOf(Edges(blocks), p) == ConcatChildIds(BlocksWithId(blocks, p))
  {
    if blocks != [] {
      var init := blocks[..|blocks| - 1];
      var b := blocks[|blocks| - 1];
      ChildrenFollowBlockOrder(init, p);
      ChildrenOfAppend(Edges(init), BlockEdges(b), p);
      ChildrenOfBlockEdges(b, p);
      var bs := BlocksWithId(init, p);
      if b.id == p {
        assert BlocksWithId(blocks, p) == bs + [b];
        assert (bs + [b])[..|bs + [b]| - 1] == bs;
        assert ConcatChildIds(bs + [b]) == ConcatChildIds(bs) + ChildIds(b.relationships);
      } else {
        assert BlocksWithId(blocks, p) == bs;
        assert ChildrenOf(BlockEdges(b), p) == [];
        assert ChildrenOf(Edges(blocks), p) == ChildrenOf(Edges(init), p) + [];
      }
    }
  }

  /**
   * `p` is recorded as a parent of `c` exactly when some block with id `p`
   * names `c` in one of its CHILD relationships.
   */
  lemma ParentsFromChildRelationships(blocks: seq<Block>, p: string, c: string)
    ensures p in ParentsOf(Edges(blocks), c) <==>
      exists i :: 0 <= i < |blocks| && blocks[i].id == p && c in ChildIds(blocks[i].relationships)
  {
    ParentsOfMembership(Edges(blocks), p, c);
    EdgeMembership(blocks, p, c);
  }

  lemma {:induction false} BlockEdgeMembership(b: Block, p: string, c: string)
    ensures (p, c) in BlockEdges(b) <==> b.id == p && c in ChildIds(b.relationships)
  {
    var be := BlockEdges(b);
    var ids := ChildIds(b.relationships);
    if (p, c) in be {
      var k :| 0 <= k < |be| && be[k] == (p, c);
      assert ids[k] == c;
    }
    if b.id == p && c in ids {
      var k :| 0 <= k < |ids| && ids[k] == c;
      assert be[k] == (p, c);
    }
  }

  lemma {:induction false} EdgeMembership(blocks: seq<Block>, p: string, c: string)
    ensures (p, c) in Edges(blocks) <==>
      exists i :: 0 <= i < |blocks| && blocks[i].id == p && c in ChildIds(blocks[i].relationships)
  {
    if blocks != [] {
      var n := |blocks| - 1;
      var init := blocks[..n];
      var b := blocks[n];
      EdgeMembership(init, p, c);
      BlockEdgeMembership(b, p, c);
      assert Edges(blocks) == Edges(init) + BlockEdges(b);
      assert (p, c) in Edges(blocks) <==> (p, c) in Edges(init) || (p, c) in BlockEdges(b);
      if (p, c) in Edges(blocks) {
        if (p, c) in Edges(init) {
          var i :| 0 <= i < |init| && init[i].id == p && c in ChildIds(init[i].relationships);
          assert blocks[i] == init[i];
        } else {
          assert blocks[n].id == p && c in ChildIds(blocks[n].relationships);
        }
      }
      if exists i :: 0 <= i < |blocks| && blocks[i].id == p && c in ChildIds(blocks[i].relationships) {
        var i :| 0 <= i < |blocks| && blocks[i].id == p && c in ChildIds(blocks[i].relationships);
        if i < n {
          assert init[i] == blocks[i];
        }
      }
    }
  }

  /**
   * The containment filter's loop: a block is skipped as soon as one of its
   * parents has a flagged type; parents whose type has no flag never cause it.
   */
  method IsSubsumed(parents: seq<string>, idToLayout: map<string, Layout>) returns (skip: bool)
    requires forall p :: p in parents ==> p in idToLayout
    ensures skip <==> exists p :: p in parents && Flagged(idToLayout[p].blockType)
  {
    skip := false;
    for i := 0 to |parents|
      invariant !skip
      invariant forall j :: 0 <= j < i ==> !Flagged(idToLayout[parents[j]].blockType)
    {
      if Flagged(idToLayout[parents[i]].blockType) {
        skip := true;
        break;
      }
    }
  }
}
