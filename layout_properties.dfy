/**
 * What the layout promises: which nodes it places and how often, the order it places them
 * in, the clamp bounds, how the update pass relates to the build pass, and how sibling arcs
 * share out their parent's arc.
 */
module LayoutProperties {
  import opened Wrappers
  import opened TreeNodes
  import opened Adapter
  import opened RadialLayout

  /** Node `i` lies below one of siblings `lo..`. */
  predicate Below(nodes: seq<TreeNode>, ids: seq<NodeId>, lo: nat, i: NodeId)
    requires WellFormed(nodes) && i < |nodes|
  {
    exists j :: lo <= j < |ids| && ids[j] in Lineage(nodes, i)
  }

  /** Node `i` has a placement. */
  predicate Placed(placements: seq<Placement>, i: NodeId) {
    exists q :: q in placements && q.node == i
  }

  /** No node is placed twice. */
  predicate PlacedOnce(placements: seq<Placement>) {
    forall a, b :: 0 <= a < b < |placements| ==> placements[a].node != placements[b].node
  }

  /** Every path getPath yields for some node. */
  function AllPaths(nodes: seq<TreeNode>): set<string>
    requires WellFormed(nodes)
  {
    set i | 0 <= i < |nodes| :: Path(nodes, i)
  }

  /** A sibling list as makeDrawableTreeNodes receives it: distinct ids, in creation order,
      all at one depth. */
  predicate SiblingList(nodes: seq<TreeNode>, ids: seq<NodeId>) {
    InRange(nodes, ids) &&
    (forall j, j' :: 0 <= j < j' < |ids| ==> ids[j] < ids[j']) &&
    (forall j :: 0 <= j < |ids| ==> nodes[ids[j]].depth == nodes[ids[0]].depth)
  }

  /** The layout of siblings `k..` places exactly the nodes below one of those siblings. */
  lemma {:induction false} LayoutFromCovers(pass: Pass, nodes: seq<TreeNode>, skipLength: real, ids: seq<NodeId>,
                                            span: Span, k: nat, i: NodeId)
    requires WellFormed(nodes) && InRange(nodes, ids) && NonNegative(nodes) && k <= |ids| && i < |nodes|
    ensures Placed(LayoutFrom(pass, nodes, skipLength, ids, span, k), i) <==> Below(nodes, ids, k, i)
    decreases |nodes| - Lowest(ids, |nodes|), |ids| - k, 1
  {
    if k < |ids| {
      var sub := SubtreeLayout(pass, nodes, skipLength, ids, span, k);
      var rest := LayoutFrom(pass, nodes, skipLength, ids, span, k + 1);
      assert LayoutFrom(pass, nodes, skipLength, ids, span, k) == sub + rest;
      assert Placed(sub + rest, i) <==> Placed(sub, i) || Placed(rest, i) by {
        PlacedConcat(sub, rest, i);
      }
      assert Placed(sub, i) <==> ids[k] in Lineage(nodes, i) by {
        SubtreeCovers(pass, nodes, skipLength, ids, span, k, i);
      }
      assert Placed(rest, i) <==> Below(nodes, ids, k + 1, i) by {
        LayoutFromCovers(pass, nodes, skipLength, ids, span, k + 1, i);
      }
      BelowStep(nodes, ids, k, i);
    }
  }

  lemma BelowStep(nodes: seq<TreeNode>, ids: seq<NodeId>, k: nat, i: NodeId)
    requires WellFormed(nodes) && k < |ids| && i < |nodes|
    ensures Below(nodes, ids, k, i) <==> ids[k] in Lineage(nodes, i) || Below(nodes, ids, k + 1, i)
  {
    if Below(nodes, ids, k, i) {
      var j :| k <= j < |ids| && ids[j] in Lineage(nodes, i);
      if j > k {
        assert Below(nodes, ids, k + 1, i);
      }
    }
    if ids[k] in Lineage(nodes, i) {
      assert Below(nodes, ids, k, i);
    }
  }

  /** Sibling `k`'s placements are exactly those of the nodes below it. */
  lemma {:induction false} SubtreeCovers(pass: Pass, nodes: seq<TreeNode>, skipLength: real, ids: seq<NodeId>,
                                         span: Span, k: nat, i: NodeId)
    requires WellFormed(nodes) && InRange(nodes, ids) && NonNegative(nodes) && k < |ids| && i < |nodes|
    ensures Placed(SubtreeLayout(pass, nodes, skipLength, ids, span, k), i) <==> ids[k] in Lineage(nodes, i)
    decreases |nodes| - Lowest(ids, |nodes|), |ids| - k, 0
  {
    var id := ids[k];
    var arc := ArcAt(pass, nodes, skipLength, ids, span, k);
    var kids := nodes[id].children;
    ChildrenAreLower(nodes, ids, k);
    var p := Placement(id, Path(nodes, id), arc);
    var below := if |kids| > 0 then LayoutFrom(pass, nodes, skipLength, kids, ChildSpan(nodes, id, arc), 0) else [];
    PlacedConcat([p], below, i);
    assert Placed([p], i) <==> id == i by {
      if id == i { assert p in [p]; }
    }
    if |kids| > 0 {
      LayoutFromCovers(pass, nodes, skipLength, kids, ChildSpan(nodes, id, arc), 0, i);
    }
    LineageStep(nodes, id, i);
    assert ChildLinks(nodes, id);
    if exists c :: c in kids && c < |nodes| && c in Lineage(nodes, i) {
      var c :| c in kids && c < |nodes| && c in Lineage(nodes, i);
      var j :| 0 <= j < |kids| && kids[j] == c;
    }
  }

  /** The clamp bound each pass guarantees a node's arc: the build pass keeps every arc's end
      within 360; the update pass keeps positive-weight arcs within 360 and gives zero-weight
      nodes a zero sweep. */
  predicate Bounded(pass: Pass, node: TreeNode, arc: Arc) {
    ((pass == Build || node.weight > 0.0) ==> arc.start + arc.sweep <= Ceiling) &&
    (pass == Update && node.weight <= 0.0 ==> arc.sweep == 0.0)
  }

  /** A placement is keyed by getPath of its node, and its arc keeps the pass's clamp bound. */
  predicate WellPlaced(pass: Pass, nodes: seq<TreeNode>, q: Placement)
    requires WellFormed(nodes)
  {
    q.node < |nodes| && q.path == Path(nodes, q.node) && Bounded(pass, nodes[q.node], q.arc)
  }

  /** Every placement of the layout is well placed. */
  lemma {:induction false} LayoutFromWellPlaced(pass: Pass, nodes: seq<TreeNode>, skipLength: real, ids: seq<NodeId>,
                                          span: Span, k: nat)
    requires WellFormed(nodes) && InRange(nodes, ids) && NonNegative(nodes) && k <= |ids|
    ensures forall q :: q in LayoutFrom(pass, nodes, skipLength, ids, span, k) ==>
              WellPlaced(pass, nodes, q)
    decreases |nodes| - Lowest(ids, |nodes|), |ids| - k, 1
  {
    if k < |ids| {
      var sub := SubtreeLayout(pass, nodes, skipLength, ids, span, k);
      var rest := LayoutFrom(pass, nodes, skipLength, ids, span, k + 1);
      assert LayoutFrom(pass, nodes, skipLength, ids, span, k) == sub + rest;
      SubtreeWellPlaced(pass, nodes, skipLength, ids, span, k);
      LayoutFromWellPlaced(pass, nodes, skipLength, ids, span, k + 1);
      forall q | q in sub + rest ensures WellPlaced(pass, nodes, q) {
        if q in sub {} else { assert q in rest; }
      }
    }
  }

  lemma {:induction false} SubtreeWellPlaced(pass: Pass, nodes: seq<TreeNode>, skipLength: real, ids: seq<NodeId>,
                                       span: Span, k: nat)
    requires WellFormed(nodes) && InRange(nodes, ids) && NonNegative(nodes) && k < |ids|
    ensures forall q :: q in SubtreeLayout(pass, nodes, skipLength, ids, span, k) ==>
              WellPlaced(pass, nodes, q)
    decreases |nodes| - Lowest(ids, |nodes|), |ids| - k, 0
  {
    var id := ids[k];
    var arc := ArcAt(pass, nodes, skipLength, ids, span, k);
    var kids := nodes[id].children;
    assert WellPlaced(pass, nodes, Placement(id, Path(nodes, id), arc));
    ChildrenAreLower(nodes, ids, k);
    if |kids| > 0 {
      var below := LayoutFrom(pass, nodes, skipLength, kids, ChildSpan(nodes, id, arc), 0);
      LayoutFromWellPlaced(pass, nodes, skipLength, kids, ChildSpan(nodes, id, arc), 0);
      forall q | q in [Placement(id, Path(nodes, id), arc)] + below ensures WellPlaced(pass, nodes, q) {
        if q !in below { assert q == Placement(id, Path(nodes, id), arc); }
      }
    }
  }

  lemma PlacedConcat(a: seq<Placement>, b: seq<Placement>, i: NodeId)
    ensures Placed(a + b, i) <==> Placed(a, i) || Placed(b, i)
  {
    if Placed(a, i) {
      var q :| q in a && q.node == i;
      assert q in a + b;
    }
    if Placed(b, i) {
      var q :| q in b && q.node == i;
      assert q in a + b;
    }
  }

  lemma PlacedOnceConcat(a: seq<Placement>, b: seq<Placement>)
    requires PlacedOnce(a) && PlacedOnce(b)
    requires forall i :: Placed(a, i) ==> !Placed(b, i)
    ensures PlacedOnce(a + b)
  {
    forall x, y | 0 <= x < y < |a + b| ensures (a + b)[x].node != (a + b)[y].node {
      if x < |a| && |a| <= y {
        assert a[x] in a && b[y - |a|] in b;
        assert Placed(a, a[x].node);
      }
    }
  }

  /** No node lies below two different siblings. */
  lemma BelowOneSibling(nodes: seq<TreeNode>, ids: seq<NodeId>, k: nat, i: NodeId)
    requires WellFormed(nodes) && SiblingList(nodes, ids) && k < |ids| && i < |nodes|
    requires ids[k] in Lineage(nodes, i)
    ensures !Below(nodes, ids, k + 1, i)
  {
    if Below(nodes, ids, k + 1, i) {
      var j :| k + 1 <= j < |ids| && ids[j] in Lineage(nodes, i);
      LineageOnePerDepth(nodes, i, ids[k], ids[j]);
      assert false;
    }
  }

  /** A node's children form a sibling list. */
  lemma ChildrenSiblingList(nodes: seq<TreeNode>, id: NodeId)
    requires WellFormed(nodes) && id < |nodes|
    ensures SiblingList(nodes, nodes[id].children)
  {
    var kids := nodes[id].children;
    assert ChildLinks(nodes, id);
    forall j | 0 <= j < |kids| ensures nodes[kids[j]].depth == nodes[kids[0]].depth {
      assert ParentLink(nodes, kids[j]) && ParentLink(nodes, kids[0]);
    }
  }

  /** Every node laid out below a node's children comes after that node. */
  lemma DescendantsAfter(pass: Pass, nodes: seq<TreeNode>, skipLength: real, id: NodeId, span: Span)
    requires WellFormed(nodes) && NonNegative(nodes) && id < |nodes|
    requires InRange(nodes, nodes[id].children)
    ensures forall q :: q in Layout(pass, nodes, skipLength, nodes[id].children, span) ==> id < q.node
  {
    var kids := nodes[id].children;
    var below := Layout(pass, nodes, skipLength, kids, span);
    LayoutFromWellPlaced(pass, nodes, skipLength, kids, span, 0);
    assert ChildLinks(nodes, id);
    forall q | q in below ensures id < q.node {
      assert Placed(below, q.node);
      LayoutFromCovers(pass, nodes, skipLength, kids, span, 0, q.node);
      var j :| 0 <= j < |kids| && kids[j] in Lineage(nodes, q.node);
    }
  }

  /** The layout of siblings `k..` places no node twice. */
  lemma {:induction false} LayoutFromOnce(pass: Pass, nodes: seq<TreeNode>, skipLength: real, ids: seq<NodeId>,
                                          span: Span, k: nat)
    requires WellFormed(nodes) && SiblingList(nodes, ids) && NonNegative(nodes) && k <= |ids|
    ensures PlacedOnce(LayoutFrom(pass, nodes, skipLength, ids, span, k))
    decreases |nodes| - Lowest(ids, |nodes|), |ids| - k, 1
  {
    if k < |ids| {
      var sub := SubtreeLayout(pass, nodes, skipLength, ids, span, k);
      var rest := LayoutFrom(pass, nodes, skipLength, ids, span, k + 1);
      assert LayoutFrom(pass, nodes, skipLength, ids, span, k) == sub + rest;
      SubtreeOnce(pass, nodes, skipLength, ids, span, k);
      LayoutFromOnce(pass, nodes, skipLength, ids, span, k + 1);
      forall i | Placed(sub, i) ensures !Placed(rest, i) {
        var q :| q in sub && q.node == i;
        SubtreeWellPlaced(pass, nodes, skipLength, ids, span, k);
        SubtreeCovers(pass, nodes, skipLength, ids, span, k, i);
        LayoutFromCovers(pass, nodes, skipLength, ids, span, k + 1, i);
        BelowOneSibling(nodes, ids, k, i);
      }
      PlacedOnceConcat(sub, rest);
    }
  }

  /** Sibling `k`'s subtree places no node twice. */
  lemma {:induction false} SubtreeOnce(pass: Pass, nodes: seq<TreeNode>, skipLength: real, ids: seq<NodeId>,
                                       span: Span, k: nat)
    requires WellFormed(nodes) && SiblingList(nodes, ids) && NonNegative(nodes) && k < |ids|
    ensures PlacedOnce(SubtreeLayout(pass, nodes, skipLength, ids, span, k))
    decreases |nodes| - Lowest(ids, |nodes|), |ids| - k, 0
  {
    var id := ids[k];
    var arc := ArcAt(pass, nodes, skipLength, ids, span, k);
    var kids := nodes[id].children;
    ChildrenAreLower(nodes, ids, k);
    if |kids| > 0 {
      var p := Placement(id, Path(nodes, id), arc);
      var below := LayoutFrom(pass, nodes, skipLength, kids, ChildSpan(nodes, id, arc), 0);
      ChildrenSiblingList(nodes, id);
      LayoutFromOnce(pass, nodes, skipLength, kids, ChildSpan(nodes, id, arc), 0);
      DescendantsAfter(pass, nodes, skipLength, id, ChildSpan(nodes, id, arc));
      forall i | Placed([p], i) ensures !Placed(below, i) {
        assert p in [p] && i == id;
      }
      PlacedOnceConcat([p], below);
    }
  }

  /** Laid out from a valid root list, no node is placed twice (together with
      LayoutPlacesEveryNode, each node gets exactly one drawable), and every parent is
      placed before its children. */
  lemma LayoutPlacesOnce(pass: Pass, nodes: seq<TreeNode>, skipLength: real, roots: seq<NodeId>, span: Span)
    requires RootsValid(nodes, roots) && NonNegative(nodes)
    ensures PlacedOnce(Layout(pass, nodes, skipLength, roots, span))
    ensures ParentsFirst(nodes, Layout(pass, nodes, skipLength, roots, span))
  {
    forall j | 0 <= j < |roots| ensures nodes[roots[j]].depth == nodes[roots[0]].depth {
      assert ParentLink(nodes, roots[j]) && ParentLink(nodes, roots[0]);
    }
    LayoutFromOnce(pass, nodes, skipLength, roots, span, 0);
    LayoutFromParentsFirst(pass, nodes, skipLength, roots, span, 0);
  }

  /** Whenever a placement's node is the parent of another placement's node, the parent's
      placement comes first: the drawables are made in pre-order. */
  predicate ParentsFirst(nodes: seq<TreeNode>, placements: seq<Placement>) {
    forall x, y :: (0 <= x < |placements| && 0 <= y < |placements| && placements[y].node < |nodes| &&
                    nodes[placements[y].node].parent == Some(placements[x].node)) ==> x < y
  }

  /** A single placement is trivially in pre-order: no node is its own parent. */
  lemma ParentsFirstSingle(nodes: seq<TreeNode>, p: Placement)
    requires WellFormed(nodes) && p.node < |nodes|
    ensures ParentsFirst(nodes, [p])
  {
    assert ParentLink(nodes, p.node);
  }

  lemma ParentsFirstConcat(nodes: seq<TreeNode>, a: seq<Placement>, b: seq<Placement>)
    requires ParentsFirst(nodes, a) && ParentsFirst(nodes, b)
    requires forall qa, qb :: qa in a && qb in b && qa.node < |nodes| ==> nodes[qa.node].parent != Some(qb.node)
    ensures ParentsFirst(nodes, a + b)
  {
    forall x, y | 0 <= x < |a + b| && 0 <= y < |a + b| && (a + b)[y].node < |nodes| &&
                  nodes[(a + b)[y].node].parent == Some((a + b)[x].node)
      ensures x < y
    {
      if y < |a| && |a| <= x {
        assert false;
      } else if y < |a| {
        assert a[x] == (a + b)[x] && a[y] == (a + b)[y];
      } else if |a| <= x {
        assert b[x - |a|] == (a + b)[x] && b[y - |a|] == (a + b)[y];
      }
    }
  }

  /** The layout of siblings `k..` makes every parent's drawable before its children's. */
  lemma {:induction false} LayoutFromParentsFirst(pass: Pass, nodes: seq<TreeNode>, skipLength: real, ids: seq<NodeId>,
                                                  span: Span, k: nat)
    requires WellFormed(nodes) && SiblingList(nodes, ids) && NonNegative(nodes) && k <= |ids|
    ensures ParentsFirst(nodes, LayoutFrom(pass, nodes, skipLength, ids, span, k))
    decreases |nodes| - Lowest(ids, |nodes|), |ids| - k, 1
  {
    if k < |ids| {
      var sub := SubtreeLayout(pass, nodes, skipLength, ids, span, k);
      var rest := LayoutFrom(pass, nodes, skipLength, ids, span, k + 1);
      assert LayoutFrom(pass, nodes, skipLength, ids, span, k) == sub + rest;
      SubtreeParentsFirst(pass, nodes, skipLength, ids, span, k);
      LayoutFromParentsFirst(pass, nodes, skipLength, ids, span, k + 1);
      forall qa, qb | qa in sub && qb in rest && qa.node < |nodes| ensures nodes[qa.node].parent != Some(qb.node) {
        if nodes[qa.node].parent == Some(qb.node) {
          assert Placed(sub, qa.node) && Placed(rest, qb.node);
          SubtreeCovers(pass, nodes, skipLength, ids, span, k, qa.node);
          LayoutFromCovers(pass, nodes, skipLength, ids, span, k + 1, qb.node);
          var j :| k + 1 <= j < |ids| && ids[j] in Lineage(nodes, qb.node);
          assert ParentLink(nodes, qa.node);
          LineageClosed(nodes, qb.node, qa.node);
          assert Below(nodes, ids, k + 1, qa.node);
          BelowOneSibling(nodes, ids, k, qa.node);
        }
      }
      ParentsFirstConcat(nodes, sub, rest);
    }
  }

  /** Sibling `k`'s subtree makes every parent's drawable before its children's. */
  lemma {:induction false} SubtreeParentsFirst(pass: Pass, nodes: seq<TreeNode>, skipLength: real, ids: seq<NodeId>,
                                               span: Span, k: nat)
    requires WellFormed(nodes) && SiblingList(nodes, ids) && NonNegative(nodes) && k < |ids|
    ensures ParentsFirst(nodes, SubtreeLayout(pass, nodes, skipLength, ids, span, k))
    decreases |nodes| - Lowest(ids, |nodes|), |ids| - k, 0
  {
    var id := ids[k];
    var arc := ArcAt(pass, nodes, skipLength, ids, span, k);
    var kids := nodes[id].children;
    var p := Placement(id, Path(nodes, id), arc);
    ChildrenAreLower(nodes, ids, k);
    assert ParentLink(nodes, id);
    ParentsFirstSingle(nodes, p);
    if |kids| > 0 {
      var below := LayoutFrom(pass, nodes, skipLength, kids, ChildSpan(nodes, id, arc), 0);
      ChildrenSiblingList(nodes, id);
      LayoutFromParentsFirst(pass, nodes, skipLength, kids, ChildSpan(nodes, id, arc), 0);
      DescendantsAfter(pass, nodes, skipLength, id, ChildSpan(nodes, id, arc));
      assert forall qb :: qb in below ==> id < qb.node;
      ParentsFirstConcat(nodes, [p], below);
    } else {
      assert [p] + [] == [p];
    }
  }

  /** Laid out from a valid root list, every node of the heap, zero-weight ones included,
      gets a placement. */
  lemma LayoutPlacesEveryNode(pass: Pass, nodes: seq<TreeNode>, skipLength: real, roots: seq<NodeId>, span: Span, i: NodeId)
    requires RootsValid(nodes, roots) && NonNegative(nodes) && i < |nodes|
    ensures Placed(Layout(pass, nodes, skipLength, roots, span), i)
  {
    LayoutFromCovers(pass, nodes, skipLength, roots, span, 0, i);
    var root := RootOf(nodes, i);
    var j :| 0 <= j < |roots| && roots[j] == root;
  }

  /** The drawables of a valid root list are keyed by exactly the paths of the heap's nodes. */
  lemma LayoutPaths(pass: Pass, nodes: seq<TreeNode>, skipLength: real, roots: seq<NodeId>, span: Span)
    requires RootsValid(nodes, roots) && NonNegative(nodes)
    ensures Paths(Layout(pass, nodes, skipLength, roots, span)) == AllPaths(nodes)
  {
    var ps := Layout(pass, nodes, skipLength, roots, span);
    LayoutFromWellPlaced(pass, nodes, skipLength, roots, span, 0);
    forall i | 0 <= i < |nodes| ensures Path(nodes, i) in Paths(ps) {
      LayoutPlacesEveryNode(pass, nodes, skipLength, roots, span, i);
      var q :| q in ps && q.node == i;
    }
  }
}
