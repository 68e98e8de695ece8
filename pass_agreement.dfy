/**
 * How the update pass relates to the build pass.  The two differ only in the clamp: the
 * build pass clamps every node, the update pass only positive-weight ones.  A zero-weight
 * node has a zero share, so the build clamp touches it only when it starts past 360
 * degrees; then the build pass gives it a negative sweep and the update pass a zero one.
 * Inside a sibling list the build cursor never passes 360 after the first sibling, so only
 * a zero-weight first child of an arc that starts past 360 can tell the passes apart.
 */
module PassAgreement {
  import opened Wrappers
  import opened TreeNodes
  import opened RadialLayout
  import opened LayoutProperties

  /** No zero-weight node starts past the ceiling. */
  predicate NoLateZero(nodes: seq<TreeNode>, placements: seq<Placement>) {
    forall q :: q in placements && q.node < |nodes| && nodes[q.node].weight <= 0.0 ==> q.arc.start <= Ceiling
  }

  /** One node gets the same arc from both passes unless it has zero weight and starts past
      the ceiling. */
  lemma NodeArcAgrees(level: Level, node: TreeNode, cursor: Cursor)
    requires node.weight > 0.0 ==> level.totalWeight >= node.weight
    ensures node.weight > 0.0 || cursor.nodeStart <= Ceiling <==>
            NodeArc(Update, level, node, cursor) == NodeArc(Build, level, node, cursor)
  {
  }

  /** When a zero-weight first sibling does not start past the ceiling, both passes walk the
      sibling list with the same cursor and give each sibling the same arc. */
  lemma {:induction false} CursorsAgree(nodes: seq<TreeNode>, skipLength: real, ids: seq<NodeId>, span: Span, k: nat)
    requires InRange(nodes, ids) && NonNegative(nodes) && k <= |ids|
    requires |ids| > 0 && nodes[ids[0]].weight <= 0.0 ==> span.start <= Ceiling
    ensures CursorAt(Update, nodes, skipLength, ids, span, k) == CursorAt(Build, nodes, skipLength, ids, span, k)
    ensures k < |ids| ==> ArcAt(Update, nodes, skipLength, ids, span, k) == ArcAt(Build, nodes, skipLength, ids, span, k)
  {
    var level := LevelOf(nodes, skipLength, ids, span);
    if k > 0 {
      CursorsAgree(nodes, skipLength, ids, span, k - 1);
    }
    if k < |ids| {
      NodeArcAgrees(level, nodes[ids[k]], CursorAt(Build, nodes, skipLength, ids, span, k));
    }
  }

  /** Every placement of sibling `k`'s subtree is a placement of the layout of siblings `j..`
      for any `j <= k`. */
  lemma {:induction false} SubtreeInLayout(pass: Pass, nodes: seq<TreeNode>, skipLength: real, ids: seq<NodeId>,
                                           span: Span, j: nat, k: nat)
    requires WellFormed(nodes) && InRange(nodes, ids) && NonNegative(nodes) && j <= k < |ids|
    ensures forall q :: q in SubtreeLayout(pass, nodes, skipLength, ids, span, k) ==>
              q in LayoutFrom(pass, nodes, skipLength, ids, span, j)
    decreases k - j
  {
    var sub := SubtreeLayout(pass, nodes, skipLength, ids, span, j);
    var rest := LayoutFrom(pass, nodes, skipLength, ids, span, j + 1);
    assert LayoutFrom(pass, nodes, skipLength, ids, span, j) == sub + rest;
    if j < k {
      SubtreeInLayout(pass, nodes, skipLength, ids, span, j + 1, k);
    }
  }

  /** Without a late zero-weight node in the build layout, the update pass lays out siblings
      `k..` exactly as the build pass does. */
  lemma {:induction false} LayoutFromAgrees(nodes: seq<TreeNode>, skipLength: real, ids: seq<NodeId>, span: Span, k: nat)
    requires WellFormed(nodes) && InRange(nodes, ids) && NonNegative(nodes) && k <= |ids|
    requires NoLateZero(nodes, Layout(Build, nodes, skipLength, ids, span))
    ensures LayoutFrom(Update, nodes, skipLength, ids, span, k) == LayoutFrom(Build, nodes, skipLength, ids, span, k)
    decreases |nodes| - Lowest(ids, |nodes|), |ids| - k, 1
  {
    if k < |ids| {
      SubtreeAgrees(nodes, skipLength, ids, span, k);
      LayoutFromAgrees(nodes, skipLength, ids, span, k + 1);
    }
  }

  lemma {:induction false} SubtreeAgrees(nodes: seq<TreeNode>, skipLength: real, ids: seq<NodeId>, span: Span, k: nat)
    requires WellFormed(nodes) && InRange(nodes, ids) && NonNegative(nodes) && k < |ids|
    requires NoLateZero(nodes, Layout(Build, nodes, skipLength, ids, span))
    ensures SubtreeLayout(Update, nodes, skipLength, ids, span, k) == SubtreeLayout(Build, nodes, skipLength, ids, span, k)
    decreases |nodes| - Lowest(ids, |nodes|), |ids| - k, 0
  {
    var all := Layout(Build, nodes, skipLength, ids, span);
    assert nodes[ids[0]].weight <= 0.0 ==> span.start <= Ceiling by {
      var first := SubtreeLayout(Build, nodes, skipLength, ids, span, 0);
      LayoutStep(Build, nodes, skipLength, ids, span, 0);
      assert first[0] in all;
    }
    CursorsAgree(nodes, skipLength, ids, span, k);
    var id := ids[k];
    var arc := ArcAt(Build, nodes, skipLength, ids, span, k);
    var kids := nodes[id].children;
    LayoutStep(Build, nodes, skipLength, ids, span, k);
    LayoutStep(Update, nodes, skipLength, ids, span, k);
    if |kids| > 0 {
      var below := Layout(Build, nodes, skipLength, kids, ChildSpan(nodes, id, arc));
      assert NoLateZero(nodes, below) by {
        SubtreeInLayout(Build, nodes, skipLength, ids, span, 0, k);
      }
      LayoutFromAgrees(nodes, skipLength, kids, ChildSpan(nodes, id, arc), 0);
    }
  }

  /** The update pass reproduces the build layout whenever no zero-weight node of the build
      layout starts past the ceiling. */
  lemma UpdateMatchesBuild(nodes: seq<TreeNode>, skipLength: real, roots: seq<NodeId>, span: Span)
    requires WellFormed(nodes) && InRange(nodes, roots) && NonNegative(nodes)
    requires NoLateZero(nodes, Layout(Build, nodes, skipLength, roots, span))
    ensures Layout(Update, nodes, skipLength, roots, span) == Layout(Build, nodes, skipLength, roots, span)
  {
    LayoutFromAgrees(nodes, skipLength, roots, span, 0);
  }

  /** Roots A (weight 400) and P (weight 1), and under P a zero-weight child Z. */
  function LateZeroHeap(): (nodes: seq<TreeNode>)
    ensures WellFormed(nodes) && NonNegative(nodes)
  {
    var nodes := [TreeNode(None, [], "A", 1, 400.0, 0, 0),
                  TreeNode(None, [2], "P", 1, 1.0, 0, 0),
                  TreeNode(Some(1), [], "Z", 2, 0.0, 0, 0)];
    assert ParentLink(nodes, 2) && ChildLinks(nodes, 1);
    nodes
  }

  /** On LateZeroHeap with no gaps, A ends at 360 degrees, so P starts at 361 and is clamped
      to a sweep of -1 by both passes. */
  lemma LateZeroRootArcs(pass: Pass)
    ensures ArcAt(pass, LateZeroHeap(), 0.0, [0, 1], RootSpan, 0) == Arc(1.0, 359.0)
    ensures ArcAt(pass, LateZeroHeap(), 0.0, [0, 1], RootSpan, 1) == Arc(361.0, -1.0)
  {
    LateZeroRootLevel();
    assert CursorAt(pass, LateZeroHeap(), 0.0, [0, 1], RootSpan, 1) == Cursor(360.0, 1);
  }

  /** The roots of LateZeroHeap weigh 401 together, both count as positive, and with no gaps
      the whole circle is usable. */
  lemma LateZeroRootLevel()
    ensures LevelOf(LateZeroHeap(), 0.0, [0, 1], RootSpan) == Level(1, 401.0, 360.0)
  {
    var nodes := LateZeroHeap();
    var ids := [0, 1];
    assert ids[..1] == [0] && [0][..0] == [];
    assert WeightSum(nodes, ids) == 401.0 by {
      assert WeightSum(nodes, [0]) == 400.0;
    }
    assert NonZeroCount(nodes, ids) == 2 by {
      assert NonZeroCount(nodes, [0]) == 1;
    }
  }

  /** The zero-weight child Z starts at 361 degrees as well: the build pass clamps it to a
      sweep of -1, the update pass leaves it at 0. */
  lemma LateZeroChildArc(pass: Pass)
    ensures ArcAt(pass, LateZeroHeap(), 0.0, [2], Span(361.0, -1.0, 1.0), 0)
         == if pass == Build then Arc(361.0, -1.0) else Arc(361.0, 0.0)
  {
    var nodes := LateZeroHeap();
    assert [2][..0] == [];
    assert LevelOf(nodes, 0.0, [2], Span(361.0, -1.0, 1.0)) == Level(2, 1.0, -1.0);
  }

  /** The layout of LateZeroHeap is A, P, Z, with Z laid out in P's arc. */
  lemma LateZeroLayout(pass: Pass)
    ensures var l := Layout(pass, LateZeroHeap(), 0.0, [0, 1], RootSpan);
            |l| == 3 && l[2].node == 2 &&
            l[2].arc == ArcAt(pass, LateZeroHeap(), 0.0, [2], ChildSpan(LateZeroHeap(), 1, l[1].arc), 0) &&
            l[1].arc == ArcAt(pass, LateZeroHeap(), 0.0, [0, 1], RootSpan, 1)
  {
    var nodes := LateZeroHeap();
    var ids := [0, 1];
    var span := ChildSpan(nodes, 1, ArcAt(pass, nodes, 0.0, ids, RootSpan, 1));
    var zs := LayoutFrom(pass, nodes, 0.0, [2], span, 0);
    assert zs == [Placement(2, Path(nodes, 2), ArcAt(pass, nodes, 0.0, [2], span, 0))] by {
      assert LayoutFrom(pass, nodes, 0.0, [2], span, 1) == [];
    }
    assert SubtreeLayout(pass, nodes, 0.0, ids, RootSpan, 1)
        == [Placement(1, Path(nodes, 1), ArcAt(pass, nodes, 0.0, ids, RootSpan, 1))] + zs;
    assert |SubtreeLayout(pass, nodes, 0.0, ids, RootSpan, 0)| == 1;
    assert LayoutFrom(pass, nodes, 0.0, ids, RootSpan, 2) == [];
  }

  /** LateZeroHeap is a heap on which the two passes part: the zero-weight child Z, which starts
      past the ceiling, gets a sweep of -1 from the build pass and 0 from the update pass. */
  lemma LateZeroDiverges()
    ensures var build := Layout(Build, LateZeroHeap(), 0.0, [0, 1], RootSpan);
            var update := Layout(Update, LateZeroHeap(), 0.0, [0, 1], RootSpan);
            |build| == |update| == 3 &&
            build[2].node == update[2].node == 2 &&
            build[2].arc == Arc(361.0, -1.0) && update[2].arc == Arc(361.0, 0.0)
  {
    LateZeroRootArcs(Build);
    LateZeroRootArcs(Update);
    LateZeroLayout(Build);
    LateZeroLayout(Update);
    LateZeroChildArc(Build);
    LateZeroChildArc(Update);
  }
}
