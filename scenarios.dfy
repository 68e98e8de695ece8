/**
 * Two small trees laid out with a skipLength of one degree.  Two roots of weights 3 and 1
 * share the circle as 1 + 268.5 + 1 + 89.5 degrees.  The same two nodes as children of a
 * zero-weight root get the root's empty arc to share: the gap reserved below the first level
 * makes their usable sweep -1 degree, so both get negative sweeps.
 */
module Scenarios {
  import opened Wrappers
  import opened TreeNodes
  import opened RadialLayout

  /** Roots B (weight 3) and C (weight 1). */
  function TwoRoots(): (nodes: seq<TreeNode>)
    ensures WellFormed(nodes) && NonNegative(nodes)
  {
    [TreeNode(None, [], "B", 1, 3.0, 0, 0), TreeNode(None, [], "C", 1, 1.0, 0, 0)]
  }

  /** Both roots count, they weigh 4 together, and two 1-degree gaps leave 358 degrees. */
  lemma TwoRootsLevel()
    ensures LevelOf(TwoRoots(), 1.0, [0, 1], RootSpan) == Level(1, 4.0, 358.0)
  {
    var ids := [0, 1];
    assert ids[..1] == [0] && [0][..0] == [];
    assert WeightSum(TwoRoots(), [0]) == 3.0;
    assert NonZeroCount(TwoRoots(), [0]) == 1;
  }

  /** B starts after a 1-degree offset and takes 3/4 of 358 degrees; C starts one degree after
      B's end, takes the rest, and ends at 360 degrees. */
  lemma TwoRootsArcs(pass: Pass)
    ensures ArcAt(pass, TwoRoots(), 1.0, [0, 1], RootSpan, 0) == Arc(1.0, 268.5)
    ensures ArcAt(pass, TwoRoots(), 1.0, [0, 1], RootSpan, 1) == Arc(270.5, 89.5)
    ensures CursorAt(pass, TwoRoots(), 1.0, [0, 1], RootSpan, 2).nodeStart == 360.0
  {
    TwoRootsLevel();
    assert CursorAt(pass, TwoRoots(), 1.0, [0, 1], RootSpan, 1) == Cursor(269.5, 1);
  }

  /** Both passes lay the two roots out as B then C, keyed by their labels. */
  lemma TwoRootsLayout(pass: Pass)
    ensures Layout(pass, TwoRoots(), 1.0, [0, 1], RootSpan)
         == [Placement(0, "B", Arc(1.0, 268.5)), Placement(1, "C", Arc(270.5, 89.5))]
  {
    var nodes := TwoRoots();
    TwoRootsArcs(pass);
    assert LayoutFrom(pass, nodes, 1.0, [0, 1], RootSpan, 2) == [];
    assert SubtreeLayout(pass, nodes, 1.0, [0, 1], RootSpan, 1) == [Placement(1, "C", Arc(270.5, 89.5))];
    assert SubtreeLayout(pass, nodes, 1.0, [0, 1], RootSpan, 0) == [Placement(0, "B", Arc(1.0, 268.5))];
  }

  /** Root A (weight 0) with children B (weight 3) and C (weight 1). */
  function ZeroParent(): (nodes: seq<TreeNode>)
    ensures WellFormed(nodes) && NonNegative(nodes)
  {
    var nodes := [TreeNode(None, [1, 2], "A", 1, 0.0, 0, 0),
                  TreeNode(Some(0), [], "B", 2, 3.0, 0, 0),
                  TreeNode(Some(0), [], "C", 2, 1.0, 0, 0)];
    assert ParentLink(nodes, 1) && ParentLink(nodes, 2) && ChildLinks(nodes, 0);
    nodes
  }

  /** A is the only root and has no weight: it gets no offset and an empty arc at 0 degrees. */
  lemma ZeroParentRootArc(pass: Pass)
    ensures ArcAt(pass, ZeroParent(), 1.0, [0], RootSpan, 0) == Arc(0.0, 0.0)
  {
    assert [0][..0] == [];
    assert LevelOf(ZeroParent(), 1.0, [0], RootSpan) == Level(1, 0.0, FullCircle);
  }

  /** Below A the children weigh 4 and one gap is reserved out of A's empty sweep: B gets no
      offset and -0.75 degrees, C an offset and -0.25 degrees. */
  lemma ZeroParentChildArcs(pass: Pass)
    ensures ArcAt(pass, ZeroParent(), 1.0, [1, 2], Span(0.0, 0.0, 0.0), 0) == Arc(0.0, -0.75)
    ensures ArcAt(pass, ZeroParent(), 1.0, [1, 2], Span(0.0, 0.0, 0.0), 1) == Arc(0.25, -0.25)
  {
    ZeroParentChildLevel();
    assert CursorAt(pass, ZeroParent(), 1.0, [1, 2], Span(0.0, 0.0, 0.0), 1) == Cursor(-0.75, 1);
  }

  /** The children of A weigh 4 together, both count, and one 1-degree gap out of A's empty
      sweep leaves -1 degree. */
  lemma ZeroParentChildLevel()
    ensures LevelOf(ZeroParent(), 1.0, [1, 2], Span(0.0, 0.0, 0.0)) == Level(2, 4.0, -1.0)
  {
    var ids := [1, 2];
    assert ids[..1] == [1] && [1][..0] == [];
    assert WeightSum(ZeroParent(), [1]) == 3.0;
    assert NonZeroCount(ZeroParent(), [1]) == 1;
  }

  /** Inside A's empty arc both passes place B, then C, keyed by their paths. */
  lemma ZeroParentChildLayout(pass: Pass)
    ensures Layout(pass, ZeroParent(), 1.0, [1, 2], Span(0.0, 0.0, 0.0))
         == [Placement(1, "A/B", Arc(0.0, -0.75)), Placement(2, "A/C", Arc(0.25, -0.25))]
  {
    var nodes := ZeroParent();
    var span := Span(0.0, 0.0, 0.0);
    ZeroParentChildArcs(pass);
    assert Path(nodes, 0) == "A";
    assert Path(nodes, 1) == "A/B" && Path(nodes, 2) == "A/C";
    assert LayoutFrom(pass, nodes, 1.0, [1, 2], span, 2) == [];
    assert LayoutFrom(pass, nodes, 1.0, [1, 2], span, 1) == [Placement(2, "A/C", Arc(0.25, -0.25))];
  }

  /** Both passes place A, then B and C with negative sweeps inside A's empty arc. */
  lemma ZeroParentLayout(pass: Pass)
    ensures Layout(pass, ZeroParent(), 1.0, [0], RootSpan)
         == [Placement(0, "A", Arc(0.0, 0.0)), Placement(1, "A/B", Arc(0.0, -0.75)), Placement(2, "A/C", Arc(0.25, -0.25))]
  {
    var nodes := ZeroParent();
    ZeroParentRootArc(pass);
    ZeroParentChildLayout(pass);
    assert Path(nodes, 0) == "A";
    assert LayoutFrom(pass, nodes, 1.0, [0], RootSpan, 1) == [];
  }
}
