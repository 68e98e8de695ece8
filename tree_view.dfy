/**
 * The radial layout passes of the view (TreeView.java): makeDrawableTreeNodes fills the
 * drawables map, updateDrawableTreeNodes rewrites the arcs already in it or records one
 * animation per drawable.  A drawable is represented by its (start, sweep) arc, keyed by
 * the node's path; an animator by its old and new arc.
 */
module View {
  import opened Wrappers
  import opened TreeNodes
  import opened Adapter
  import opened RadialLayout
  import opened LayoutProperties

  /** The first loop of both passes: sum the weights, count the positive ones and take the
      first sibling's depth. */
  method ScanSiblings(nodes: seq<TreeNode>, siblings: seq<NodeId>) returns (totalWeight: real, nonZeroNodeCounter: nat, depth: int)
    requires InRange(nodes, siblings) && forall j :: 0 <= j < |siblings| ==> nodes[siblings[j]].depth >= 1
    ensures totalWeight == WeightSum(nodes, siblings)
    ensures nonZeroNodeCounter == NonZeroCount(nodes, siblings)
    ensures depth == FirstDepth(nodes, siblings)
  {
    totalWeight := 0.0;
    depth := -1;
    nonZeroNodeCounter := 0;
    var k := 0;
    while k < |siblings|
      invariant 0 <= k <= |siblings|
      invariant totalWeight == WeightSum(nodes, siblings[..k])
      invariant nonZeroNodeCounter == NonZeroCount(nodes, siblings[..k])
      invariant k == 0 ==> depth == -1
      invariant k > 0 ==> depth == nodes[siblings[0]].depth >= 1
    {
      var node := nodes[siblings[k]];
      assert siblings[..k + 1][..k] == siblings[..k];
      totalWeight := totalWeight + node.weight;
      if node.weight > 0.0 {
        nonZeroNodeCounter := nonZeroNodeCounter + 1;
      }
      if depth == -1 {
        depth := node.depth;
      }
      k := k + 1;
    }
    assert siblings[..k] == siblings;
  }

  /** The level both passes share: the first loop, then the parent-weight override and the
      reserved gaps. */
  method MeasureLevel(nodes: seq<TreeNode>, skipLength: real, siblings: seq<NodeId>, span: Span) returns (level: Level)
    requires InRange(nodes, siblings) && forall j :: 0 <= j < |siblings| ==> nodes[siblings[j]].depth >= 1
    ensures level == LevelOf(nodes, skipLength, siblings, span)
  {
    var totalWeight, nonZeroNodeCounter, depth := ScanSiblings(nodes, siblings);
    if span.parentWeight > 0.0 && !(span.parentWeight < totalWeight) {
      totalWeight := span.parentWeight;
    }
    var parentSweep := span.sweep;
    if nonZeroNodeCounter > 1 {
      parentSweep := parentSweep - ((nonZeroNodeCounter - if depth <= 1 then 0 else 1) as real) * skipLength;
    }
    level := Level(depth, totalWeight, parentSweep);
  }

  /** The arc the build pass gives one node: the leading offset, the proportional sweep, and
      the clamp against 360, which applies to every node. */
  method BuildArc(level: Level, node: TreeNode, cursor: Cursor) returns (arc: Arc)
    requires node.weight > 0.0 ==> level.totalWeight >= node.weight
    ensures arc == NodeArc(Build, level, node, cursor)
  {
    var nodeStart := cursor.nodeStart;
    var nodeSweep := 0.0;
    if node.weight > 0.0 {
      if node.depth <= 1 || cursor.nonZeroWeightIndex > 0 {
        nodeStart := nodeStart + 1.0;
      }
      nodeSweep := node.weight / level.totalWeight * level.usableSweep;
    }
    if nodeStart + nodeSweep > Ceiling {
      nodeSweep := Ceiling - nodeStart;
    }
    arc := Arc(nodeStart, nodeSweep);
  }

  /** The arc the update pass gives one node: as in the build pass, except that the clamp
      applies to positive-weight nodes only. */
  method UpdateArc(level: Level, node: TreeNode, cursor: Cursor) returns (arc: Arc)
    requires node.weight > 0.0 ==> level.totalWeight >= node.weight
    ensures arc == NodeArc(Update, level, node, cursor)
  {
    var nodeStart := cursor.nodeStart;
    var nodeSweep := 0.0;
    if node.weight > 0.0 {
      if node.depth <= 1 || cursor.nonZeroWeightIndex > 0 {
        nodeStart := nodeStart + 1.0;
      }
      nodeSweep := node.weight / level.totalWeight * level.usableSweep;
      if nodeStart + nodeSweep > Ceiling {
        nodeSweep := Ceiling - nodeStart;
      }
    }
    arc := Arc(nodeStart, nodeSweep);
  }

  lemma Associate<T>(a: seq<T>, b: seq<T>, c: seq<T>)
    ensures (a + b) + c == a + (b + c)
  {
  }

  class TreeView {
    const adapter: TreeAdapter
    const skipLength: real
    const doAnimate: bool
    /** drawableTreeNodes: the arc of each drawable, keyed by node path. */
    var drawableTreeNodes: map<string, Arc>
    /** animators: one per drawable the last update pass animated. */
    var animators: seq<Animation>

    /** A view showing `adapter` (the constructor followed by setTreeMapAdapter): no drawables yet. */
    constructor (adapter: TreeAdapter, skipLength: real, doAnimate: bool)
      ensures this.adapter == adapter && this.skipLength == skipLength && this.doAnimate == doAnimate
      ensures drawableTreeNodes == map[] && animators == []
    {
      this.adapter := adapter;
      this.skipLength := skipLength;
      this.doAnimate := doAnimate;
      drawableTreeNodes := map[];
      animators := [];
    }

    /** What the layout passes need of the tree: a well-formed heap without negative weights. */
    ghost predicate Drawable()
      reads adapter.heap
    {
      WellFormed(adapter.heap.nodes) && NonNegative(adapter.heap.nodes)
    }

    /** makeDrawableTreeNodes: put one drawable per node of the subtrees of `nodes`, in pre-order,
        each with the arc the build pass gives it. */
    method MakeDrawableTreeNodes(nodes: seq<NodeId>, parentStart: real, parentSweep: real, parentWeight: real)
      requires Drawable() && InRange(adapter.heap.nodes, nodes)
      modifies this`drawableTreeNodes
      decreases |adapter.heap.nodes| - Lowest(nodes, |adapter.heap.nodes|), 1
      ensures drawableTreeNodes ==
              PutAll(old(drawableTreeNodes), Layout(Build, adapter.heap.nodes, skipLength, nodes, Span(parentStart, parentSweep, parentWeight)))
    {
      var heap := adapter.heap.nodes;
      var span := Span(parentStart, parentSweep, parentWeight);
      ghost var m0 := drawableTreeNodes;
      DepthsPositive(heap);
      var level := MeasureLevel(heap, skipLength, nodes, span);
      var nodeStart := parentStart;
      var nonZeroWeightIndex := 0;
      ghost var done: seq<Placement> := [];
      var k := 0;
      while k < |nodes|
        invariant 0 <= k <= |nodes|
        invariant Cursor(nodeStart, nonZeroWeightIndex) == CursorAt(Build, heap, skipLength, nodes, span, k)
        invariant done + LayoutFrom(Build, heap, skipLength, nodes, span, k) == Layout(Build, heap, skipLength, nodes, span)
        invariant drawableTreeNodes == PutAll(m0, done)
      {
        ghost var sub := SubtreeLayout(Build, heap, skipLength, nodes, span, k);
        ghost var rest := LayoutFrom(Build, heap, skipLength, nodes, span, k + 1);
        assert LayoutFrom(Build, heap, skipLength, nodes, span, k) == sub + rest;
        nodeStart, nonZeroWeightIndex := MakeDrawableSubtree(nodes, span, level, k, nodeStart, nonZeroWeightIndex);
        PutAllAppend(m0, done, sub);
        Associate(done, sub, rest);
        done := done + sub;
        k := k + 1;
      }
      assert done == done + LayoutFrom(Build, heap, skipLength, nodes, span, k);
    }

    /** One round of makeDrawableTreeNodes' second loop: sibling `k`'s drawable, then (by
        recursion) its children's; returns the cursor for sibling `k + 1`. */
    method MakeDrawableSubtree(nodes: seq<NodeId>, span: Span, level: Level, k: nat, nodeStart: real, nonZeroWeightIndex: nat)
      returns (nextStart: real, nextIndex: nat)
      requires Drawable() && InRange(adapter.heap.nodes, nodes) && k < |nodes|
      requires level == LevelOf(adapter.heap.nodes, skipLength, nodes, span)
      requires Cursor(nodeStart, nonZeroWeightIndex) == CursorAt(Build, adapter.heap.nodes, skipLength, nodes, span, k)
      modifies this`drawableTreeNodes
      decreases |adapter.heap.nodes| - Lowest(nodes, |adapter.heap.nodes|), 0
      ensures Cursor(nextStart, nextIndex) == CursorAt(Build, adapter.heap.nodes, skipLength, nodes, span, k + 1)
      ensures drawableTreeNodes == PutAll(old(drawableTreeNodes), SubtreeLayout(Build, adapter.heap.nodes, skipLength, nodes, span, k))
    {
      var heap := adapter.heap.nodes;
      var id := nodes[k];
      var node := heap[id];
      LayoutStep(Build, heap, skipLength, nodes, span, k);
      var arc := BuildArc(level, node, Cursor(nodeStart, nonZeroWeightIndex));
      assert arc == ArcAt(Build, heap, skipLength, nodes, span, k);
      nextIndex := nonZeroWeightIndex;
      if node.weight > 0.0 {
        nextIndex := nextIndex + 1;
      }
      nextStart := arc.start + arc.sweep;
      assert Cursor(nextStart, nextIndex) == CursorAt(Build, heap, skipLength, nodes, span, k + 1);
      var p := Placement(id, Path(heap, id), arc);
      drawableTreeNodes := drawableTreeNodes[p.path := arc];
      assert drawableTreeNodes == PutAll(old(drawableTreeNodes), [p]);
      if |node.children| > 0 {
        MakeDrawableTreeNodes(node.children, arc.start, arc.sweep, node.weight);
        PutAllAppend(old(drawableTreeNodes), [p], Layout(Build, heap, skipLength, node.children, ChildSpan(heap, id, arc)));
      } else {
        assert [p] + [] == [p];
      }
      assert adapter.heap.nodes == heap;
    }

    /** updateDrawableTreeNodes: the update pass over the subtrees of `nodes`.  Every drawable it
        visits must already be in the map (otherwise the source dereferences null).  Animated, it
        records one animation per visited drawable, from the arc in the map to the new one, and
        leaves the map alone; otherwise it overwrites the arcs in place.  Either way the keys
        stay as they were. */
    method UpdateDrawableTreeNodes(nodes: seq<NodeId>, parentStart: real, parentSweep: real, parentWeight: real)
      requires Drawable() && InRange(adapter.heap.nodes, nodes)
      requires Keyed(drawableTreeNodes, Layout(Update, adapter.heap.nodes, skipLength, nodes, Span(parentStart, parentSweep, parentWeight)))
      modifies this`drawableTreeNodes, this`animators
      decreases |adapter.heap.nodes| - Lowest(nodes, |adapter.heap.nodes|), 1
      ensures (drawableTreeNodes, animators) ==
              UpdateEffect(doAnimate, old(drawableTreeNodes), old(animators),
                           Layout(Update, adapter.heap.nodes, skipLength, nodes, Span(parentStart, parentSweep, parentWeight)))
    {
      var heap := adapter.heap.nodes;
      var span := Span(parentStart, parentSweep, parentWeight);
      ghost var all := Layout(Update, heap, skipLength, nodes, span);
      ghost var m0 := drawableTreeNodes;
      ghost var a0 := animators;
      DepthsPositive(heap);
      var level := MeasureLevel(heap, skipLength, nodes, span);
      var nodeStart := parentStart;
      var nonZeroWeightIndex := 0;
      ghost var done: seq<Placement> := [];
      UpdateEffectEmpty(doAnimate, m0, a0);
      var k := 0;
      while k < |nodes|
        invariant 0 <= k <= |nodes|
        invariant Cursor(nodeStart, nonZeroWeightIndex) == CursorAt(Update, heap, skipLength, nodes, span, k)
        invariant done + LayoutFrom(Update, heap, skipLength, nodes, span, k) == all
        invariant Keyed(m0, done)
        invariant (drawableTreeNodes, animators) == UpdateEffect(doAnimate, m0, a0, done)
      {
        ghost var sub := SubtreeLayout(Update, heap, skipLength, nodes, span, k);
        ghost var rest := LayoutFrom(Update, heap, skipLength, nodes, span, k + 1);
        assert LayoutFrom(Update, heap, skipLength, nodes, span, k) == sub + rest;
        Associate(done, sub, rest);
        KeyedSplit(m0, all, done, sub, rest);
        UpdateEffectKeys(doAnimate, m0, a0, done);
        nodeStart, nonZeroWeightIndex := UpdateDrawableSubtree(nodes, span, level, k, nodeStart, nonZeroWeightIndex);
        UpdateEffectAppend(doAnimate, m0, a0, done, sub);
        done := done + sub;
        k := k + 1;
      }
      assert done == done + LayoutFrom(Update, heap, skipLength, nodes, span, k);
    }

    /** One round of updateDrawableTreeNodes' second loop: sibling `k`'s drawable, then (by
        recursion) its children's; returns the cursor for sibling `k + 1`. */
    method UpdateDrawableSubtree(nodes: seq<NodeId>, span: Span, level: Level, k: nat, nodeStart: real, nonZeroWeightIndex: nat)
      returns (nextStart: real, nextIndex: nat)
      requires Drawable() && InRange(adapter.heap.nodes, nodes) && k < |nodes|
      requires level == LevelOf(adapter.heap.nodes, skipLength, nodes, span)
      requires Cursor(nodeStart, nonZeroWeightIndex) == CursorAt(Update, adapter.heap.nodes, skipLength, nodes, span, k)
      requires Keyed(drawableTreeNodes, SubtreeLayout(Update, adapter.heap.nodes, skipLength, nodes, span, k))
      modifies this`drawableTreeNodes, this`animators
      decreases |adapter.heap.nodes| - Lowest(nodes, |adapter.heap.nodes|), 0
      ensures Cursor(nextStart, nextIndex) == CursorAt(Update, adapter.heap.nodes, skipLength, nodes, span, k + 1)
      ensures (drawableTreeNodes, animators) ==
              UpdateEffect(doAnimate, old(drawableTreeNodes), old(animators),
                           SubtreeLayout(Update, adapter.heap.nodes, skipLength, nodes, span, k))
    {
      var heap := adapter.heap.nodes;
      var id := nodes[k];
      var node := heap[id];
      LayoutStep(Update, heap, skipLength, nodes, span, k);
      var arc := UpdateArc(level, node, Cursor(nodeStart, nonZeroWeightIndex));
      assert arc == ArcAt(Update, heap, skipLength, nodes, span, k);
      nextIndex := nonZeroWeightIndex;
      if node.weight > 0.0 {
        nextIndex := nextIndex + 1;
      }
      nextStart := arc.start + arc.sweep;
      assert Cursor(nextStart, nextIndex) == CursorAt(Update, heap, skipLength, nodes, span, k + 1);
      var p := Placement(id, Path(heap, id), arc);
      ghost var below := if |node.children| > 0 then Layout(Update, heap, skipLength, node.children, ChildSpan(heap, id, arc)) else [];
      KeyedAppend(drawableTreeNodes, [p], below);
      UpdateEffectSingle(doAnimate, drawableTreeNodes, animators, p);
      if doAnimate {
        animators := animators + [Animation(p.path, drawableTreeNodes[p.path], arc)];
      } else {
        drawableTreeNodes := drawableTreeNodes[p.path := arc];
      }
      if |node.children| > 0 {
        UpdateDrawableTreeNodes(node.children, arc.start, arc.sweep, node.weight);
        UpdateEffectAppend(doAnimate, old(drawableTreeNodes), old(animators), [p], below);
      } else {
        assert [p] + below == [p];
      }
      assert adapter.heap.nodes == heap;
    }

    /** loadDrawablesFromAdapter: clear the map, then lay out the roots over the full circle.
        Afterwards there is exactly one key per node path. */
    method LoadDrawablesFromAdapter()
      requires adapter.Valid() && Drawable()
      modifies this`drawableTreeNodes
      ensures drawableTreeNodes == PutAll(map[], Layout(Build, adapter.heap.nodes, skipLength, adapter.rootNodes, RootSpan))
      ensures drawableTreeNodes.Keys == AllPaths(adapter.heap.nodes)
    {
      drawableTreeNodes := map[];
      MakeDrawableTreeNodes(adapter.rootNodes, 0.0, FullCircle, -1.0);
      LayoutPaths(Build, adapter.heap.nodes, skipLength, adapter.rootNodes, RootSpan);
      PutAllSpec(map[], Layout(Build, adapter.heap.nodes, skipLength, adapter.rootNodes, RootSpan));
    }

    /** onWeightsChanged: with no drawables, rebuild; otherwise drop the old animators (when
        animating) and run the update pass over the full circle.  The drawables must have been
        built for the current tree: every node's path is a key. */
    method OnWeightsChanged()
      requires adapter.Valid() && Drawable()
      requires |drawableTreeNodes| > 0 ==> AllPaths(adapter.heap.nodes) <= drawableTreeNodes.Keys
      modifies this`drawableTreeNodes, this`animators
      ensures var nodes := adapter.heap.nodes;
              if |old(drawableTreeNodes)| == 0 then
                drawableTreeNodes == PutAll(map[], Layout(Build, nodes, skipLength, adapter.rootNodes, RootSpan)) &&
                drawableTreeNodes.Keys == AllPaths(nodes) && animators == old(animators)
              else if doAnimate then
                drawableTreeNodes == old(drawableTreeNodes) &&
                Keyed(old(drawableTreeNodes), Layout(Update, nodes, skipLength, adapter.rootNodes, RootSpan)) &&
                animators == Animations(old(drawableTreeNodes), Layout(Update, nodes, skipLength, adapter.rootNodes, RootSpan))
              else
                drawableTreeNodes == PutAll(old(drawableTreeNodes), Layout(Update, nodes, skipLength, adapter.rootNodes, RootSpan)) &&
                animators == old(animators)
    {
      if |drawableTreeNodes| == 0 {
        LoadDrawablesFromAdapter();
      } else {
        if doAnimate {
          animators := [];
        }
        LayoutPaths(Update, adapter.heap.nodes, skipLength, adapter.rootNodes, RootSpan);
        KeyedPaths(drawableTreeNodes, Layout(Update, adapter.heap.nodes, skipLength, adapter.rootNodes, RootSpan));
        UpdateDrawableTreeNodes(adapter.rootNodes, 0.0, FullCircle, -1.0);
      }
    }
  }
}
