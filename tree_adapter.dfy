/**
 * The tree container (TreeAdapter.java): the ordered root list, the running maximum
 * depth, and weight updates addressed by a path of labels.
 */
module Adapter {
  import opened Wrappers
  import opened TreeNodes

  /** The two ways a label path can fail to resolve (both NoSuchElementException in the source). */
  datatype LookupError =
    | SegmentNotFound(nodePath: seq<string>)  // some segment matched no candidate label
    | EmptyPath                               // no segment at all

  /** The position of the first candidate whose label is `name`. */
  function FirstMatch(nodes: seq<TreeNode>, candidates: seq<NodeId>, name: string): (r: Option<nat>)
    requires InRange(nodes, candidates)
    ensures r.Some? ==> r.value < |candidates| && nodes[candidates[r.value]].name == name &&
                        forall j :: 0 <= j < r.value ==> nodes[candidates[j]].name != name
    ensures r.None? <==> forall j :: 0 <= j < |candidates| ==> nodes[candidates[j]].name != name
  {
    if |candidates| == 0 then None
    else if nodes[candidates[0]].name == name then Some(0)
    else
      match FirstMatch(nodes, candidates[1..], name)
      case None => None
      case Some(j) => Some(j + 1)
  }

  /** The walk of updateWeight/addWeight: at each level take the first candidate with the
      segment's label, then continue among its children. */
  function Descend(nodes: seq<TreeNode>, candidates: seq<NodeId>, segments: seq<string>): (r: Option<NodeId>)
    requires WellFormed(nodes) && InRange(nodes, candidates) && |segments| > 0
    ensures r.Some? ==> r.value < |nodes| && nodes[r.value].name == segments[|segments| - 1]
    decreases |segments|
  {
    match FirstMatch(nodes, candidates, segments[0])
    case None => None
    case Some(j) =>
      var node := candidates[j];
      if |segments| == 1 then Some(node)
      else
        assert ChildLinks(nodes, node);
        Descend(nodes, nodes[node].children, segments[1..])
  }

  /** The node a label path designates, or why there is none. */
  function Resolve(nodes: seq<TreeNode>, roots: seq<NodeId>, nodePath: seq<string>): (r: Result<NodeId, LookupError>)
    requires WellFormed(nodes) && InRange(nodes, roots)
    ensures r.Success? ==> r.value < |nodes| && |nodePath| > 0 && nodes[r.value].name == nodePath[|nodePath| - 1]
    ensures r == Failure(EmptyPath) <==> |nodePath| == 0
    ensures r.Failure? && |nodePath| > 0 ==> r.error == SegmentNotFound(nodePath)
  {
    if |nodePath| == 0 then Failure(EmptyPath)
    else
      match Descend(nodes, roots, nodePath)
      case None => Failure(SegmentNotFound(nodePath))
      case Some(node) => Success(node)
  }

  /** Label segments joined by "/". */
  function JoinPath(segments: seq<string>): string
    requires |segments| > 0
  {
    if |segments| == 1 then segments[0] else segments[0] + "/" + JoinPath(segments[1..])
  }

  /** The largest depth of any node, 0 for an empty heap. */
  function MaxDepth(nodes: seq<TreeNode>): (d: int)
    ensures d >= 0 && forall i :: 0 <= i < |nodes| ==> nodes[i].depth <= d
  {
    if |nodes| == 0 then 0
    else
      var rest := MaxDepth(nodes[..|nodes| - 1]);
      var last := nodes[|nodes| - 1].depth;
      if last > rest then last else rest
  }

  /** The root list: parentless nodes, each listed once in creation order, covering every tree of the heap. */
  predicate RootsValid(nodes: seq<TreeNode>, roots: seq<NodeId>) {
    InRange(nodes, roots) &&
    (forall j :: 0 <= j < |roots| ==> nodes[roots[j]].parent.None?) &&
    (forall j, j' :: 0 <= j < j' < |roots| ==> roots[j] < roots[j']) &&
    WellFormed(nodes) && (forall i :: 0 <= i < |nodes| ==> RootOf(nodes, i) in roots)
  }

  /** A label path that resolves below `parent` names a node whose path extends the parent's path
      by the joined segments, one level per segment. */
  lemma {:induction false} DescendFollowsPath(nodes: seq<TreeNode>, parent: NodeId, segments: seq<string>)
    requires WellFormed(nodes) && parent < |nodes| && |segments| > 0
    requires InRange(nodes, nodes[parent].children)
    requires Descend(nodes, nodes[parent].children, segments).Some?
    ensures var node := Descend(nodes, nodes[parent].children, segments).value;
            Path(nodes, node) == Path(nodes, parent) + "/" + JoinPath(segments) &&
            nodes[node].depth == nodes[parent].depth + |segments|
    decreases |segments|
  {
    var kids := nodes[parent].children;
    var j := FirstMatch(nodes, kids, segments[0]).value;
    var child := kids[j];
    ChildStep(nodes, parent, j);
    assert Path(nodes, child) == Path(nodes, parent) + "/" + segments[0];
    if |segments| > 1 {
      assert ChildLinks(nodes, child);
      var rest := segments[1..];
      assert Descend(nodes, kids, segments) == Descend(nodes, nodes[child].children, rest);
      DescendFollowsPath(nodes, child, rest);
      var node := Descend(nodes, nodes[child].children, rest).value;
      assert JoinPath(segments) == segments[0] + "/" + JoinPath(rest);
      SlashAssociates(Path(nodes, parent), segments[0], JoinPath(rest));
    }
  }

  lemma SlashAssociates(a: string, x: string, r: string)
    ensures (a + "/" + x) + "/" + r == a + "/" + (x + "/" + r)
  {
  }

  /** One step down: a child's path and depth extend its parent's. */
  lemma ChildStep(nodes: seq<TreeNode>, parent: NodeId, j: nat)
    requires WellFormed(nodes) && parent < |nodes| && j < |nodes[parent].children|
    ensures var child := nodes[parent].children[j];
            child < |nodes| &&
            Path(nodes, child) == Path(nodes, parent) + "/" + nodes[child].name &&
            nodes[child].depth == nodes[parent].depth + 1
  {
    assert ChildLinks(nodes, parent);
    assert ParentLink(nodes, nodes[parent].children[j]);
  }

  /** A label path that resolves from the roots names the node whose getPath is the joined
      segments, at depth |segments|. */
  lemma ResolvedNodeHasPath(nodes: seq<TreeNode>, roots: seq<NodeId>, nodePath: seq<string>)
    requires RootsValid(nodes, roots)
    requires Resolve(nodes, roots, nodePath).Success?
    ensures var node := Resolve(nodes, roots, nodePath).value;
            Path(nodes, node) == JoinPath(nodePath) && nodes[node].depth == |nodePath|
  {
    var j := FirstMatch(nodes, roots, nodePath[0]).value;
    var root := roots[j];
    assert ParentLink(nodes, root);
    if |nodePath| > 1 {
      assert ChildLinks(nodes, root);
      DescendFollowsPath(nodes, root, nodePath[1..]);
    }
  }

  /** The walk only reads labels and child lists, so it gives the same answer after a weight change. */
  lemma {:induction false} DescendIgnoresWeights(a: seq<TreeNode>, b: seq<TreeNode>, candidates: seq<NodeId>,
                                                 segments: seq<string>)
    requires WellFormed(a) && SameShape(a, b) && InRange(a, candidates) && |segments| > 0
    ensures WellFormed(b) && Descend(b, candidates, segments) == Descend(a, candidates, segments)
    decreases |segments|
  {
    SameShapeWellFormed(a, b);
    SameShapeFirstMatch(a, b, candidates, segments[0]);
    match FirstMatch(a, candidates, segments[0])
    case None =>
    case Some(j) =>
      var node := candidates[j];
      assert a[node].(weight := b[node].weight) == b[node];
      if |segments| > 1 {
        assert ChildLinks(a, node);
        DescendIgnoresWeights(a, b, a[node].children, segments[1..]);
      }
  }

  lemma {:induction false} SameShapeFirstMatch(a: seq<TreeNode>, b: seq<TreeNode>, candidates: seq<NodeId>, name: string)
    requires SameShape(a, b) && InRange(a, candidates)
    ensures FirstMatch(b, candidates, name) == FirstMatch(a, candidates, name)
  {
    if |candidates| > 0 {
      assert a[candidates[0]].(weight := b[candidates[0]].weight) == b[candidates[0]];
      SameShapeFirstMatch(a, b, candidates[1..], name);
    }
  }

  lemma {:induction false} MaxDepthSameDepths(a: seq<TreeNode>, b: seq<TreeNode>)
    requires |a| == |b| && forall i :: 0 <= i < |a| ==> a[i].depth == b[i].depth
    ensures MaxDepth(a) == MaxDepth(b)
  {
    if |a| > 0 {
      MaxDepthSameDepths(a[..|a| - 1], b[..|b| - 1]);
    }
  }

  lemma DepthsPositive(nodes: seq<TreeNode>)
    requires WellFormed(nodes)
    ensures forall i :: 0 <= i < |nodes| ==> nodes[i].depth >= 1
  {
    forall i | 0 <= i < |nodes| ensures nodes[i].depth >= 1 {
      assert ParentLink(nodes, i);
    }
  }

  lemma {:induction false} MaxDepthAttained(nodes: seq<TreeNode>)
    requires |nodes| > 0 && forall i :: 0 <= i < |nodes| ==> nodes[i].depth >= 0
    ensures exists i :: 0 <= i < |nodes| && nodes[i].depth == MaxDepth(nodes)
  {
    var n := |nodes|;
    if n > 1 && nodes[n - 1].depth <= MaxDepth(nodes[..n - 1]) {
      MaxDepthAttained(nodes[..n - 1]);
      var i :| 0 <= i < n - 1 && nodes[..n - 1][i].depth == MaxDepth(nodes[..n - 1]);
      assert nodes[i].depth == MaxDepth(nodes);
    } else {
      assert nodes[n - 1].depth == MaxDepth(nodes);
    }
  }

  /** Every heap weight change keeps the container invariant. */
  lemma SameShapeRootsValid(a: seq<TreeNode>, b: seq<TreeNode>, roots: seq<NodeId>)
    requires RootsValid(a, roots) && SameShape(a, b)
    ensures RootsValid(b, roots) && MaxDepth(b) == MaxDepth(a)
  {
    SameShapeWellFormed(a, b);
    forall i | 0 <= i < |b| ensures RootOf(b, i) in roots {
      LinksDetermine(a, b, |a|, i);
    }
    forall j | 0 <= j < |roots| ensures b[roots[j]].parent.None? {
      assert a[roots[j]].(weight := b[roots[j]].weight) == b[roots[j]];
    }
    forall i | 0 <= i < |a| ensures a[i].depth == b[i].depth {
      assert a[i].(weight := b[i].weight) == b[i];
    }
    MaxDepthSameDepths(a, b);
  }

  /** Adding d and then -d at the same path restores every weight, since the first change leaves
      the walk's answer unchanged. */
  lemma AddWeightRoundTrip(nodes: seq<TreeNode>, roots: seq<NodeId>, nodePath: seq<string>, d: real)
    requires WellFormed(nodes) && InRange(nodes, roots)
    requires Resolve(nodes, roots, nodePath).Success?
    ensures var node := Resolve(nodes, roots, nodePath).value;
            var once := SetWeightAt(nodes, node, nodes[node].weight + d);
            WellFormed(once) && Resolve(once, roots, nodePath) == Success(node) &&
            SetWeightAt(once, node, once[node].weight + -d) == nodes
  {
    var node := Resolve(nodes, roots, nodePath).value;
    var once := SetWeightAt(nodes, node, nodes[node].weight + d);
    DescendIgnoresWeights(nodes, once, roots, nodePath);
    assert SetWeightAt(once, node, once[node].weight + -d) == nodes;
  }

  /** Appending a child keeps the root list valid, and the maximum depth grows to at most the child's depth. */
  lemma AppendChildRootsValid(before: seq<TreeNode>, parent: NodeId, after: seq<TreeNode>, roots: seq<NodeId>)
    requires RootsValid(before, roots) && parent < |before| && |after| == |before| + 1
    requires after[..|before|] == before[parent := before[parent].(children := before[parent].children + [|before|])]
    requires after[|before|] == TreeNode(Some(parent), [], after[|before|].name, before[parent].depth + 1,
                                         after[|before|].weight, after[|before|].colorResId, after[|before|].iconResId)
    ensures RootsValid(after, roots)
    ensures var d := before[parent].depth + 1;
            MaxDepth(after) == if MaxDepth(before) < d then d else MaxDepth(before)
  {
    var child := |before|;
    assert after == after[..child] + [after[child]];
    AppendChildWellFormed(before, parent, after[child], after);
    forall i | 0 <= i < child ensures RootOf(after, i) in roots {
      LinksDetermine(before, after, child, i);
    }
    LinksDetermine(before, after, child, parent);
    assert ParentLink(after, child);
    assert RootOf(after, child) == RootOf(after, parent);
    forall j | 0 <= j < |roots| ensures after[roots[j]].parent.None? {
      assert roots[j] < child;
      assert after[roots[j]] == after[..child][roots[j]];
    }
    MaxDepthSameDepths(before, after[..child]);
  }

  class TreeAdapter {
    const heap: NodeHeap
    var rootNodes: seq<NodeId>
    var depth: int

    ghost predicate Valid()
      reads this, heap
    {
      heap.Valid() && RootsValid(heap.nodes, rootNodes) && depth == MaxDepth(heap.nodes)
    }

    /** A new container: no roots, depth 0. */
    constructor ()
      ensures Valid() && fresh(heap)
      ensures heap.nodes == [] && rootNodes == [] && depth == 0
    {
      heap := new NodeHeap();
      rootNodes := [];
      depth := 0;
    }

    /** getDepth: the largest depth of any node, reached by some node; 0 exactly when there is none. */
    function GetDepth(): (d: int)
      reads this, heap
      requires Valid()
      ensures forall i :: 0 <= i < |heap.nodes| ==> heap.nodes[i].depth <= d
      ensures |heap.nodes| > 0 ==> exists i :: 0 <= i < |heap.nodes| && heap.nodes[i].depth == d
      ensures d == 0 <==> |heap.nodes| == 0
    {
      if |heap.nodes| > 0 then
        DepthsPositive(heap.nodes);
        MaxDepthAttained(heap.nodes);
        depth
      else depth
    }

    /** addRootNode: a new root appended to the end of the root list; depth becomes at least 1. */
    method AddRootNode(name: string, weight: real, colorResId: int, iconResId: int) returns (root: NodeId)
      requires Valid()
      modifies this, heap
      ensures Valid()
      ensures root == |old(heap.nodes)|
      ensures heap.nodes == old(heap.nodes) + [TreeNode(None, [], name, 1, weight, colorResId, iconResId)]
      ensures rootNodes == old(rootNodes) + [root]
      ensures depth == if old(depth) < 1 then 1 else old(depth)
    {
      root := heap.RootNode(name, weight, colorResId, iconResId);
      if heap.nodes[root].depth > depth {
        depth := heap.nodes[root].depth;
      }
      rootNodes := rootNodes + [root];
      forall i | 0 <= i < root ensures RootOf(heap.nodes, i) in rootNodes {
        LinksDetermine(old(heap.nodes), heap.nodes, root, i);
      }
    }

    /** addRootNode without a weight: the same with weight 0. */
    method AddUnweightedRootNode(name: string, colorResId: int, iconResId: int) returns (root: NodeId)
      requires Valid()
      modifies this, heap
      ensures Valid()
      ensures root == |old(heap.nodes)|
      ensures heap.nodes == old(heap.nodes) + [TreeNode(None, [], name, 1, 0.0, colorResId, iconResId)]
      ensures rootNodes == old(rootNodes) + [root]
      ensures depth == if old(depth) < 1 then 1 else old(depth)
    {
      root := AddRootNode(name, 0.0, colorResId, iconResId);
    }

    /** addChildNode: a new child of `parent`; depth becomes at least the child's depth. */
    method AddChildNode(parent: NodeId, name: string, weight: real, colorResId: int, iconResId: int)
      returns (child: NodeId)
      requires Valid() && parent < |heap.nodes|
      modifies this, heap
      ensures Valid()
      ensures child == |old(heap.nodes)| && rootNodes == old(rootNodes)
      ensures heap.nodes == old(heap.nodes)[parent := old(heap.nodes)[parent].(children := old(heap.nodes)[parent].children + [child])]
                            + [TreeNode(Some(parent), [], name, old(heap.nodes)[parent].depth + 1, weight, colorResId, iconResId)]
      ensures var d := old(heap.nodes)[parent].depth + 1; depth == if old(depth) < d then d else old(depth)
    {
      ghost var before := heap.nodes;
      child := heap.ChildNode(parent, name, weight, colorResId, iconResId);
      if heap.nodes[child].depth > depth {
        depth := heap.nodes[child].depth;
      }
      AppendChildRootsValid(before, parent, heap.nodes, rootNodes);
    }

    /** addChildNode without a weight: the same with weight 0. */
    method AddUnweightedChildNode(parent: NodeId, name: string, colorResId: int, iconResId: int)
      returns (child: NodeId)
      requires Valid() && parent < |heap.nodes|
      modifies this, heap
      ensures Valid()
      ensures child == |old(heap.nodes)| && rootNodes == old(rootNodes)
      ensures heap.nodes == old(heap.nodes)[parent := old(heap.nodes)[parent].(children := old(heap.nodes)[parent].children + [child])]
                            + [TreeNode(Some(parent), [], name, old(heap.nodes)[parent].depth + 1, 0.0, colorResId, iconResId)]
      ensures var d := old(heap.nodes)[parent].depth + 1; depth == if old(depth) < d then d else old(depth)
    {
      child := AddChildNode(parent, name, 0.0, colorResId, iconResId);
    }

    /** The lookup loop shared by updateWeight and addWeight: for each segment, scan the current
        candidates for the first matching label and descend into its children. */
    method Locate(nodePath: seq<string>) returns (r: Result<NodeId, LookupError>)
      requires Valid()
      ensures r == Resolve(heap.nodes, rootNodes, nodePath)
    {
      var nodes := heap.nodes;
      var possibleNodes := rootNodes;
      var i := 0;
      while i < |nodePath|
        invariant 0 <= i <= |nodePath| && InRange(nodes, possibleNodes)
        invariant i == |nodePath| ==> |nodePath| == 0
        invariant i < |nodePath| ==> Descend(nodes, rootNodes, nodePath) == Descend(nodes, possibleNodes, nodePath[i..])
      {
        var foundIt := false;
        var j := 0;
        while j < |possibleNodes|
          invariant 0 <= j <= |possibleNodes|
          invariant forall j' :: 0 <= j' < j ==> nodes[possibleNodes[j']].name != nodePath[i]
        {
          var node := possibleNodes[j];
          if nodePath[i] == nodes[node].name {
            assert FirstMatch(nodes, possibleNodes, nodePath[i]) == Some(j);
            if i == |nodePath| - 1 {
              return Success(node);
            }
            assert ChildLinks(nodes, node);
            assert nodePath[i..][1..] == nodePath[i + 1..];
            possibleNodes := nodes[node].children;
            foundIt := true;
            break;
          }
          j := j + 1;
        }
        if !foundIt {
          return Failure(SegmentNotFound(nodePath));
        }
        i := i + 1;
      }
      return Failure(EmptyPath);
    }

    /** updateWeight: set the weight of the node the path resolves to; on failure nothing changes. */
    method UpdateWeight(weight: real, nodePath: seq<string>) returns (outcome: Outcome<LookupError>)
      requires Valid()
      modifies heap
      ensures Valid()
      ensures match Resolve(old(heap.nodes), rootNodes, nodePath)
              case Success(node) => outcome == Pass && heap.nodes == SetWeightAt(old(heap.nodes), node, weight)
              case Failure(e) => outcome == Fail(e) && heap.nodes == old(heap.nodes)
    {
      var found := Locate(nodePath);
      match found
      case Success(node) =>
        heap.SetWeight(node, weight);
        SameShapeRootsValid(old(heap.nodes), heap.nodes, rootNodes);
        outcome := Pass;
      case Failure(e) =>
        outcome := Fail(e);
    }

    /** addWeight: add `weight` to the weight of the node the path resolves to; on failure nothing changes. */
    method AddWeight(weight: real, nodePath: seq<string>) returns (outcome: Outcome<LookupError>)
      requires Valid()
      modifies heap
      ensures Valid()
      ensures match Resolve(old(heap.nodes), rootNodes, nodePath)
              case Success(node) =>
                outcome == Pass && heap.nodes == SetWeightAt(old(heap.nodes), node, old(heap.nodes)[node].weight + weight)
              case Failure(e) => outcome == Fail(e) && heap.nodes == old(heap.nodes)
    {
      var found := Locate(nodePath);
      match found
      case Success(node) =>
        heap.SetWeight(node, heap.nodes[node].weight + weight);
        SameShapeRootsValid(old(heap.nodes), heap.nodes, rootNodes);
        outcome := Pass;
      case Failure(e) =>
        outcome := Fail(e);
    }

    /** resetWeights: every node's weight becomes 0; nothing else changes. */
    method ResetWeights()
      requires Valid()
      modifies heap
      ensures Valid()
      ensures |heap.nodes| == |old(heap.nodes)|
      ensures forall i :: 0 <= i < |heap.nodes| ==> heap.nodes[i] == old(heap.nodes)[i].(weight := 0.0)
    {
      ResetWeightsOf(rootNodes);
      forall i | 0 <= i < |heap.nodes| ensures heap.nodes[i] == old(heap.nodes)[i].(weight := 0.0) {
        var root := RootOf(old(heap.nodes), i);
        assert root in rootNodes && root in Lineage(old(heap.nodes), i);
      }
      SameShapeRootsValid(old(heap.nodes), heap.nodes, rootNodes);
    }

    /** The recursive resetWeights(nodeList): zero every node in the subtrees rooted at `nodeList`. */
    method ResetWeightsOf(nodeList: seq<NodeId>)
      requires heap.Valid() && InRange(heap.nodes, nodeList)
      modifies heap
      decreases |heap.nodes| - Lowest(nodeList, |heap.nodes|)
      ensures heap.Valid() && SameShape(old(heap.nodes), heap.nodes)
      ensures forall i :: 0 <= i < |heap.nodes| ==>
                heap.nodes[i] == if Covered(old(heap.nodes), nodeList, i) then old(heap.nodes)[i].(weight := 0.0)
                                 else old(heap.nodes)[i]
    {
      ghost var start := heap.nodes;
      var k := 0;
      while k < |nodeList|
        invariant 0 <= k <= |nodeList|
        invariant heap.Valid() && SameShape(start, heap.nodes)
        invariant forall i :: 0 <= i < |heap.nodes| ==>
                    heap.nodes[i] == if Covered(start, nodeList[..k], i) then start[i].(weight := 0.0) else start[i]
      {
        var node := nodeList[k];
        ghost var before := heap.nodes;
        heap.SetWeight(node, 0.0);
        ghost var mid := heap.nodes;
        assert SameShape(start, mid) by {
          forall i | 0 <= i < |start| ensures start[i].(weight := mid[i].weight) == mid[i] {
            assert start[i].(weight := before[i].weight) == before[i];
          }
        }
        SameShapeWellFormed(start, mid);
        assert ChildLinks(start, node);
        var children := heap.nodes[node].children;
        assert children == start[node].children;
        ChildrenAreLower(heap.nodes, nodeList, k);
        ResetWeightsOf(children);
        forall i | 0 <= i < |heap.nodes|
          ensures heap.nodes[i] == if Covered(start, nodeList[..k + 1], i) then start[i].(weight := 0.0) else start[i]
        {
          CoveredStep(start, nodeList, k, i);
          LinksDetermine(start, mid, |start|, i);
          assert Covered(mid, children, i) == Covered(start, children, i);
        }
        k := k + 1;
      }
      assert nodeList[..k] == nodeList;
    }
  }

  /** Node `i` lies in a subtree rooted at one of `nodeList`. */
  predicate Covered(nodes: seq<TreeNode>, nodeList: seq<NodeId>, i: NodeId)
    requires WellFormed(nodes) && i < |nodes|
  {
    exists s :: s in nodeList && s in Lineage(nodes, i)
  }

  lemma CoveredStep(nodes: seq<TreeNode>, nodeList: seq<NodeId>, k: nat, i: NodeId)
    requires WellFormed(nodes) && InRange(nodes, nodeList) && k < |nodeList| && i < |nodes|
    ensures Covered(nodes, nodeList[..k + 1], i) <==>
            Covered(nodes, nodeList[..k], i) || i == nodeList[k] || Covered(nodes, nodes[nodeList[k]].children, i)
  {
    var s := nodeList[k];
    assert nodeList[..k + 1] == nodeList[..k] + [s];
    LineageStep(nodes, s, i);
    assert ChildLinks(nodes, s);
    if Covered(nodes, nodes[s].children, i) {
      var c :| c in nodes[s].children && c in Lineage(nodes, i);
    }
  }

  /** The labels from the root down to node `i`: the segments getPath joins. */
  function Labels(nodes: seq<TreeNode>, i: NodeId): (labels: seq<string>)
    requires WellFormed(nodes) && i < |nodes|
    ensures |labels| > 0 && labels[|labels| - 1] == nodes[i].name
    decreases i
  {
    assert ParentLink(nodes, i);
    match nodes[i].parent
    case None => [nodes[i].name]
    case Some(p) => Labels(nodes, p) + [nodes[i].name]
  }

  /** No label contains the separator. */
  predicate SegmentsSlashFree(segments: seq<string>) {
    forall k :: 0 <= k < |segments| ==> '/' !in segments[k]
  }

  /** No two of `ids` carry the same label. */
  predicate DistinctLabels(nodes: seq<TreeNode>, ids: seq<NodeId>)
    requires InRange(nodes, ids)
  {
    forall j, j' :: 0 <= j < j' < |ids| ==> nodes[ids[j]].name != nodes[ids[j']].name
  }

  /** No two roots and no two children of one node share a label. */
  predicate UniqueLabels(nodes: seq<TreeNode>, roots: seq<NodeId>) {
    InRange(nodes, roots) && DistinctLabels(nodes, roots) &&
    forall i :: 0 <= i < |nodes| ==> InRange(nodes, nodes[i].children) && DistinctLabels(nodes, nodes[i].children)
  }

  lemma {:induction false} JoinPathSnoc(segments: seq<string>, x: string)
    requires |segments| > 0
    ensures JoinPath(segments + [x]) == JoinPath(segments) + "/" + x
    decreases |segments|
  {
    if |segments| == 1 {
      assert (segments + [x])[1..] == [x];
    } else {
      assert (segments + [x])[1..] == segments[1..] + [x];
      JoinPathSnoc(segments[1..], x);
      SlashAssociates(segments[0], JoinPath(segments[1..]), x);
    }
  }

  /** getPath joins exactly the labels from the root down. */
  lemma {:induction false} PathJoinsLabels(nodes: seq<TreeNode>, i: NodeId)
    requires WellFormed(nodes) && i < |nodes|
    ensures Path(nodes, i) == JoinPath(Labels(nodes, i))
    decreases i
  {
    assert ParentLink(nodes, i);
    match nodes[i].parent
    case None =>
    case Some(p) =>
      PathJoinsLabels(nodes, p);
      JoinPathSnoc(Labels(nodes, p), nodes[i].name);
  }

  lemma {:induction false} LabelsSlashFree(nodes: seq<TreeNode>, i: NodeId)
    requires WellFormed(nodes) && SlashFree(nodes) && i < |nodes|
    ensures SegmentsSlashFree(Labels(nodes, i))
    decreases i
  {
    assert ParentLink(nodes, i);
    match nodes[i].parent
    case None =>
    case Some(p) =>
      LabelsSlashFree(nodes, p);
  }

  /** A slash-free label is never a joined path of two or more segments. */
  lemma NoSlashNoSplit(s: string, s2: string, t2: string)
    requires '/' !in s
    ensures s != s2 + "/" + t2
  {
    if |s| > |s2| {
      assert (s2 + "/" + t2)[|s2|] == '/';
    }
  }

  /** Splitting at the first separator: slash-free heads before a "/" are determined. */
  lemma SplitAtSlash(s: string, t: string, s2: string, t2: string)
    requires '/' !in s && '/' !in s2 && s + "/" + t == s2 + "/" + t2
    ensures s == s2 && t == t2
  {
    var u := s + "/" + t;
    assert u[|s|] == '/' && (s2 + "/" + t2)[|s2|] == '/';
    assert |s| <= |s2| by {
      if |s2| < |s| {
        assert false;
      }
    }
    assert |s2| <= |s| by {
      if |s| < |s2| {
        assert false;
      }
    }
    assert s == u[..|s|] && s2 == (s2 + "/" + t2)[..|s2|];
    assert t == u[|s| + 1..] && t2 == (s2 + "/" + t2)[|s2| + 1..];
  }

  /** Joining slash-free segments loses nothing: equal joins come from equal segment lists. */
  lemma {:induction false} JoinPathInjective(p: seq<string>, q: seq<string>)
    requires |p| > 0 && |q| > 0 && SegmentsSlashFree(p) && SegmentsSlashFree(q)
    requires JoinPath(p) == JoinPath(q)
    ensures p == q
    decreases |p|
  {
    if |p| == 1 && |q| == 1 {
    } else if |p| == 1 {
      NoSlashNoSplit(p[0], q[0], JoinPath(q[1..]));
      assert false;
    } else if |q| == 1 {
      NoSlashNoSplit(q[0], p[0], JoinPath(p[1..]));
      assert false;
    } else {
      SplitAtSlash(p[0], JoinPath(p[1..]), q[0], JoinPath(q[1..]));
      JoinPathInjective(p[1..], q[1..]);
      assert p == [p[0]] + p[1..] && q == [q[0]] + q[1..];
    }
  }

  /** Among candidates with distinct labels, the first match of a candidate's label is that candidate. */
  lemma FirstMatchFinds(nodes: seq<TreeNode>, ids: seq<NodeId>, k: nat)
    requires InRange(nodes, ids) && DistinctLabels(nodes, ids) && k < |ids|
    ensures FirstMatch(nodes, ids, nodes[ids[k]].name) == Some(k)
  {
    var r := FirstMatch(nodes, ids, nodes[ids[k]].name);
    assert r.Some?;
    assert r.value <= k;
  }

  /** One more segment takes the walk from the node it reached to that node's matching child. */
  lemma {:induction false} DescendExtends(nodes: seq<TreeNode>, candidates: seq<NodeId>, segments: seq<string>,
                                          n: NodeId, j: nat, x: string)
    requires WellFormed(nodes) && InRange(nodes, candidates) && |segments| > 0
    requires Descend(nodes, candidates, segments) == Some(n) && InRange(nodes, nodes[n].children)
    requires FirstMatch(nodes, nodes[n].children, x) == Some(j)
    ensures Descend(nodes, candidates, segments + [x]) == Some(nodes[n].children[j])
    decreases |segments|
  {
    var j0 := FirstMatch(nodes, candidates, segments[0]).value;
    var node := candidates[j0];
    assert ChildLinks(nodes, node);
    assert (segments + [x])[0] == segments[0];
    assert (segments + [x])[1..] == segments[1..] + [x];
    if |segments| > 1 {
      DescendExtends(nodes, nodes[node].children, segments[1..], n, j, x);
    }
  }

  /** With distinct labels among the roots and among every node's children, the walk along a
      node's labels reaches that node. */
  lemma {:induction false} LabelsResolve(nodes: seq<TreeNode>, roots: seq<NodeId>, i: NodeId)
    requires RootsValid(nodes, roots) && UniqueLabels(nodes, roots) && i < |nodes|
    ensures Descend(nodes, roots, Labels(nodes, i)) == Some(i)
    decreases i
  {
    assert ParentLink(nodes, i);
    match nodes[i].parent
    case None =>
      assert RootOf(nodes, i) == i;
      var k :| 0 <= k < |roots| && roots[k] == i;
      FirstMatchFinds(nodes, roots, k);
    case Some(p) =>
      LabelsResolve(nodes, roots, p);
      assert ChildLinks(nodes, p);
      var kids := nodes[p].children;
      var k :| 0 <= k < |kids| && kids[k] == i;
      FirstMatchFinds(nodes, kids, k);
      DescendExtends(nodes, roots, Labels(nodes, p), p, k, nodes[i].name);
  }

  /** With slash-free labels and no two roots or siblings sharing a label, a label path resolves
      to node `i` exactly when it is `i`'s getPath split at the separators: every existing node
      is reachable by updateWeight and addWeight, and only by its own path. */
  lemma PathResolves(nodes: seq<TreeNode>, roots: seq<NodeId>, nodePath: seq<string>, i: NodeId)
    requires RootsValid(nodes, roots) && SlashFree(nodes) && UniqueLabels(nodes, roots)
    requires SegmentsSlashFree(nodePath) && |nodePath| > 0 && i < |nodes|
    ensures Resolve(nodes, roots, nodePath) == Success(i) <==> Path(nodes, i) == JoinPath(nodePath)
  {
    if Path(nodes, i) == JoinPath(nodePath) {
      PathJoinsLabels(nodes, i);
      LabelsSlashFree(nodes, i);
      JoinPathInjective(nodePath, Labels(nodes, i));
      LabelsResolve(nodes, roots, i);
    }
    if Resolve(nodes, roots, nodePath) == Success(i) {
      ResolvedNodeHasPath(nodes, roots, nodePath);
    }
  }

  /** Two roots labelled A, the second with a child B. */
  function SharedRootLabel(): (nodes: seq<TreeNode>)
    ensures RootsValid(nodes, [0, 1])
  {
    var nodes := [TreeNode(None, [], "A", 1, 0.0, 0, 0),
                  TreeNode(None, [2], "A", 1, 0.0, 0, 0),
                  TreeNode(Some(1), [], "B", 2, 0.0, 0, 0)];
    assert ParentLink(nodes, 2) && ChildLinks(nodes, 1);
    assert RootOf(nodes, 2) == 1;
    nodes
  }

  /** The walk takes the first root labelled A and never backtracks, so B's path "A/B" does not
      resolve when an earlier root shares its root's label. */
  lemma SharedRootLabelHidesChild()
    ensures Path(SharedRootLabel(), 2) == JoinPath(["A", "B"])
    ensures Resolve(SharedRootLabel(), [0, 1], ["A", "B"]) == Failure(SegmentNotFound(["A", "B"]))
  {
    var nodes := SharedRootLabel();
    assert Path(nodes, 1) == "A";
    assert JoinPath(["A", "B"]) == "A" + "/" + JoinPath(["B"]);
    assert FirstMatch(nodes, [0, 1], "A") == Some(0);
    assert FirstMatch(nodes, [], "B") == None;
  }
}
