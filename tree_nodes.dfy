/**
 * The tree model (TreeNode.java).
 *
 * Every TreeNode object lives in a NodeHeap; a reference to a node is its index
 * in the heap.  A node is never removed, so an index stays valid forever.  Label,
 * depth, parent and the presentation ids never change after creation; the child
 * list grows when a child is created and the weight is overwritten by SetWeight.
 */
module TreeNodes {
  import opened Wrappers

  /** A reference to a TreeNode: its index in the heap. */
  type NodeId = nat

  datatype TreeNode = TreeNode(parent: Option<NodeId>, children: seq<NodeId>, name: string,
                               depth: int, weight: real, colorResId: int, iconResId: int)

  /** Every id of `ids` refers to a node of `nodes`. */
  predicate InRange(nodes: seq<TreeNode>, ids: seq<NodeId>) {
    forall j :: 0 <= j < |ids| ==> ids[j] < |nodes|
  }

  /** Node `i` and its parent agree: a root has depth 1, a child has its parent's depth
      plus one, was created after its parent and is listed among its parent's children. */
  predicate ParentLink(nodes: seq<TreeNode>, i: NodeId)
    requires i < |nodes|
  {
    nodes[i].depth >= 1 &&
    match nodes[i].parent
    case None => nodes[i].depth == 1
    case Some(p) => p < i && nodes[i].depth == nodes[p].depth + 1 && i in nodes[p].children
  }

  /** Node `i`'s children point back to it, were created after it, and are listed in
      creation order. */
  predicate ChildLinks(nodes: seq<TreeNode>, i: NodeId)
    requires i < |nodes|
  {
    var kids := nodes[i].children;
    (forall j :: 0 <= j < |kids| ==> i < kids[j] < |nodes| && nodes[kids[j]].parent == Some(i)) &&
    (forall j, j' :: 0 <= j < j' < |kids| ==> kids[j] < kids[j'])
  }

  /** The structural invariant of the heap: parent and child links form a forest. */
  predicate WellFormed(nodes: seq<TreeNode>) {
    forall i :: 0 <= i < |nodes| ==> ParentLink(nodes, i) && ChildLinks(nodes, i)
  }

  /** Two heaps that differ at most in the weights. */
  predicate SameShape(a: seq<TreeNode>, b: seq<TreeNode>) {
    |a| == |b| && forall i :: 0 <= i < |a| ==> a[i].(weight := b[i].weight) == b[i]
  }

  /** The first `n` nodes of the two heaps have the same parents and labels. */
  predicate SameLinks(a: seq<TreeNode>, b: seq<TreeNode>, n: nat) {
    n <= |a| && n <= |b| &&
    forall i :: 0 <= i < n ==> a[i].parent == b[i].parent && a[i].name == b[i].name
  }

  /** getPath: the labels from the root down to node `i`, joined by "/". */
  function Path(nodes: seq<TreeNode>, i: NodeId): (path: string)
    requires WellFormed(nodes) && i < |nodes|
    decreases i
  {
    assert ParentLink(nodes, i);
    match nodes[i].parent
    case None => nodes[i].name
    case Some(p) => Path(nodes, p) + "/" + nodes[i].name
  }

  /** A root's path is its label; any other path is its parent's path, a "/" and its label,
      so every path ends with the node's label. */
  lemma PathShape(nodes: seq<TreeNode>, i: NodeId)
    requires WellFormed(nodes) && i < |nodes|
    ensures nodes[i].parent.None? ==> Path(nodes, i) == nodes[i].name
    ensures nodes[i].parent.Some? ==>
              nodes[i].parent.value < i && Path(nodes, i) == Path(nodes, nodes[i].parent.value) + "/" + nodes[i].name
    ensures var path := Path(nodes, i);
            |nodes[i].name| <= |path| && path[|path| - |nodes[i].name|..] == nodes[i].name
  {
    assert ParentLink(nodes, i);
  }

  /** Node `i` and all its ancestors. */
  function Lineage(nodes: seq<TreeNode>, i: NodeId): (line: set<NodeId>)
    requires WellFormed(nodes) && i < |nodes|
    ensures i in line
    ensures forall a :: a in line ==> a <= i
    decreases i
  {
    assert ParentLink(nodes, i);
    match nodes[i].parent
    case None => {i}
    case Some(p) => {i} + Lineage(nodes, p)
  }

  /** The root of the tree that holds node `i`. */
  function RootOf(nodes: seq<TreeNode>, i: NodeId): (root: NodeId)
    requires WellFormed(nodes) && i < |nodes|
    ensures root <= i && root in Lineage(nodes, root) && nodes[root].parent.None?
    ensures root in Lineage(nodes, i)
    decreases i
  {
    assert ParentLink(nodes, i);
    match nodes[i].parent
    case None => i
    case Some(p) => RootOf(nodes, p)
  }

  /** The node records after setWeight(w) on node `id`. */
  function SetWeightAt(nodes: seq<TreeNode>, id: NodeId, w: real): (updated: seq<TreeNode>)
    requires id < |nodes|
    ensures SameShape(nodes, updated) && updated[id].weight == w
    ensures forall i :: 0 <= i < |nodes| && i != id ==> updated[i] == nodes[i]
  {
    nodes[id := nodes[id].(weight := w)]
  }

  /** The smallest of `ids` and `bound`; the termination measure of every walk over sibling lists. */
  function Lowest(ids: seq<NodeId>, bound: nat): (m: nat)
    ensures m <= bound && forall j :: 0 <= j < |ids| ==> m <= ids[j]
    ensures m == bound || m in ids
  {
    if |ids| == 0 then bound
    else
      var rest := Lowest(ids[1..], bound);
      if ids[0] < rest then ids[0] else rest
  }

  /** Children are created after their parent, so walking down to a child list makes progress. */
  lemma ChildrenAreLower(nodes: seq<TreeNode>, siblings: seq<NodeId>, k: nat)
    requires WellFormed(nodes) && InRange(nodes, siblings) && k < |siblings|
    ensures InRange(nodes, nodes[siblings[k]].children)
    ensures Lowest(siblings, |nodes|) < Lowest(nodes[siblings[k]].children, |nodes|) <= |nodes|
  {
    assert ChildLinks(nodes, siblings[k]);
  }

  /** Path, Lineage and RootOf depend on nothing but the parent links and the labels. */
  lemma {:induction false} LinksDetermine(a: seq<TreeNode>, b: seq<TreeNode>, n: nat, i: NodeId)
    requires WellFormed(a) && WellFormed(b) && SameLinks(a, b, n) && i < n
    ensures Path(a, i) == Path(b, i)
    ensures Lineage(a, i) == Lineage(b, i)
    ensures RootOf(a, i) == RootOf(b, i)
    decreases i
  {
    assert ParentLink(a, i);
    match a[i].parent
    case None =>
    case Some(p) => LinksDetermine(a, b, n, p);
  }

  /** Changing weights keeps the heap well formed. */
  lemma SameShapeWellFormed(a: seq<TreeNode>, b: seq<TreeNode>)
    requires WellFormed(a) && SameShape(a, b)
    ensures WellFormed(b) && SameLinks(a, b, |a|)
  {
    forall i | 0 <= i < |b| ensures ParentLink(b, i) && ChildLinks(b, i) {
      assert ParentLink(a, i) && ChildLinks(a, i);
      assert a[i].(weight := b[i].weight) == b[i];
      match a[i].parent
      case None =>
      case Some(p) => assert a[p].(weight := b[p].weight) == b[p];
      var kids := a[i].children;
      forall j | 0 <= j < |kids| ensures b[kids[j]].parent == Some(i) {
        assert a[kids[j]].(weight := b[kids[j]].weight) == b[kids[j]];
      }
    }
  }

  /** An ancestor's path followed by "/" is a prefix of its descendant's path. */
  lemma {:induction false} AncestorPathIsPrefix(nodes: seq<TreeNode>, a: NodeId, i: NodeId)
    requires WellFormed(nodes) && i < |nodes| && a in Lineage(nodes, i)
    ensures a <= i && Path(nodes, a) <= Path(nodes, i)
    ensures a != i ==> Path(nodes, a) + "/" <= Path(nodes, i)
    decreases i
  {
    assert ParentLink(nodes, i);
    if a != i {
      match nodes[i].parent
      case Some(p) =>
        var up := Path(nodes, p);
        assert Path(nodes, i) == up + "/" + nodes[i].name;
        if a != p {
          AncestorPathIsPrefix(nodes, a, p);
          PrefixTransitive(Path(nodes, a) + "/", up, up + "/" + nodes[i].name);
        } else {
          PrefixTransitive(up + "/", up + "/", up + "/" + nodes[i].name);
        }
    }
  }

  lemma PrefixTransitive(s: string, t: string, u: string)
    requires s <= t && t <= u
    ensures s <= u
  {
    assert u[..|t|][..|s|] == u[..|s|];
  }

  /** A node's depth is the number of nodes on its chain up to the root. */
  lemma {:induction false} DepthCountsLineage(nodes: seq<TreeNode>, i: NodeId)
    requires WellFormed(nodes) && i < |nodes|
    ensures nodes[i].depth == |Lineage(nodes, i)|
    decreases i
  {
    assert ParentLink(nodes, i);
    match nodes[i].parent
    case None =>
    case Some(p) =>
      DepthCountsLineage(nodes, p);
      assert i !in Lineage(nodes, p);
  }

  /** Node `s` is in the lineage of `i` exactly when `i` is `s` or lies below one of `s`'s children. */
  lemma {:induction false} LineageStep(nodes: seq<TreeNode>, s: NodeId, i: NodeId)
    requires WellFormed(nodes) && s < |nodes| && i < |nodes|
    ensures s in Lineage(nodes, i) <==>
            (i == s || exists c :: c in nodes[s].children && c < |nodes| && c in Lineage(nodes, i))
    decreases i
  {
    assert ParentLink(nodes, i) && ChildLinks(nodes, s);
    if s in Lineage(nodes, i) && i != s {
      match nodes[i].parent
      case Some(p) =>
        if p == s {
          assert i in nodes[s].children && i in Lineage(nodes, i);
        } else {
          LineageStep(nodes, s, p);
          var c :| c in nodes[s].children && c < |nodes| && c in Lineage(nodes, p);
          assert c in Lineage(nodes, i);
        }
    }
    if exists c :: c in nodes[s].children && c < |nodes| && c in Lineage(nodes, i) {
      var c :| c in nodes[s].children && c < |nodes| && c in Lineage(nodes, i);
      LineageClosed(nodes, c, i);
      var j :| 0 <= j < |nodes[s].children| && nodes[s].children[j] == c;
      assert nodes[c].parent == Some(s);
      assert s in Lineage(nodes, c);
    }
  }

  /** Every ancestor of node `i` is at most as deep as `i`, and strictly shallower unless it is `i`. */
  lemma {:induction false} LineageDepths(nodes: seq<TreeNode>, i: NodeId)
    requires WellFormed(nodes) && i < |nodes|
    ensures forall a :: a in Lineage(nodes, i) ==> a < |nodes| && nodes[a].depth <= nodes[i].depth &&
                                                   (a != i ==> nodes[a].depth < nodes[i].depth)
    decreases i
  {
    assert ParentLink(nodes, i);
    match nodes[i].parent
    case None =>
    case Some(p) =>
      LineageDepths(nodes, p);
  }

  /** A lineage holds at most one node of each depth. */
  lemma {:induction false} LineageOnePerDepth(nodes: seq<TreeNode>, i: NodeId, a: NodeId, b: NodeId)
    requires WellFormed(nodes) && i < |nodes| && a in Lineage(nodes, i) && b in Lineage(nodes, i)
    requires a < |nodes| && b < |nodes| && nodes[a].depth == nodes[b].depth
    ensures a == b
    decreases i
  {
    LineageDepths(nodes, i);
    if a != i && b != i {
      assert ParentLink(nodes, i);
      match nodes[i].parent
      case Some(p) =>
        LineageOnePerDepth(nodes, p, a, b);
    }
  }

  /** The lineage of an ancestor is part of the lineage of its descendant. */
  lemma {:induction false} LineageClosed(nodes: seq<TreeNode>, a: NodeId, i: NodeId)
    requires WellFormed(nodes) && i < |nodes| && a in Lineage(nodes, i)
    ensures a < |nodes| && Lineage(nodes, a) <= Lineage(nodes, i)
    decreases i
  {
    if a != i {
      match nodes[i].parent
      case Some(p) =>
        assert ParentLink(nodes, i);
        LineageClosed(nodes, a, p);
    }
  }

  /** The number of occurrences of `c` in `s`. */
  function Occurrences(s: string, c: char): (n: nat)
    ensures n <= |s|
    ensures c !in s ==> n == 0
  {
    if |s| == 0 then 0 else Occurrences(s[1..], c) + (if s[0] == c then 1 else 0)
  }

  lemma {:induction false} OccurrencesConcat(s: string, t: string, c: char)
    ensures Occurrences(s + t, c) == Occurrences(s, c) + Occurrences(t, c)
  {
    if |s| > 0 {
      assert (s + t)[1..] == s[1..] + t;
      OccurrencesConcat(s[1..], t, c);
    } else {
      assert s + t == t;
    }
  }

  /** No name contains the path separator. */
  predicate SlashFree(nodes: seq<TreeNode>) {
    forall i :: 0 <= i < |nodes| ==> '/' !in nodes[i].name
  }

  /** With slash-free labels a path holds exactly depth - 1 separators. */
  lemma {:induction false} PathSeparators(nodes: seq<TreeNode>, i: NodeId)
    requires WellFormed(nodes) && SlashFree(nodes) && i < |nodes|
    ensures Occurrences(Path(nodes, i), '/') == nodes[i].depth - 1
    decreases i
  {
    assert ParentLink(nodes, i);
    match nodes[i].parent
    case None =>
    case Some(p) =>
      PathSeparators(nodes, p);
      OccurrencesConcat(Path(nodes, p), "/", '/');
      OccurrencesConcat(Path(nodes, p) + "/", nodes[i].name, '/');
  }

  class NodeHeap {
    var nodes: seq<TreeNode>

    ghost predicate Valid()
      reads this
    {
      WellFormed(nodes)
    }

    constructor ()
      ensures Valid() && nodes == []
    {
      nodes := [];
    }

    /** rootNode: a new node without parent or children, at depth 1. */
    method RootNode(name: string, weight: real, colorResId: int, iconResId: int) returns (root: NodeId)
      requires Valid()
      modifies this
      ensures Valid()
      ensures root == |old(nodes)|
      ensures nodes == old(nodes) + [TreeNode(None, [], name, 1, weight, colorResId, iconResId)]
    {
      root := |nodes|;
      nodes := nodes + [TreeNode(None, [], name, 1, weight, colorResId, iconResId)];
      assert ParentLink(nodes, root) && ChildLinks(nodes, root);
      forall i | 0 <= i < root ensures ParentLink(nodes, i) && ChildLinks(nodes, i) {
        assert ParentLink(old(nodes), i) && ChildLinks(old(nodes), i);
      }
    }

    /** childNode: a new node one level below `parent`, appended to the end of the parent's children. */
    method ChildNode(parent: NodeId, name: string, weight: real, colorResId: int, iconResId: int)
      returns (child: NodeId)
      requires Valid() && parent < |nodes|
      modifies this
      ensures Valid()
      ensures child == |old(nodes)|
      ensures nodes == old(nodes)[parent := old(nodes)[parent].(children := old(nodes)[parent].children + [child])]
                       + [TreeNode(Some(parent), [], name, old(nodes)[parent].depth + 1, weight, colorResId, iconResId)]
    {
      child := |nodes|;
      var p := nodes[parent];
      var node := TreeNode(Some(parent), [], name, p.depth + 1, weight, colorResId, iconResId);
      nodes := nodes[parent := p.(children := p.children + [child])] + [node];
      AppendChildWellFormed(old(nodes), parent, node, nodes);
    }

    /** setWeight: only the weight of node `id` changes. */
    method SetWeight(id: NodeId, weight: real)
      requires Valid() && id < |nodes|
      modifies this
      ensures Valid()
      ensures nodes == SetWeightAt(old(nodes), id, weight)
    {
      nodes := nodes[id := nodes[id].(weight := weight)];
      SameShapeWellFormed(old(nodes), nodes);
    }

    /** getParent: a root has no parent; otherwise the parent is older, one level up, and lists the node. */
    function GetParent(id: NodeId): (parent: Option<NodeId>)
      reads this
      requires Valid() && id < |nodes|
      ensures parent.None? <==> nodes[id].depth == 1
      ensures parent.Some? ==> parent.value < id && id in nodes[parent.value].children &&
                               nodes[id].depth == nodes[parent.value].depth + 1
    {
      assert ParentLink(nodes, id);
      assert nodes[id].parent.Some? ==> ParentLink(nodes, nodes[id].parent.value);
      nodes[id].parent
    }

    /** getChildren: the children, in creation order, each one level below and pointing back. */
    function GetChildren(id: NodeId): (kids: seq<NodeId>)
      reads this
      requires Valid() && id < |nodes|
      ensures forall j :: 0 <= j < |kids| ==>
                id < kids[j] < |nodes| && nodes[kids[j]].parent == Some(id) &&
                nodes[kids[j]].depth == nodes[id].depth + 1
      ensures forall j, j' :: 0 <= j < j' < |kids| ==> kids[j] < kids[j']
    {
      assert ChildLinks(nodes, id);
      assert forall j :: 0 <= j < |nodes[id].children| ==> ParentLink(nodes, nodes[id].children[j]);
      nodes[id].children
    }

    /** getDepth: the number of nodes from the root down to this one. */
    function GetDepth(id: NodeId): (depth: int)
      reads this
      requires Valid() && id < |nodes|
      ensures depth >= 1 && depth == |Lineage(nodes, id)|
    {
      DepthCountsLineage(nodes, id);
      nodes[id].depth
    }
  }

  /** Appending a child to `parent` keeps the heap well formed. */
  lemma AppendChildWellFormed(nodes: seq<TreeNode>, parent: NodeId, node: TreeNode, result: seq<TreeNode>)
    requires WellFormed(nodes) && parent < |nodes|
    requires node == TreeNode(Some(parent), [], node.name, nodes[parent].depth + 1, node.weight,
                              node.colorResId, node.iconResId)
    requires result == nodes[parent := nodes[parent].(children := nodes[parent].children + [|nodes|])] + [node]
    ensures WellFormed(result) && SameLinks(nodes, result, |nodes|)
  {
    var n := |nodes|;
    assert ParentLink(nodes, parent);
    assert ParentLink(result, n);
    forall i | 0 <= i < n ensures ParentLink(result, i) && ChildLinks(result, i) {
      assert ParentLink(nodes, i) && ChildLinks(nodes, i);
      if i == parent {
        var kids := result[i].children;
        assert kids == nodes[i].children + [n];
        forall j | 0 <= j < |kids| ensures i < kids[j] < |result| && result[kids[j]].parent == Some(i) {
          if j < |kids| - 1 {
            assert kids[j] == nodes[i].children[j];
          }
        }
      }
    }
  }
}
