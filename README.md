# android-tree-view: a verified model of the tree and its radial layout

android-tree-view is an Android widget that draws a weighted tree as a sunburst. Each root
is a sector of a ring. Each child is a sector of the next ring, inside its parent's sector.
Each sector's sweep is proportional to its node's weight.

This project models three parts of the widget in Dafny 4:

- **The tree of labelled, weighted nodes** (`TreeNode`).
  - It lives in module `TreeNodes`, in `tree_nodes.dfy`.
  - Nodes live in an arena, the class `NodeHeap`, and a node reference is an index into it.
  - A parent is always created before its children, so its index is smaller.
  - A node's path is its ancestors' labels joined with `/`.
- **The adapter** (`TreeAdapter`).
  - It lives in module `Adapter`, in `tree_adapter.dfy`.
  - The adapter owns the root list and tracks the tree's depth.
  - It adds root and child nodes.
  - It finds a node by its sequence of labels, to set a weight or add to it.
  - The lookup takes the first match at each level. When no label contains `/` and no two
    roots or siblings share a label, a label sequence finds a node exactly when the sequence,
    joined with `/`, is the node's path.
  - It resets all weights to zero.
- **The angle arithmetic of the radial view** (`TreeView`).
  - The layout is specified in `radial_layout.dfy`. The imperative passes are in `tree_view.dfy`.
  - `makeDrawableTreeNodes` builds one drawable per node, keyed by the node's path.
  - `updateDrawableTreeNodes` recomputes the arcs after a weight change. It either writes
    them into the existing drawables or queues one animation per drawable.

Both layout passes are specified by one family of functions, `RadialLayout.Layout` and its
helpers. These take a `Pass` argument (`Build` or `Update`). The two passes differ only in the
360-degree clamp:

- the build pass clamps every node;
- the update pass clamps only nodes of positive weight.

The layout of a sibling list inside a parent arc works like this:

- **Total weight.** Sum the siblings' weights. Replace the sum with the parent's weight when
  that weight is positive and not smaller than the sum.
- **Gaps.** When more than one sibling has positive weight, reserve `skipLength` per
  positive-weight sibling, less one below the first level.
- **Cursor.** Walk the arc with a cursor:
  - a positive-weight sibling is first moved one degree forward, except for the first such
    sibling below the first level;
  - it then gets its proportional share of what is left after the gaps;
  - any arc that would end past 360 degrees is cut back to end there.
- **Recursion.** Each node's children are laid out inside its own arc, with its own weight as
  the parent weight.

The results proved about the model are in the following modules:

- `LayoutProperties`: every node is placed exactly once, in pre-order, parents before
  children, keyed by its path.
- `SiblingSweeps`: a sibling list *fits* (`Fits`) when the siblings' weights sum to a positive
  value that the parent's weight does not exceed, and the offsets plus the usable sweep, which must be non-negative, stay within
  360 degrees. On a list that fits, no clamp fires, each sibling gets exactly its share, and the
  shares fill the usable sweep. With `skipLength` 1 and more than one positive-weight sibling,
  such a list fills the parent's arc exactly.
- `PassAgreement`: the update pass reproduces the build pass except in one situation, a
  zero-weight node that starts past 360 degrees. A concrete heap shows that the passes do
  differ there.
- `Scenarios`: worked layouts of two small trees.

### Two worked layouts

Both layouts use `skipLength` 1 and hold for both passes.

- A zero-weight root `A` with children `B` (weight 3) and `C` (weight 1) is laid out as
  `A` (0, 0), `B` (0, -0.75), `C` (0.25, -0.25), each as (start, sweep)
  (`Scenarios.ZeroParentLayout`):
  - `A` has no weight, so it gets no offset and the empty arc at 0 degrees;
  - the children sit at depth 2, so the first positive child gets no offset;
  - one gap is reserved out of `A`'s sweep of 0, which leaves a usable sweep of -1 degree,
    shared 3 : 1 between `B` and `C`.
- The same `B` and `C` as roots get (1, 268.5) and (270.5, 89.5), and `C` ends exactly at
  360 degrees (`Scenarios.TwoRootsLayout`, `Scenarios.TwoRootsArcs`).

## Model

| member | source | states |
|---|---|---|
| TreeNodes.NodeHeap.RootNode | src/main/java/fi/moprim/widget/treeview/TreeNode.java:42-45 | appends a node with no parent, no children, depth 1 and the given label, weight and resource ids; returns its reference; the heap stays well formed |
| TreeNodes.NodeHeap.ChildNode | src/main/java/fi/moprim/widget/treeview/TreeNode.java:47-53 | appends a node whose parent is `parent` and whose depth is one more than the parent's; adds it at the end of the parent's children and changes nothing else; the heap stays well formed |
| TreeNodes.NodeHeap.GetParent | src/main/java/fi/moprim/widget/treeview/TreeNode.java:55-57 | there is no parent exactly for depth-1 nodes; otherwise the parent is older, lists the node among its children and is one level shallower |
| TreeNodes.NodeHeap.GetChildren | src/main/java/fi/moprim/widget/treeview/TreeNode.java:59-61 | the children are in creation order, each points back to the node, and each is one level deeper |
| TreeNodes.NodeHeap.GetDepth | src/main/java/fi/moprim/widget/treeview/TreeNode.java:67-69 | the stored depth is at least 1 and equals the number of nodes on the path from the root (the node included) |
| TreeNodes.DepthCountsLineage | src/main/java/fi/moprim/widget/treeview/TreeNode.java:67-69 | in every well-formed heap, a node's depth is the size of its lineage |
| TreeNodes.NodeHeap.SetWeight | src/main/java/fi/moprim/widget/treeview/TreeNode.java:75-77 | the node's weight becomes the new value; every other field and every other node is unchanged |
| TreeNodes.SetWeightAt | src/main/java/fi/moprim/widget/treeview/TreeNode.java:75-77 | the updated heap has the same links, labels and depths, the new weight at `id`, and all other nodes unchanged |
| TreeNodes.Path | src/main/java/fi/moprim/widget/treeview/TreeNode.java:87-93 | defines a node's path as its label for a root, and otherwise its parent's path, a `/`, then its label; it has no contract of its own: PathShape, AncestorPathIsPrefix, PathSeparators and PathJoinsLabels state its properties |
| TreeNodes.PathShape | src/main/java/fi/moprim/widget/treeview/TreeNode.java:87-93 | a root's path is its label; any other node's path is its (older) parent's path, a `/`, then its label; every path ends with the node's label |
| TreeNodes.AncestorPathIsPrefix | src/main/java/fi/moprim/widget/treeview/TreeNode.java:87-93 | an ancestor's path is a prefix of the node's path, and a proper ancestor's path followed by `/` is too |
| TreeNodes.PathSeparators | src/main/java/fi/moprim/widget/treeview/TreeNode.java:87-93 | when no label contains `/`, a node's path contains exactly depth - 1 separators |
| TreeNodes.LinksDetermine | src/main/java/fi/moprim/widget/treeview/TreeNode.java:87-93 | path, lineage and root depend only on the parent links and labels, not on weights |
| TreeNodes.LineageOnePerDepth | src/main/java/fi/moprim/widget/treeview/TreeNode.java:67-69 | no two nodes on one root-to-node line share a depth |
| TreeNodes.LineageDepths | src/main/java/fi/moprim/widget/treeview/TreeNode.java:67-69 | every proper ancestor is strictly shallower than the node |
| TreeNodes.AppendChildWellFormed | src/main/java/fi/moprim/widget/treeview/TreeNode.java:47-53 | adding a child at the end of the arena keeps it well formed and keeps every existing node's parent link and label, hence its path |
| Adapter.TreeAdapter.constructor | src/main/java/fi/moprim/widget/treeview/TreeAdapter.java:30-34 | a new adapter has no nodes, no roots and depth 0 |
| Adapter.TreeAdapter.GetDepth | src/main/java/fi/moprim/widget/treeview/TreeAdapter.java:57-59 | the tracked depth bounds every node's depth, is reached by some node, and is 0 exactly when the tree is empty |
| Adapter.TreeAdapter.AddRootNode | src/main/java/fi/moprim/widget/treeview/TreeAdapter.java:61-68 | appends a depth-1 node to the heap and the root list; the tracked depth becomes the larger of the old one and 1 |
| Adapter.TreeAdapter.AddUnweightedRootNode | src/main/java/fi/moprim/widget/treeview/TreeAdapter.java:70-72 | the same as AddRootNode with weight 0 |
| Adapter.TreeAdapter.AddChildNode | src/main/java/fi/moprim/widget/treeview/TreeAdapter.java:74-81 | adds a child as ChildNode does, leaves the root list alone, and the tracked depth becomes the larger of the old one and the child's depth |
| Adapter.TreeAdapter.AddUnweightedChildNode | src/main/java/fi/moprim/widget/treeview/TreeAdapter.java:83-86 | the same as AddChildNode with weight 0 |
| Adapter.AppendChildRootsValid | src/main/java/fi/moprim/widget/treeview/TreeAdapter.java:74-81 | after a child is added, every node still descends from a listed root, and the maximum depth becomes the larger of the old maximum and the child's depth |
| Adapter.MaxDepthAttained | src/main/java/fi/moprim/widget/treeview/TreeAdapter.java:57-59 | in a non-empty tree some node has the maximum depth |
| Adapter.Resolve | src/main/java/fi/moprim/widget/treeview/TreeAdapter.java:88-109 | fails with EmptyPath exactly when the label sequence is empty, otherwise fails with SegmentNotFound(path); a success is a node carrying the last label |
| Adapter.FirstMatch | src/main/java/fi/moprim/widget/treeview/TreeAdapter.java:92-103 | finds the first candidate with the label, or reports that none has it |
| Adapter.Descend | src/main/java/fi/moprim/widget/treeview/TreeAdapter.java:90-107 | a node it finds carries the last label |
| Adapter.ResolvedNodeHasPath | src/main/java/fi/moprim/widget/treeview/TreeAdapter.java:88-109 | the node a label sequence resolves to has exactly that sequence, joined with `/`, as its path, and its depth is the sequence's length |
| Adapter.PathJoinsLabels | src/main/java/fi/moprim/widget/treeview/TreeNode.java:87-93 | a node's path is the labels of its lineage, from the root down to the node, joined with `/` |
| Adapter.FirstMatchFinds | src/main/java/fi/moprim/widget/treeview/TreeAdapter.java:92-103 | when no two candidates share a label, the inner loop finds each candidate by its own label |
| Adapter.LabelsResolve | src/main/java/fi/moprim/widget/treeview/TreeAdapter.java:88-109 | when no two roots and no two children of one node share a label, looking up a node's lineage labels from the roots finds exactly that node |
| Adapter.PathResolves | src/main/java/fi/moprim/widget/treeview/TreeAdapter.java:88-109 | when no label contains `/`, no two roots and no two siblings share a label, and the label sequence is non-empty and slash-free: the sequence resolves to node i exactly when i's path is the sequence joined with `/` (both directions) |
| Adapter.SharedRootLabelHidesChild | src/main/java/fi/moprim/widget/treeview/TreeAdapter.java:92-103 | the lookup takes the first root with a matching label and never backtracks: with two roots labelled `A` and the child `B` under the second, `B`'s path is `A/B`, yet looking up [A, B] fails with SegmentNotFound |
| Adapter.DescendFollowsPath | src/main/java/fi/moprim/widget/treeview/TreeAdapter.java:90-107 | descending from a node's children by labels lands on a node whose path extends the parent's by those labels |
| Adapter.DescendIgnoresWeights | src/main/java/fi/moprim/widget/treeview/TreeAdapter.java:88-132 | the lookup gives the same answer on any heap with the same shape (weights do not matter) |
| Adapter.TreeAdapter.Locate | src/main/java/fi/moprim/widget/treeview/TreeAdapter.java:89-107 | the nested search loops return exactly what Resolve specifies |
| Adapter.TreeAdapter.UpdateWeight | src/main/java/fi/moprim/widget/treeview/TreeAdapter.java:88-109 | on success sets the weight of exactly the resolved node and nothing else; on failure reports the lookup error and changes nothing |
| Adapter.TreeAdapter.AddWeight | src/main/java/fi/moprim/widget/treeview/TreeAdapter.java:111-132 | on success adds to the weight of exactly the resolved node and nothing else; on failure reports the lookup error and changes nothing |
| Adapter.AddWeightRoundTrip | src/main/java/fi/moprim/widget/treeview/TreeAdapter.java:111-132 | adding d and then -d to a resolved node restores the heap, and the node still resolves in between |
| Adapter.TreeAdapter.ResetWeightsOf | src/main/java/fi/moprim/widget/treeview/TreeAdapter.java:138-143 | zeroes the weight of exactly the nodes in the subtrees of the list, keeps the rest, and keeps the tree's shape |
| Adapter.CoveredStep | src/main/java/fi/moprim/widget/treeview/TreeAdapter.java:138-143 | the nodes a list's subtrees cover grow by one element's node and its children's subtrees per step |
| Adapter.TreeAdapter.ResetWeights | src/main/java/fi/moprim/widget/treeview/TreeAdapter.java:145-147 | every node's weight is 0 afterwards; every other field of every node is unchanged |
| Adapter.SameShapeRootsValid | src/main/java/fi/moprim/widget/treeview/TreeAdapter.java:88-147 | a weight change keeps the root list valid and keeps the maximum depth |
| RadialLayout.WeightSum | src/main/java/fi/moprim/widget/treeview/TreeView.java:401-402 | with non-negative weights the sum is non-negative and at least every sibling's weight |
| RadialLayout.NonZeroCount | src/main/java/fi/moprim/widget/treeview/TreeView.java:401-405 | counts at most the siblings, and is 0 exactly when no sibling has positive weight |
| RadialLayout.TotalWeight | src/main/java/fi/moprim/widget/treeview/TreeView.java:412-418 | the total is the sum or the parent weight, is at least the sum, and is at least a positive parent weight |
| RadialLayout.UsableSweep | src/main/java/fi/moprim/widget/treeview/TreeView.java:422-424 | the sweep is unchanged for at most one positive sibling; otherwise the usable sweep plus the gaps times skipLength is the parent sweep |
| RadialLayout.LevelOf | src/main/java/fi/moprim/widget/treeview/TreeView.java:398-424 | every sibling's weight is at most the level's total weight, so when the usable sweep is non-negative no share exceeds it |
| RadialLayout.NodeStart | src/main/java/fi/moprim/widget/treeview/TreeView.java:435-438 | defines where a node's arc starts: the cursor plus one degree for a positive-weight node at depth 1 or after the first positive-weight sibling, the cursor itself otherwise; NodeArc and Offsets state its consequences |
| RadialLayout.Proportional | src/main/java/fi/moprim/widget/treeview/TreeView.java:439 | defines a positive-weight node's share, its weight over the level's total times the usable sweep, and 0 for any other node; SharesBound, SharesOfSum and WholeShare state how shares add up |
| RadialLayout.Clamped | src/main/java/fi/moprim/widget/treeview/TreeView.java:445-448 | defines when the 360-degree clamp fires: the arc would end past 360 degrees, for every node in the build pass and only for positive-weight nodes in the update pass; NodeArc and PassAgreement.NodeArcAgrees state its effect |
| RadialLayout.NodeArc | src/main/java/fi/moprim/widget/treeview/TreeView.java:434-448 | the arc ends by 360 degrees (always in the build pass, for positive weights in the update pass); the sweep never exceeds the proportional share and equals it unless clamped; a zero-weight node stays at the cursor and has sweep 0 exactly when not clamped |
| RadialLayout.CursorAt | src/main/java/fi/moprim/widget/treeview/TreeView.java:426-456 | the cursor's index counts the positive-weight siblings before it; after the first sibling the build cursor never passes 360 degrees |
| RadialLayout.ArcAt | src/main/java/fi/moprim/widget/treeview/TreeView.java:428-456 | defines sibling k's arc as the NodeArc its cursor gives it; SiblingsFillSpan, ArcsWithinSpan and the Scenarios lemmas state its values |
| RadialLayout.SubtreeLayout | src/main/java/fi/moprim/widget/treeview/TreeView.java:449-455 | a node's subtree layout is non-empty and starts with the node itself |
| RadialLayout.LayoutFrom | src/main/java/fi/moprim/widget/treeview/TreeView.java:428-461 | defines the placements of siblings k onward, each sibling's subtree in turn; LayoutStep, LayoutProperties.LayoutFromCovers and LayoutProperties.LayoutFromWellPlaced state its properties |
| RadialLayout.Layout | src/main/java/fi/moprim/widget/treeview/TreeView.java:397-462 | defines the placements of a whole sibling list in pre-order; LayoutProperties.LayoutPlacesEveryNode, LayoutPlacesOnce and LayoutPaths state its properties, and View.TreeView.MakeDrawableTreeNodes and UpdateDrawableTreeNodes are proved to compute it |
| RadialLayout.LayoutStep | src/main/java/fi/moprim/widget/treeview/TreeView.java:428-461 | each sibling gets the NodeArc of its cursor and advances the cursor by its sweep; its placement is followed by its children's layout inside its own arc, with its weight as parent weight, before the next sibling |
| RadialLayout.PutAllSpec | src/main/java/fi/moprim/widget/treeview/TreeView.java:449 | after the puts the keys are the old keys plus the placed paths; a path holds the arc of its last placement; other keys keep their arcs |
| RadialLayout.KeyedPaths | src/main/java/fi/moprim/widget/treeview/TreeView.java:557-567 | every placement's path has a drawable exactly when the placed paths are among the map's keys |
| RadialLayout.Animations | src/main/java/fi/moprim/widget/treeview/TreeView.java:555-564 | there is one animation per placement |
| RadialLayout.UpdateEffect | src/main/java/fi/moprim/widget/treeview/TreeView.java:555-569 | defines one update pass's effect: animated, the map is kept and one animation per placement is appended; otherwise every placement's arc is put into the map; UpdateEffectSingle, UpdateEffectAppend and UpdateEffectKeys state its properties |
| RadialLayout.UpdateEffectSingle | src/main/java/fi/moprim/widget/treeview/TreeView.java:555-569 | one placement either appends an animation from the drawable's current arc to the new arc and leaves the map alone, or writes the new arc into the drawable |
| RadialLayout.UpdateEffectAppend | src/main/java/fi/moprim/widget/treeview/TreeView.java:535-578 | the update's effect on a sequence of placements is its effect on a prefix followed by its effect on the rest |
| RadialLayout.UpdateEffectKeys | src/main/java/fi/moprim/widget/treeview/TreeView.java:555-569 | an update pass never adds or removes a drawable |
| LayoutProperties.LayoutFromCovers | src/main/java/fi/moprim/widget/treeview/TreeView.java:428-461 | the layout from sibling k on places a node exactly when the node descends from one of those siblings |
| LayoutProperties.LayoutPlacesEveryNode | src/main/java/fi/moprim/widget/treeview/TreeView.java:397-462 | the layout of the roots places every node of the tree |
| LayoutProperties.LayoutPlacesOnce | src/main/java/fi/moprim/widget/treeview/TreeView.java:397-462 | the layout of the roots places each node once, and every node after its parent |
| LayoutProperties.LayoutPaths | src/main/java/fi/moprim/widget/treeview/TreeView.java:449 | the keys the layout places under are exactly the paths of all nodes |
| LayoutProperties.LayoutFromWellPlaced | src/main/java/fi/moprim/widget/treeview/TreeView.java:446-449 | every placement carries its node's own path; its arc ends by 360 degrees in the build pass and for positive weights; in the update pass a zero-weight node has sweep 0 |
| LayoutProperties.DescendantsAfter | src/main/java/fi/moprim/widget/treeview/TreeView.java:453-455 | everything placed below a node is a younger node |
| SiblingSweeps.Offsets | src/main/java/fi/moprim/widget/treeview/TreeView.java:435-438 | the one-degree offsets given to n positive siblings are at most n, and equal the reserved gap count when n > 0 |
| SiblingSweeps.SharesOfSum | src/main/java/fi/moprim/widget/treeview/TreeView.java:439 | the proportional shares of non-negative weights add up to their sum over the total, times the sweep |
| SiblingSweeps.SharesBound | src/main/java/fi/moprim/widget/treeview/TreeView.java:439 | shares of weights summing to at most the total lie between 0 and the sweep |
| SiblingSweeps.WholeShare | src/main/java/fi/moprim/widget/treeview/TreeView.java:439 | when the weights sum to the total, their shares add up to the whole sweep |
| SiblingSweeps.FitsUpTo | src/main/java/fi/moprim/widget/treeview/TreeView.java:435-456 | on a sibling list that fits, the cursor before sibling k is the span start plus the offsets and shares so far, and every sweep so far is the unclamped share |
| SiblingSweeps.SiblingsFillSpan | src/main/java/fi/moprim/widget/treeview/TreeView.java:439-448 | on a sibling list that fits, no clamp fires: each sibling's sweep is its proportional share, and the shares add up to the usable sweep |
| SiblingSweeps.SiblingsEnd | src/main/java/fi/moprim/widget/treeview/TreeView.java:435-456 | on a sibling list that fits, the cursor ends at the span start plus the offsets plus the usable sweep |
| SiblingSweeps.SiblingsEndAtSpanEnd | src/main/java/fi/moprim/widget/treeview/TreeView.java:422-456 | with skipLength 1 and more than one positive sibling, a fitting sibling list ends exactly at the end of the parent's arc |
| SiblingSweeps.ArcsWithinSpan | src/main/java/fi/moprim/widget/treeview/TreeView.java:435-456 | with skipLength 1 and more than one positive sibling, every arc of a fitting sibling list lies inside the parent's arc |
| SiblingSweeps.RootsFit | src/main/java/fi/moprim/widget/treeview/TreeView.java:179 | roots at depth 1, with 2 to 360 of them of positive weight, fit the full circle with skipLength 1 |
| PassAgreement.NodeArcAgrees | src/main/java/fi/moprim/widget/treeview/TreeView.java:446-448 | the two passes give a node the same arc exactly when it has positive weight or does not start past 360 degrees |
| PassAgreement.CursorsAgree | src/main/java/fi/moprim/widget/treeview/TreeView.java:534-574 | unless a zero-weight first sibling starts past 360 degrees, both passes walk a sibling list with the same cursor and arcs |
| PassAgreement.UpdateMatchesBuild | src/main/java/fi/moprim/widget/treeview/TreeView.java:497-580 | when no zero-weight node of the build layout starts past 360 degrees, the update pass computes exactly the build layout |
| PassAgreement.LateZeroDiverges | src/main/java/fi/moprim/widget/treeview/TreeView.java:549-551 | on a concrete tree, a zero-weight child starting at 361 degrees gets sweep -1 from the build pass and 0 from the update pass |
| Scenarios.TwoRootsLayout | src/main/java/fi/moprim/widget/treeview/TreeView.java:397-462 | roots of weights 3 and 1 with skipLength 1 get arcs (1, 268.5) and (270.5, 89.5) |
| Scenarios.TwoRootsArcs | src/main/java/fi/moprim/widget/treeview/TreeView.java:435-456 | the second of those roots ends exactly at 360 degrees |
| Scenarios.ZeroParentLayout | src/main/java/fi/moprim/widget/treeview/TreeView.java:397-462 | the same weights as children of a zero-weight root get arcs (0, -0.75) and (0.25, -0.25) |
| View.ScanSiblings | src/main/java/fi/moprim/widget/treeview/TreeView.java:398-411 | the first loop's total, positive count and depth equal WeightSum, NonZeroCount and the first sibling's depth |
| View.MeasureLevel | src/main/java/fi/moprim/widget/treeview/TreeView.java:398-424 | the first loop, the parent-weight override and the gap subtraction compute LevelOf |
| View.BuildArc | src/main/java/fi/moprim/widget/treeview/TreeView.java:434-448 | the build pass's offset, share and clamp compute NodeArc for Build |
| View.UpdateArc | src/main/java/fi/moprim/widget/treeview/TreeView.java:538-554 | the update pass's offset, share and clamp compute NodeArc for Update |
| View.TreeView.constructor | src/main/java/fi/moprim/widget/treeview/TreeView.java:68-96 | a new view keeps its adapter, skipLength and animate flag, and has no drawables and no animators |
| View.TreeView.MakeDrawableTreeNodes | src/main/java/fi/moprim/widget/treeview/TreeView.java:397-462 | the map becomes the old map with the build layout of the siblings' subtrees put in, in pre-order |
| View.TreeView.MakeDrawableSubtree | src/main/java/fi/moprim/widget/treeview/TreeView.java:428-460 | one iteration of the second loop puts sibling k's subtree layout and advances the cursor to CursorAt(k + 1) |
| View.TreeView.UpdateDrawableTreeNodes | src/main/java/fi/moprim/widget/treeview/TreeView.java:497-580 | the map and animator list become UpdateEffect of the update layout: animations queued in pre-order, or arcs written into the drawables |
| View.TreeView.UpdateDrawableSubtree | src/main/java/fi/moprim/widget/treeview/TreeView.java:535-578 | one iteration of the second loop applies the update to sibling k's subtree and advances the cursor to CursorAt(k + 1) |
| View.TreeView.LoadDrawablesFromAdapter | src/main/java/fi/moprim/widget/treeview/TreeView.java:171-187 | the map is cleared and then holds the build layout of the roots over the full circle; its keys are exactly the paths of all nodes |
| View.TreeView.OnWeightsChanged | src/main/java/fi/moprim/widget/treeview/TreeView.java:470-495 | an empty map is rebuilt; otherwise, when animating, the map is kept and the animators are exactly one per node of the update layout (old arc to new arc); otherwise the map gets the update layout written in and the animators are kept |

## Left out

- Listeners: `TreeNodeChangeListener`, `notifyDataSetChanged`, `notifyWeightsChanged`, the click listeners and the gesture detector are not modelled. The view's entry points are called directly.
- `setTreeMapAdapter` is folded into the `TreeView` constructor, which takes the adapter. The rebuild it triggers through the listener is `LoadDrawablesFromAdapter`.
- The rectangular (non-radial) branch is not modelled. It lays the roots out over 100 units and then only logs "Not yet implemented" for every node. The model is the radial view.
- Drawing is not modelled: the inner and outer circles, shadows, icons, measuring and hit-testing. Drawables are modelled as their (start, sweep) arc.
- Animation: an animator is modelled as its (path, old arc, new arc) triple. Tweening, `AnimatorSet.playTogether/start/cancel` and invalidation are not modelled. The list is cleared before an animated update pass, as in the source.
- Floating point: weights, totals and angles are exact reals. The source computes in `float` and `double` and casts between them. Rounding and the `(float)` casts are not modelled.
- Logging is not modelled, including the log line for siblings of unequal depth. The level's depth is taken from the first sibling, as in the source.
- Negative weights: the layout lemmas and the view's methods require non-negative weights (`NonNegative`). The source never checks weights.
- Missing drawables: the update pass requires every laid-out path to have a drawable (`Keyed`, and `AllPaths` in `OnWeightsChanged`). The source would throw a `NullPointerException` when one is missing.
- Aliasing: a drawable shared by two nodes with the same path is modelled as one map entry per path. Later puts and writes replace earlier ones, as they do in the source's map.
- Trees built around the adapter: the model covers only trees built through the adapter's own methods, so that every node descends from a listed root and `depth` is the deepest node's depth. `TreeNode.rootNode` and `TreeNode.childNode` are public, and `addChildNode` accepts any parent, so two other cases exist and are not modelled:
  - a child added with `addChildNode` under a root made by `TreeNode.rootNode` is not under a listed root: it can raise `getDepth`, but `updateWeight`, `addWeight`, `resetWeights` and the view never reach it;
  - a child made by `TreeNode.childNode` under an adapter node is reached by `updateWeight`, `addWeight`, `resetWeights` and the view, but `getDepth` does not count it.
- `getLabel`, `getWeight`, `getColorResId`, `getIconResId`, `toString` and `getRootNodes` are plain field reads. They are the datatype's fields and the adapter's `rootNodes`.
- SiblingSweeps.SiblingsEndAtSpanEnd: proved only for skipLength 1. For another skipLength, the one-degree offsets and the skipLength-wide gaps differ, and the list ends (skipLength - 1) times the gap count short of the arc's end. That general statement is not proved.
- SiblingSweeps.ArcsWithinSpan: proved only for skipLength 1 and more than one positive-weight sibling. With a single positive sibling no gap is reserved, but an offset can still be given, so the arc can end one degree past its parent's.
- SiblingSweeps.RootsFit: covers lists with 2 to 360 positive-weight roots. A single positive root gets the offset without a gap and is clamped at 360 degrees. More than 360 positive roots leave no usable sweep.
- PassAgreement.UpdateMatchesBuild: the agreement is proved under the hypothesis that no zero-weight node of the build layout starts past 360 degrees. `PassAgreement.LateZeroDiverges` shows that the passes can differ without it.
