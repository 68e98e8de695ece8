/**
 * The radial partition layout of TreeView.java (makeDrawableTreeNodes and
 * updateDrawableTreeNodes) as specification functions over the node heap.
 *
 * A sibling list is laid out inside its parent's span: the siblings' weights are summed
 * (or replaced by the parent's weight when that is larger), gaps are reserved between
 * positive-weight siblings, and a cursor walks the span giving each sibling a start and a
 * sweep proportional to its weight, clamped so that no arc ends past 360 degrees.  The
 * two passes differ only in which nodes the clamp applies to.
 */
module RadialLayout {
  import opened Wrappers
  import opened TreeNodes

  /** No arc may end past this angle (the clamp of both passes). */
  const Ceiling: real := 360.0
  /** The sweep given to the root list in the radial view. */
  const FullCircle: real := 360.0

  /** makeDrawableTreeNodes clamps every node; updateDrawableTreeNodes only positive-weight ones. */
  datatype Pass = Build | Update

  /** The (start, sweep) pair of a drawable, in degrees. */
  datatype Arc = Arc(start: real, sweep: real)

  /** The arguments a sibling list is laid out with: parentStart, parentSweep, parentWeight. */
  datatype Span = Span(start: real, sweep: real, parentWeight: real)

  /** What the first loop over the siblings yields: the level's depth (taken from the first
      sibling), the total weight the sweeps are shares of, and the sweep left after the gaps. */
  datatype Level = Level(depth: int, totalWeight: real, usableSweep: real)

  /** The running state of the second loop. */
  datatype Cursor = Cursor(nodeStart: real, nonZeroWeightIndex: nat)

  /** One drawable: the node, the path it is keyed by, and its arc. */
  datatype Placement = Placement(node: NodeId, path: string, arc: Arc)

  /** The root call of the radial view: start 0, sweep 360, no parent weight. */
  const RootSpan: Span := Span(0.0, FullCircle, -1.0)

  /** Weights are never validated by the source; the layout assumes none is negative. */
  predicate NonNegative(nodes: seq<TreeNode>) {
    forall i :: 0 <= i < |nodes| ==> nodes[i].weight >= 0.0
  }

  /** The siblings' weights summed in list order. */
  function WeightSum(nodes: seq<TreeNode>, ids: seq<NodeId>): (sum: real)
    requires InRange(nodes, ids)
    ensures NonNegative(nodes) ==> 0.0 <= sum && forall j :: 0 <= j < |ids| ==> nodes[ids[j]].weight <= sum
  {
    if |ids| == 0 then 0.0 else WeightSum(nodes, ids[..|ids| - 1]) + nodes[ids[|ids| - 1]].weight
  }

  /** The number of siblings with positive weight. */
  function NonZeroCount(nodes: seq<TreeNode>, ids: seq<NodeId>): (count: nat)
    requires InRange(nodes, ids)
    ensures count <= |ids|
    ensures count == 0 <==> forall j :: 0 <= j < |ids| ==> nodes[ids[j]].weight <= 0.0
  {
    if |ids| == 0 then 0
    else NonZeroCount(nodes, ids[..|ids| - 1]) + if nodes[ids[|ids| - 1]].weight > 0.0 then 1 else 0
  }

  /** The level depth: the first sibling's depth, -1 for an empty list. */
  function FirstDepth(nodes: seq<TreeNode>, ids: seq<NodeId>): int
    requires InRange(nodes, ids)
  {
    if |ids| == 0 then -1 else nodes[ids[0]].depth
  }

  /** The weight the sweeps are shares of: the siblings' sum, replaced by a positive parent
      weight that is not smaller. */
  function TotalWeight(sum: real, parentWeight: real): (total: real)
    ensures total >= sum && (parentWeight > 0.0 ==> total >= parentWeight)
    ensures total == sum || total == parentWeight
  {
    if parentWeight > 0.0 && !(parentWeight < sum) then parentWeight else sum
  }

  /** The number of skipLength gaps reserved between `nonZero` positive-weight siblings:
      one fewer below the first level. */
  function Gaps(nonZero: nat, depth: int): int {
    nonZero - if depth <= 1 then 0 else 1
  }

  /** The parent sweep less the reserved gaps, when more than one sibling has positive weight. */
  function UsableSweep(parentSweep: real, nonZero: nat, depth: int, skipLength: real): (usable: real)
    ensures nonZero <= 1 ==> usable == parentSweep
    ensures nonZero > 1 ==> usable + (Gaps(nonZero, depth) as real) * skipLength == parentSweep
  {
    if nonZero > 1 then parentSweep - (Gaps(nonZero, depth) as real) * skipLength else parentSweep
  }

  function LevelOf(nodes: seq<TreeNode>, skipLength: real, ids: seq<NodeId>, span: Span): (level: Level)
    requires InRange(nodes, ids)
    ensures NonNegative(nodes) ==> forall j :: 0 <= j < |ids| ==> nodes[ids[j]].weight <= level.totalWeight
  {
    var depth := FirstDepth(nodes, ids);
    Level(depth, TotalWeight(WeightSum(nodes, ids), span.parentWeight),
          UsableSweep(span.sweep, NonZeroCount(nodes, ids), depth, skipLength))
  }

  /** A positive-weight node is set off by 1 degree, unless it is below the first level and
      the first positive-weight sibling. */
  function NodeStart(cursor: Cursor, node: TreeNode): real {
    if node.weight > 0.0 && (node.depth <= 1 || cursor.nonZeroWeightIndex > 0) then cursor.nodeStart + 1.0
    else cursor.nodeStart
  }

  /** A positive-weight node's share of the usable sweep; zero otherwise. */
  function Proportional(level: Level, node: TreeNode): real
    requires node.weight > 0.0 ==> level.totalWeight >= node.weight
  {
    if node.weight > 0.0 then node.weight / level.totalWeight * level.usableSweep else 0.0
  }

  /** The clamp condition of each pass. */
  predicate Clamped(pass: Pass, node: TreeNode, start: real, sweep: real) {
    (pass == Build || node.weight > 0.0) && start + sweep > Ceiling
  }

  /** The arc one node receives from the cursor. */
  function NodeArc(pass: Pass, level: Level, node: TreeNode, cursor: Cursor): (arc: Arc)
    requires node.weight > 0.0 ==> level.totalWeight >= node.weight
    ensures pass == Build || node.weight > 0.0 ==> arc.start + arc.sweep <= Ceiling
    ensures arc.sweep <= Proportional(level, node)
    ensures !Clamped(pass, node, arc.start, Proportional(level, node)) ==> arc.sweep == Proportional(level, node)
    ensures node.weight <= 0.0 ==> arc.start == cursor.nodeStart &&
                                   (arc.sweep == 0.0 <==> pass == Update || cursor.nodeStart <= Ceiling)
  {
    var start := NodeStart(cursor, node);
    var sweep := Proportional(level, node);
    Arc(start, if Clamped(pass, node, start, sweep) then Ceiling - start else sweep)
  }

  /** The cursor after a node: past its arc, and counting it when its weight is positive. */
  function Advance(cursor: Cursor, node: TreeNode, arc: Arc): Cursor {
    Cursor(arc.start + arc.sweep, cursor.nonZeroWeightIndex + if node.weight > 0.0 then 1 else 0)
  }

  /** The cursor before sibling `k`. */
  function CursorAt(pass: Pass, nodes: seq<TreeNode>, skipLength: real, ids: seq<NodeId>, span: Span, k: nat): (c: Cursor)
    requires InRange(nodes, ids) && NonNegative(nodes) && k <= |ids|
    ensures c.nonZeroWeightIndex == NonZeroCount(nodes, ids[..k])
    ensures pass == Build && k > 0 ==> c.nodeStart <= Ceiling
  {
    if k == 0 then Cursor(span.start, 0)
    else
      var c := CursorAt(pass, nodes, skipLength, ids, span, k - 1);
      var node := nodes[ids[k - 1]];
      assert ids[..k][..k - 1] == ids[..k - 1];
      Advance(c, node, NodeArc(pass, LevelOf(nodes, skipLength, ids, span), node, c))
  }

  /** The arc of sibling `k`. */
  function ArcAt(pass: Pass, nodes: seq<TreeNode>, skipLength: real, ids: seq<NodeId>, span: Span, k: nat): Arc
    requires InRange(nodes, ids) && NonNegative(nodes) && k < |ids|
  {
    NodeArc(pass, LevelOf(nodes, skipLength, ids, span), nodes[ids[k]], CursorAt(pass, nodes, skipLength, ids, span, k))
  }

  /** The placements of siblings `k..` and their subtrees, in the order the recursion makes them. */
  function LayoutFrom(pass: Pass, nodes: seq<TreeNode>, skipLength: real, ids: seq<NodeId>, span: Span, k: nat)
    : (placements: seq<Placement>)
    requires WellFormed(nodes) && InRange(nodes, ids) && NonNegative(nodes) && k <= |ids|
    decreases |nodes| - Lowest(ids, |nodes|), |ids| - k, 1
  {
    if k == |ids| then []
    else SubtreeLayout(pass, nodes, skipLength, ids, span, k) + LayoutFrom(pass, nodes, skipLength, ids, span, k + 1)
  }

  /** The placements sibling `k` contributes: its own, then its children's, laid out inside its
      arc with its weight as the parent weight. */
  function SubtreeLayout(pass: Pass, nodes: seq<TreeNode>, skipLength: real, ids: seq<NodeId>, span: Span, k: nat)
    : (placements: seq<Placement>)
    requires WellFormed(nodes) && InRange(nodes, ids) && NonNegative(nodes) && k < |ids|
    ensures |placements| > 0 && placements[0].node == ids[k]
    decreases |nodes| - Lowest(ids, |nodes|), |ids| - k, 0
  {
    var id := ids[k];
    var arc := ArcAt(pass, nodes, skipLength, ids, span, k);
    var kids := nodes[id].children;
    ChildrenAreLower(nodes, ids, k);
    [Placement(id, Path(nodes, id), arc)] +
    if |kids| > 0 then LayoutFrom(pass, nodes, skipLength, kids, ChildSpan(nodes, id, arc), 0) else []
  }

  /** The span a node's children are laid out in: the node's arc, with its weight as parentWeight. */
  function ChildSpan(nodes: seq<TreeNode>, id: NodeId, arc: Arc): Span
    requires id < |nodes|
  {
    Span(arc.start, arc.sweep, nodes[id].weight)
  }

  /** One step of the sibling loop: sibling `k`'s arc, its subtree's placements and the cursor after it. */
  lemma LayoutStep(pass: Pass, nodes: seq<TreeNode>, skipLength: real, ids: seq<NodeId>, span: Span, k: nat)
    requires WellFormed(nodes) && InRange(nodes, ids) && NonNegative(nodes) && k < |ids|
    ensures InRange(nodes, nodes[ids[k]].children)
    ensures Lowest(ids, |nodes|) < Lowest(nodes[ids[k]].children, |nodes|) <= |nodes|
    ensures ArcAt(pass, nodes, skipLength, ids, span, k) ==
            NodeArc(pass, LevelOf(nodes, skipLength, ids, span), nodes[ids[k]], CursorAt(pass, nodes, skipLength, ids, span, k))
    ensures CursorAt(pass, nodes, skipLength, ids, span, k + 1) ==
            Advance(CursorAt(pass, nodes, skipLength, ids, span, k), nodes[ids[k]], ArcAt(pass, nodes, skipLength, ids, span, k))
    ensures LayoutFrom(pass, nodes, skipLength, ids, span, k) ==
            SubtreeLayout(pass, nodes, skipLength, ids, span, k) + LayoutFrom(pass, nodes, skipLength, ids, span, k + 1)
    ensures var id := ids[k];
            var arc := ArcAt(pass, nodes, skipLength, ids, span, k);
            var kids := nodes[id].children;
            SubtreeLayout(pass, nodes, skipLength, ids, span, k) ==
            [Placement(id, Path(nodes, id), arc)] +
            if |kids| > 0 then Layout(pass, nodes, skipLength, kids, ChildSpan(nodes, id, arc)) else []
  {
    ChildrenAreLower(nodes, ids, k);
  }

  /** All placements of a sibling list laid out inside `span`. */
  function Layout(pass: Pass, nodes: seq<TreeNode>, skipLength: real, ids: seq<NodeId>, span: Span): seq<Placement>
    requires WellFormed(nodes) && InRange(nodes, ids) && NonNegative(nodes)
  {
    LayoutFrom(pass, nodes, skipLength, ids, span, 0)
  }

  /** The paths of a placement sequence. */
  function Paths(placements: seq<Placement>): set<string> {
    set q | q in placements :: q.path
  }

  lemma PathsAppend(a: seq<Placement>, b: seq<Placement>)
    ensures Paths(a + b) == Paths(a) + Paths(b)
  {
    forall q | q in a + b ensures q in a || q in b {}
    forall q | q in a ensures q in a + b {}
    forall q | q in b ensures q in a + b {}
  }

  /** Every placement's path is a key of `m`. */
  predicate Keyed(m: map<string, Arc>, placements: seq<Placement>) {
    forall j :: 0 <= j < |placements| ==> placements[j].path in m
  }

  lemma KeyedPaths(m: map<string, Arc>, placements: seq<Placement>)
    ensures Keyed(m, placements) <==> Paths(placements) <= m.Keys
  {
    if Keyed(m, placements) {
      forall key | key in Paths(placements) ensures key in m {
        var q :| q in placements && q.path == key;
        var j :| 0 <= j < |placements| && placements[j] == q;
      }
    }
    if Paths(placements) <= m.Keys {
      forall j | 0 <= j < |placements| ensures placements[j].path in m {
        assert placements[j] in placements;
      }
    }
  }

  lemma KeyedAppend(m: map<string, Arc>, a: seq<Placement>, b: seq<Placement>)
    ensures Keyed(m, a + b) <==> Keyed(m, a) && Keyed(m, b)
  {
    if Keyed(m, a + b) {
      forall j | 0 <= j < |a| ensures a[j].path in m {
        assert a[j] == (a + b)[j];
      }
      forall j | 0 <= j < |b| ensures b[j].path in m {
        assert b[j] == (a + b)[|a| + j];
      }
    }
  }

  /** Every part of a three-way split of a keyed placement sequence is keyed. */
  lemma KeyedSplit(m: map<string, Arc>, all: seq<Placement>, done: seq<Placement>, sub: seq<Placement>, rest: seq<Placement>)
    requires all == done + sub + rest && Keyed(m, all)
    ensures Keyed(m, done) && Keyed(m, sub) && Keyed(m, done + sub)
  {
    KeyedAppend(m, done + sub, rest);
    KeyedAppend(m, done, sub);
  }

  /** A map after put(path, arc) for each placement in turn. */
  function PutAll(m: map<string, Arc>, placements: seq<Placement>): map<string, Arc> {
    if |placements| == 0 then m
    else PutAll(m, placements[..|placements| - 1])[placements[|placements| - 1].path := placements[|placements| - 1].arc]
  }

  /** After the puts, the keys are the old keys and the placements' paths; a path placed more
      than once holds the arc of its last placement; any other key keeps its old arc. */
  lemma {:induction false} PutAllSpec(m: map<string, Arc>, placements: seq<Placement>)
    ensures PutAll(m, placements).Keys == m.Keys + Paths(placements)
    ensures forall j :: 0 <= j < |placements| && (forall j' :: j < j' < |placements| ==> placements[j'].path != placements[j].path) ==>
              PutAll(m, placements)[placements[j].path] == placements[j].arc
    ensures forall key :: key in m && key !in Paths(placements) ==> PutAll(m, placements)[key] == m[key]
  {
    if |placements| > 0 {
      var front := placements[..|placements| - 1];
      var last := placements[|placements| - 1];
      assert placements == front + [last];
      PutAllSpec(m, front);
      assert Paths(placements) == Paths(front) + {last.path};
      forall j | 0 <= j < |placements| && (forall j' :: j < j' < |placements| ==> placements[j'].path != placements[j].path)
        ensures PutAll(m, placements)[placements[j].path] == placements[j].arc
      {
        if j < |placements| - 1 {
          assert placements[j] == front[j];
          assert forall j' :: j < j' < |front| ==> front[j'].path != front[j].path;
        }
      }
    }
  }

  /** The old and new arc of one animated drawable. */
  datatype Animation = Animation(path: string, from: Arc, to: Arc)

  /** One animation per placement, from the arc the map holds to the placement's arc. */
  function Animations(m: map<string, Arc>, placements: seq<Placement>): (r: seq<Animation>)
    requires Keyed(m, placements)
    ensures |r| == |placements|
  {
    if |placements| == 0 then []
    else
      var last := placements[|placements| - 1];
      Animations(m, placements[..|placements| - 1]) + [Animation(last.path, m[last.path], last.arc)]
  }

  /** Putting two placement sequences in turn is putting their concatenation. */
  lemma {:induction false} PutAllAppend(m: map<string, Arc>, a: seq<Placement>, b: seq<Placement>)
    ensures PutAll(m, a + b) == PutAll(PutAll(m, a), b)
  {
    if |b| == 0 {
      assert a + b == a;
    } else {
      var last := b[|b| - 1];
      assert (a + b)[..|a + b| - 1] == a + b[..|b| - 1];
      PutAllAppend(m, a, b[..|b| - 1]);
    }
  }

  lemma {:induction false} AnimationsAppend(m: map<string, Arc>, a: seq<Placement>, b: seq<Placement>)
    requires Keyed(m, a) && Keyed(m, b)
    ensures Keyed(m, a + b)
    ensures Animations(m, a + b) == Animations(m, a) + Animations(m, b)
  {
    if |b| == 0 {
      assert a + b == a;
    } else {
      assert (a + b)[..|a + b| - 1] == a + b[..|b| - 1];
      AnimationsAppend(m, a, b[..|b| - 1]);
    }
  }

  /** What one update pass does to the drawables and the animators: animated, the map stays
      and one animation per placement is appended; otherwise each placement's arc is put. */
  function UpdateEffect(animate: bool, m: map<string, Arc>, animators: seq<Animation>, placements: seq<Placement>)
    : (map<string, Arc>, seq<Animation>)
    requires Keyed(m, placements)
  {
    if animate then (m, animators + Animations(m, placements)) else (PutAll(m, placements), animators)
  }

  /** Running the update effect over two placement sequences in turn is running it over their
      concatenation, and it never adds or drops a key. */
  lemma UpdateEffectAppend(animate: bool, m: map<string, Arc>, animators: seq<Animation>, a: seq<Placement>, b: seq<Placement>)
    requires Keyed(m, a) && Keyed(m, b)
    ensures Keyed(m, a + b)
    ensures UpdateEffect(animate, m, animators, a).0.Keys == m.Keys
    ensures var (m', animators') := UpdateEffect(animate, m, animators, a);
            UpdateEffect(animate, m', animators', b) == UpdateEffect(animate, m, animators, a + b)
  {
    KeyedAppend(m, a, b);
    if animate {
      AnimationsAppend(m, a, b);
      assert animators + Animations(m, a) + Animations(m, b) == animators + (Animations(m, a) + Animations(m, b));
    } else {
      PutAllSpec(m, a);
      PutAllAppend(m, a, b);
    }
  }

  lemma UpdateEffectEmpty(animate: bool, m: map<string, Arc>, animators: seq<Animation>)
    ensures UpdateEffect(animate, m, animators, []) == (m, animators)
  {
    assert animators + [] == animators;
  }

  /** The update effect of one placement: one animation, or one put. */
  lemma UpdateEffectSingle(animate: bool, m: map<string, Arc>, animators: seq<Animation>, p: Placement)
    requires p.path in m
    ensures Keyed(m, [p])
    ensures UpdateEffect(animate, m, animators, [p]) ==
            if animate then (m, animators + [Animation(p.path, m[p.path], p.arc)]) else (m[p.path := p.arc], animators)
  {
    assert [p][..0] == [];
    assert Paths([p]) == {p.path};
    assert Animations(m, [p]) == [Animation(p.path, m[p.path], p.arc)];
    assert PutAll(m, [p]) == m[p.path := p.arc];
  }

  /** The update effect never adds or drops a key. */
  lemma UpdateEffectKeys(animate: bool, m: map<string, Arc>, animators: seq<Animation>, placements: seq<Placement>)
    requires Keyed(m, placements)
    ensures UpdateEffect(animate, m, animators, placements).0.Keys == m.Keys
  {
    PutAllSpec(m, placements);
    KeyedPaths(m, placements);
  }
}
