/**
 * How a sibling list fills its parent's arc.  When the siblings' weights are the total
 * (the parent weight does not exceed their sum) and no arc reaches past 360 degrees, every
 * sibling gets exactly its proportional share, the shares add up to the usable sweep, and
 * the cursor ends after the usable sweep plus one degree per offset node.  The offset is
 * a literal degree while the reserved gap is skipLength, so the list ends exactly at the
 * end of the parent's arc only when skipLength is 1.
 */
module SiblingSweeps {
  import opened Wrappers
  import opened TreeNodes
  import opened RadialLayout
  import opened LayoutProperties

  /** The number of 1-degree offsets the first `n` positive-weight siblings of a level at
      `depth` receive: all of them on the first level, all but the first below it. */
  function Offsets(n: nat, depth: int): (offsets: nat)
    ensures offsets <= n
    ensures n > 0 ==> offsets == Gaps(n, depth)
  {
    if depth <= 1 then n else if n == 0 then 0 else n - 1
  }

  /** Offsets grow with the number of positive-weight siblings. */
  lemma OffsetsMonotone(m: nat, n: nat, depth: int)
    requires m <= n
    ensures Offsets(m, depth) <= Offsets(n, depth)
  {
  }

  /** Extending a prefix of the list by one sibling adds its weight, and counts it if positive. */
  lemma PrefixStep(nodes: seq<TreeNode>, ids: seq<NodeId>, k: nat)
    requires InRange(nodes, ids) && k < |ids|
    ensures InRange(nodes, ids[..k]) && InRange(nodes, ids[..k + 1])
    ensures WeightSum(nodes, ids[..k + 1]) == WeightSum(nodes, ids[..k]) + nodes[ids[k]].weight
    ensures NonZeroCount(nodes, ids[..k + 1]) == NonZeroCount(nodes, ids[..k]) + if nodes[ids[k]].weight > 0.0 then 1 else 0
  {
    assert ids[..k + 1][..k] == ids[..k];
  }

  /** A prefix of the list weighs no more, and has no more positive-weight siblings, than the list. */
  lemma {:induction false} PrefixBounds(nodes: seq<TreeNode>, ids: seq<NodeId>, k: nat)
    requires InRange(nodes, ids) && NonNegative(nodes) && k <= |ids|
    ensures InRange(nodes, ids[..k])
    ensures WeightSum(nodes, ids[..k]) <= WeightSum(nodes, ids)
    ensures NonZeroCount(nodes, ids[..k]) <= NonZeroCount(nodes, ids)
    decreases |ids| - k
  {
    if k < |ids| {
      PrefixStep(nodes, ids, k);
      PrefixBounds(nodes, ids, k + 1);
    } else {
      assert ids[..k] == ids;
    }
  }

  /** The siblings' weights in list order. */
  function Weights(nodes: seq<TreeNode>, ids: seq<NodeId>): seq<real>
    requires InRange(nodes, ids)
  {
    seq(|ids|, j requires 0 <= j < |ids| => nodes[ids[j]].weight)
  }

  /** A sequence of weights summed in order. */
  function Sum(ws: seq<real>): real {
    if |ws| == 0 then 0.0 else Sum(ws[..|ws| - 1]) + ws[|ws| - 1]
  }

  /** The proportional shares of `sweep` for a sequence of weights out of `total`, summed in
      order; a weight that is not positive has no share. */
  function Shares(ws: seq<real>, total: real, sweep: real): real
    requires total > 0.0
  {
    if |ws| == 0 then 0.0
    else Shares(ws[..|ws| - 1], total, sweep) + if ws[|ws| - 1] > 0.0 then ws[|ws| - 1] / total * sweep else 0.0
  }

  /** The siblings' weights sum to WeightSum. */
  lemma {:induction false} SumOfWeights(nodes: seq<TreeNode>, ids: seq<NodeId>)
    requires InRange(nodes, ids)
    ensures Sum(Weights(nodes, ids)) == WeightSum(nodes, ids)
  {
    if |ids| > 0 {
      var init := ids[..|ids| - 1];
      assert Weights(nodes, ids)[..|ids| - 1] == Weights(nodes, init);
      SumOfWeights(nodes, init);
    }
  }

  /** The shares of non-negative weights are the share of their sum. */
  lemma {:induction false} SharesOfSum(ws: seq<real>, total: real, sweep: real)
    requires total > 0.0 && forall j :: 0 <= j < |ws| ==> ws[j] >= 0.0
    ensures Shares(ws, total, sweep) == Sum(ws) / total * sweep
  {
    if |ws| > 0 {
      var a := Sum(ws[..|ws| - 1]);
      var b := ws[|ws| - 1];
      SharesOfSum(ws[..|ws| - 1], total, sweep);
      assert (a + b) / total * sweep == a / total * sweep + b / total * sweep;
      assert b == 0.0 ==> b / total * sweep == 0.0;
    } else {
      assert 0.0 / total * sweep == 0.0;
    }
  }

  /** The sum of non-negative weights is not negative. */
  lemma {:induction false} SumNonNegative(ws: seq<real>)
    requires forall j :: 0 <= j < |ws| ==> ws[j] >= 0.0
    ensures Sum(ws) >= 0.0
  {
    if |ws| > 0 {
      SumNonNegative(ws[..|ws| - 1]);
    }
  }

  /** A share of a non-negative sweep for a part of the total lies within the sweep. */
  lemma ShareBound(a: real, total: real, sweep: real)
    requires 0.0 <= a <= total && sweep >= 0.0 && total > 0.0
    ensures 0.0 <= a / total * sweep <= sweep
  {
    assert a / total <= 1.0;
  }

  /** Shares of a non-negative sweep for weights that fit in the total stay within the sweep. */
  lemma SharesBound(ws: seq<real>, total: real, sweep: real)
    requires total > 0.0 && sweep >= 0.0 && forall j :: 0 <= j < |ws| ==> ws[j] >= 0.0
    requires Sum(ws) <= total
    ensures 0.0 <= Shares(ws, total, sweep) <= sweep
  {
    SharesOfSum(ws, total, sweep);
    SumNonNegative(ws);
    ShareBound(Sum(ws), total, sweep);
  }

  /** The share of the whole total is the whole sweep. */
  lemma WholeShare(ws: seq<real>, total: real, sweep: real)
    requires total > 0.0 && forall j :: 0 <= j < |ws| ==> ws[j] >= 0.0
    requires Sum(ws) == total
    ensures Shares(ws, total, sweep) == sweep
  {
    SharesOfSum(ws, total, sweep);
    assert total / total == 1.0;
  }

  /** The siblings' own weights are the total, and the usable sweep plus the offsets stays
      below the ceiling: no sibling is clamped. */
  predicate Fits(nodes: seq<TreeNode>, skipLength: real, ids: seq<NodeId>, span: Span)
    requires InRange(nodes, ids)
  {
    var level := LevelOf(nodes, skipLength, ids, span);
    WeightSum(nodes, ids) > 0.0 && level.totalWeight == WeightSum(nodes, ids) && level.usableSweep >= 0.0 &&
    span.start + (Offsets(NonZeroCount(nodes, ids), level.depth) as real) + level.usableSweep <= Ceiling
  }

  /** The shares of the siblings before `k`. */
  function PriorShares(nodes: seq<TreeNode>, skipLength: real, ids: seq<NodeId>, span: Span, k: nat): real
    requires InRange(nodes, ids) && k <= |ids| && LevelOf(nodes, skipLength, ids, span).totalWeight > 0.0
  {
    var level := LevelOf(nodes, skipLength, ids, span);
    Shares(Weights(nodes, ids)[..k], level.totalWeight, level.usableSweep)
  }

  /** Passing sibling `k` adds its proportional share. */
  lemma PriorSharesStep(nodes: seq<TreeNode>, skipLength: real, ids: seq<NodeId>, span: Span, k: nat)
    requires InRange(nodes, ids) && NonNegative(nodes) && k < |ids|
    requires LevelOf(nodes, skipLength, ids, span).totalWeight > 0.0
    ensures PriorShares(nodes, skipLength, ids, span, k + 1)
         == PriorShares(nodes, skipLength, ids, span, k) + Proportional(LevelOf(nodes, skipLength, ids, span), nodes[ids[k]])
  {
    var ws := Weights(nodes, ids);
    assert ws[..k + 1][..k] == ws[..k];
  }

  /** The shares of the siblings before `k` stay within the usable sweep. */
  lemma PriorSharesBound(nodes: seq<TreeNode>, skipLength: real, ids: seq<NodeId>, span: Span, k: nat)
    requires InRange(nodes, ids) && NonNegative(nodes) && k <= |ids| && Fits(nodes, skipLength, ids, span)
    ensures 0.0 <= PriorShares(nodes, skipLength, ids, span, k) <= LevelOf(nodes, skipLength, ids, span).usableSweep
  {
    var level := LevelOf(nodes, skipLength, ids, span);
    var ws := Weights(nodes, ids)[..k];
    PrefixBounds(nodes, ids, k);
    assert ws == Weights(nodes, ids[..k]);
    SumOfWeights(nodes, ids[..k]);
    SharesBound(ws, level.totalWeight, level.usableSweep);
  }

  /** The shares of all the siblings add up to the usable sweep. */
  lemma SharesFillUsable(nodes: seq<TreeNode>, skipLength: real, ids: seq<NodeId>, span: Span)
    requires InRange(nodes, ids) && NonNegative(nodes) && Fits(nodes, skipLength, ids, span)
    ensures PriorShares(nodes, skipLength, ids, span, |ids|) == LevelOf(nodes, skipLength, ids, span).usableSweep
  {
    var level := LevelOf(nodes, skipLength, ids, span);
    var ws := Weights(nodes, ids);
    assert ws[..|ids|] == ws;
    SumOfWeights(nodes, ids);
    WholeShare(ws, level.totalWeight, level.usableSweep);
  }

  /** Where the cursor stands before sibling `k` when nothing is clamped: past the offsets
      and the shares of the siblings before `k`. */
  function UnclampedStart(nodes: seq<TreeNode>, skipLength: real, ids: seq<NodeId>, span: Span, k: nat): real
    requires InRange(nodes, ids) && k <= |ids| && LevelOf(nodes, skipLength, ids, span).totalWeight > 0.0
  {
    var level := LevelOf(nodes, skipLength, ids, span);
    span.start + (Offsets(NonZeroCount(nodes, ids[..k]), level.depth) as real) + PriorShares(nodes, skipLength, ids, span, k)
  }

  /** A sibling's offset is the step the offset count takes when it is counted. */
  lemma OffsetStep(cursor: Cursor, node: TreeNode, depth: int)
    requires node.depth == depth
    ensures var n := cursor.nonZeroWeightIndex;
            NodeStart(cursor, node) == cursor.nodeStart +
              (Offsets(n + if node.weight > 0.0 then 1 else 0, depth) - Offsets(n, depth)) as real
  {
  }

  /** From the unclamped position before sibling `k`, the sibling's start plus its share is
      the unclamped position after it, and that stays within the ceiling. */
  lemma UnclampedStep(nodes: seq<TreeNode>, skipLength: real, ids: seq<NodeId>, span: Span, k: nat, c: Cursor)
    requires SiblingList(nodes, ids) && NonNegative(nodes) && k < |ids| && Fits(nodes, skipLength, ids, span)
    requires c.nodeStart == UnclampedStart(nodes, skipLength, ids, span, k)
    requires c.nonZeroWeightIndex == NonZeroCount(nodes, ids[..k])
    ensures var share := Proportional(LevelOf(nodes, skipLength, ids, span), nodes[ids[k]]);
            NodeStart(c, nodes[ids[k]]) + share == UnclampedStart(nodes, skipLength, ids, span, k + 1) &&
            NodeStart(c, nodes[ids[k]]) + share <= Ceiling
  {
    var level := LevelOf(nodes, skipLength, ids, span);
    var node := nodes[ids[k]];
    PrefixStep(nodes, ids, k);
    PrefixBounds(nodes, ids, k + 1);
    PriorSharesStep(nodes, skipLength, ids, span, k);
    PriorSharesBound(nodes, skipLength, ids, span, k + 1);
    OffsetStep(c, node, level.depth);
    OffsetsMonotone(NonZeroCount(nodes, ids[..k + 1]), NonZeroCount(nodes, ids), level.depth);
  }

  /** One sibling of a list that fits: from the unclamped cursor it gets its proportional
      share, and the cursor moves on to the next unclamped position. */
  lemma FitsStep(pass: Pass, nodes: seq<TreeNode>, skipLength: real, ids: seq<NodeId>, span: Span, k: nat)
    requires SiblingList(nodes, ids) && NonNegative(nodes) && k < |ids| && Fits(nodes, skipLength, ids, span)
    requires CursorAt(pass, nodes, skipLength, ids, span, k).nodeStart == UnclampedStart(nodes, skipLength, ids, span, k)
    ensures ArcAt(pass, nodes, skipLength, ids, span, k).sweep
         == Proportional(LevelOf(nodes, skipLength, ids, span), nodes[ids[k]])
    ensures CursorAt(pass, nodes, skipLength, ids, span, k + 1).nodeStart == UnclampedStart(nodes, skipLength, ids, span, k + 1)
  {
    UnclampedStep(nodes, skipLength, ids, span, k, CursorAt(pass, nodes, skipLength, ids, span, k));
  }

  /** Induction over the list: every sibling before `k` got its share, and the cursor stands
      at the unclamped position. */
  lemma {:induction false} FitsUpTo(pass: Pass, nodes: seq<TreeNode>, skipLength: real, ids: seq<NodeId>, span: Span, k: nat)
    requires SiblingList(nodes, ids) && NonNegative(nodes) && k <= |ids| && Fits(nodes, skipLength, ids, span)
    ensures CursorAt(pass, nodes, skipLength, ids, span, k).nodeStart == UnclampedStart(nodes, skipLength, ids, span, k)
    ensures forall j :: 0 <= j < k ==> ArcAt(pass, nodes, skipLength, ids, span, j).sweep
                                       == Proportional(LevelOf(nodes, skipLength, ids, span), nodes[ids[j]])
  {
    if k == 0 {
      assert ids[..0] == [];
    } else {
      FitsUpTo(pass, nodes, skipLength, ids, span, k - 1);
      FitsStep(pass, nodes, skipLength, ids, span, k - 1);
    }
  }

  /** Where a sibling list that fits ends: after the offsets and the whole usable sweep. */
  lemma SiblingsEnd(pass: Pass, nodes: seq<TreeNode>, skipLength: real, ids: seq<NodeId>, span: Span)
    requires SiblingList(nodes, ids) && NonNegative(nodes) && Fits(nodes, skipLength, ids, span)
    ensures var level := LevelOf(nodes, skipLength, ids, span);
            CursorAt(pass, nodes, skipLength, ids, span, |ids|).nodeStart
              == span.start + (Offsets(NonZeroCount(nodes, ids), level.depth) as real) + level.usableSweep
  {
    FitsUpTo(pass, nodes, skipLength, ids, span, |ids|);
    SharesFillUsable(nodes, skipLength, ids, span);
    assert ids[..|ids|] == ids;
  }

  /** A sibling list that fits is laid out without a clamp: each sibling's sweep is its
      proportional share, and the shares add up to the usable sweep. */
  lemma SiblingsFillSpan(pass: Pass, nodes: seq<TreeNode>, skipLength: real, ids: seq<NodeId>, span: Span)
    requires SiblingList(nodes, ids) && NonNegative(nodes) && Fits(nodes, skipLength, ids, span)
    ensures forall j :: 0 <= j < |ids| ==>
              ArcAt(pass, nodes, skipLength, ids, span, j).sweep == Proportional(LevelOf(nodes, skipLength, ids, span), nodes[ids[j]])
    ensures PriorShares(nodes, skipLength, ids, span, |ids|) == LevelOf(nodes, skipLength, ids, span).usableSweep
  {
    FitsUpTo(pass, nodes, skipLength, ids, span, |ids|);
    SharesFillUsable(nodes, skipLength, ids, span);
  }

  /** With a skipLength of one degree and more than one positive-weight sibling, the offsets
      take exactly the reserved gaps, so a list that fits ends exactly at the end of the
      parent's arc. */
  lemma SiblingsEndAtSpanEnd(pass: Pass, nodes: seq<TreeNode>, ids: seq<NodeId>, span: Span)
    requires SiblingList(nodes, ids) && NonNegative(nodes) && Fits(nodes, 1.0, ids, span)
    requires NonZeroCount(nodes, ids) > 1
    ensures CursorAt(pass, nodes, 1.0, ids, span, |ids|).nodeStart == span.start + span.sweep
  {
    SiblingsEnd(pass, nodes, 1.0, ids, span);
    UsableGaps(nodes, ids, span);
  }

  /** With a skipLength of one degree and more than one positive-weight sibling, the usable
      sweep and one degree per reserved gap make up the parent's sweep. */
  lemma UsableGaps(nodes: seq<TreeNode>, ids: seq<NodeId>, span: Span)
    requires InRange(nodes, ids) && NonZeroCount(nodes, ids) > 1
    ensures var level := LevelOf(nodes, 1.0, ids, span);
            level.usableSweep + (Gaps(NonZeroCount(nodes, ids), level.depth) as real) == span.sweep
  {
    var nonZero := NonZeroCount(nodes, ids);
    var depth := FirstDepth(nodes, ids);
    assert UsableSweep(span.sweep, nonZero, depth, 1.0) == span.sweep - (Gaps(nonZero, depth) as real);
  }

  /** The root list of the view fits when skipLength is one degree and between 2 and 360
      roots have positive weight; so with such roots the root arcs end exactly at 360 degrees. */
  lemma RootsFit(nodes: seq<TreeNode>, roots: seq<NodeId>)
    requires InRange(nodes, roots) && NonNegative(nodes) && |roots| > 0 && nodes[roots[0]].depth == 1
    requires 2 <= NonZeroCount(nodes, roots) <= 360
    ensures Fits(nodes, 1.0, roots, RootSpan)
  {
    var j :| 0 <= j < |roots| && nodes[roots[j]].weight > 0.0;
    UsableGaps(nodes, roots, RootSpan);
  }

  /** With a skipLength of one degree and more than one positive-weight sibling, each arc of a
      list that fits lies inside the parent's arc. */
  lemma ArcWithinSpan(pass: Pass, nodes: seq<TreeNode>, ids: seq<NodeId>, span: Span, k: nat)
    requires SiblingList(nodes, ids) && NonNegative(nodes) && Fits(nodes, 1.0, ids, span)
    requires NonZeroCount(nodes, ids) > 1 && k < |ids|
    ensures var arc := ArcAt(pass, nodes, 1.0, ids, span, k);
            span.start <= arc.start && arc.start + arc.sweep <= span.start + span.sweep
  {
    FitsUpTo(pass, nodes, 1.0, ids, span, k);
    FitsStep(pass, nodes, 1.0, ids, span, k);
    PriorSharesBound(nodes, 1.0, ids, span, k);
    UnclampedWithinSpan(nodes, ids, span, k + 1);
  }

  /** The unclamped position before sibling `k` lies inside the parent's arc. */
  lemma UnclampedWithinSpan(nodes: seq<TreeNode>, ids: seq<NodeId>, span: Span, k: nat)
    requires SiblingList(nodes, ids) && NonNegative(nodes) && Fits(nodes, 1.0, ids, span)
    requires NonZeroCount(nodes, ids) > 1 && k <= |ids|
    ensures span.start <= UnclampedStart(nodes, 1.0, ids, span, k) <= span.start + span.sweep
  {
    var level := LevelOf(nodes, 1.0, ids, span);
    PriorSharesBound(nodes, 1.0, ids, span, k);
    PrefixBounds(nodes, ids, k);
    OffsetsMonotone(NonZeroCount(nodes, ids[..k]), NonZeroCount(nodes, ids), level.depth);
    UsableGaps(nodes, ids, span);
  }

  /** Every arc of such a list lies inside the parent's arc. */
  lemma ArcsWithinSpan(pass: Pass, nodes: seq<TreeNode>, ids: seq<NodeId>, span: Span)
    requires SiblingList(nodes, ids) && NonNegative(nodes) && Fits(nodes, 1.0, ids, span)
    requires NonZeroCount(nodes, ids) > 1
    ensures forall k :: 0 <= k < |ids| ==>
              span.start <= ArcAt(pass, nodes, 1.0, ids, span, k).start &&
              ArcAt(pass, nodes, 1.0, ids, span, k).start + ArcAt(pass, nodes, 1.0, ids, span, k).sweep
                <= span.start + span.sweep
  {
    forall k | 0 <= k < |ids|
      ensures span.start <= ArcAt(pass, nodes, 1.0, ids, span, k).start &&
              ArcAt(pass, nodes, 1.0, ids, span, k).start + ArcAt(pass, nodes, 1.0, ids, span, k).sweep
                <= span.start + span.sweep
    {
      ArcWithinSpan(pass, nodes, ids, span, k);
    }
  }
}
