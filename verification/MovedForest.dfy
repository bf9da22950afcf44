/** What a successful move of several subtrees does to the tree: nodes, levels and parents. */
module MovedForest {
  import opened FlatTree
  import opened Rearrange
  import opened Location
  import opened Pruning
  import opened MoveItems

  // ----- which node of the old list each extracted node is

  ghost function Run(lo: nat, hi: nat): (r: seq<nat>)
    requires lo <= hi
    ensures |r| == hi - lo && forall k :: 0 <= k < |r| ==> r[k] == lo + k
  {
    seq(hi - lo, k requires 0 <= k => lo + k)
  }

  ghost function Origins(s: seq<Node>, roots: seq<nat>, m: nat): seq<nat>
    requires m <= |roots| && forall k :: 0 <= k < |roots| ==> roots[k] < |s|
    decreases |roots| - m
  {
    if m == |roots| then [] else Run(roots[m], SubtreeEnd(s, roots[m])) + Origins(s, roots, m + 1)
  }

  lemma {:induction false} PositionsRun(keep: nat -> bool, lo: nat, hi: nat)
    requires lo <= hi && forall i: nat :: lo <= i < hi ==> keep(i)
    ensures PositionsWhere(hi, keep) == PositionsWhere(lo, keep) + Run(lo, hi)
  {
    if lo < hi {
      PositionsRun(keep, lo, hi - 1);
      RunStep(PositionsWhere(lo, keep), lo, hi);
    }
  }

  lemma RunStep(a: seq<nat>, lo: nat, hi: nat)
    requires lo < hi
    ensures a + Run(lo, hi) == a + Run(lo, hi - 1) + [hi - 1]
  {
  }

  lemma {:induction false} OriginsAreCovered(s: seq<Node>, roots: seq<nat>, c: nat, m: nat)
    requires AncestorFree(s, roots) && Between(s, roots, c, m)
    ensures PositionsWhere(|s|, Lost(s, OneOf(roots))) ==
        PositionsWhere(c, Lost(s, OneOf(roots))) + Origins(s, roots, m)
    decreases |roots| - m
  {
    hide Covered, PositionsWhere, SubtreeEnd, Lost, OneOf, Run;
    var lost := Lost(s, OneOf(roots));
    CoveredRanges(s, roots, c, m);
    if m == |roots| {
      SkipRange(s, lost, c, |s|);
    } else {
      var r, e := roots[m], SubtreeEnd(s, roots[m]);
      SkipRange(s, lost, c, r);
      PositionsRun(lost, r, e);
      OriginsAreCovered(s, roots, e, m + 1);
      Associate(PositionsWhere(c, lost), Run(r, e), Origins(s, roots, m + 1));
    }
  }

  /** The positions of all nodes that are carried along, in their original order. */
  ghost function Moving(s: seq<Node>, roots: seq<nat>): (idx: seq<nat>)
    ensures Picks(idx, |s|)
    ensures forall i: nat :: i in idx <==> i < |s| && Covered(s, OneOf(roots), i)
  {
    CoveredPositions(s, OneOf(roots))
  }

  lemma {:induction false} MovingIsOrigins(s: seq<Node>, roots: seq<nat>)
    requires AncestorFree(s, roots)
    ensures Moving(s, roots) == Origins(s, roots, 0)
  {
    OriginsAreCovered(s, roots, 0, 0);
  }

  // ----- levels

  /** The selected node that carries node `i` along. */
  ghost function CarrierOf(s: seq<Node>, roots: seq<nat>, i: nat): (r: nat)
    requires Covered(s, OneOf(roots), i)
    ensures r in roots && InSubtree(s, r, i)
  {
    var r: nat :| OneOf(roots)(r) && InSubtree(s, r, i);
    r
  }

  lemma CarrierIs(s: seq<Node>, roots: seq<nat>, k: nat, i: nat)
    requires AncestorFree(s, roots) && k < |roots| && InSubtree(s, roots[k], i)
    ensures Covered(s, OneOf(roots), i) && CarrierOf(s, roots, i) == roots[k]
  {
    assert OneOf(roots)(roots[k]);
    var r := CarrierOf(s, roots, i);
    var j :| 0 <= j < |roots| && roots[j] == r;
    SubtreeIsRange(s, roots[k], i);
    SubtreeIsRange(s, r, i);
  }

  /** How far below its carrier node `i` lies; 0 for the carrier itself. */
  ghost function Depth(s: seq<Node>, roots: seq<nat>, i: nat): int {
    if Covered(s, OneOf(roots), i) then s[i].level - s[CarrierOf(s, roots, i)].level else 0
  }

  lemma CarrierOfRoot(s: seq<Node>, roots: seq<nat>, i: nat)
    requires AncestorFree(s, roots) && i in roots
    ensures Covered(s, OneOf(roots), i) && CarrierOf(s, roots, i) == i && Depth(s, roots, i) == 0
  {
    var k :| 0 <= k < |roots| && roots[k] == i;
    assert InSubtree(s, i, i);
    CarrierIs(s, roots, k, i);
  }

  lemma DepthNonNegative(s: seq<Node>, roots: seq<nat>, i: nat)
    ensures Depth(s, roots, i) >= 0
  {
  }

  /** Nodes between a carried node and its carrier are carried by the same one. */
  lemma SameCarrier(s: seq<Node>, roots: seq<nat>, i: nat, j: nat)
    requires AncestorFree(s, roots) && Covered(s, OneOf(roots), i) && CarrierOf(s, roots, i) <= j <= i
    ensures Covered(s, OneOf(roots), j) && CarrierOf(s, roots, j) == CarrierOf(s, roots, i)
    ensures Depth(s, roots, i) - Depth(s, roots, j) == s[i].level - s[j].level
  {
    var r := CarrierOf(s, roots, i);
    var k :| 0 <= k < |roots| && roots[k] == r;
    assert InSubtree(s, r, j);
    CarrierIs(s, roots, k, j);
  }

  /** A carried node that is not selected itself lies below its carrier, and so does its parent. */
  lemma {:induction false} CarriedParent(s: seq<Node>, roots: seq<nat>, i: nat)
    requires AncestorFree(s, roots) && Covered(s, OneOf(roots), i) && i !in roots
    ensures var r, q := CarrierOf(s, roots, i), ParentOf(s, i);
            r <= q < i && Depth(s, roots, i) > 0 && Covered(s, OneOf(roots), q)
  {
    var r := CarrierOf(s, roots, i);
    assert r != i;
    SubtreeFollowsParents(s, r, i);
    SameCarrier(s, roots, i, ParentOf(s, i));
  }

  // ----- the extracted block

  /** `block` holds the carried nodes in their original order, carriers at `level`, depths kept. */
  ghost predicate CarriesAll(s: seq<Node>, roots: seq<nat>, level: Level, block: seq<Node>) {
    var moving := Moving(s, roots);
    && |block| == |moving|
    && forall b :: 0 <= b < |block| ==>
         block[b] == s[moving[b]].(level := block[b].level) && block[b].level == level + Depth(s, roots, moving[b])
  }

  lemma {:induction false} ExtractedLength(s: seq<Node>, roots: seq<nat>, level: Level, m: nat)
    requires Picks(roots, |s|) && m <= |roots|
    ensures |Extracted(s, roots, level, m)| == |Origins(s, roots, m)|
    decreases |roots| - m
  {
    hide ShiftInPlace, Subtree;
    if m < |roots| {
      ExtractedLength(s, roots, level, m + 1);
      ExtractedHead(s, roots, level, m);
    }
  }

  lemma {:induction false} ExtractedHead(s: seq<Node>, roots: seq<nat>, level: Level, m: nat)
    requires Picks(roots, |s|) && m < |roots|
    ensures var head, run := ShiftInPlace(Subtree(s, roots[m]), level), Run(roots[m], SubtreeEnd(s, roots[m]));
            && |head| == |run|
            && |Extracted(s, roots, level, m)| == |head| + |Extracted(s, roots, level, m + 1)|
            && |Origins(s, roots, m)| == |run| + |Origins(s, roots, m + 1)|
            && Extracted(s, roots, level, m) == head + Extracted(s, roots, level, m + 1)
            && Origins(s, roots, m) == run + Origins(s, roots, m + 1)
  {
  }

  lemma {:induction false} ShiftedSubtreeNode(s: seq<Node>, r: nat, level: Level, b: nat)
    requires r < |s| && r + b < SubtreeEnd(s, r) && ShiftFits(Subtree(s, r), level)
    ensures var lv := level + s[r + b].level - s[r].level;
            LevelOk(lv) && ShiftInPlace(Subtree(s, r), level)[b] == s[r + b].(level := lv)
  {
    ShiftInPlaceNode(Subtree(s, r), level, b);
  }

  lemma {:induction false} ExtractedNode(s: seq<Node>, roots: seq<nat>, level: Level, m: nat, b: nat)
    requires AncestorFree(s, roots) && AllShiftsFit(s, roots, level) && m <= |roots| && b < |Origins(s, roots, m)|
    ensures |Extracted(s, roots, level, m)| == |Origins(s, roots, m)|
    ensures var i, node := Origins(s, roots, m)[b], Extracted(s, roots, level, m)[b];
            i < |s| && node == s[i].(level := node.level) && node.level == level + Depth(s, roots, i)
    decreases |roots| - m
  {
    hide SubtreeEnd, ShiftInPlace, Covered, Run, FirstUnfit;
    var r, n := roots[m], SubtreeEnd(s, roots[m]) - roots[m];
    ExtractedHead(s, roots, level, m);
    ExtractedLength(s, roots, level, m);
    if b < n {
      assert Origins(s, roots, m)[b] == r + b;
      SubtreeIsRange(s, r, r + b);
      CarrierIs(s, roots, m, r + b);
      ShiftedSubtreeNode(s, r, level, b);
    } else {
      ExtractedNode(s, roots, level, m + 1, b - n);
      assert Origins(s, roots, m)[b] == Origins(s, roots, m + 1)[b - n];
    }
  }

  /** The extracted nodes are the covered ones in their original order; only levels differ. */
  lemma {:induction false} ExtractedCarriesAll(s: seq<Node>, roots: seq<nat>, level: Level)
    requires AncestorFree(s, roots) && AllShiftsFit(s, roots, level)
    ensures CarriesAll(s, roots, level, Extracted(s, roots, level, 0))
  {
    MovingIsOrigins(s, roots);
    ExtractedLength(s, roots, level, 0);
    forall b: nat | b < |Origins(s, roots, 0)|
      ensures var i, node := Origins(s, roots, 0)[b], Extracted(s, roots, level, 0)[b];
              i < |s| && node == s[i].(level := node.level) && node.level == level + Depth(s, roots, i)
    {
      ExtractedNode(s, roots, level, 0, b);
    }
  }

  lemma IndexOf(idx: seq<nat>, n: nat, q: nat, b: nat) returns (p: nat)
    requires Picks(idx, n) && q in idx && b < |idx| && q < idx[b]
    ensures p < b && idx[p] == q
    ensures idx[b] == q + 1 ==> p == b - 1
  {
    p :| 0 <= p < |idx| && idx[p] == q;
    assert p < b - 1 ==> idx[p] < idx[b - 1] < idx[b];
  }

  /** Roots of the block sit at the target level; every other node keeps its parent. */
  lemma {:induction false} BlockParent(s: seq<Node>, roots: seq<nat>, level: Level, block: seq<Node>, b: nat)
    requires AncestorFree(s, roots) && CarriesAll(s, roots, level, block) && b < |block|
    ensures var i := Moving(s, roots)[b];
            if i in roots then block[b].level == level
            else
              && block[b].level > level && ParentOf(block, b) >= 0
              && Moving(s, roots)[ParentOf(block, b)] == ParentOf(s, i)
  {
    var moving := Moving(s, roots);
    var i := moving[b];
    assert i in moving;
    if i in roots {
      CarrierOfRoot(s, roots, i);
    } else {
      CarriedParent(s, roots, i);
      SameCarrier(s, roots, i, ParentOf(s, i));
      var p := IndexOf(moving, |s|, ParentOf(s, i), b);
      forall k | p < k < b
        ensures block[k].level >= block[b].level
      {
        SameCarrier(s, roots, i, moving[k]);
      }
      LastBelowUnique(block, b, block[b].level, p);
    }
  }

  lemma {:induction false} BlockClimbs(s: seq<Node>, roots: seq<nat>, level: Level, block: seq<Node>, b: nat)
    requires WellFormed(s) && AncestorFree(s, roots) && CarriesAll(s, roots, level, block) && b < |block|
    ensures block[b].level >= level && (if b > 0 then Climbs(block, b) else block[b].level == level)
  {
    DepthNonNegative(s, roots, Moving(s, roots)[b]);
    if Moving(s, roots)[b] in roots {
      CarrierOfRoot(s, roots, Moving(s, roots)[b]);
      if b > 0 { DepthNonNegative(s, roots, Moving(s, roots)[b - 1]); }
    } else {
      InnerNeighbour(s, roots, Moving(s, roots), b);
      assert Climbs(s, Moving(s, roots)[b]);
    }
  }

  /** Before a carried node that is not selected comes the node stored before it, equally carried. */
  lemma {:induction false} InnerNeighbour(s: seq<Node>, roots: seq<nat>, moving: seq<nat>, b: nat)
    requires AncestorFree(s, roots) && moving == Moving(s, roots) && b < |moving| && moving[b] !in roots
    ensures b > 0 && moving[b - 1] + 1 == moving[b]
    ensures Depth(s, roots, moving[b]) - Depth(s, roots, moving[b - 1]) == s[moving[b]].level - s[moving[b - 1]].level
  {
    hide Covered, CarrierOf, ParentOf;
    var i := moving[b];
    assert i in moving;
    CarriedParent(s, roots, i);
    SameCarrier(s, roots, i, i - 1);
    var p := IndexOf(moving, |s|, i - 1, b);
  }

  lemma {:induction false} BlockIsForest(s: seq<Node>, roots: seq<nat>, level: Level, block: seq<Node>)
    requires WellFormed(s) && AncestorFree(s, roots) && CarriesAll(s, roots, level, block)
    ensures ForestAt(block, level)
  {
    forall b: nat | b < |block|
      ensures block[b].level >= level && (if b > 0 then Climbs(block, b) else block[b].level == level)
    {
      BlockClimbs(s, roots, level, block, b);
    }
  }

  // ----- the whole move

  lemma {:induction false} PositionsPartition(n: nat, keep: nat -> bool, lose: nat -> bool)
    requires forall i: nat :: keep(i) <==> !lose(i)
    ensures |PositionsWhere(n, keep)| + |PositionsWhere(n, lose)| == n
  {
    if n > 0 {
      PositionsPartition(n - 1, keep, lose);
      assert keep(n - 1) <==> !lose(n - 1);
    }
  }

  /** In `t`, the nodes outside the block of `n` nodes at `pos` have the parents they had in `s`. */
  ghost predicate OthersKeepParents(s: seq<Node>, kept: seq<nat>, t: seq<Node>, pos: nat, n: nat)
    requires Picks(kept, |s|) && |t| == |kept| + n
  {
    forall k: nat :: k < |kept| ==> OtherKeepsParent(s, kept, t, pos, n, k)
  }

  /** The parent of node `k` of those outside the block is outside it too, and the one it had. */
  ghost predicate OtherKeepsParent(s: seq<Node>, kept: seq<nat>, t: seq<Node>, pos: nat, n: nat, k: nat)
    requires Picks(kept, |s|) && |t| == |kept| + n && k < |kept|
  {
    var q := ParentOf(t, Shifted(k, pos, n));
    var p := Unshifted(q, pos, n);
    && q == Shifted(p, pos, n)
    && -1 <= p < |kept| && ParentOf(s, kept[k]) == if p == -1 then -1 else kept[p]
  }

  /** The selected nodes hang under `newParent`, all others in the block under their old parent. */
  ghost predicate CarriedKeepParents(s: seq<Node>, roots: seq<nat>, moving: seq<nat>, t: seq<Node>, pos: nat,
                                     newParent: int)
    requires Picks(moving, |s|) && pos + |moving| <= |t|
  {
    forall b: nat :: b < |moving| ==> CarriedKeepsParent(s, roots, moving, t, pos, newParent, b)
  }

  ghost predicate CarriedKeepsParent(s: seq<Node>, roots: seq<nat>, moving: seq<nat>, t: seq<Node>, pos: nat,
                                     newParent: int, b: nat)
    requires Picks(moving, |s|) && pos + |moving| <= |t| && b < |moving|
  {
    var p := ParentOf(t, pos + b);
    if moving[b] in roots then p == newParent
    else pos <= p < pos + |moving| && moving[p - pos] == ParentOf(s, moving[b])
  }

  lemma {:induction false} SplicedOther(s: seq<Node>, kept: seq<nat>, rest: seq<Node>, pos: nat, block: seq<Node>,
                                        level: Level, k: nat)
    requires Picks(kept, |s|) && ParentClosed(s, kept) && rest == Select(s, kept) && k < |kept|
    requires Fits(rest, pos, level) && ForestAt(block, level)
    ensures OtherKeepsParent(s, kept, Splice(rest, pos, block), pos, |block|, k)
  {
    hide Fits, ForestAt, ParentClosed, Select, Splice, ParentOf;
    SelectKeepsParent(s, kept, k);
    SpliceKeepsParent(rest, pos, block, level, k);
  }

  lemma {:induction false} SplicedOthers(s: seq<Node>, kept: seq<nat>, rest: seq<Node>, pos: nat, block: seq<Node>,
                                         level: Level)
    requires Picks(kept, |s|) && ParentClosed(s, kept) && rest == Select(s, kept)
    requires Fits(rest, pos, level) && ForestAt(block, level)
    ensures OthersKeepParents(s, kept, Splice(rest, pos, block), pos, |block|)
  {
    forall k: nat | k < |kept|
      ensures OtherKeepsParent(s, kept, Splice(rest, pos, block), pos, |block|, k)
    {
      SplicedOther(s, kept, rest, pos, block, level, k);
    }
  }

  lemma {:induction false} SplicedOneCarried(s: seq<Node>, roots: seq<nat>, moving: seq<nat>, rest: seq<Node>,
                                             pos: nat, block: seq<Node>, level: Level, b: nat)
    requires AncestorFree(s, roots) && moving == Moving(s, roots) && b < |moving| == |block|
    requires pos <= |rest| && CarriesAll(s, roots, level, block) && ForestAt(block, level)
    ensures CarriedKeepsParent(s, roots, moving, Splice(rest, pos, block), pos, LastBelow(rest, pos, level), b)
  {
    hide Fits, ForestAt, Splice, ParentOf, LastBelow, Covered, CarriesAll;
    BlockParent(s, roots, level, block, b);
    if moving[b] in roots {
      SpliceRootParent(rest, pos, block, level, b);
    } else {
      SpliceInnerParent(rest, pos, block, level, b);
    }
  }

  lemma {:induction false} SplicedCarried(s: seq<Node>, roots: seq<nat>, moving: seq<nat>, rest: seq<Node>, pos: nat,
                                          block: seq<Node>, level: Level)
    requires AncestorFree(s, roots) && moving == Moving(s, roots)
    requires pos <= |rest| && CarriesAll(s, roots, level, block) && ForestAt(block, level)
    ensures CarriedKeepParents(s, roots, moving, Splice(rest, pos, block), pos, LastBelow(rest, pos, level))
  {
    forall b: nat | b < |moving|
      ensures CarriedKeepsParent(s, roots, moving, Splice(rest, pos, block), pos, LastBelow(rest, pos, level), b)
    {
      SplicedOneCarried(s, roots, moving, rest, pos, block, level, b);
    }
  }

  /** A successful move loses no node (the check the program asserts) and keeps the invariant. */
  lemma {:induction false} MoveKeepsForm(s: seq<Node>, roots: seq<nat>, target: TargetPosition, t: seq<Node>)
    requires WellFormed(s) && AncestorFree(s, roots) && AllShiftsFit(s, roots, target.level)
    requires FinalVerdict(s, roots, target) == Moved(t)
    ensures |Uncovered(s, OneOf(roots))| + |Moving(s, roots)| == |s|
    ensures |t| == |s| && WellFormed(t)
  {
    var pos, block := KeptBefore(s, roots, target.before), Extracted(s, roots, target.level, 0);
    PositionsPartition(|s|, Spared(s, OneOf(roots)), Lost(s, OneOf(roots)));
    hide PositionsWhere, Select, ForestAt, Covered;
    ExtractedCarriesAll(s, roots, target.level);
    BlockIsForest(s, roots, target.level, block);
    KeptWellFormed(s, roots);
    SpliceKeepsWellFormed(Kept(s, roots), pos, block, target.level);
  }

  /** In `t`, the carried nodes form the block at `pos` and the rest of the tree stands around it. */
  ghost predicate Relocated(s: seq<Node>, roots: seq<nat>, rest: seq<Node>, t: seq<Node>, pos: nat, level: Level) {
    var kept, moving := Uncovered(s, OneOf(roots)), Moving(s, roots);
    && pos <= |rest| == |kept| && |t| == |kept| + |moving|
    && rest == Select(s, kept)
    && t[..pos] + t[pos + |moving|..] == rest
    && CarriesAll(s, roots, level, t[pos..pos + |moving|])
    && OthersKeepParents(s, kept, t, pos, |moving|)
    && CarriedKeepParents(s, roots, moving, t, pos, LastBelow(rest, pos, level))
  }

  lemma CarriesLength(s: seq<Node>, roots: seq<nat>, level: Level, block: seq<Node>)
    requires CarriesAll(s, roots, level, block)
    ensures |block| == |Moving(s, roots)|
  {
  }

  lemma {:induction false} SpliceRelocates(s: seq<Node>, roots: seq<nat>, rest: seq<Node>, pos: nat, block: seq<Node>,
                                           level: Level)
    requires AncestorFree(s, roots) && rest == Kept(s, roots) && Fits(rest, pos, level)
    requires CarriesAll(s, roots, level, block) && ForestAt(block, level) && pos <= |rest|
    ensures Relocated(s, roots, rest, Splice(rest, pos, block), pos, level)
  {
    hide PositionsWhere, ForestAt, ParentOf, LastBelow, Covered, Splice, Fits, CarriesAll, OthersKeepParents,
         CarriedKeepParents, AncestorFree, ParentClosed;
    assert |block| == |Moving(s, roots)| by { CarriesLength(s, roots, level, block); }
    UncoveredIsParentClosed(s, OneOf(roots));
    SplicedOthers(s, Uncovered(s, OneOf(roots)), rest, pos, block, level);
    SplicedCarried(s, roots, Moving(s, roots), rest, pos, block, level);
    SplicePieces(rest, pos, block);
  }

  /**
   After a successful move the unmoved nodes stand in order around the moved block and keep their
   parents; in the block, selected nodes hang under the one node that the target position
   implies, and all others under their old parents at their old depth below the selected node.
   */
  lemma {:induction false} MoveKeepsStructure(s: seq<Node>, roots: seq<nat>, target: TargetPosition, t: seq<Node>)
    requires WellFormed(s) && AncestorFree(s, roots) && AllShiftsFit(s, roots, target.level)
    requires FinalVerdict(s, roots, target) == Moved(t)
    ensures Relocated(s, roots, Kept(s, roots), t, KeptBefore(s, roots, target.before), target.level)
  {
    hide PositionsWhere, Select, ForestAt, ParentOf, LastBelow, Covered, Relocated;
    var block := Extracted(s, roots, target.level, 0);
    ExtractedCarriesAll(s, roots, target.level);
    BlockIsForest(s, roots, target.level, block);
    SpliceRelocates(s, roots, Kept(s, roots), KeptBefore(s, roots, target.before), block, target.level);
  }

  /** The same about the call: valid indices, in any order and with duplicates, none below another. */
  lemma {:induction false} MoveAllKeepsStructure(s: seq<Node>, indices: seq<nat>, target: TargetPosition, t: seq<Node>)
    requires WellFormed(s) && forall i: nat :: i in indices ==> i < |s|
    requires AncestorFree(s, Sorted(indices, Bound(indices)))
    requires MoveAll(s, indices, target) == Moved(t)
    ensures |t| == |s| && WellFormed(t)
    ensures var roots := Sorted(indices, Bound(indices));
            Relocated(s, roots, Kept(s, roots), t, KeptBefore(s, roots, target.before), target.level)
    ensures var roots := Sorted(indices, Bound(indices));
            var kept, pos := Uncovered(s, OneOf(roots)), KeptBefore(s, roots, target.before);
            target.before <= |s| && forall k :: 0 <= k < |kept| ==> (k < pos <==> kept[k] < target.before)
  {
    var roots := Sorted(indices, Bound(indices));
    MoveAllVerdict(s, indices, target);
    hide *;
    VerdictMeaning(s, roots, target, |roots|);
    MoveKeepsForm(s, roots, target, t);
    MoveKeepsStructure(s, roots, target, t);
    TargetAmongKept(s, roots, target.before);
  }

  lemma SplicePieces(rest: seq<Node>, pos: nat, block: seq<Node>)
    requires pos <= |rest|
    ensures Splice(rest, pos, block)[pos..pos + |block|] == block
    ensures Splice(rest, pos, block)[..pos] + Splice(rest, pos, block)[pos + |block|..] == rest
  {
  }
}
