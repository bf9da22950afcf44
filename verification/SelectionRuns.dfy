/** A selected node is never hidden: an invariant of every run of the single-item operations. */
module SelectionRuns {
  import opened Options
  import opened FlatTree
  import opened Rearrange
  import opened Location
  import opened Pruning
  import opened Visibility
  import opened MoveItems
  import opened StepPlan
  import opened MoveItemStep
  import opened StepResults
  import opened Flags

  /** No selected node has a folded ancestor ... */
  ghost predicate SelectedShown(s: seq<Node>) {
    forall a: nat, i: nat :: a < i && InSubtree(s, a, i) && s[i].selected ==> s[a].unfolded
  }

  /** ... in other words, every selected node is visible. */
  lemma SelectedShownMeaning(s: seq<Node>)
    ensures SelectedShown(s) <==> forall i: nat :: i < |s| && s[i].selected ==> Visible(s, i)
  {
  }

  // ----- ancestors under the structural operations

  lemma ChildBelow(s: seq<Node>, a: nat, p: nat, i: nat)
    requires a <= p < i < |s| && ParentOf(s, i) == p && InSubtree(s, a, p)
    ensures InSubtree(s, a, i)
  {
    SubtreeFollowsParents(s, a, i);
  }

  lemma {:induction false} SelectAncestor(s: seq<Node>, idx: seq<nat>, a: nat, j: nat)
    requires Picks(idx, |s|) && ParentClosed(s, idx) && a <= j && InSubtree(Select(s, idx), a, j)
    ensures InSubtree(s, idx[a], idx[j])
    decreases j
  {
    if a < j {
      var p := ParentOf(Select(s, idx), j);
      SubtreeFollowsParents(Select(s, idx), a, j);
      SelectAncestor(s, idx, a, p);
      SelectKeepsParent(s, idx, j);
      ChildBelow(s, idx[a], idx[p], idx[j]);
    }
  }

  lemma {:induction false} SelectShown(s: seq<Node>, idx: seq<nat>)
    requires SelectedShown(s) && Picks(idx, |s|) && ParentClosed(s, idx)
    ensures SelectedShown(Select(s, idx))
  {
    var t := Select(s, idx);
    forall a: nat, j: nat | a < j && InSubtree(t, a, j) && t[j].selected
      ensures t[a].unfolded
    {
      SelectAncestor(s, idx, a, j);
    }
  }

  lemma {:induction false} DissolveAncestor(s: seq<Node>, i: nat, a: nat, k: nat)
    requires WellFormed(s) && i < |s| && a < k && InSubtree(Dissolve(s, i), a, k)
    ensures InSubtree(s, Undissolved(i, a), Undissolved(i, k))
    decreases k
  {
    var t, p := Dissolve(s, i), ParentOf(Dissolve(s, i), k);
    SubtreeFollowsParents(t, a, k);
    DissolveParent(s, i, k);
    if p > a { DissolveAncestor(s, i, a, p); }
    var q := ParentOf(s, Undissolved(i, k));
    if q == i { SubtreeFollowsParents(s, Undissolved(i, a), i); }
    SubtreeFollowsParents(s, Undissolved(i, a), Undissolved(i, k));
  }

  lemma {:induction false} DissolveShown(s: seq<Node>, i: nat)
    requires WellFormed(s) && SelectedShown(s) && i < |s|
    ensures SelectedShown(Dissolve(s, i))
  {
    var t := Dissolve(s, i);
    forall a: nat, k: nat | a < k && InSubtree(t, a, k) && t[k].selected
      ensures t[a].unfolded
    {
      DissolveAncestor(s, i, a, k);
      DissolveNode(s, i, a);
      DissolveNode(s, i, k);
    }
  }

  /** The node behind the block is not deeper than any node in it. */
  lemma {:induction false} BlockNotAbove(rest: seq<Node>, pos: nat, block: seq<Node>, level: Level)
    requires Fits(rest, pos, level) && ForestAt(block, level)
    ensures pos < |rest| ==> forall i :: pos <= i < pos + |block| ==>
        Splice(rest, pos, block)[i].level >= Splice(rest, pos, block)[pos + |block|].level
  {
    hide Splice;
    var t := Splice(rest, pos, block);
    if pos < |rest| {
      assert t[pos + |block|] == rest[pos];
      forall i | pos <= i < pos + |block|
        ensures t[i].level >= rest[pos].level
      {
        assert t[pos + (i - pos)] == block[i - pos];
      }
    }
  }

  /** In a spliced list an ancestor of an outside node is outside too and was its ancestor before. */
  lemma {:induction false} SpliceOuterAncestor(rest: seq<Node>, pos: nat, block: seq<Node>, level: Level, a: nat,
                                               k: nat)
    requires Fits(rest, pos, level) && ForestAt(block, level) && k < |rest|
    requires a < Shifted(k, pos, |block|) && InSubtree(Splice(rest, pos, block), a, Shifted(k, pos, |block|))
    ensures !(pos <= a < pos + |block|)
    ensures var a' := if a < pos then a else a - |block|; 0 <= a' < k && InSubtree(rest, a', k)
  {
    hide Splice;
    var t, n := Splice(rest, pos, block), |block|;
    BlockNotAbove(rest, pos, block, level);
    assert k >= pos ==> t[Shifted(k, pos, n)] == rest[k];
    var a' := if a < pos then a else a - n;
    forall j | a' < j <= k
      ensures rest[j].level > rest[a'].level
    {
      assert t[Shifted(j, pos, n)] == rest[j];
    }
  }

  /** An ancestor of a block node is in the block, or above the whole gap. */
  lemma {:induction false} SpliceInnerAncestor(rest: seq<Node>, pos: nat, block: seq<Node>, level: Level, a: nat,
                                               b: nat)
    requires pos <= |rest| && ForestAt(block, level) && b < |block| && block[0].level == level
    requires a < pos + b && InSubtree(Splice(rest, pos, block), a, pos + b)
    ensures if a < pos then Above(rest, a, pos, level) else InSubtree(block, a - pos, b)
  {
    var t := Splice(rest, pos, block);
    if a < pos {
      assert t[pos] == block[0];
      forall j | a < j < pos
        ensures rest[j].level > rest[a].level
      {
        assert t[j] == rest[j];
      }
    } else {
      forall j | a - pos < j <= b
        ensures block[j].level > block[a - pos].level
      {
        assert t[pos + j] == block[j];
      }
    }
  }

  lemma {:induction false} BlockNodeShown(rest: seq<Node>, pos: nat, block: seq<Node>, level: Level, a: nat, j: nat)
    requires SelectedShown(block) && GoodGap(rest, pos, level) && ForestAt(block, level)
    requires pos <= j < pos + |block| && Splice(rest, pos, block)[j].selected && a < j
      && InSubtree(Splice(rest, pos, block), a, j)
    ensures Splice(rest, pos, block)[a].unfolded
  {
    BlockRoot(block, level);
    SpliceInnerAncestor(rest, pos, block, level, a, j - pos);
    assert Splice(rest, pos, block)[j] == block[j - pos];
    assert if a < pos then Splice(rest, pos, block)[a] == rest[a] else Splice(rest, pos, block)[a] == block[a - pos];
    hide Splice, ForestAt, Fits, InSubtree;
  }

  lemma SelectedAncestor(s: seq<Node>, a: nat, i: nat)
    requires SelectedShown(s) && a < i && InSubtree(s, a, i) && s[i].selected
    ensures s[a].unfolded
  {
  }

  lemma {:induction false} SplicedOutside(rest: seq<Node>, pos: nat, block: seq<Node>, j: nat)
    requires pos <= |rest|
    ensures j < pos ==> Splice(rest, pos, block)[j] == rest[j]
    ensures pos + |block| <= j < |rest| + |block| ==> Splice(rest, pos, block)[j] == rest[j - |block|]
  {
    hide Splice;
    assert pos + |block| <= j < |rest| + |block| ==>
        Splice(rest, pos, block)[(j - |block|) + |block|] == rest[j - |block|];
  }

  lemma {:induction false} OuterNodeShown(rest: seq<Node>, pos: nat, block: seq<Node>, level: Level, a: nat, j: nat)
    requires SelectedShown(rest) && Fits(rest, pos, level) && ForestAt(block, level)
    requires j < pos || pos + |block| <= j < |rest| + |block|
    requires Splice(rest, pos, block)[j].selected && a < j && InSubtree(Splice(rest, pos, block), a, j)
    ensures Splice(rest, pos, block)[a].unfolded
  {
    var k := if j < pos then j else j - |block|;
    var a' := if a < pos then a else a - |block|;
    assert j == Shifted(k, pos, |block|) && pos <= |rest|;
    hide *;
    SpliceOuterAncestor(rest, pos, block, level, a, k);
    SplicedOutside(rest, pos, block, a);
    SplicedOutside(rest, pos, block, j);
    SelectedAncestor(rest, a', k);
  }

  lemma BlockRoot(block: seq<Node>, level: Level)
    requires ForestAt(block, level) && block != []
    ensures block[0].level == level
  {
  }

  lemma {:induction false} SplicedNodeShown(rest: seq<Node>, pos: nat, block: seq<Node>, level: Level, a: nat, j: nat)
    requires SelectedShown(rest) && SelectedShown(block) && GoodGap(rest, pos, level) && ForestAt(block, level)
    requires pos <= |rest| && a < j && InSubtree(Splice(rest, pos, block), a, j) && Splice(rest, pos, block)[j].selected
    ensures Splice(rest, pos, block)[a].unfolded
  {
    hide Splice, ForestAt, SelectedShown, OpenAt, Fits;
    if pos <= j < pos + |block| {
      BlockNodeShown(rest, pos, block, level, a, j);
    } else {
      OuterNodeShown(rest, pos, block, level, a, j);
    }
  }

  /** A block with no hidden selection inside goes into an open gap without hiding anything. */
  lemma {:induction false} SpliceShown(rest: seq<Node>, pos: nat, block: seq<Node>, level: Level)
    requires SelectedShown(rest) && SelectedShown(block) && GoodGap(rest, pos, level) && ForestAt(block, level)
    ensures SelectedShown(Splice(rest, pos, block))
  {
    hide Splice, ForestAt, OpenAt;
    var t := Splice(rest, pos, block);
    forall a: nat, j: nat | a < j && InSubtree(t, a, j) && t[j].selected
      ensures t[a].unfolded
    {
      SplicedNodeShown(rest, pos, block, level, a, j);
    }
  }

  // ----- the flag operations

  lemma {:induction false} SameAncestors(s: seq<Node>, t: seq<Node>, a: nat, i: nat)
    requires SameShape(s, t)
    ensures InSubtree(s, a, i) <==> InSubtree(t, a, i)
  {
  }

  lemma {:induction false} FoldShown(s: seq<Node>, i: nat, unfolded: bool)
    requires SelectedShown(s) && i < |s|
    ensures SelectedShown(Fold(s, i, unfolded))
  {
    var t := Fold(s, i, unfolded);
    forall a: nat, j: nat | a < j && InSubtree(t, a, j) && t[j].selected
      ensures t[a].unfolded
    {
      SameAncestors(s, t, a, j);
      SubtreeIsRange(s, i, j);
    }
  }

  lemma {:induction false} FoldAllShown(s: seq<Node>, unfolded: bool)
    requires SelectedShown(s)
    ensures SelectedShown(FoldAll(s, unfolded))
  {
  }

  lemma {:induction false} FoldRecursiveShown(s: seq<Node>, i: nat, unfolded: bool)
    requires SelectedShown(s) && i < |s|
    ensures SelectedShown(FoldRecursive(s, i, unfolded))
  {
    var t := FoldRecursive(s, i, unfolded);
    forall a: nat, j: nat | a < j && InSubtree(t, a, j) && t[j].selected
      ensures t[a].unfolded
    {
      SameAncestors(s, t, a, j);
      SubtreeIsRange(s, i, a);
      SubtreeIsRange(s, i, j);
      if i <= a < SubtreeEnd(s, i) { InSubtreeTransitive(s, i, a, j); }
    }
  }

  lemma InSubtreeTransitive(s: seq<Node>, a: nat, b: nat, c: nat)
    requires InSubtree(s, a, b) && InSubtree(s, b, c)
    ensures InSubtree(s, a, c)
  {
  }

  lemma {:induction false} SelectVisibleShown(s: seq<Node>, from: nat, to: nat, selected: bool)
    requires SelectedShown(s)
    ensures SelectedShown(SelectVisible(s, from, to, selected))
  {
    var t := SelectVisible(s, from, to, selected);
    forall a: nat, j: nat | a < j && InSubtree(t, a, j) && t[j].selected
      ensures t[a].unfolded
    {
      SameAncestors(s, t, a, j);
    }
  }

  // ----- one step up or down

  lemma {:induction false} ShiftedSubtreeShown(s: seq<Node>, i: nat, level: Level)
    requires SelectedShown(s) && i < |s| && ShiftFits(Subtree(s, i), level)
    ensures SelectedShown(ShiftInPlace(Subtree(s, i), level))
  {
    var t := ShiftInPlace(Subtree(s, i), level);
    SubtreeAbove(s, i);
    ShiftedSubtree(Subtree(s, i), level, s[i].level);
    forall a: nat, j: nat | a < j && InSubtree(t, a, j) && t[j].selected
      ensures t[a].unfolded
    {
      forall k | i + a < k <= i + j
        ensures s[k].level > s[i + a].level
      {
        assert t[k - i].level > t[a].level;
      }
      assert InSubtree(s, i + a, i + j);
    }
  }

  lemma {:induction false} CutShown(s: seq<Node>, i: nat)
    requires SelectedShown(s) && i < |s|
    ensures SelectedShown(Cut(s, i))
  {
    RemovedSubtree(s, i);
    UncoveredIsParentClosed(s, Only(i));
    SelectShown(s, Uncovered(s, Only(i)));
  }

  lemma {:induction false} DoneShown(s: seq<Node>, v: nat, dir: MoveDir, f: ItemRef -> bool, idx: nat, t: seq<Node>,
                                     v': nat)
    requires WellFormed(s) && SelectedShown(s) && ToDisplayed(s, v) == Some(idx)
      && MoveItem(s, v, dir, f) == Done(t, v')
    ensures WellFormed(t) && SelectedShown(t)
  {
    var plan := PlanFor(s, idx, dir, f);
    StepPlanned(s, v, dir, f, idx, plan, t, v');
    StepKeepsWellFormed(s, v, dir, f, idx, t, v');
    if plan.Put? {
      CutShown(s, idx);
      SubtreeForest(s, idx, plan.level);
      ShiftedSubtreeShown(s, idx, plan.level);
      hide MoveItem, PlanFor, GoodGap, ForestAt, SelectedShown, Splice, WellFormed, ToDisplayed;
      SpliceShown(Cut(s, idx), plan.pos, Subtree(t, plan.pos), plan.level);
    }
  }

  /** Levels of the nodes from `from` to `stop` one deeper, everything else untouched. */
  ghost predicate PushedIn(s: seq<Node>, t: seq<Node>, from: nat, stop: nat) {
    && from < stop <= |s| == |t|
    && forall k :: 0 <= k < |s| ==>
         t[k].unfolded == s[k].unfolded && t[k].selected == s[k].selected
         && t[k].level == s[k].level + if from <= k < stop then 1 else 0
  }

  /** A push that stops anywhere in the subtree still leaves a well-formed list ... */
  lemma {:induction false} PushedWellFormed(s: seq<Node>, t: seq<Node>, from: nat, stop: nat)
    requires WellFormed(s) && PushedIn(s, t, from, stop) && stop <= SubtreeEnd(s, from)
    requires from > 0 && s[from].level <= s[from - 1].level
    ensures WellFormed(t)
  {
    forall k: nat | k < |t|
      ensures Climbs(t, k)
    {
      assert Climbs(s, k);
    }
  }

  /** ... and brings every node at most one new ancestor, the unfolded node it is pushed into. */
  lemma {:induction false} PushedAncestor(s: seq<Node>, t: seq<Node>, from: nat, stop: nat, a: nat, i: nat)
    requires PushedIn(s, t, from, stop) && stop <= SubtreeEnd(s, from) && a < i && InSubtree(t, a, i)
    ensures InSubtree(s, a, i) || Above(s, a, from, s[from].level + 1)
  {
    if a >= from || i < from {
      assert a >= stop || i < from || forall k :: a < k <= i ==> s[k].level > s[a].level;
    } else if s[a].level < s[from].level {
      forall k | a < k <= i
        ensures s[k].level > s[a].level
      {
        assert t[k].level > t[a].level;
      }
    } else {
      assert t[from].level > t[a].level;
      forall k | a < k < from
        ensures s[k].level > s[a].level
      {
        assert t[k].level > t[a].level;
      }
    }
  }

  lemma {:induction false} PushedShown(s: seq<Node>, t: seq<Node>, from: nat, stop: nat)
    requires SelectedShown(s) && PushedIn(s, t, from, stop) && stop <= SubtreeEnd(s, from)
    requires OpenAt(s, from, s[from].level + 1)
    ensures SelectedShown(t)
  {
    forall a: nat, i: nat | a < i && InSubtree(t, a, i) && t[i].selected
      ensures t[a].unfolded
    {
      PushedAncestor(s, t, from, stop, a, i);
    }
  }

  /** Where the shift of the subtree at `idx` to one level deeper gets stuck. */
  ghost function FailedAt(s: seq<Node>, idx: nat): nat
    requires idx < |s|
  {
    idx + FirstUnfit(Subtree(s, idx), 1)
  }

  lemma {:induction false} SpliceDiffers(rest: seq<Node>, pos: nat, x: seq<Node>, y: seq<Node>, k: nat)
    requires pos <= |rest| && |x| == |y| && k < |rest| + |x|
    ensures if pos <= k < pos + |x| then Splice(rest, pos, x)[k] == x[k - pos] && Splice(rest, pos, y)[k] == y[k - pos]
            else Splice(rest, pos, x)[k] == Splice(rest, pos, y)[k]
  {
  }

  lemma {:induction false} FailedShiftNode(sub: seq<Node>, b: nat)
    requires b < |sub| && sub[0].level < 255
    ensures var t := ShiftInPlace(sub, sub[0].level + 1);
            && t[b].unfolded == sub[b].unfolded && t[b].selected == sub[b].selected
            && t[b].level == sub[b].level + if b < FirstUnfit(sub, 1) then 1 else 0
  {
    ShiftInPlaceNode(sub, sub[0].level + 1, b);
  }

  lemma SubtreeNode(s: seq<Node>, idx: nat, b: nat)
    requires idx < |s|
    ensures |Subtree(s, idx)| > 0
    ensures b < |Subtree(s, idx)| ==> idx + b < |s| && Subtree(s, idx)[b] == s[idx + b]
  {
  }

  lemma CutLength(s: seq<Node>, idx: nat)
    requires idx < |s|
    ensures idx <= |Cut(s, idx)| && |Cut(s, idx)| + |Subtree(s, idx)| == |s|
  {
  }

  /** The shift reaches as far as the subtree does, at most. */
  lemma SameUpTo(s: seq<Node>, idx: nat)
    requires idx < |s|
    ensures FailedAt(s, idx) == idx + FirstUnfit(Subtree(s, idx), 1) <= idx + |Subtree(s, idx)|
  {
    hide Subtree;
  }

  lemma {:induction false} FailedShiftAt(s: seq<Node>, idx: nat, t: seq<Node>, k: nat)
    requires idx < |s| && s[idx].level < 255 && k < |s| == |t|
    requires t == Splice(Cut(s, idx), idx, ShiftInPlace(Subtree(s, idx), s[idx].level + 1))
    ensures t[k].unfolded == s[k].unfolded && t[k].selected == s[k].selected
    ensures t[k].level == s[k].level + if idx <= k < FailedAt(s, idx) then 1 else 0
  {
    hide *;
    var sub := Subtree(s, idx);
    SubtreeNode(s, idx, 0);
    CutAndSplice(s, idx);
    CutLength(s, idx);
    SameUpTo(s, idx);
    SpliceDiffers(Cut(s, idx), idx, sub, ShiftInPlace(sub, s[idx].level + 1), k);
    if idx <= k < idx + |sub| { FailedShiftNode(sub, k - idx); }
  }

  lemma {:induction false} FailedShift(s: seq<Node>, idx: nat, t: seq<Node>)
    requires idx < |s| && s[idx].level < 255
    requires t == Splice(Cut(s, idx), idx, ShiftInPlace(Subtree(s, idx), s[idx].level + 1))
    ensures PushedIn(s, t, idx, FailedAt(s, idx)) && FailedAt(s, idx) <= SubtreeEnd(s, idx)
  {
    FailedShiftSize(s, idx, t);
    hide Splice, Cut, ShiftInPlace, Subtree, FirstUnfit, FailedAt, SubtreeEnd;
    forall k: nat | k < |s|
      ensures t[k].unfolded == s[k].unfolded && t[k].selected == s[k].selected
      ensures t[k].level == s[k].level + if idx <= k < FailedAt(s, idx) then 1 else 0
    {
      FailedShiftAt(s, idx, t, k);
    }
  }

  lemma {:induction false} FailedShiftSize(s: seq<Node>, idx: nat, t: seq<Node>)
    requires idx < |s| && s[idx].level < 255
    requires t == Splice(Cut(s, idx), idx, ShiftInPlace(Subtree(s, idx), s[idx].level + 1))
    ensures |t| == |s| && idx < FailedAt(s, idx) <= SubtreeEnd(s, idx) <= |s|
  {
    CutAndSplice(s, idx);
    SubtreeNode(s, idx, 0);
    hide Splice, Cut, ShiftInPlace, Subtree;
  }

  lemma {:induction false} PartialPushShown(s: seq<Node>, idx: nat, t: seq<Node>)
    requires WellFormed(s) && SelectedShown(s) && idx < |s| && s[idx].level < 255
    requires t == Splice(Cut(s, idx), idx, ShiftInPlace(Subtree(s, idx), s[idx].level + 1))
    requires GoodGap(Cut(s, idx), idx, s[idx].level + 1)
    ensures WellFormed(t) && SelectedShown(t)
  {
    FailedShift(s, idx, t);
    OpenPrefix(Cut(s, idx), s, idx, s[idx].level + 1);
    assert idx > 0 && s[idx].level <= s[idx - 1].level;
    hide SelectedShown, PushedIn, OpenAt, ShiftInPlace, Splice, Cut, WellFormed, FailedAt;
    PushedWellFormed(s, t, idx, FailedAt(s, idx));
    PushedShown(s, t, idx, FailedAt(s, idx));
  }

  /** A refused step leaves the list alone, or the push one level deeper done half-way. */
  lemma {:induction false} RefusedIsPush(s: seq<Node>, v: nat, dir: MoveDir, f: ItemRef -> bool, idx: nat, plan: Plan,
                                         t: seq<Node>, e: MoveError)
    requires WellFormed(s) && ToDisplayed(s, v) == Some(idx) && plan == PlanFor(s, idx, dir, f)
    requires MoveItem(s, v, dir, f) == Refused(t, e) && t != s
    ensures s[idx].level < 255 && GoodGap(Cut(s, idx), idx, s[idx].level + 1)
    ensures t == Splice(Cut(s, idx), idx, ShiftInPlace(Subtree(s, idx), s[idx].level + 1))
  {
    ToDisplayedExact(s, v, idx);
    hide *;
    PlanFits(s, v, idx, dir, f);
    StepFollowsPlan(s, v, idx, dir, f, plan);
    ExecuteRefused(s, v, idx, plan, t, e);
    StepSucceedsExactly(s, v, dir, f, idx, plan);
    PlanLevels(s, idx, dir, f, plan);
  }

  /** Even the step that fails half-way breaks neither invariant. */
  lemma {:induction false} RefusedShown(s: seq<Node>, v: nat, dir: MoveDir, f: ItemRef -> bool, t: seq<Node>,
                                        e: MoveError)
    requires WellFormed(s) && SelectedShown(s) && MoveItem(s, v, dir, f) == Refused(t, e)
    ensures WellFormed(t) && SelectedShown(t)
  {
    if ToDisplayed(s, v).Some? && t != s {
      var idx := ToDisplayed(s, v).value;
      RefusedIsPush(s, v, dir, f, idx, PlanFor(s, idx, dir, f), t, e);
      PartialPushShown(s, idx, t);
    }
  }

  // ----- whole runs

  datatype Op =
    | Insert(item: ItemRef, target: TargetPosition)
    | RemoveRecursive(i: nat)
    | RemoveDissolve(i: nat)
    | Drain(doomed: Node -> bool)
    | FoldOne(i: nat, unfolded: bool)
    | FoldEverything(unfolded: bool)
    | FoldSubtree(i: nat, unfolded: bool)
    | SelectOne(v: nat, selected: bool)
    | SelectAll(selected: bool)
    | SelectRange(from: nat, to: nat, selected: bool)
    | MoveOne(v: nat, dir: MoveDir, f: ItemRef -> bool)

  /** What an operation leaves behind, also when it reports an error; None where the program panics. */
  ghost function Apply(s: seq<Node>, op: Op): Option<seq<Node>> {
    match op
    case Insert(item, target) =>
      if CheckLocation(s, target).Fine? then Some(Splice(s, target.before, [Node(item, target.level, true, false)]))
        else Some(s)
    case RemoveRecursive(i) => if i < |s| then Some(Cut(s, i)) else None
    case RemoveDissolve(i) => if i < |s| then Some(Dissolve(s, i)) else None
    case Drain(doomed) => Some(Select(s, Uncovered(s, Matching(s, doomed))))
    case FoldOne(i, unfolded) => if i < |s| then Some(Fold(s, i, unfolded)) else None
    case FoldEverything(unfolded) => Some(FoldAll(s, unfolded))
    case FoldSubtree(i, unfolded) => if i < |s| then Some(FoldRecursive(s, i, unfolded)) else None
    case SelectOne(v, selected) => Some(SelectVisible(s, v, v + 1, selected))
    case SelectAll(selected) => Some(SelectVisible(s, 0, |s|, selected))
    case SelectRange(from, to, selected) =>
      Some(if from < to then SelectVisible(s, from, to + 1, selected) else SelectVisible(s, to, from + 1, selected))
    case MoveOne(v, dir, f) =>
      match MoveItem(s, v, dir, f)
      case Done(t, _) => Some(t)
      case Refused(t, _) => Some(t)
      case Overflow => None
  }

  ghost function Run(s: seq<Node>, ops: seq<Op>): Option<seq<Node>>
    decreases |ops|
  {
    if ops == [] then Some(s)
    else
      match Apply(s, ops[0])
      case None => None
      case Some(t) => Run(t, ops[1..])
  }

  ghost predicate Sound(s: seq<Node>) {
    WellFormed(s) && SelectedShown(s)
  }

  lemma {:induction false} InsertSound(s: seq<Node>, item: ItemRef, target: TargetPosition)
    requires Sound(s) && CheckLocation(s, target).Fine?
    ensures Sound(Splice(s, target.before, [Node(item, target.level, true, false)]))
  {
    var block := [Node(item, target.level, true, false)];
    var t := Splice(s, target.before, block);
    CheckLocationFits(s, target);
    SpliceKeepsWellFormed(s, target.before, block, target.level);
    forall a: nat, j: nat | a < j && InSubtree(t, a, j) && t[j].selected
      ensures t[a].unfolded
    {
      assert t[target.before] == block[0];
      if j != target.before && a != target.before {
        OuterNodeShown(s, target.before, block, target.level, a, j);
      }
    }
  }

  lemma {:induction false} FlagsSound(s: seq<Node>, op: Op)
    requires Sound(s) && Apply(s, op).Some?
    requires op.FoldOne? || op.FoldEverything? || op.FoldSubtree? || op.SelectOne? || op.SelectAll? || op.SelectRange?
    ensures Sound(Apply(s, op).value)
  {
    hide WellFormed, SelectedShown, Fold, FoldAll, FoldRecursive, SelectVisible, SameShape, InSubtree, Visible;
    match op
    case FoldOne(i, unfolded) => FoldShown(s, i, unfolded); FlagsKeepWellFormed(s, Fold(s, i, unfolded));
    case FoldEverything(unfolded) => FoldAllShown(s, unfolded); FlagsKeepWellFormed(s, FoldAll(s, unfolded));
    case FoldSubtree(i, unfolded) => FoldRecursiveShown(s, i, unfolded);
      FlagsKeepWellFormed(s, FoldRecursive(s, i, unfolded));
    case SelectOne(v, selected) => SelectVisibleSound(s, v, v + 1, selected);
    case SelectAll(selected) => SelectVisibleSound(s, 0, |s|, selected);
    case SelectRange(from, to, selected) =>
      if from < to {
        SelectVisibleSound(s, from, to + 1, selected);
      } else {
        SelectVisibleSound(s, to, from + 1, selected);
      }
  }

  lemma {:induction false} SelectVisibleSound(s: seq<Node>, from: nat, to: nat, selected: bool)
    requires Sound(s)
    ensures Sound(SelectVisible(s, from, to, selected))
  {
    SelectVisibleShown(s, from, to, selected);
    FlagsKeepWellFormed(s, SelectVisible(s, from, to, selected));
  }

  lemma {:induction false} PruneSound(s: seq<Node>, root: nat -> bool)
    requires Sound(s)
    ensures Sound(Select(s, Uncovered(s, root)))
  {
    PruningKeepsStructure(s, root);
    UncoveredIsParentClosed(s, root);
    SelectShown(s, Uncovered(s, root));
  }

  lemma {:induction false} ApplySound(s: seq<Node>, op: Op)
    requires Sound(s) && Apply(s, op).Some?
    ensures Sound(Apply(s, op).value)
  {
    match op
    case Insert(item, target) => if CheckLocation(s, target).Fine? { InsertSound(s, item, target); }
    case RemoveRecursive(i) => RemovedSubtree(s, i); PruneSound(s, Only(i));
    case RemoveDissolve(i) => DissolveKeepsStructure(s, i); DissolveShown(s, i);
    case Drain(doomed) => PruneSound(s, Matching(s, doomed));
    case MoveOne(v, dir, f) =>
      match MoveItem(s, v, dir, f) {
        case Done(t, v') => DoneShown(s, v, dir, f, ToDisplayed(s, v).value, t, v');
        case Refused(t, e) => RefusedShown(s, v, dir, f, t, e);
      }
    case _ => FlagsSound(s, op);
  }

  /** In every run, whatever the operations report, the list stays well-formed and selections stay visible. */
  lemma {:induction false} RunSound(s: seq<Node>, ops: seq<Op>)
    requires Sound(s) && Run(s, ops).Some?
    ensures Sound(Run(s, ops).value)
    decreases |ops|
  {
    if ops != [] {
      ApplySound(s, ops[0]);
      RunSound(Apply(s, ops[0]).value, ops[1..]);
    }
  }

  lemma {:induction false} EveryRun(ops: seq<Op>)
    requires Run([], ops).Some?
    ensures var t := Run([], ops).value;
            WellFormed(t) && forall i: nat :: i < |t| && t[i].selected ==> Visible(t, i)
  {
    RunSound([], ops);
    SelectedShownMeaning(Run([], ops).value);
  }
}
