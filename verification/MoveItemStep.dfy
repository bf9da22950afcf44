/** Moving one visible item, with its subtree, up or down by one visible item. */
module MoveItemStep {
  import opened Options
  import opened FlatTree
  import opened Rearrange
  import opened Location
  import opened Pruning
  import opened Visibility
  import opened MoveItems
  import opened StepPlan

  /** `Overflow` stands for the arithmetic overflow of `level + 1` at level 255. */
  datatype StepOutcome = Done(items: seq<Node>, vidx: nat) | Refused(items: seq<Node>, error: MoveError) | Overflow

  function ShiftStep(s: seq<Node>, idx: nat, level: int, v: nat): StepOutcome
    requires idx < |s| && level >= 0
  {
    if level > 255 then Overflow
    else
      var t := s[..idx] + ShiftInPlace(Subtree(s, idx), level) + s[SubtreeEnd(s, idx)..];
      if ShiftFits(Subtree(s, idx), level) then Done(t, v) else Refused(t, InvalidLevel)
  }

  function TransferStep(s: seq<Node>, idx: nat, before: nat, level: int, v: nat): StepOutcome
    requires level >= 0
  {
    if level > 255 then Overflow
    else
      match MoveAll(s, [idx], TargetPosition(before, level))
      case Moved(t) => Done(t, v)
      case Rejected(e) => Refused(s, e)
      case Panicked => Overflow
  }

  /** What the program decides to do: nothing, shift levels in place, or transfer the subtree. */
  datatype Action = Remain | ShiftTo(level: int) | Transfer(before: nat, level: int, delta: int)

  function ChooseDown(s: seq<Node>, idx: nat, f: ItemRef -> bool): (action: Action)
    requires idx < |s|
    ensures action.ShiftTo? || (action.Transfer? && action.delta == 1)
    ensures action.level >= 0
  {
    var level, end := s[idx].level, SubtreeEnd(s, idx);
    if end == |s| then ShiftTo(if level == 0 then 0 else level - 1)
    else if s[end].level < level then ShiftTo(level - 1)
    else if s[end].unfolded && f(s[end].itemRef) then Transfer(end + 1, s[end].level + 1, 1)
    else Transfer(SubtreeEnd(s, end), level, 1)
  }

  ghost function ChooseUp(s: seq<Node>, idx: nat, f: ItemRef -> bool): (action: Action)
    requires idx < |s|
    ensures action.Transfer? ==> action.delta == -1
    ensures !action.Remain? ==> action.level >= 0
  {
    var p := PrevVisible(s, idx);
    if p == -1 then Remain
    else if MovesInto(s[p], s[idx].level, f) then ShiftTo(s[idx].level + 1)
    else Transfer(p, s[p].level, -1)
  }

  ghost function Choose(s: seq<Node>, idx: nat, dir: MoveDir, f: ItemRef -> bool): (action: Action)
    requires idx < |s|
    ensures !action.Remain? ==> action.level >= 0
  {
    match dir case Down => ChooseDown(s, idx, f) case Up => ChooseUp(s, idx, f)
  }

  function Perform(s: seq<Node>, v: nat, idx: nat, action: Action): StepOutcome
    requires idx < |s| && (!action.Remain? ==> action.level >= 0)
  {
    match action
    case Remain => Done(s, v)
    case ShiftTo(level) => ShiftStep(s, idx, level, v)
    case Transfer(before, level, delta) => if v + delta < 0 then Overflow
      else TransferStep(s, idx, before, level, v + delta)
  }

  ghost function MoveItem(s: seq<Node>, v: nat, dir: MoveDir, f: ItemRef -> bool): StepOutcome {
    match ToDisplayed(s, v)
    case None => Refused(s, InvalidIndex)
    case Some(idx) => Perform(s, v, idx, Choose(s, idx, dir, f))
  }

  // ----- taking a subtree out and putting it back

  lemma {:induction false} CutAndSplice(s: seq<Node>, i: nat)
    requires i < |s|
    ensures Splice(Cut(s, i), i, Subtree(s, i)) == s
  {
  }

  /** Cutting out what was spliced in at a fitting level gives the two parts back. */
  lemma {:induction false} SpliceAndCut(rest: seq<Node>, pos: nat, sub: seq<Node>)
    requires sub != [] && pos <= |rest| && (pos < |rest| ==> rest[pos].level <= sub[0].level)
    requires forall b :: 0 < b < |sub| ==> sub[b].level > sub[0].level
    ensures var t := Splice(rest, pos, sub);
            SubtreeEnd(t, pos) == pos + |sub| && Subtree(t, pos) == sub && Cut(t, pos) == rest
  {
    var t, end := Splice(rest, pos, sub), pos + |sub|;
    forall j | pos < j < end
      ensures t[j].level > t[pos].level
    {
      assert t[j] == sub[j - pos];
    }
    assert t[pos] == sub[0];
    assert end < |t| ==> t[end] == rest[pos];
    EndIs(t, pos, end);
  }

  lemma EndIs(s: seq<Node>, i: nat, end: nat)
    requires i < end <= |s| && (forall j :: i < j < end ==> s[j].level > s[i].level)
    requires end < |s| ==> s[end].level <= s[i].level
    ensures SubtreeEnd(s, i) == end
  {
    var e := SubtreeEnd(s, i);
    assert e < |s| ==> !(s[e].level > s[i].level);
    assert end < |s| ==> !(s[end].level > s[i].level);
  }

  lemma {:induction false} CutIsSound(s: seq<Node>, i: nat)
    requires WellFormed(s) && i < |s|
    ensures WellFormed(Cut(s, i)) && Fits(Cut(s, i), i, s[i].level) && ForestAt(Subtree(s, i), s[i].level)
  {
    RemovedSubtree(s, i);
    PruningKeepsStructure(s, Only(i));
    assert Climbs(s, i);
    SubtreeIsForest(s, i);
  }

  lemma {:induction false} SubtreeIsForest(s: seq<Node>, i: nat)
    requires WellFormed(s) && i < |s|
    ensures ForestAt(Subtree(s, i), s[i].level)
  {
    var sub := Subtree(s, i);
    forall b: nat | b < |sub|
      ensures sub[b].level >= s[i].level && (b > 0 ==> Climbs(sub, b))
    {
      assert sub[b] == s[i + b] && Climbs(s, i + b);
    }
  }

  /** Below a visible node there is an open gap when it is taken out. */
  lemma {:induction false} CutLeavesGap(s: seq<Node>, i: nat)
    requires WellFormed(s) && i < |s| && Visible(s, i)
    ensures GoodGap(Cut(s, i), i, s[i].level)
    ensures VisibleBefore(Cut(s, i), i) == VisibleBefore(s, i)
    ensures PrevVisible(Cut(s, i), i) == PrevVisible(s, i)
  {
    CutIsSound(s, i);
    OpenIsVisible(s, i);
    VisiblePrefix(s, Cut(s, i), i);
    PrevVisiblePrefix(s, Cut(s, i), i);
    OpenPrefix(s, Cut(s, i), i, s[i].level);
  }

  lemma {:induction false} OpenPrefix(s: seq<Node>, t: seq<Node>, pos: nat, level: int)
    requires pos <= |s| && pos <= |t| && forall k :: 0 <= k < pos ==> s[k] == t[k]
    requires OpenAt(s, pos, level)
    ensures OpenAt(t, pos, level)
  {
    forall a: nat | Above(t, a, pos, level)
      ensures t[a].unfolded
    {
      assert Above(s, a, pos, level);
    }
  }

  lemma {:induction false} PrevVisiblePrefix(s: seq<Node>, t: seq<Node>, n: nat)
    requires n <= |s| && n <= |t| && forall k :: 0 <= k < n ==> s[k] == t[k]
    ensures PrevVisible(s, n) == PrevVisible(t, n)
  {
    VisiblePrefix(s, t, n);
    if n > 0 { PrevVisiblePrefix(s, t, n - 1); }
  }

  /** Removing a subtree gives nobody new children, and its parent was allowed to have it. */
  lemma {:induction false} CutKeepsAllowed(s: seq<Node>, i: nat, f: ItemRef -> bool)
    requires WellFormed(s) && i < |s| && ParentsAllowed(s, f)
    ensures ParentsAllowed(Cut(s, i), f) && ParentMayHost(Cut(s, i), i, s[i].level, f)
  {
    var rest, end := Cut(s, i), SubtreeEnd(s, i);
    var n := end - i;
    forall a: nat, k: nat | a < k && InSubtree(rest, a, k)
      ensures f(rest[a].itemRef)
    {
      var a', k' := Shifted(a, i, n), Shifted(k, i, n);
      assert rest[a] == s[a'];
      assert InSubtree(s, a', k') by { UncutAncestor(s, i, a, k); }
    }
    var q := LastBelow(rest, i, s[i].level);
    if q >= 0 {
      forall k | q < k <= i
        ensures s[k].level > s[q].level
      {
        assert k < i ==> rest[k] == s[k];
      }
      assert rest[q] == s[q] && InSubtree(s, q, i);
    }
  }

  lemma {:induction false} UncutAncestor(s: seq<Node>, i: nat, a: nat, k: nat)
    requires i < |s| && a < k && InSubtree(Cut(s, i), a, k)
    ensures InSubtree(s, Shifted(a, i, SubtreeEnd(s, i) - i), Shifted(k, i, SubtreeEnd(s, i) - i))
  {
    var rest, end := Cut(s, i), SubtreeEnd(s, i);
    var n := end - i;
    forall j | Shifted(a, i, n) < j <= Shifted(k, i, n)
      ensures s[j].level > s[Shifted(a, i, n)].level
    {
      if j < i { assert rest[j] == s[j]; }
      else if j >= end { assert rest[j - n] == s[j]; }
      else { assert rest[i] == s[end]; }
    }
  }

  // ----- moves of a single subtree

  lemma SortedNone(indices: seq<nat>, n: nat)
    requires forall i: nat :: i in indices ==> i >= n
    ensures Sorted(indices, n) == []
  {
  }

  lemma SortedSingle(idx: nat)
    ensures Sorted([idx], Bound([idx])) == [idx]
  {
    assert Bound([idx]) == idx + 1;
    SortedNone([idx], idx);
  }

  /** Position in the whole list of gap `pos` between the nodes that stay. */
  function BeforeGap(s: seq<Node>, idx: nat, pos: nat): nat
    requires idx < |s|
  {
    if pos <= idx then pos else pos + SubtreeEnd(s, idx) - idx
  }

  /** With one selected subtree the loop runs once. */
  lemma {:induction false} SingleCut(s: seq<Node>, idx: nat, pos: nat, level: Level)
    requires idx < |s| && pos <= |Cut(s, idx)|
    ensures CutSubtree(s, idx, level, Cutting(s, [], BeforeGap(s, idx, pos))) ==
              if ShiftFits(Subtree(s, idx), level)
              then Continue(Cutting(Cut(s, idx), ShiftInPlace(Subtree(s, idx), level), pos))
              else Stop(Rejected(InvalidLevel))
  {
    var sub := ShiftInPlace(Subtree(s, idx), level);
    assert sub + [] == sub;
    hide ShiftInPlace, ShiftFits;
  }

  lemma {:induction false} SingleMove(s: seq<Node>, idx: nat, pos: nat, level: Level)
    requires WellFormed(s) && idx < |s| && pos <= |Cut(s, idx)|
    ensures MoveAll(s, [idx], TargetPosition(BeforeGap(s, idx, pos), level)) ==
              if ShiftFits(Subtree(s, idx), level) && Fits(Cut(s, idx), pos, level)
              then Moved(Splice(Cut(s, idx), pos, ShiftInPlace(Subtree(s, idx), level)))
              else Rejected(InvalidLevel)
  {
    var c, c' := Cutting(s, [], BeforeGap(s, idx, pos)),
      Cutting(Cut(s, idx), ShiftInPlace(Subtree(s, idx), level), pos);
    SortedSingle(idx);
    CutIsSound(s, idx);
    SingleCut(s, idx, pos, level);
    ReinsertMeaning(level, c');
    hide Splice, ShiftInPlace, ShiftFits, CutSubtree, Reinsert, Cut, BeforeGap, Bound, Sorted;
    assert MoveLoop(s, [idx], level, 0, c') == Reinsert(level, c');
    assert MoveAll(s, [idx], TargetPosition(BeforeGap(s, idx, pos), level)) == MoveLoop(s, [idx], level, 1, c);
  }

  /** Moving one subtree never panics, wherever it goes. */
  lemma {:induction false} SingleNeverPanics(s: seq<Node>, idx: nat, target: TargetPosition)
    requires WellFormed(s) && idx < |s|
    ensures MoveAll(s, [idx], target) != Panicked
  {
    SortedSingle(idx);
    hide Sorted, Bound, Verdict, MoveAll;
    MoveAllVerdict(s, [idx], target);
    VerdictMeaning(s, [idx], target, 1);
  }

  lemma {:induction false} ShiftInPlaceSplices(s: seq<Node>, idx: nat, sub: seq<Node>)
    requires idx < |s|
    ensures s[..idx] + sub + s[SubtreeEnd(s, idx)..] == Splice(Cut(s, idx), idx, sub)
  {
  }

  // ----- the step follows the plan

  ghost function PlanFor(s: seq<Node>, idx: nat, dir: MoveDir, f: ItemRef -> bool): Plan
    requires idx < |s|
  {
    PlanStep(Cut(s, idx), idx, s[idx].level, dir, f)
  }

  /** A shift in place is used when the gap stays the same, a transfer otherwise. */
  ghost function Execute(s: seq<Node>, v: nat, idx: nat, plan: Plan): StepOutcome
    requires idx < |s| && (plan.Put? ==> plan.pos <= |Cut(s, idx)| && plan.level >= 0 && v + plan.delta >= 0)
  {
    if plan.Stay? then Done(s, v)
    else if plan.level > 255 then Overflow
    else
      var sub := Subtree(s, idx);
      if ShiftFits(sub, plan.level)
        then Done(Splice(Cut(s, idx), plan.pos, ShiftInPlace(sub, plan.level)), v + plan.delta)
      else if plan.pos == idx then Refused(Splice(Cut(s, idx), idx, ShiftInPlace(sub, plan.level)), InvalidLevel)
      else Refused(s, InvalidLevel)
  }

  lemma {:induction false} ExecuteDone(s: seq<Node>, v: nat, idx: nat, plan: Plan)
    requires idx < |s| && plan.Put? && plan.pos <= |Cut(s, idx)| && plan.level >= 0 && v + plan.delta >= 0
    requires Execute(s, v, idx, plan).Done?
    ensures plan.level <= 255 && ShiftFits(Subtree(s, idx), plan.level)
    ensures Execute(s, v, idx, plan) ==
        Done(Splice(Cut(s, idx), plan.pos, ShiftInPlace(Subtree(s, idx), plan.level)), v + plan.delta)
  {
    hide Splice, Cut, Subtree, ShiftInPlace, ShiftFits;
  }

  lemma {:induction false} ExecuteRefused(s: seq<Node>, v: nat, idx: nat, plan: Plan, t: seq<Node>, e: MoveError)
    requires idx < |s| && (plan.Put? ==> plan.pos <= |Cut(s, idx)| && plan.level >= 0 && v + plan.delta >= 0)
    requires Execute(s, v, idx, plan) == Refused(t, e) && t != s
    ensures plan.Put? && plan.pos == idx && plan.level <= 255
    ensures t == Splice(Cut(s, idx), idx, ShiftInPlace(Subtree(s, idx), plan.level))
  {
    hide Splice, Cut, Subtree, ShiftInPlace, ShiftFits;
  }

  lemma {:induction false} ShiftToSameLevel(s: seq<Node>)
    requires s != []
    ensures ShiftFits(s, s[0].level) && ShiftInPlace(s, s[0].level) == s
  {
    var n := FirstUnfit(s, 0);
    forall k: nat | k < |s|
      ensures ShiftInPlace(s, s[0].level)[k] == s[k]
    {
      ShiftInPlaceNode(s, s[0].level, k);
    }
  }

  lemma {:induction false} ShiftExecutes(s: seq<Node>, idx: nat, level: int, v: nat)
    requires idx < |s| && level >= 0
    ensures idx <= |Cut(s, idx)|
    ensures ShiftStep(s, idx, level, v) == Execute(s, v, idx, Put(idx, level, 0))
  {
    if level <= 255 { ShiftInPlaceSplices(s, idx, ShiftInPlace(Subtree(s, idx), level)); }
  }

  lemma {:induction false} TransferExecutes(s: seq<Node>, idx: nat, pos: nat, level: int, v: nat, delta: int)
    requires WellFormed(s) && idx < |s| && level >= 0 && v + delta >= 0 && pos != idx && Fits(Cut(s, idx), pos, level)
    ensures TransferStep(s, idx, BeforeGap(s, idx, pos), level, v + delta) == Execute(s, v, idx, Put(pos, level, delta))
  {
    assert pos <= |Cut(s, idx)|;
    hide Splice, ShiftInPlace, ShiftFits, MoveAll, Fits;
    if level <= 255 { SingleMove(s, idx, pos, level); }
  }

  lemma {:induction false} StayExecutes(s: seq<Node>, idx: nat, v: nat)
    requires idx < |s|
    ensures ShiftStep(s, idx, s[idx].level, v) == Done(s, v)
  {
    ShiftToSameLevel(Subtree(s, idx));
    CutAndSplice(s, idx);
    ShiftInPlaceSplices(s, idx, Subtree(s, idx));
  }

  /** The subtree behind the one cut out ends at the same node as before. */
  lemma {:induction false} EndAfterCut(s: seq<Node>, idx: nat)
    requires idx < |s| && SubtreeEnd(s, idx) < |s|
    ensures SubtreeEnd(s, SubtreeEnd(s, idx)) == SubtreeEnd(Cut(s, idx), idx) + SubtreeEnd(s, idx) - idx
  {
    var rest, end := Cut(s, idx), SubtreeEnd(s, idx);
    var e := SubtreeEnd(s, end);
    forall j | idx < j < e - (end - idx)
      ensures rest[j].level > rest[idx].level
    {
      assert rest[j] == s[j + (end - idx)];
    }
    EndIs(rest, idx, e - (end - idx));
  }

  /** Gaps behind the subtree that was cut out, in positions of the whole list. */
  lemma {:induction false} AfterCut(s: seq<Node>, idx: nat)
    requires idx < |s|
    ensures var rest, end := Cut(s, idx), SubtreeEnd(s, idx);
            && idx <= |rest| && (idx == |rest| <==> end == |s|)
            && (idx < |rest| ==> rest[idx] == s[end] && BeforeGap(s, idx, idx + 1) == end + 1
                                 && BeforeGap(s, idx, SubtreeEnd(rest, idx)) == SubtreeEnd(s, end))
  {
    assert |Cut(s, idx)| == |s| - (SubtreeEnd(s, idx) - idx);
    if SubtreeEnd(s, idx) < |s| {
      assert Cut(s, idx)[idx] == s[SubtreeEnd(s, idx)];
      EndAfterCut(s, idx);
    }
  }

  lemma {:induction false} PlanFits(s: seq<Node>, v: nat, idx: nat, dir: MoveDir, f: ItemRef -> bool)
    requires WellFormed(s) && ToDisplayed(s, v) == Some(idx)
    ensures var plan := PlanFor(s, idx, dir, f); plan.Put? ==>
        GoodGap(Cut(s, idx), plan.pos, plan.level) && Fits(Cut(s, idx), plan.pos, plan.level)
    ensures GoodGap(Cut(s, idx), idx, s[idx].level)
    ensures WellFormed(Cut(s, idx))
    ensures VisibleBefore(Cut(s, idx), idx) == VisibleBefore(s, idx) == v
    ensures PrevVisible(Cut(s, idx), idx) == PrevVisible(s, idx)
  {
    ToDisplayedExact(s, v, idx);
    CutIsSound(s, idx);
    CutLeavesGap(s, idx);
    hide OpenAt, Fits, Cut, PlanStep;
    PlanIsGood(Cut(s, idx), idx, s[idx].level, dir, f);
  }

  /** The decision taken on the whole list is the plan made for the nodes around the subtree. */
  ghost predicate Matches(s: seq<Node>, idx: nat, action: Action, plan: Plan)
    requires idx < |s|
  {
    match action
    case Remain => plan.Stay?
    case ShiftTo(level) => plan == Put(idx, level, 0) || (plan.Stay? && level == s[idx].level)
    case Transfer(before, level, delta) =>
      plan.Put? && plan.level == level && plan.delta == delta && plan.pos != idx
        && before == BeforeGap(s, idx, plan.pos)
  }

  lemma {:induction false} DownMatches(s: seq<Node>, idx: nat, f: ItemRef -> bool)
    requires idx < |s|
    ensures Matches(s, idx, ChooseDown(s, idx, f), PlanFor(s, idx, Down, f))
  {
    AfterCut(s, idx);
    hide Cut, SubtreeEnd, BeforeGap;
  }

  lemma {:induction false} UpMatches(s: seq<Node>, idx: nat, f: ItemRef -> bool)
    requires idx < |s| && PrevVisible(Cut(s, idx), idx) == PrevVisible(s, idx)
    ensures Matches(s, idx, ChooseUp(s, idx, f), PlanFor(s, idx, Up, f))
  {
    var p := PrevVisible(s, idx);
    assert p >= 0 ==> Cut(s, idx)[p] == s[p];
    hide Cut, SubtreeEnd, Visible;
  }

  lemma {:induction false} MatchExecutes(s: seq<Node>, v: nat, idx: nat, action: Action, plan: Plan)
    requires WellFormed(s) && idx < |s| && Matches(s, idx, action, plan)
    requires plan.Put? ==> plan.level >= 0 && v + plan.delta >= 0 && Fits(Cut(s, idx), plan.pos, plan.level)
    ensures Perform(s, v, idx, action) == Execute(s, v, idx, plan)
  {
    hide Execute, ShiftStep, TransferStep, BeforeGap, Cut, Fits, WellFormed;
    match action
    case Remain => ExecuteStay(s, v, idx);
    case ShiftTo(level) =>
      if plan.Put? { ShiftExecutes(s, idx, level, v); } else { StayExecutes(s, idx, v); ExecuteStay(s, v, idx); }
    case Transfer(before, level, delta) => TransferExecutes(s, idx, plan.pos, level, v, delta);
  }

  lemma ExecuteStay(s: seq<Node>, v: nat, idx: nat)
    requires idx < |s|
    ensures Execute(s, v, idx, Stay) == Done(s, v)
  {
  }

  /** Behind a visible node the visible index is positive. */
  lemma {:induction false} BehindVisible(s: seq<Node>, v: nat, idx: nat)
    requires ToDisplayed(s, v) == Some(idx) && PrevVisible(s, idx) >= 0
    ensures v > 0
  {
    ToDisplayedExact(s, v, idx);
    VisibleBeforeMonotone(s, PrevVisible(s, idx), idx);
  }

  /** The new visible index is never negative. */
  lemma {:induction false} PlanIndex(s: seq<Node>, v: nat, idx: nat, dir: MoveDir, f: ItemRef -> bool, plan: Plan)
    requires WellFormed(s) && ToDisplayed(s, v) == Some(idx) && plan == PlanFor(s, idx, dir, f) && plan.Put?
    ensures v + plan.delta >= 0
  {
    PlanFits(s, v, idx, dir, f);
    var p := PrevVisible(Cut(s, idx), idx);
    if p >= 0 { VisibleBeforeMonotone(Cut(s, idx), p, idx); }
  }

  /** Both directions: the program's index arithmetic carries out the plan. */
  lemma {:induction false} StepFollowsPlan(s: seq<Node>, v: nat, idx: nat, dir: MoveDir, f: ItemRef -> bool, plan: Plan)
    requires WellFormed(s) && ToDisplayed(s, v) == Some(idx) && plan == PlanFor(s, idx, dir, f)
    ensures plan.Put? ==> plan.pos <= |Cut(s, idx)| && plan.level >= 0 && v + plan.delta >= 0
    ensures MoveItem(s, v, dir, f) == Execute(s, v, idx, plan)
  {
    PlanFits(s, v, idx, dir, f);
    match dir { case Down => DownMatches(s, idx, f); case Up => UpMatches(s, idx, f); }
    if plan.Put? { PlanIndex(s, v, idx, dir, f, plan); }
    assert plan.Put? ==> plan.level >= 0;
    hide Execute, PlanFor, Matches, Cut, Fits, GoodGap, WellFormed, Perform;
    MatchExecutes(s, v, idx, Choose(s, idx, dir, f), plan);
  }

  // ----- main results

  /** A subtree that fits is shifted as a whole ... */
  lemma {:induction false} ShiftedNodes(sub: seq<Node>, level: Level)
    requires sub != [] && ShiftFits(sub, level)
    ensures var t := ShiftInPlace(sub, level);
            |t| == |sub| && forall b :: 0 <= b < |t| ==> t[b] == sub[b].(level := sub[b].level + level - sub[0].level)
  {
    var t := ShiftInPlace(sub, level);
    forall b: nat | b < |sub|
      ensures t[b] == sub[b].(level := sub[b].level + level - sub[0].level)
    {
      ShiftInPlaceNode(sub, level, b);
    }
  }

  /** ... and shifting it back gives the old one. */
  lemma {:induction false} ShiftedBack(sub: seq<Node>, t: seq<Node>, root: Level)
    requires sub != [] && sub[0].level == root && |t| == |sub|
    requires forall b :: 0 <= b < |t| ==>
        t[b].level == sub[b].level + t[0].level - root && sub[b] == t[b].(level := sub[b].level)
    ensures ShiftFits(t, root) && ShiftInPlace(t, root) == sub
  {
    var n := FirstUnfit(t, root - t[0].level);
    assert n < |t| ==> t[n].level + root - t[0].level == sub[n].level;
    ShiftedNodes(t, root);
    hide ShiftInPlace, FirstUnfit;
    assert forall b :: 0 <= b < |t| ==> ShiftInPlace(t, root)[b] == sub[b];
  }

  lemma {:induction false} ShiftedSubtree(sub: seq<Node>, level: Level, root: Level)
    requires sub != [] && sub[0].level == root && ShiftFits(sub, level)
    requires forall b :: 0 < b < |sub| ==> sub[b].level > root
    ensures var t := ShiftInPlace(sub, level);
            && |t| == |sub| && t[0].level == level
            && (forall b :: 0 < b < |t| ==> t[b].level > level)
            && (forall b :: 0 <= b < |t| ==> t[b] == sub[b].(level := sub[b].level + level - root))
            && ShiftFits(t, root) && ShiftInPlace(t, root) == sub
  {
    hide *;
    ShiftedNodes(sub, level);
    ShiftedBack(sub, ShiftInPlace(sub, level), root);
  }

  lemma {:induction false} SubtreeAbove(s: seq<Node>, i: nat)
    requires i < |s|
    ensures var sub := Subtree(s, i);
            sub != [] && sub[0] == s[i] && forall b :: 0 < b < |sub| ==> sub[b].level > s[i].level
  {
  }

  /** The whole picture of a successful step, gap by gap. */
  lemma {:induction false} StepRelocates(s: seq<Node>, v: nat, dir: MoveDir, f: ItemRef -> bool, idx: nat, plan: Plan)
    requires WellFormed(s) && ToDisplayed(s, v) == Some(idx) && plan == PlanFor(s, idx, dir, f) && plan.Put?
    requires MoveItem(s, v, dir, f).Done?
    ensures plan.level <= 255 && Fits(Cut(s, idx), plan.pos, plan.level)
    ensures var sub := ShiftInPlace(Subtree(s, idx), plan.level);
            && ShiftFits(Subtree(s, idx), plan.level)
            && MoveItem(s, v, dir, f).items == Splice(Cut(s, idx), plan.pos, sub)
            && MoveItem(s, v, dir, f).vidx == v + plan.delta
            && SubtreeEnd(MoveItem(s, v, dir, f).items, plan.pos) == plan.pos + |sub|
            && Subtree(MoveItem(s, v, dir, f).items, plan.pos) == sub
            && Cut(MoveItem(s, v, dir, f).items, plan.pos) == Cut(s, idx)
  {
    hide ShiftInPlace, ShiftFits, MoveItem, PlanFor, ToDisplayed, GoodGap, Execute, Splice, Cut, Subtree, WellFormed;
    PlanFits(s, v, idx, dir, f);
    StepFollowsPlan(s, v, idx, dir, f, plan);
    SubtreeAbove(s, idx);
    ExecuteDone(s, v, idx, plan);
    ShiftedSubtree(Subtree(s, idx), plan.level, s[idx].level);
    SpliceAndCut(Cut(s, idx), plan.pos, ShiftInPlace(Subtree(s, idx), plan.level));
  }
}
