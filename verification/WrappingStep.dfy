/**
 The one-step move in a build without overflow checks: where `level + 1` leaves the byte range it
 wraps to 0, and the step goes on with that level.
 */
module WrappingStep {
  import opened Options
  import opened FlatTree
  import opened Rearrange
  import opened Location
  import opened Pruning
  import opened Visibility
  import opened MoveItems
  import opened StepPlan
  import opened MoveItemStep

  function Wrapped(action: Action): (wrapped: Action)
    requires !action.Remain? ==> action.level >= 0
    ensures !wrapped.Remain? ==> 0 <= wrapped.level <= 255
  {
    match action
    case Remain => Remain
    case ShiftTo(level) => ShiftTo(level % 256)
    case Transfer(before, level, delta) => Transfer(before, level % 256, delta)
  }

  ghost function MoveItemWrapping(s: seq<Node>, v: nat, dir: MoveDir, f: ItemRef -> bool): StepOutcome {
    match ToDisplayed(s, v)
    case None => Refused(s, InvalidIndex)
    case Some(idx) => Perform(s, v, idx, Wrapped(Choose(s, idx, dir, f)))
  }

  /** Without an overflow there is nothing to wrap. */
  lemma {:induction false} WrapsOnOverflowOnly(s: seq<Node>, v: nat, dir: MoveDir, f: ItemRef -> bool)
    requires MoveItem(s, v, dir, f) != Overflow
    ensures MoveItemWrapping(s, v, dir, f) == MoveItem(s, v, dir, f)
  {
    hide MoveAll, ShiftInPlace, ShiftFits, ToDisplayed, Choose, Subtree, SubtreeEnd;
  }

  /** A node at the last level has nothing below it. */
  lemma {:induction false} BottomIsLeaf(s: seq<Node>, idx: nat)
    requires idx < |s| && s[idx].level == 255
    ensures SubtreeEnd(s, idx) == idx + 1 && Subtree(s, idx) == [s[idx]]
    ensures Cut(s, idx) == s[..idx] + s[idx + 1..]
  {
    EndIs(s, idx, idx + 1);
  }

  lemma {:induction false} LeafShifts(node: Node, level: Level)
    ensures ShiftFits([node], level) && ShiftInPlace([node], level) == [node.(level := level)]
  {
    var delta := level - node.level;
    assert FirstUnfit([node], delta) == 1;
    assert ShiftInPlace([node], level)[0] == node.(level := level) by { ShiftInPlaceNode([node], level, 0); }
  }

  /** The program's addition overflows exactly if a node at level 255 is to go one deeper. */
  lemma {:induction false} OverflowExactly(s: seq<Node>, v: nat, dir: MoveDir, f: ItemRef -> bool, idx: nat)
    requires WellFormed(s) && ToDisplayed(s, v) == Some(idx)
    ensures MoveItem(s, v, dir, f) == Overflow <==>
      s[idx].level == 255 &&
      match dir
      case Up => PrevVisible(s, idx) >= 0 && MovesInto(s[PrevVisible(s, idx)], 255, f)
      case Down => idx + 1 < |s| && s[idx + 1].level == 255 && s[idx + 1].unfolded && f(s[idx + 1].itemRef)
  {
    var plan := PlanFor(s, idx, dir, f);
    StepFollowsPlan(s, v, idx, dir, f, plan);
    PlanFits(s, v, idx, dir, f);
    AfterCut(s, idx);
    if s[idx].level == 255 { BottomIsLeaf(s, idx); }
    var p := PrevVisible(s, idx);
    assert p >= 0 ==> Cut(s, idx)[p] == s[p];
    hide MoveItem, ToDisplayed, WellFormed, GoodGap, Fits, Cut, Subtree, SubtreeEnd, ShiftFits, ShiftInPlace, Splice,
         PrevVisible;
  }

  /** What such a step does when the level wraps. */
  ghost function WrappedResult(s: seq<Node>, v: nat, dir: MoveDir, idx: nat): StepOutcome
    requires idx < |s|
  {
    var node := s[idx].(level := 0);
    match dir
    case Up => Done(s[idx := node], v)
    case Down =>
      if idx + 2 < |s| && s[idx + 2].level > 0 then Refused(s, InvalidLevel)
      else if idx + 1 < |s| then Done(s[..idx] + [s[idx + 1], node] + s[idx + 2..], v + 1)
      else Overflow
  }

  lemma {:induction false} WrappedUp(s: seq<Node>, v: nat, idx: nat)
    requires idx < |s| && s[idx].level == 255
    ensures ShiftStep(s, idx, 0, v) == Done(s[idx := s[idx].(level := 0)], v)
  {
    BottomIsLeaf(s, idx);
    LeafShifts(s[idx], 0);
    var node := s[idx].(level := 0);
    assert s[..idx] + [node] + s[idx + 1..] == s[idx := node];
    hide ShiftFits, ShiftInPlace, SubtreeEnd, Subtree;
  }

  lemma {:induction false} WrappedDown(s: seq<Node>, v: nat, idx: nat)
    requires WellFormed(s) && idx + 1 < |s| && s[idx].level == s[idx + 1].level == 255
    ensures TransferStep(s, idx, idx + 2, 0, v + 1) == WrappedResult(s, v, Down, idx)
  {
    var rest, node := Cut(s, idx), s[idx].(level := 0);
    BottomIsLeaf(s, idx);
    LeafShifts(s[idx], 0);
    assert BeforeGap(s, idx, idx + 1) == idx + 2;
    assert rest[idx] == s[idx + 1] && (idx + 2 < |s| ==> rest[idx + 1] == s[idx + 2]);
    assert Fits(rest, idx + 1, 0) <==> !(idx + 2 < |s| && s[idx + 2].level > 0);
    assert Splice(rest, idx + 1, [node]) == s[..idx] + [s[idx + 1], node] + s[idx + 2..];
    hide MoveAll, Cut, Fits, Splice, ShiftFits, ShiftInPlace, Subtree, SubtreeEnd, BeforeGap, WellFormed;
    SingleMove(s, idx, idx + 1, 0);
  }

  lemma {:induction false} WrappedChoice(s: seq<Node>, idx: nat, dir: MoveDir, f: ItemRef -> bool)
    requires idx < |s| && s[idx].level == 255
    requires match dir
             case Up => PrevVisible(s, idx) >= 0 && MovesInto(s[PrevVisible(s, idx)], 255, f)
             case Down => idx + 1 < |s| && s[idx + 1].level == 255 && s[idx + 1].unfolded && f(s[idx + 1].itemRef)
    ensures Wrapped(Choose(s, idx, dir, f)) == match dir case Up => ShiftTo(0) case Down => Transfer(idx + 2, 0, 1)
  {
    BottomIsLeaf(s, idx);
    hide PrevVisible, SubtreeEnd;
  }

  lemma UpResult(s: seq<Node>, v: nat, idx: nat)
    requires idx < |s|
    ensures WrappedResult(s, v, Up, idx) == Done(s[idx := s[idx].(level := 0)], v)
  {
  }

  /**
   Where the level wraps, Up always succeeds and puts the node at level 0 where it stands; Down succeeds
   only if nothing deeper than level 0 follows the next node.
   */
  lemma {:induction false} WrapsExactly(s: seq<Node>, v: nat, dir: MoveDir, f: ItemRef -> bool, idx: nat)
    requires WellFormed(s) && ToDisplayed(s, v) == Some(idx)
    requires MoveItem(s, v, dir, f) == Overflow
    ensures MoveItemWrapping(s, v, dir, f) == WrappedResult(s, v, dir, idx)
  {
    ToDisplayedExact(s, v, idx);
    assert MoveItemWrapping(s, v, dir, f) == Perform(s, v, idx, Wrapped(Choose(s, idx, dir, f)));
    OverflowExactly(s, v, dir, f, idx);
    hide MoveItem, MoveItemWrapping, ToDisplayed, WellFormed, Choose, Wrapped, ShiftStep, TransferStep, WrappedResult,
         PrevVisible;
    WrappedChoice(s, idx, dir, f);
    match dir
    case Up => WrappedUp(s, v, idx); UpResult(s, v, idx);
    case Down => WrappedDown(s, v, idx);
  }

  /** That Up keeps the invariant exactly if the next node, if any, is at level 0 or 1; that Down always does. */
  lemma {:induction false} WrappedKeepsLevelsExactly(s: seq<Node>, v: nat, dir: MoveDir, idx: nat)
    requires WellFormed(s) && idx < |s| && WrappedResult(s, v, dir, idx).Done?
    requires s[idx].level == 255 && (dir.Down? ==> s[idx + 1].level == 255)
    ensures WellFormed(WrappedResult(s, v, dir, idx).items) <==>
      dir.Down? || idx + 1 == |s| || s[idx + 1].level <= 1
  {
    var t := WrappedResult(s, v, dir, idx).items;
    assert |t| == |s|;
    match dir
    case Up =>
      assert idx + 1 < |s| ==> (Climbs(t, idx + 1) <==> s[idx + 1].level <= 1);
      forall k: nat | k < |s| && k != idx + 1
        ensures Climbs(t, k)
      {
        assert Climbs(s, k);
      }
    case Down =>
      forall k: nat | k < |s|
        ensures Climbs(t, k)
      {
        assert Climbs(s, k);
        assert k == idx ==> idx > 0 && Climbs(s, idx);
      }
  }
}
