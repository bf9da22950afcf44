/**
 Where one step up or down takes a subtree.  The tree is seen as the nodes `rest` outside the
 subtree, the gap `pos` the subtree occupies between them, and the level of its root.
 */
module StepPlan {
  import opened FlatTree
  import opened Rearrange
  import opened Visibility

  datatype MoveDir = Down | Up

  /** Stay put, or go to gap `pos` at `level`, which shifts the visible index by `delta`. */
  datatype Plan = Stay | Put(pos: nat, level: int, delta: int)

  ghost function PlanDown(rest: seq<Node>, pos: nat, level: int, f: ItemRef -> bool): Plan
    requires pos <= |rest|
  {
    if pos == |rest| then
      if level == 0 then Stay else Put(pos, level - 1, 0)
    else if rest[pos].level < level then Put(pos, level - 1, 0)
    else if rest[pos].unfolded && f(rest[pos].itemRef) then Put(pos + 1, level + 1, 1)
    else Put(SubtreeEnd(rest, pos), level, 1)
  }

  /** A predecessor that is deeper, or as deep and able to take the subtree in. */
  predicate MovesInto(node: Node, level: int, f: ItemRef -> bool) {
    (node.level >= level && f(node.itemRef) && node.unfolded) || node.level > level
  }

  ghost function PlanUp(rest: seq<Node>, pos: nat, level: int, f: ItemRef -> bool): Plan
    requires pos <= |rest|
  {
    var p := PrevVisible(rest, pos);
    if p == -1 then Stay
    else if MovesInto(rest[p], level, f) then Put(pos, level + 1, 0)
    else Put(p, rest[p].level, -1)
  }

  ghost function PlanStep(rest: seq<Node>, pos: nat, level: int, dir: MoveDir, f: ItemRef -> bool): Plan
    requires pos <= |rest|
  {
    match dir case Down => PlanDown(rest, pos, level, f) case Up => PlanUp(rest, pos, level, f)
  }

  // ----- what it takes to be visible in a gap

  /** Node `a` would be an ancestor of a node of level `level` put into gap `pos`. */
  ghost predicate Above(rest: seq<Node>, a: int, pos: nat, level: int) {
    0 <= a < pos <= |rest| && rest[a].level < level && forall k :: a < k < pos ==> rest[k].level > rest[a].level
  }

  ghost predicate OpenAt(rest: seq<Node>, pos: nat, level: int)
    requires pos <= |rest|
  {
    forall a: nat :: Above(rest, a, pos, level) ==> rest[a].unfolded
  }

  /** Who would be the parent in that gap may have children. */
  ghost predicate ParentMayHost(rest: seq<Node>, pos: nat, level: int, f: ItemRef -> bool)
    requires pos <= |rest|
  {
    LastBelow(rest, pos, level) >= 0 ==> f(rest[LastBelow(rest, pos, level)].itemRef)
  }

  /** Every hidden node sits below a visible folded one. */
  lemma {:induction false} HiddenUnderFolded(s: seq<Node>, i: nat) returns (a: nat)
    requires i < |s|
    ensures InSubtree(s, a, i) && Visible(s, a) && (a == i || !s[a].unfolded)
  {
    if Visible(s, i) {
      a := i;
    } else {
      var b: nat :| b < i && InSubtree(s, b, i) && !s[b].unfolded;
      a := HiddenUnderFolded(s, b);
    }
  }

  /** The visible predecessor is the last node itself, or a folded node that hides it. */
  lemma {:induction false} PrevVisibleCovers(s: seq<Node>, pos: nat)
    requires 0 < pos <= |s|
    ensures var p := PrevVisible(s, pos);
            p >= 0 && InSubtree(s, p, pos - 1) && (p == pos - 1 || !s[p].unfolded)
  {
    var a := HiddenUnderFolded(s, pos - 1);
    var p := PrevVisible(s, pos);
    assert a < p ==> InSubtree(s, a, p);
  }

  /** The would-be parent in an open gap: one level up, unfolded and visible. */
  lemma {:induction false} OpenParent(rest: seq<Node>, pos: nat, level: int)
    requires WellFormed(rest) && Fits(rest, pos, level) && OpenAt(rest, pos, level) && level > 0
    ensures var q := LastBelow(rest, pos, level);
            q >= 0 && rest[q].level == level - 1 && rest[q].unfolded && Visible(rest, q)
  {
    LastBelowLevel(rest, pos, level);
    var q := LastBelow(rest, pos, level);
    assert Above(rest, q, pos, level);
    forall a: nat | a < q && InSubtree(rest, a, q)
      ensures rest[a].unfolded
    {
      assert Above(rest, a, pos, level);
    }
  }

  /** An occupied gap is open exactly if the node there is visible. */
  lemma {:induction false} OpenIsVisible(s: seq<Node>, i: nat)
    requires i < |s|
    ensures OpenAt(s, i, s[i].level) <==> Visible(s, i)
  {
    forall a: nat | a < i
      ensures InSubtree(s, a, i) <==> Above(s, a, i, s[i].level)
    {
    }
  }

  // ----- one step lands in an open, fitting gap

  ghost predicate GoodGap(rest: seq<Node>, pos: nat, level: int) {
    Fits(rest, pos, level) && OpenAt(rest, pos, level)
  }

  lemma {:induction false} DownOut(rest: seq<Node>, pos: nat, level: int)
    requires GoodGap(rest, pos, level) && level > 0 && (pos < |rest| ==> rest[pos].level < level)
    ensures GoodGap(rest, pos, level - 1)
  {
    forall a: nat | Above(rest, a, pos, level - 1)
      ensures rest[a].unfolded
    {
      assert Above(rest, a, pos, level);
    }
  }

  lemma {:induction false} DownInto(rest: seq<Node>, pos: nat, level: int)
    requires WellFormed(rest) && GoodGap(rest, pos, level) && pos < |rest| && rest[pos].level == level
      && rest[pos].unfolded
    ensures GoodGap(rest, pos + 1, level + 1)
  {
    if pos + 1 < |rest| { assert Climbs(rest, pos + 1); }
    forall a: nat | Above(rest, a, pos + 1, level + 1)
      ensures rest[a].unfolded
    {
      if a < pos { assert Above(rest, a, pos, level); }
    }
  }

  lemma {:induction false} DownOver(rest: seq<Node>, pos: nat, level: int)
    requires GoodGap(rest, pos, level) && pos < |rest| && rest[pos].level == level
    ensures GoodGap(rest, SubtreeEnd(rest, pos), level)
  {
    var e := SubtreeEnd(rest, pos);
    forall a: nat | Above(rest, a, e, level)
      ensures rest[a].unfolded
    {
      assert Above(rest, a, pos, level);
    }
  }

  lemma {:induction false} UpInto(rest: seq<Node>, pos: nat, level: int, f: ItemRef -> bool)
    requires GoodGap(rest, pos, level)
    requires var p := PrevVisible(rest, pos); p >= 0 && MovesInto(rest[p], level, f)
    ensures GoodGap(rest, pos, level + 1)
  {
    var p := PrevVisible(rest, pos);
    PrevVisibleCovers(rest, pos);
    forall a: nat | Above(rest, a, pos, level + 1)
      ensures rest[a].unfolded
    {
      if rest[a].level < level { assert Above(rest, a, pos, level); }
      else if a < p { assert InSubtree(rest, a, p); }
    }
  }

  lemma {:induction false} UpBefore(rest: seq<Node>, pos: nat)
    requires WellFormed(rest) && pos <= |rest| && PrevVisible(rest, pos) >= 0
    ensures var p := PrevVisible(rest, pos); GoodGap(rest, p, rest[p].level)
  {
    var p := PrevVisible(rest, pos);
    assert Climbs(rest, p);
    OpenIsVisible(rest, p);
  }

  /** Wherever the step goes, the level check will accept it and the root stays visible. */
  lemma {:induction false} PlanIsGood(rest: seq<Node>, pos: nat, level: int, dir: MoveDir, f: ItemRef -> bool)
    requires WellFormed(rest) && GoodGap(rest, pos, level)
    ensures var plan := PlanStep(rest, pos, level, dir, f);
            plan.Put? ==> GoodGap(rest, plan.pos, plan.level)
  {
    var p := PrevVisible(rest, pos);
    if dir == Up && p >= 0 {
      if MovesInto(rest[p], level, f) { UpInto(rest, pos, level, f); } else { UpBefore(rest, pos); }
    } else if dir == Down && (if pos == |rest| then level > 0 else rest[pos].level < level) {
      DownOut(rest, pos, level);
    } else if dir == Down && pos < |rest| {
      if rest[pos].unfolded && f(rest[pos].itemRef) { DownInto(rest, pos, level); } else { DownOver(rest, pos, level); }
    }
  }

  // ----- the new visible index

  /** In an open gap, a node at the same level right behind it is visible. */
  lemma {:induction false} SiblingVisible(rest: seq<Node>, pos: nat, level: int)
    requires GoodGap(rest, pos, level) && pos < |rest| && rest[pos].level == level
    ensures Visible(rest, pos)
  {
    OpenIsVisible(rest, pos);
  }

  lemma {:induction false} LeafOrFolded(rest: seq<Node>, pos: nat, f: ItemRef -> bool)
    requires ParentsAllowed(rest, f) && pos < |rest| && !(rest[pos].unfolded && f(rest[pos].itemRef))
    ensures rest[pos].unfolded ==> SubtreeEnd(rest, pos) == pos + 1
    ensures NextVisible(rest, pos) == SubtreeEnd(rest, pos)
  {
    if rest[pos].unfolded && pos + 1 < SubtreeEnd(rest, pos) {
      SubtreeIsRange(rest, pos, pos + 1);
    }
  }

  /** The visible index moves by exactly the planned amount. */
  lemma {:induction false} PlanDelta(rest: seq<Node>, pos: nat, level: int, dir: MoveDir, f: ItemRef -> bool)
    requires WellFormed(rest) && GoodGap(rest, pos, level) && ParentsAllowed(rest, f)
    ensures var plan := PlanStep(rest, pos, level, dir, f);
            plan.Put? ==> plan.pos <= |rest| && VisibleBefore(rest, plan.pos) == VisibleBefore(rest, pos) + plan.delta
  {
    var p := PrevVisible(rest, pos);
    if dir == Up && p >= 0 {
      VisibleBeforeSkip(rest, p + 1, pos);
    } else if dir == Down && pos < |rest| && rest[pos].level == level {
      SiblingVisible(rest, pos, level);
      VisibleBeforeStep(rest, pos);
      if !(rest[pos].unfolded && f(rest[pos].itemRef)) { LeafOrFolded(rest, pos, f); }
    }
  }

  // ----- the opposite step undoes it

  lemma {:induction false} DownThenUp(rest: seq<Node>, pos: nat, level: int, f: ItemRef -> bool)
    requires WellFormed(rest) && GoodGap(rest, pos, level) && ParentsAllowed(rest, f)
      && ParentMayHost(rest, pos, level, f)
    ensures var plan := PlanDown(rest, pos, level, f);
            plan.Put? ==> plan.pos <= |rest| && PlanUp(rest, plan.pos, plan.level, f) == Put(pos, level, -plan.delta)
  {
    if pos == |rest| || rest[pos].level < level {
      if level > 0 {
        OpenParent(rest, pos, level);
        PrevVisibleCovers(rest, pos);
      }
    } else {
      SiblingVisible(rest, pos, level);
      if !(rest[pos].unfolded && f(rest[pos].itemRef)) {
        LeafOrFolded(rest, pos, f);
        NextVisibleExact(rest, pos);
      }
    }
  }

  lemma {:induction false} UpThenDown(rest: seq<Node>, pos: nat, level: int, f: ItemRef -> bool)
    requires WellFormed(rest) && GoodGap(rest, pos, level) && ParentsAllowed(rest, f)
      && ParentMayHost(rest, pos, level, f)
    ensures var plan := PlanUp(rest, pos, level, f);
            plan.Put? ==> plan.pos <= |rest| && PlanDown(rest, plan.pos, plan.level, f) == Put(pos, level, -plan.delta)
  {
    var p := PrevVisible(rest, pos);
    if p >= 0 {
      PrevVisibleCovers(rest, pos);
      if !MovesInto(rest[p], level, f) && rest[p].level < level {
        OpenParent(rest, pos, level);
      }
    }
  }
}
