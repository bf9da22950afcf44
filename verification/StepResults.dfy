/** What a one-step move guarantees: where the item ends up, what stays, and how to undo it. */
module StepResults {
  import opened Options
  import opened FlatTree
  import opened Rearrange
  import opened Location
  import opened Visibility
  import opened Pruning
  import opened MoveItems
  import opened StepPlan
  import opened MoveItemStep

  /** The subtree at `i` of `s` stands at `i'` of `t`, its levels moved alike, and all else is as it was. */
  ghost predicate SameButMoved(s: seq<Node>, i: nat, t: seq<Node>, i': nat)
    requires i < |s|
  {
    && i' < |t|
    && ShiftFits(Subtree(s, i), t[i'].level)
    && Subtree(t, i') == ShiftInPlace(Subtree(s, i), t[i'].level)
    && Cut(t, i') == Cut(s, i)
  }

  lemma {:induction false} StepPlanned(s: seq<Node>, v: nat, dir: MoveDir, f: ItemRef -> bool, idx: nat, plan: Plan,
                                       t: seq<Node>, v': nat)
    requires WellFormed(s) && ToDisplayed(s, v) == Some(idx) && plan == PlanFor(s, idx, dir, f)
    requires MoveItem(s, v, dir, f) == Done(t, v')
    ensures plan.Stay? ==> t == s && v' == v
    ensures plan.Put? ==>
              && plan.pos < |t| && t[plan.pos].level == plan.level && SameButMoved(s, idx, t, plan.pos)
              && v' == v + plan.delta
              && t == Splice(Cut(s, idx), plan.pos, Subtree(t, plan.pos))
              && GoodGap(Cut(s, idx), plan.pos, plan.level)
  {
    StepFollowsPlan(s, v, idx, dir, f, plan);
    if plan.Put? {
      PlanFits(s, v, idx, dir, f);
      StepRelocates(s, v, dir, f, idx, plan);
      SubtreeAbove(s, idx);
      ShiftedSubtree(Subtree(s, idx), plan.level, s[idx].level);
      hide MoveItem, PlanFor, GoodGap, Execute, ShiftFits;
    } else {
      ExecuteStay(s, v, idx);
      hide MoveItem, PlanFor, GoodGap, Execute, ShiftFits;
    }
  }

  /** An open gap makes the root of what is put there visible. */
  lemma {:induction false} GapVisible(rest: seq<Node>, pos: nat, sub: seq<Node>)
    requires sub != [] && GoodGap(rest, pos, sub[0].level)
    ensures var t := Splice(rest, pos, sub);
            && pos < |t| && Visible(t, pos)
            && VisibleBefore(t, pos) == VisibleBefore(rest, pos)
            && ToDisplayed(t, VisibleBefore(rest, pos)) == Some(pos)
  {
    var t := Splice(rest, pos, sub);
    assert t[pos] == sub[0];
    OpenPrefix(rest, t, pos, sub[0].level);
    OpenIsVisible(t, pos);
    VisiblePrefix(rest, t, pos);
    ToDisplayedExact(t, VisibleBefore(rest, pos), pos);
  }

  /**
   A successful step moves nothing but the subtree, and the returned visible index is that of the
   same item in the new tree.
   */
  lemma {:induction false} StepLandsVisibly(s: seq<Node>, v: nat, dir: MoveDir, f: ItemRef -> bool, idx: nat,
                                            t: seq<Node>, v': nat)
    requires WellFormed(s) && ParentsAllowed(s, f) && ToDisplayed(s, v) == Some(idx)
    requires MoveItem(s, v, dir, f) == Done(t, v')
    ensures ToDisplayed(t, v').Some? && SameButMoved(s, idx, t, ToDisplayed(t, v').value)
  {
    var plan := PlanFor(s, idx, dir, f);
    StepPlanned(s, v, dir, f, idx, plan, t, v');
    if plan.Put? {
      PlanLandsVisibly(s, v, dir, f, idx, plan, t, v');
    } else {
      ShiftToSameLevel(Subtree(s, idx));
    }
  }

  lemma {:induction false} PlanLandsVisibly(s: seq<Node>, v: nat, dir: MoveDir, f: ItemRef -> bool, idx: nat,
                                            plan: Plan, t: seq<Node>, v': nat)
    requires WellFormed(s) && ParentsAllowed(s, f) && ToDisplayed(s, v) == Some(idx) && plan == PlanFor(s, idx, dir, f)
      && plan.Put?
    requires MoveItem(s, v, dir, f) == Done(t, v')
    ensures ToDisplayed(t, v') == Some(plan.pos)
  {
    StepPlanned(s, v, dir, f, idx, plan, t, v');
    PlanFits(s, v, idx, dir, f);
    CutKeepsAllowed(s, idx, f);
    SubtreeAbove(t, plan.pos);
    assert plan == PlanStep(Cut(s, idx), idx, s[idx].level, dir, f);
    hide *;
    GapLandsVisibly(Cut(s, idx), v, idx, s[idx].level, dir, f, plan, Subtree(t, plan.pos), v');
  }

  lemma {:induction false} GapLandsVisibly(rest: seq<Node>, v: nat, pos: nat, level: int, dir: MoveDir,
                                           f: ItemRef -> bool, plan: Plan, sub: seq<Node>, v': nat)
    requires WellFormed(rest) && ParentsAllowed(rest, f) && GoodGap(rest, pos, level) && VisibleBefore(rest, pos) == v
    requires plan == PlanStep(rest, pos, level, dir, f) && plan.Put? && v' == v + plan.delta
    requires sub != [] && sub[0].level == plan.level && GoodGap(rest, plan.pos, plan.level)
    ensures plan.pos <= |rest| && ToDisplayed(Splice(rest, plan.pos, sub), v') == Some(plan.pos)
  {
    hide *;
    PlanDelta(rest, pos, level, dir, f);
    GapVisible(rest, plan.pos, sub);
  }

  lemma {:induction false} SubtreeForest(s: seq<Node>, idx: nat, level: Level)
    requires WellFormed(s) && idx < |s| && ShiftFits(Subtree(s, idx), level)
    ensures ForestAt(ShiftInPlace(Subtree(s, idx), level), level)
  {
    var sub := Subtree(s, idx);
    SubtreeAbove(s, idx);
    CutIsSound(s, idx);
    ShiftedSubtree(sub, level, s[idx].level);
    forall b: nat | 0 < b < |sub|
      ensures Climbs(ShiftInPlace(sub, level), b)
    {
      assert Climbs(sub, b);
    }
  }

  lemma {:induction false} StepKeepsWellFormed(s: seq<Node>, v: nat, dir: MoveDir, f: ItemRef -> bool, idx: nat,
                                               t: seq<Node>, v': nat)
    requires WellFormed(s) && ToDisplayed(s, v) == Some(idx)
    requires MoveItem(s, v, dir, f) == Done(t, v')
    ensures WellFormed(t)
  {
    var plan := PlanFor(s, idx, dir, f);
    StepPlanned(s, v, dir, f, idx, plan, t, v');
    if plan.Put? {
      CutIsSound(s, idx);
      SubtreeForest(s, idx, plan.level);
      hide MoveItem, ForestAt, Cut, Splice, ToDisplayed, WellFormed, PlanFor, OpenAt, Fits;
      SpliceKeepsWellFormed(Cut(s, idx), plan.pos, Subtree(t, plan.pos), plan.level);
    }
  }

  // ----- parents

  /** Node `k` of those outside the subtree at `i` hangs under node `p` of them, or under none if `p` is -1. */
  ghost predicate HangsUnder(s: seq<Node>, i: nat, k: nat, p: int)
    requires i < |s| && k < |Cut(s, i)|
  {
    var n := SubtreeEnd(s, i) - i;
    -1 <= p < k && ParentOf(s, Shifted(k, i, n)) == Shifted(p, i, n)
  }

  lemma {:induction false} HangsUnderCutParent(s: seq<Node>, i: nat, k: nat)
    requires WellFormed(s) && i < |s| && k < |Cut(s, i)|
    ensures HangsUnder(s, i, k, ParentOf(Cut(s, i), k))
  {
    hide *;
    CutIsSound(s, i);
    CutAndSplice(s, i);
    SpliceKeepsParent(Cut(s, i), i, Subtree(s, i), s[i].level, k);
    HangsThere(s, i, k, ParentOf(Cut(s, i), k));
  }

  lemma HangsThere(s: seq<Node>, i: nat, k: nat, p: int)
    requires i < |s| && k < |Cut(s, i)| && -1 <= p < k
    requires Splice(Cut(s, i), i, Subtree(s, i)) == s
    requires ParentOf(Splice(Cut(s, i), i, Subtree(s, i)), Shifted(k, i, |Subtree(s, i)|)) ==
        Shifted(p, i, |Subtree(s, i)|)
    ensures HangsUnder(s, i, k, p)
  {
    assert |Subtree(s, i)| == SubtreeEnd(s, i) - i;
    hide Splice, ParentOf;
  }

  /** Node `k` of those outside the subtree hangs under the same one of them, or under none, in both lists. */
  ghost predicate SameParentOutside(s: seq<Node>, i: nat, t: seq<Node>, i': nat, k: nat)
    requires i < |s| && i' < |t|
  {
    k < |Cut(s, i)| && k < |Cut(t, i')| && exists p :: HangsUnder(s, i, k, p) && HangsUnder(t, i', k, p)
  }

  lemma {:induction false} InnerParent(s: seq<Node>, i: nat, b: nat)
    requires WellFormed(s) && i < |s| && 0 < b < |Subtree(s, i)|
    ensures ParentOf(s, i + b) == i + ParentOf(Subtree(s, i), b)
  {
    CutIsSound(s, i);
    CutAndSplice(s, i);
    SubtreeAbove(s, i);
    SpliceInnerParent(Cut(s, i), i, Subtree(s, i), s[i].level, b);
  }

  lemma {:induction false} ShiftKeepsParent(sub: seq<Node>, level: Level, b: nat)
    requires sub != [] && ShiftFits(sub, level) && b < |sub|
    ensures ParentOf(ShiftInPlace(sub, level), b) == ParentOf(sub, b)
  {
    var t, p, n := ShiftInPlace(sub, level), ParentOf(sub, b), |sub|;
    forall k: nat | k < n
      ensures t[k].level == sub[k].level + level - sub[0].level
    {
      ShiftInPlaceNode(sub, level, k);
    }
    LastBelowUnique(t, b, t[b].level, p);
  }

  /** Below the root at `i`, the parent of the node at offset `b`, as an offset. */
  ghost function InnerOffset(s: seq<Node>, i: nat, b: nat): int
    requires i + b < |s|
  {
    ParentOf(s, i + b) - i
  }

  /** Nobody outside the moved subtree gets another parent, nor does anybody below its root. */
  lemma {:induction false} MovedKeepsParents(s: seq<Node>, i: nat, t: seq<Node>, i': nat)
    requires WellFormed(s) && WellFormed(t) && i < |s| && SameButMoved(s, i, t, i')
    ensures forall k: nat :: k < |Cut(s, i)| ==> SameParentOutside(s, i, t, i', k)
    ensures forall b: nat :: 0 < b < |Subtree(s, i)| ==> i' + b < |t| && InnerOffset(t, i', b) == InnerOffset(s, i, b)
  {
    forall k: nat | k < |Cut(s, i)|
      ensures SameParentOutside(s, i, t, i', k)
    {
      HangsUnderCutParent(s, i, k);
      HangsUnderCutParent(t, i', k);
    }
    forall b: nat | 0 < b < |Subtree(s, i)|
      ensures i' + b < |t| && InnerOffset(t, i', b) == InnerOffset(s, i, b)
    {
      InnerParent(s, i, b);
      InnerParent(t, i', b);
      ShiftKeepsParent(Subtree(s, i), t[i'].level, b);
    }
  }

  // ----- undoing a step

  function Opposite(dir: MoveDir): MoveDir {
    match dir case Down => Up case Up => Down
  }

  lemma {:induction false} OppositePlan(rest: seq<Node>, pos: nat, level: int, dir: MoveDir, f: ItemRef -> bool)
    requires WellFormed(rest) && GoodGap(rest, pos, level) && ParentsAllowed(rest, f)
      && ParentMayHost(rest, pos, level, f)
    ensures var plan := PlanStep(rest, pos, level, dir, f);
            plan.Put? ==>
              && plan.pos <= |rest|
              && PlanStep(rest, plan.pos, plan.level, Opposite(dir), f) == Put(pos, level, -plan.delta)
  {
    match dir {
      case Down => DownThenUp(rest, pos, level, f);
      case Up => UpThenDown(rest, pos, level, f);
    }
  }

  lemma {:induction false} PlanBack(s: seq<Node>, v: nat, dir: MoveDir, f: ItemRef -> bool, idx: nat, plan: Plan,
                                    t: seq<Node>, v': nat)
    requires WellFormed(s) && ParentsAllowed(s, f) && ToDisplayed(s, v) == Some(idx) && plan == PlanFor(s, idx, dir, f)
      && plan.Put?
    requires MoveItem(s, v, dir, f) == Done(t, v')
    ensures plan.pos < |t| && PlanFor(t, plan.pos, Opposite(dir), f) == Put(idx, s[idx].level, -plan.delta)
  {
    StepPlanned(s, v, dir, f, idx, plan, t, v');
    PlanFits(s, v, idx, dir, f);
    CutKeepsAllowed(s, idx, f);
    hide MoveItem, GoodGap, Cut, Splice, ToDisplayed, WellFormed, ParentsAllowed, ParentMayHost, PlanStep;
    PlanFromThere(Cut(s, idx), idx, s[idx].level, dir, f, t, plan);
  }

  lemma {:induction false} PlanFromThere(rest: seq<Node>, pos: nat, level: int, dir: MoveDir, f: ItemRef -> bool,
                                         t: seq<Node>, plan: Plan)
    requires WellFormed(rest) && GoodGap(rest, pos, level) && ParentsAllowed(rest, f)
      && ParentMayHost(rest, pos, level, f)
    requires plan == PlanStep(rest, pos, level, dir, f) && plan.Put?
    requires plan.pos < |t| && Cut(t, plan.pos) == rest && t[plan.pos].level == plan.level
    ensures PlanFor(t, plan.pos, Opposite(dir), f) == Put(pos, level, -plan.delta)
  {
    hide GoodGap, Cut, WellFormed, ParentsAllowed, ParentMayHost, PlanStep;
    OppositePlan(rest, pos, level, dir, f);
  }

  lemma {:induction false} MovedFrom(s: seq<Node>, v: nat, dir: MoveDir, f: ItemRef -> bool)
    requires MoveItem(s, v, dir, f).Done?
    ensures ToDisplayed(s, v).Some? && ToDisplayed(s, v).value < |s|
  {
  }

  /** A step that changed the tree is undone, list and visible index, by the opposite step. */
  lemma {:induction false} StepInverse(s: seq<Node>, v: nat, dir: MoveDir, f: ItemRef -> bool, t: seq<Node>, v': nat)
    requires WellFormed(s) && ParentsAllowed(s, f)
    requires MoveItem(s, v, dir, f) == Done(t, v') && t != s
    ensures MoveItem(t, v', Opposite(dir), f) == Done(s, v)
  {
    hide *;
    MovedFrom(s, v, dir, f);
    var idx := ToDisplayed(s, v).value;
    var plan := PlanFor(s, idx, dir, f);
    StepPlanned(s, v, dir, f, idx, plan, t, v');
    PlanBack(s, v, dir, f, idx, plan, t, v');
    PlanLandsVisibly(s, v, dir, f, idx, plan, t, v');
    StepKeepsWellFormed(s, v, dir, f, idx, t, v');
    var back := Put(idx, s[idx].level, -plan.delta);
    StepFollowsPlan(t, v', plan.pos, Opposite(dir), f, back);
    BackExecutes(s, idx, t, plan.pos, v, plan.delta);
  }

  lemma {:induction false} BackExecutes(s: seq<Node>, idx: nat, t: seq<Node>, pos: nat, v: nat, delta: int)
    requires idx < |s| && SameButMoved(s, idx, t, pos) && v + delta >= 0
    ensures idx <= |Cut(s, idx)|
    ensures Execute(t, v + delta, pos, Put(idx, s[idx].level, -delta)) == Done(s, v)
  {
    assert idx <= |Cut(s, idx)|;
    hide ShiftFits, ShiftInPlace, Cut, Subtree, Splice;
    SubtreeAbove(s, idx);
    ShiftedSubtree(Subtree(s, idx), t[pos].level, s[idx].level);
    CutAndSplice(s, idx);
  }

  // ----- when a step is refused

  /** Some node below the root of the subtree is as deep as a byte can say. */
  ghost predicate AtBottom(s: seq<Node>, idx: nat)
    requires idx < |s|
  {
    exists b :: 0 <= b < |Subtree(s, idx)| && Subtree(s, idx)[b].level == 255
  }

  lemma {:induction false} ShiftDownFits(sub: seq<Node>, root: Level, level: Level)
    requires sub != [] && sub[0].level == root && level <= root + 1 && forall b :: 0 < b < |sub| ==> sub[b].level > root
    ensures ShiftFits(sub, level) <==> !(level > root && exists b :: 0 <= b < |sub| && sub[b].level == 255)
  {
    var n := FirstUnfit(sub, level - root);
    assert n < |sub| ==> sub[n].level == 255 && level > root;
  }

  /** A step on a visible item fails exactly when it would push a node of the subtree below level 255. */
  lemma {:induction false} StepSucceedsExactly(s: seq<Node>, v: nat, dir: MoveDir, f: ItemRef -> bool, idx: nat,
                                               plan: Plan)
    requires WellFormed(s) && ToDisplayed(s, v) == Some(idx) && plan == PlanFor(s, idx, dir, f)
    ensures MoveItem(s, v, dir, f).Done? <==> !(plan.Put? && plan.level > s[idx].level && AtBottom(s, idx))
  {
    StepFollowsPlan(s, v, idx, dir, f, plan);
    PlanFits(s, v, idx, dir, f);
    SubtreeAbove(s, idx);
    if plan.Put? {
      PlanLevels(s, idx, dir, f, plan);
      if plan.level <= 255 { ShiftDownFits(Subtree(s, idx), s[idx].level, plan.level); }
      else { assert Subtree(s, idx)[0].level == 255; }
    } else { ExecuteStay(s, v, idx); }
    hide MoveItem, PlanFor, ToDisplayed, WellFormed, ShiftFits, ShiftInPlace, Subtree, GoodGap, Fits;
  }

  lemma {:induction false} PlanLevels(s: seq<Node>, idx: nat, dir: MoveDir, f: ItemRef -> bool, plan: Plan)
    requires WellFormed(s) && idx < |s| && plan == PlanFor(s, idx, dir, f) && plan.Put?
    requires GoodGap(Cut(s, idx), idx, s[idx].level)
    ensures 0 <= plan.level <= s[idx].level + 1
  {
    CutIsSound(s, idx);
  }

  /** The half-way failure: an in-place shift that fails has already moved the nodes before the bad one. */
  lemma {:induction false} RefusalDamage(s: seq<Node>, v: nat, dir: MoveDir, f: ItemRef -> bool, idx: nat, plan: Plan,
                                         t: seq<Node>, e: MoveError)
    requires WellFormed(s) && ToDisplayed(s, v) == Some(idx) && plan == PlanFor(s, idx, dir, f)
    requires MoveItem(s, v, dir, f) == Refused(t, e)
    ensures e == InvalidLevel && plan.Put? && (t != s <==> plan.pos == idx)
  {
    StepFollowsPlan(s, v, idx, dir, f, plan);
    PlanFits(s, v, idx, dir, f);
    StepSucceedsExactly(s, v, dir, f, idx, plan);
    ExecuteStay(s, v, idx);
    if plan.Put? && plan.pos == idx && plan.level <= 255 {
      SubtreeAbove(s, idx);
      PartialShiftChanges(Subtree(s, idx), plan.level);
      assert Splice(Cut(s, idx), idx, ShiftInPlace(Subtree(s, idx), plan.level))[idx] ==
          ShiftInPlace(Subtree(s, idx), plan.level)[0];
    }
    hide MoveItem, PlanFor, ToDisplayed, WellFormed, ShiftFits, ShiftInPlace, Subtree, GoodGap, Fits, Splice;
  }

  lemma {:induction false} PartialShiftChanges(sub: seq<Node>, level: Level)
    requires sub != [] && level != sub[0].level
    ensures ShiftInPlace(sub, level)[0] != sub[0]
  {
    ShiftInPlaceNode(sub, level, 0);
    assert LevelOk(sub[0].level + (level - sub[0].level));
  }

  // ----- a refused step that has changed the list

  /** A leaf at the top, and a chain of nodes as deep as levels go, with its root beside the leaf. */
  function DeepChain(): (s: seq<Node>)
    ensures |s| == 257
    ensures forall k :: 0 <= k < 257 ==> s[k] == Node(k, if k == 0 then 0 else k - 1, true, false)
  {
    seq(257, k requires 0 <= k < 257 => Node(k, if k == 0 then 0 else k - 1, true, false))
  }

  lemma {:induction false} DeepChainForm()
    ensures WellFormed(DeepChain())
    ensures Visible(DeepChain(), 0) && ToDisplayed(DeepChain(), 1) == Some(1)
  {
    var s := DeepChain();
    AllUnfoldedAllVisible(s, 1);
    ToDisplayedExact(s, 1, 1);
  }

  lemma {:induction false} DeepChainBottom()
    ensures AtBottom(DeepChain(), 1)
  {
    var s := DeepChain();
    SubtreeIsRange(s, 1, 256);
    assert InSubtree(s, 1, 256);
    assert Subtree(s, 1)[255] == s[256];
  }

  lemma {:induction false} DeepChainPlan(f: ItemRef -> bool)
    requires f(0)
    ensures PlanFor(DeepChain(), 1, Up, f) == Put(1, 1, 0)
  {
    var s := DeepChain();
    DeepChainForm();
    PlanFits(s, 1, 1, Up, f);
    assert PrevVisible(s, 1) == 0;
    assert Cut(s, 1)[0] == s[0];
    hide WellFormed, ToDisplayed, Visible, AtBottom, GoodGap, Fits, PrevVisible;
  }

  /** Moving the chain up, into the leaf, fails at its last node after all others have been shifted. */
  lemma {:induction false} RefusedButChanged(f: ItemRef -> bool)
    requires f(0)
    ensures WellFormed(DeepChain())
    ensures exists t :: MoveItem(DeepChain(), 1, Up, f) == Refused(t, InvalidLevel) && t != DeepChain()
  {
    hide *;
    var s := DeepChain();
    DeepChainForm();
    DeepChainBottom();
    DeepChainPlan(f);
    StepSucceedsExactly(s, 1, Up, f, 1, Put(1, 1, 0));
    NeverOverflows(s, 1, Up, f, 1, Put(1, 1, 0));
    var outcome := MoveItem(s, 1, Up, f);
    RefusalDamage(s, 1, Up, f, 1, Put(1, 1, 0), outcome.items, outcome.error);
  }

  /** Only a node of level 255 that shall go one deeper makes the program's addition overflow. */
  lemma {:induction false} NeverOverflows(s: seq<Node>, v: nat, dir: MoveDir, f: ItemRef -> bool, idx: nat, plan: Plan)
    requires WellFormed(s) && ToDisplayed(s, v) == Some(idx) && plan == PlanFor(s, idx, dir, f)
    requires plan.Put? ==> plan.level <= 255
    ensures MoveItem(s, v, dir, f) != Overflow
  {
    StepFollowsPlan(s, v, idx, dir, f, plan);
    hide MoveItem, PlanFor, ToDisplayed, WellFormed, ShiftFits, ShiftInPlace, Subtree, Splice, Cut;
  }
}
