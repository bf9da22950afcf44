/**
 The places a subtree can be put by hand, in the order in which they appear on the screen: from top to
 bottom, and in one gap from the deepest level outwards.  One step goes to the very next of them.
 */
module StepSlots {
  import opened Options
  import opened FlatTree
  import opened Rearrange
  import opened Visibility
  import opened Pruning
  import opened MoveItems
  import opened StepPlan
  import opened MoveItemStep
  import opened StepResults

  /** A gap and a level at which a root passes the level check, is visible, and has a parent that may have children. */
  ghost predicate Slot(rest: seq<Node>, pos: nat, level: int, f: ItemRef -> bool) {
    && pos <= |rest| && Fits(rest, pos, level)
    && (forall a: nat :: Above(rest, a, pos, level) ==> rest[a].unfolded)
    && (LastBelow(rest, pos, level) >= 0 ==> f(rest[LastBelow(rest, pos, level)].itemRef))
  }

  /** The second place comes after the first one. */
  predicate Precedes(pos: nat, level: int, pos': nat, level': int) {
    pos < pos' || (pos == pos' && level > level')
  }

  /** `(pos', level')` is the first slot after `(pos, level)`. */
  ghost predicate FirstAfter(rest: seq<Node>, pos: nat, level: int, pos': nat, level': int, f: ItemRef -> bool) {
    && Slot(rest, pos', level', f) && Precedes(pos, level, pos', level')
    && forall q: nat, l: int :: Slot(rest, q, l, f) && Precedes(pos, level, q, l) ==>
         (q == pos' && l == level') || Precedes(pos', level', q, l)
  }

  /** `(pos', level')` is the last slot before `(pos, level)`. */
  ghost predicate LastBefore(rest: seq<Node>, pos: nat, level: int, pos': nat, level': int, f: ItemRef -> bool) {
    && Slot(rest, pos', level', f) && Precedes(pos', level', pos, level)
    && forall q: nat, l: int :: Slot(rest, q, l, f) && Precedes(q, l, pos, level) ==>
         (q == pos' && l == level') || Precedes(q, l, pos', level')
  }

  ghost predicate NoneAfter(rest: seq<Node>, pos: nat, level: int, f: ItemRef -> bool) {
    forall q: nat, l: int :: Slot(rest, q, l, f) ==> !Precedes(pos, level, q, l)
  }

  ghost predicate NoneBefore(rest: seq<Node>, pos: nat, level: int, f: ItemRef -> bool) {
    forall q: nat, l: int :: Slot(rest, q, l, f) ==> !Precedes(q, l, pos, level)
  }

  lemma SlotIs(rest: seq<Node>, pos: nat, level: int, f: ItemRef -> bool)
    requires pos <= |rest|
    ensures Slot(rest, pos, level, f) <==> GoodGap(rest, pos, level) && ParentMayHost(rest, pos, level, f)
  {
    hide Fits, Above, LastBelow;
  }

  /** Who is above a gap, and has a node of the same depth or less between itself and the gap, has children. */
  lemma {:induction false} AncestorHosts(rest: seq<Node>, a: nat, pos: nat, k: nat, f: ItemRef -> bool)
    requires ParentsAllowed(rest, f) && a < k < pos <= |rest|
    requires forall j :: a < j <= k ==> rest[j].level > rest[a].level
    ensures f(rest[a].itemRef)
  {
    assert InSubtree(rest, a, k);
  }

  // ----- down

  /** Outwards in the same gap: the parent is the old parent's parent. */
  lemma {:induction false} OutIsSlot(rest: seq<Node>, pos: nat, level: int, f: ItemRef -> bool)
    requires WellFormed(rest) && ParentsAllowed(rest, f) && Slot(rest, pos, level, f)
    requires level > 0 && (pos < |rest| ==> rest[pos].level < level)
    ensures Slot(rest, pos, level - 1, f)
  {
    SlotIs(rest, pos, level, f);
    SlotIs(rest, pos, level - 1, f);
    DownOut(rest, pos, level);
    var a, q := LastBelow(rest, pos, level - 1), LastBelow(rest, pos, level);
    OpenParent(rest, pos, level);
    if a >= 0 { AncestorHosts(rest, a, pos, q, f); }
  }

  lemma {:induction false} IntoIsSlot(rest: seq<Node>, pos: nat, level: int, f: ItemRef -> bool)
    requires WellFormed(rest) && Slot(rest, pos, level, f)
    requires pos < |rest| && rest[pos].level == level && rest[pos].unfolded && f(rest[pos].itemRef)
    ensures Slot(rest, pos + 1, level + 1, f)
  {
    SlotIs(rest, pos, level, f);
    SlotIs(rest, pos + 1, level + 1, f);
    DownInto(rest, pos, level);
    LastBelowUnique(rest, pos + 1, level + 1, pos);
  }

  lemma {:induction false} OverIsSlot(rest: seq<Node>, pos: nat, level: int, f: ItemRef -> bool)
    requires Slot(rest, pos, level, f) && pos < |rest| && rest[pos].level == level
    ensures Slot(rest, SubtreeEnd(rest, pos), level, f)
  {
    var e := SubtreeEnd(rest, pos);
    SlotIs(rest, pos, level, f);
    SlotIs(rest, e, level, f);
    DownOver(rest, pos, level);
    LastBelowUnique(rest, e, level, LastBelow(rest, pos, level));
  }

  /** Nothing lies between a slot in front of a sibling and the gap behind that sibling's subtree. */
  lemma {:induction false} NothingBefore(rest: seq<Node>, pos: nat, level: int, q: nat, l: int, f: ItemRef -> bool)
    requires ParentsAllowed(rest, f) && pos < |rest| && rest[pos].level == level
    requires !(rest[pos].unfolded && f(rest[pos].itemRef))
    requires Slot(rest, q, l, f) && pos < q
    ensures q >= SubtreeEnd(rest, pos) && (q == SubtreeEnd(rest, pos) ==> l <= level)
  {
    var e := SubtreeEnd(rest, pos);
    LeafOrFolded(rest, pos, f);
    if q < e || (q == e && l > level) {
      assert Above(rest, pos, q, l);
      assert rest[pos].unfolded && e == pos + 1 && q == e;
      LastBelowUnique(rest, q, l, pos);
    }
  }

  /** What the level check says of the node behind a gap and the one before it. */
  lemma SlotLevels(rest: seq<Node>, q: nat, l: int, f: ItemRef -> bool)
    requires Slot(rest, q, l, f)
    ensures q <= |rest| && 0 <= l
    ensures q < |rest| ==> rest[q].level <= l
    ensures q > 0 ==> l <= rest[q - 1].level + 1
  {
  }

  lemma {:induction false} OutIsNext(rest: seq<Node>, pos: nat, level: int, f: ItemRef -> bool)
    requires WellFormed(rest) && ParentsAllowed(rest, f) && Slot(rest, pos, level, f)
    requires pos < |rest| ==> rest[pos].level < level
    ensures if level > 0 then FirstAfter(rest, pos, level, pos, level - 1, f) else NoneAfter(rest, pos, level, f)
  {
    SlotLevels(rest, pos, level, f);
    if level > 0 { OutIsSlot(rest, pos, level, f); }
    hide Slot, WellFormed, ParentsAllowed;
    forall q: nat, l: int | Slot(rest, q, l, f)
      ensures q <= |rest| && 0 <= l
    {
      SlotLevels(rest, q, l, f);
    }
  }

  lemma {:induction false} IntoIsNext(rest: seq<Node>, pos: nat, level: int, f: ItemRef -> bool)
    requires WellFormed(rest) && Slot(rest, pos, level, f)
    requires pos < |rest| && rest[pos].level == level && rest[pos].unfolded && f(rest[pos].itemRef)
    ensures FirstAfter(rest, pos, level, pos + 1, level + 1, f)
  {
    IntoIsSlot(rest, pos, level, f);
    hide Slot, WellFormed;
    forall q: nat, l: int | Slot(rest, q, l, f) && Precedes(pos, level, q, l)
      ensures pos < q && (q == pos + 1 ==> l <= level + 1)
    {
      SlotLevels(rest, q, l, f);
    }
  }

  lemma {:induction false} OverIsNext(rest: seq<Node>, pos: nat, level: int, f: ItemRef -> bool)
    requires ParentsAllowed(rest, f) && Slot(rest, pos, level, f)
    requires pos < |rest| && rest[pos].level == level && !(rest[pos].unfolded && f(rest[pos].itemRef))
    ensures FirstAfter(rest, pos, level, SubtreeEnd(rest, pos), level, f)
  {
    OverIsSlot(rest, pos, level, f);
    assert SubtreeEnd(rest, pos) > pos;
    hide Slot, ParentsAllowed, SubtreeEnd;
    forall q: nat, l: int | Slot(rest, q, l, f) && Precedes(pos, level, q, l)
      ensures q >= SubtreeEnd(rest, pos) && (q == SubtreeEnd(rest, pos) ==> l <= level)
    {
      SlotLevels(rest, q, l, f);
      NothingBefore(rest, pos, level, q, l, f);
    }
  }

  lemma PlanDownIs(rest: seq<Node>, pos: nat, level: int, f: ItemRef -> bool)
    requires pos <= |rest|
    ensures PlanDown(rest, pos, level, f) ==
      if pos < |rest| && rest[pos].level >= level then
        if rest[pos].unfolded && f(rest[pos].itemRef) then Put(pos + 1, level + 1, 1)
        else Put(SubtreeEnd(rest, pos), level, 1)
      else if pos == |rest| && level == 0 then Stay
      else Put(pos, level - 1, 0)
  {
  }

  lemma {:induction false} DownIsNext(rest: seq<Node>, pos: nat, level: int, f: ItemRef -> bool)
    requires WellFormed(rest) && ParentsAllowed(rest, f) && Slot(rest, pos, level, f)
    ensures match PlanDown(rest, pos, level, f)
            case Stay => NoneAfter(rest, pos, level, f)
            case Put(pos', level', _) => FirstAfter(rest, pos, level, pos', level', f)
  {
    SlotLevels(rest, pos, level, f);
    hide *;
    PlanDownIs(rest, pos, level, f);
    if pos == |rest| || rest[pos].level < level {
      OutIsNext(rest, pos, level, f);
    } else if rest[pos].unfolded && f(rest[pos].itemRef) {
      IntoIsNext(rest, pos, level, f);
    } else {
      OverIsNext(rest, pos, level, f);
    }
  }

  // ----- up

  /** Inwards in the same gap: under the visible predecessor, or under an ancestor of it. */
  lemma {:induction false} UpIntoIsSlot(rest: seq<Node>, pos: nat, level: int, f: ItemRef -> bool)
    requires WellFormed(rest) && ParentsAllowed(rest, f) && Slot(rest, pos, level, f)
    requires PrevVisible(rest, pos) >= 0 && MovesInto(rest[PrevVisible(rest, pos)], level, f)
    ensures Slot(rest, pos, level + 1, f)
  {
    var p, a := PrevVisible(rest, pos), LastBelow(rest, pos, level + 1);
    SlotIs(rest, pos, level, f);
    SlotIs(rest, pos, level + 1, f);
    UpInto(rest, pos, level, f);
    PrevVisibleCovers(rest, pos);
    if rest[p].level == level {
      LastBelowUnique(rest, pos, level + 1, p);
    } else if a >= 0 {
      assert a < p;
      AncestorHosts(rest, a, pos, p, f);
    }
  }

  lemma {:induction false} UpBeforeIsSlot(rest: seq<Node>, pos: nat, f: ItemRef -> bool)
    requires WellFormed(rest) && ParentsAllowed(rest, f) && pos <= |rest| && PrevVisible(rest, pos) >= 0
    ensures Slot(rest, PrevVisible(rest, pos), rest[PrevVisible(rest, pos)].level, f)
  {
    var p := PrevVisible(rest, pos);
    SlotIs(rest, p, rest[p].level, f);
    UpBefore(rest, pos);
    var a := LastBelow(rest, p, rest[p].level);
    if a >= 0 { AncestorHosts(rest, a, p + 1, p, f); }
  }

  /** There is no slot in a gap before which the node is hidden. */
  lemma {:induction false} HiddenIsNoSlot(rest: seq<Node>, q: nat, l: int, f: ItemRef -> bool)
    requires q < |rest| && !Visible(rest, q)
    ensures !Slot(rest, q, l, f)
  {
    var a: nat :| a < q && InSubtree(rest, a, q) && !rest[a].unfolded;
    if Fits(rest, q, l) { assert Above(rest, a, q, l); }
  }

  /** Nor deeper in the same gap, where the visible predecessor cannot take anything in. */
  lemma {:induction false} NothingDeeper(rest: seq<Node>, pos: nat, level: int, l: int, f: ItemRef -> bool)
    requires WellFormed(rest) && Slot(rest, pos, level, f) && l > level
    requires PrevVisible(rest, pos) >= 0 && !MovesInto(rest[PrevVisible(rest, pos)], level, f)
    ensures !Slot(rest, pos, l, f)
  {
    var p := PrevVisible(rest, pos);
    PrevVisibleCovers(rest, pos);
    assert rest[p].level < level ==> Above(rest, p, pos, level);
    assert rest[p].level < l ==> Above(rest, p, pos, l);
    if rest[p].level == level && p == pos - 1 { LastBelowUnique(rest, pos, level + 1, p); }
  }

  lemma {:induction false} UpIsNext(rest: seq<Node>, pos: nat, level: int, f: ItemRef -> bool)
    requires WellFormed(rest) && ParentsAllowed(rest, f) && Slot(rest, pos, level, f)
    ensures match PlanUp(rest, pos, level, f)
            case Stay => NoneBefore(rest, pos, level, f)
            case Put(pos', level', _) => LastBefore(rest, pos, level, pos', level', f)
  {
    var p := PrevVisible(rest, pos);
    if p == -1 {
      if pos > 0 { PrevVisibleCovers(rest, pos); }
    } else if MovesInto(rest[p], level, f) {
      UpIntoIsSlot(rest, pos, level, f);
    } else {
      UpBeforeIsSlot(rest, pos, f);
      hide Slot, WellFormed, ParentsAllowed, Visible;
      forall q: nat, l: int | Slot(rest, q, l, f) && Precedes(q, l, pos, level)
        ensures q <= p && (q == p ==> l >= rest[p].level)
      {
        SlotLevels(rest, q, l, f);
        if q == pos {
          NothingDeeper(rest, pos, level, l, f);
        } else if q > p {
          HiddenIsNoSlot(rest, q, l, f);
        }
      }
    }
  }

  // ----- the step on the whole tree

  /** The subtree at `i` left its slot for the next one in that direction, or there is none. */
  ghost predicate WentOn(s: seq<Node>, i: nat, t: seq<Node>, i': nat, dir: MoveDir, f: ItemRef -> bool)
    requires i < |s| && i' < |t|
  {
    var rest, level, level' := Cut(s, i), s[i].level, t[i'].level;
    match dir
    case Down =>
      if i' == i && level' == level then NoneAfter(rest, i, level, f) else FirstAfter(rest, i, level, i', level', f)
    case Up =>
      if i' == i && level' == level then NoneBefore(rest, i, level, f) else LastBefore(rest, i, level, i', level', f)
  }

  lemma {:induction false} GapIsSlot(s: seq<Node>, v: nat, f: ItemRef -> bool, idx: nat)
    requires WellFormed(s) && ParentsAllowed(s, f) && ToDisplayed(s, v) == Some(idx)
    ensures idx <= |Cut(s, idx)| && Slot(Cut(s, idx), idx, s[idx].level, f)
    ensures WellFormed(Cut(s, idx)) && ParentsAllowed(Cut(s, idx), f)
  {
    ToDisplayedExact(s, v, idx);
    CutIsSound(s, idx);
    CutLeavesGap(s, idx);
    CutKeepsAllowed(s, idx, f);
    hide WellFormed, ParentsAllowed, Cut, GoodGap, ParentMayHost, Slot, Visible;
    FitsInside(Cut(s, idx), idx, s[idx].level);
    SlotIs(Cut(s, idx), idx, s[idx].level, f);
  }

  lemma FitsInside(rest: seq<Node>, pos: nat, level: int)
    requires Fits(rest, pos, level)
    ensures pos <= |rest|
  {
  }

  /**
   Moving an item down takes it to the very next place on the screen where it may be, and moving it up
   to the place just before; no place is left out.
   */
  lemma {:induction false} StepGoesToNextSlot(s: seq<Node>, v: nat, dir: MoveDir, f: ItemRef -> bool, idx: nat,
                                              t: seq<Node>, v': nat)
    requires WellFormed(s) && ParentsAllowed(s, f) && ToDisplayed(s, v) == Some(idx)
    requires MoveItem(s, v, dir, f) == Done(t, v')
    ensures ToDisplayed(t, v').Some? && SameButMoved(s, idx, t, ToDisplayed(t, v').value)
    ensures WentOn(s, idx, t, ToDisplayed(t, v').value, dir, f)
  {
    hide *;
    var plan := PlanFor(s, idx, dir, f);
    StepPlanned(s, v, dir, f, idx, plan, t, v');
    StepLandsVisibly(s, v, dir, f, idx, t, v');
    GapIsSlot(s, v, f, idx);
    PlanIs(s, idx, dir, f);
    DownIsNext(Cut(s, idx), idx, s[idx].level, f);
    UpIsNext(Cut(s, idx), idx, s[idx].level, f);
    if plan.Put? {
      PlanLandsVisibly(s, v, dir, f, idx, plan, t, v');
      WentOnPut(s, idx, t, plan.pos, dir, f);
    } else {
      WentOnStay(s, idx, dir, f);
    }
  }

  lemma PlanIs(s: seq<Node>, idx: nat, dir: MoveDir, f: ItemRef -> bool)
    requires idx < |s|
    ensures idx <= |Cut(s, idx)|
    ensures PlanFor(s, idx, dir, f) ==
      match dir
      case Down => PlanDown(Cut(s, idx), idx, s[idx].level, f)
      case Up => PlanUp(Cut(s, idx), idx, s[idx].level, f)
  {
    hide PlanDown, PlanUp;
  }

  lemma WentOnPut(s: seq<Node>, idx: nat, t: seq<Node>, i': nat, dir: MoveDir, f: ItemRef -> bool)
    requires idx < |s| && i' < |t|
    requires match dir
             case Down => FirstAfter(Cut(s, idx), idx, s[idx].level, i', t[i'].level, f)
             case Up => LastBefore(Cut(s, idx), idx, s[idx].level, i', t[i'].level, f)
    ensures WentOn(s, idx, t, i', dir, f)
  {
    hide Slot;
  }

  lemma WentOnStay(s: seq<Node>, idx: nat, dir: MoveDir, f: ItemRef -> bool)
    requires idx < |s|
    requires match dir
             case Down => NoneAfter(Cut(s, idx), idx, s[idx].level, f)
             case Up => NoneBefore(Cut(s, idx), idx, s[idx].level, f)
    ensures WentOn(s, idx, s, idx, dir, f)
  {
    hide NoneAfter, NoneBefore;
  }

  // ----- who becomes a parent

  /** It is enough to look at the parents that nodes really have. */
  lemma {:induction false} AllowedByParents(s: seq<Node>, f: ItemRef -> bool)
    requires WellFormed(s)
    requires forall j: nat :: j < |s| && ParentOf(s, j) >= 0 ==> f(s[ParentOf(s, j)].itemRef)
    ensures ParentsAllowed(s, f)
  {
    forall a: nat, k: nat | a < k && InSubtree(s, a, k)
      ensures f(s[a].itemRef)
    {
      var j: nat := a + 1;
      assert s[j].level > s[a].level;
      LastBelowUnique(s, j, s[j].level, a);
      assert ParentOf(s, j) == a;
    }
  }

  lemma ParentAllowed(s: seq<Node>, j: nat, f: ItemRef -> bool)
    requires ParentsAllowed(s, f) && j < |s| && ParentOf(s, j) >= 0
    ensures f(s[ParentOf(s, j)].itemRef)
  {
    assert InSubtree(s, ParentOf(s, j), j);
  }

  /** The root hangs under the node that its slot implies. */
  lemma {:induction false} RootParent(s: seq<Node>, i: nat)
    requires WellFormed(s) && i < |s|
    ensures i <= |Cut(s, i)| && ParentOf(s, i) == LastBelow(Cut(s, i), i, s[i].level)
  {
    CutAndSplice(s, i);
    assert Cut(s, i)[..i] == s[..i];
    LastBelowPrefix(s, Cut(s, i), i, s[i].level);
  }

  lemma {:induction false} LastBelowPrefix(s: seq<Node>, t: seq<Node>, i: nat, level: int)
    requires i <= |s| && i <= |t| && s[..i] == t[..i]
    ensures LastBelow(s, i, level) == LastBelow(t, i, level)
  {
    var p := LastBelow(s, i, level);
    assert forall k :: 0 <= k < i ==> t[k] == t[..i][k] == s[k];
    LastBelowUnique(t, i, level, p);
  }

  lemma {:induction false} CutNode(s: seq<Node>, i: nat, p: nat)
    requires i < |s| && p < |Cut(s, i)|
    ensures 0 <= Shifted(p, i, SubtreeEnd(s, i) - i) < |s|
    ensures s[Shifted(p, i, SubtreeEnd(s, i) - i)] == Cut(s, i)[p]
  {
  }

  lemma {:induction false} HangsUnderAllowed(s: seq<Node>, i: nat, k: nat, p: int, f: ItemRef -> bool)
    requires ParentsAllowed(s, f) && i < |s| && k < |Cut(s, i)| && HangsUnder(s, i, k, p) && p >= 0
    ensures f(Cut(s, i)[p].itemRef)
  {
    CutNode(s, i, k);
    CutNode(s, i, p);
    hide Cut, SubtreeEnd, ParentsAllowed, ParentOf;
    ParentAllowed(s, Shifted(k, i, SubtreeEnd(s, i) - i), f);
  }

  lemma {:induction false} OutsideAllowed(s: seq<Node>, i: nat, t: seq<Node>, i': nat, k: nat, f: ItemRef -> bool)
    requires ParentsAllowed(s, f) && i < |s| && i' < |t| && Cut(t, i') == Cut(s, i)
    requires k < |Cut(t, i')| && SameParentOutside(s, i, t, i', k)
    ensures var j := Shifted(k, i', SubtreeEnd(t, i') - i');
      0 <= j < |t| && (ParentOf(t, j) >= 0 ==> f(t[ParentOf(t, j)].itemRef))
  {
    var p :| HangsUnder(s, i, k, p) && HangsUnder(t, i', k, p);
    CutNode(t, i', k);
    if p >= 0 {
      CutNode(t, i', p);
      HangsUnderAllowed(s, i, k, p, f);
    }
    hide Cut, SubtreeEnd, ParentsAllowed, ParentOf;
  }

  /** A node of the list is in the subtree, or is node `k` of those outside it. */
  lemma {:induction false} InOrOut(t: seq<Node>, i': nat, j: nat) returns (k: nat)
    requires i' < |t| && j < |t| && !(i' <= j < SubtreeEnd(t, i'))
    ensures k < |Cut(t, i')| && Shifted(k, i', SubtreeEnd(t, i') - i') == j
  {
    k := if j < i' then j else j - (SubtreeEnd(t, i') - i');
  }

  lemma {:induction false} SubtreeAt(s: seq<Node>, i: nat, b: nat)
    requires i < |s| && b < |Subtree(s, i)|
    ensures i + b < |s| && s[i + b] == Subtree(s, i)[b]
  {
  }

  lemma {:induction false} InsideAllowed(s: seq<Node>, i: nat, t: seq<Node>, i': nat, b: nat, f: ItemRef -> bool)
    requires ParentsAllowed(s, f) && i < |s| && SameButMoved(s, i, t, i') && 0 < b < |Subtree(t, i')|
    requires WellFormed(s) && WellFormed(t)
    ensures i' + b < |t| && (ParentOf(t, i' + b) >= 0 ==> f(t[ParentOf(t, i' + b)].itemRef))
  {
    hide *;
    MovedInside(s, i, t, i');
    SameInner(s, i, t, i', b);
    var o := ParentOf(Subtree(t, i'), b);
    InnerHasParent(t, i', b);
    InnerParent(s, i, b);
    InnerParent(t, i', b);
    SubtreeAt(t, i', b);
    SubtreeAt(s, i, b);
    SubtreeAt(t, i', o);
    SubtreeAt(s, i, o);
    ParentAllowed(s, i + b, f);
    SameItem(s, i, t, i', o);
  }

  lemma {:induction false} SameInner(s: seq<Node>, i: nat, t: seq<Node>, i': nat, b: nat)
    requires i < |s| && SameButMoved(s, i, t, i') && 0 < b < |Subtree(t, i')|
    ensures |Subtree(t, i')| == |Subtree(s, i)| && ParentOf(Subtree(t, i'), b) == ParentOf(Subtree(s, i), b)
  {
    SubtreeAbove(s, i);
    ShiftKeepsParent(Subtree(s, i), t[i'].level, b);
    hide Subtree, ShiftFits, ShiftInPlace, ParentOf;
  }

  lemma InnerHasParent(t: seq<Node>, i': nat, b: nat)
    requires i' < |t| && 0 < b < |Subtree(t, i')|
    ensures 0 <= ParentOf(Subtree(t, i'), b) < b
  {
    SubtreeAbove(t, i');
    hide Subtree;
  }

  lemma SameItem(s: seq<Node>, i: nat, t: seq<Node>, i': nat, o: nat)
    requires i < |s| && SameButMoved(s, i, t, i') && o < |Subtree(s, i)|
    ensures o < |Subtree(t, i')| && Subtree(t, i')[o].itemRef == Subtree(s, i)[o].itemRef
  {
    ShiftInPlaceNode(Subtree(s, i), t[i'].level, o);
    hide Subtree, ShiftFits;
  }

  /** After a step, still nobody has children who may not have them. */
  lemma {:induction false} StepKeepsAllowed(s: seq<Node>, v: nat, dir: MoveDir, f: ItemRef -> bool, idx: nat,
                                            t: seq<Node>, v': nat)
    requires WellFormed(s) && ParentsAllowed(s, f) && ToDisplayed(s, v) == Some(idx)
    requires MoveItem(s, v, dir, f) == Done(t, v')
    ensures ParentsAllowed(t, f)
  {
    hide *;
    StepKeepsWellFormed(s, v, dir, f, idx, t, v');
    StepGoesToNextSlot(s, v, dir, f, idx, t, v');
    var i' := ToDisplayed(t, v').value;
    MovedInside(s, idx, t, i');
    MovedKeepsParents(s, idx, t, i');
    RootParent(t, i');
    GapIsSlot(s, v, f, idx);
    WentToSlot(s, idx, t, i', dir, f);
    forall j: nat | j < |t|
      ensures ParentOf(t, j) >= 0 ==> f(t[ParentOf(t, j)].itemRef)
    {
      if i' < j < SubtreeEnd(t, i') {
        SubtreeLength(t, i');
        InsideAllowed(s, idx, t, i', j - i', f);
      } else if j == i' {
        SlotHosts(t, i', f);
      } else {
        SubtreeLength(t, i');
        var k := InOrOut(t, i', j);
        OutsideAllowed(s, idx, t, i', k, f);
      }
    }
    AllowedByParents(t, f);
  }

  lemma MovedInside(s: seq<Node>, i: nat, t: seq<Node>, i': nat)
    requires i < |s| && SameButMoved(s, i, t, i')
    ensures i' < |t| && Cut(t, i') == Cut(s, i)
  {
  }

  lemma SubtreeLength(t: seq<Node>, i': nat)
    requires i' < |t|
    ensures i' < SubtreeEnd(t, i') && |Subtree(t, i')| == SubtreeEnd(t, i') - i'
  {
  }

  lemma WentToSlot(s: seq<Node>, i: nat, t: seq<Node>, i': nat, dir: MoveDir, f: ItemRef -> bool)
    requires i < |s| && i' < |t| && WentOn(s, i, t, i', dir, f) && Cut(t, i') == Cut(s, i)
    requires Slot(Cut(s, i), i, s[i].level, f)
    ensures Slot(Cut(t, i'), i', t[i'].level, f)
  {
    hide Slot, Cut;
  }

  lemma {:induction false} SlotHosts(t: seq<Node>, i': nat, f: ItemRef -> bool)
    requires WellFormed(t) && i' < |t| && Slot(Cut(t, i'), i', t[i'].level, f)
    ensures ParentOf(t, i') >= 0 ==> f(t[ParentOf(t, i')].itemRef)
  {
    RootParent(t, i');
    if ParentOf(t, i') >= 0 { CutNode(t, i', ParentOf(t, i')); }
    hide Cut, ParentOf, LastBelow;
  }

  /**
   What moving the item at visible index `v` promises: it stands in the next slot, at the visible index
   returned, everything else is as it was, and nobody has children who may not have them.
   */
  ghost predicate Stepped(s: seq<Node>, v: nat, dir: MoveDir, f: ItemRef -> bool, t: seq<Node>, v': nat) {
    && ToDisplayed(s, v).Some? && ToDisplayed(t, v').Some?
    && SameButMoved(s, ToDisplayed(s, v).value, t, ToDisplayed(t, v').value)
    && WentOn(s, ToDisplayed(s, v).value, t, ToDisplayed(t, v').value, dir, f)
    && ParentsAllowed(t, f)
  }

  lemma {:induction false} StepSteps(s: seq<Node>, v: nat, dir: MoveDir, f: ItemRef -> bool, t: seq<Node>, v': nat)
    requires WellFormed(s) && ParentsAllowed(s, f) && MoveItem(s, v, dir, f) == Done(t, v')
    ensures Stepped(s, v, dir, f, t, v')
  {
    MovedFrom(s, v, dir, f);
    hide MoveItem, WellFormed, ParentsAllowed, ToDisplayed, SameButMoved, WentOn;
    StepGoesToNextSlot(s, v, dir, f, ToDisplayed(s, v).value, t, v');
    StepKeepsAllowed(s, v, dir, f, ToDisplayed(s, v).value, t, v');
  }

  // ----- who takes an item in

  /** Down, in front of an unfolded sibling that may have children: the item becomes its first child. */
  lemma {:induction false} DownIntoSibling(s: seq<Node>, v: nat, f: ItemRef -> bool, idx: nat, t: seq<Node>, v': nat)
    requires WellFormed(s) && ToDisplayed(s, v) == Some(idx) && MoveItem(s, v, Down, f) == Done(t, v')
    requires SubtreeEnd(s, idx) < |s|
    requires var next := s[SubtreeEnd(s, idx)]; next.level == s[idx].level && next.unfolded && f(next.itemRef)
    ensures v' == v + 1 && SameButMoved(s, idx, t, idx + 1)
    ensures t[idx] == s[SubtreeEnd(s, idx)] && ParentOf(t, idx + 1) == idx
  {
    var rest, level := Cut(s, idx), s[idx].level;
    AfterCut(s, idx);
    StepPlanned(s, v, Down, f, idx, PlanFor(s, idx, Down, f), t, v');
    assert PlanFor(s, idx, Down, f) == Put(idx + 1, level + 1, 1);
    hide MoveItem, PlanFor, Cut, ToDisplayed, WellFormed, ShiftFits, ShiftInPlace, Subtree, GoodGap, SubtreeEnd;
    RootParentAt(s, idx, t, idx + 1, idx);
  }

  lemma {:induction false} RootParentAt(s: seq<Node>, i: nat, t: seq<Node>, i': nat, p: nat)
    requires i < |s| && SameButMoved(s, i, t, i') && p < i' && p < |Cut(s, i)| && i' <= |Cut(s, i)|
    requires Cut(s, i)[p].level < t[i'].level
    requires forall k :: p < k < i' ==> Cut(s, i)[k].level >= t[i'].level
    ensures t[p] == Cut(s, i)[p] && ParentOf(t, i') == p
  {
    CutAndSplice(t, i');
    assert forall k :: 0 <= k < i' ==> t[k] == Cut(t, i')[k];
    LastBelowUnique(t, i', t[i'].level, p);
    hide Cut, Subtree, ShiftInPlace, ShiftFits;
  }

  /** Down, in front of a sibling that is folded or may not have children: the item passes its whole subtree. */
  lemma {:induction false} DownPastSibling(s: seq<Node>, v: nat, f: ItemRef -> bool, idx: nat, t: seq<Node>, v': nat)
    requires WellFormed(s) && ToDisplayed(s, v) == Some(idx) && MoveItem(s, v, Down, f) == Done(t, v')
    requires SubtreeEnd(s, idx) < |s|
    requires var next := s[SubtreeEnd(s, idx)]; next.level == s[idx].level && !(next.unfolded && f(next.itemRef))
    ensures var e := SubtreeEnd(s, idx);
      v' == v + 1 && idx + SubtreeEnd(s, e) - e < |t| && SameButMoved(s, idx, t, idx + SubtreeEnd(s, e) - e)
      && t[idx + SubtreeEnd(s, e) - e].level == s[idx].level
  {
    hide *;
    PastSiblingPlan(s, idx, f);
    StepPlanned(s, v, Down, f, idx, PlanFor(s, idx, Down, f), t, v');
  }

  lemma {:induction false} PastSiblingPlan(s: seq<Node>, idx: nat, f: ItemRef -> bool)
    requires idx < |s| && SubtreeEnd(s, idx) < |s|
    requires var next := s[SubtreeEnd(s, idx)]; next.level == s[idx].level && !(next.unfolded && f(next.itemRef))
    ensures var e := SubtreeEnd(s, idx);
      idx + SubtreeEnd(s, e) - e >= 0 && PlanFor(s, idx, Down, f) == Put(idx + SubtreeEnd(s, e) - e, s[idx].level, 1)
  {
    AfterCut(s, idx);
    EndAfterCut(s, idx);
    hide Cut, SubtreeEnd;
  }

  /** Up, behind an unfolded sibling that may have children: the item becomes its last child where it stands. */
  lemma {:induction false} UpIntoSibling(s: seq<Node>, v: nat, f: ItemRef -> bool, idx: nat, t: seq<Node>, v': nat)
    requires WellFormed(s) && ToDisplayed(s, v) == Some(idx) && MoveItem(s, v, Up, f) == Done(t, v')
    requires PrevVisible(s, idx) >= 0
    requires var prev := s[PrevVisible(s, idx)]; prev.level == s[idx].level && prev.unfolded && f(prev.itemRef)
    ensures v' == v && SameButMoved(s, idx, t, idx) && ParentOf(t, idx) == PrevVisible(s, idx)
  {
    hide *;
    var rest, p := Cut(s, idx), PrevVisible(s, idx);
    BeforeGapSame(s, v, idx, f);
    StepPlanned(s, v, Up, f, idx, PlanFor(s, idx, Up, f), t, v');
    IntoSiblingPlan(s, idx, f);
    PrevVisibleCovers(rest, idx);
    NothingShallower(rest, p, idx);
    RootParentAt(s, idx, t, idx, p);
  }

  lemma {:induction false} BeforeGapSame(s: seq<Node>, v: nat, idx: nat, f: ItemRef -> bool)
    requires WellFormed(s) && ToDisplayed(s, v) == Some(idx) && PrevVisible(s, idx) >= 0
    ensures idx <= |Cut(s, idx)| && PrevVisible(Cut(s, idx), idx) == PrevVisible(s, idx)
    ensures Cut(s, idx)[PrevVisible(s, idx)] == s[PrevVisible(s, idx)]
  {
    PlanFits(s, v, idx, Up, f);
    assert idx <= |Cut(s, idx)|;
    hide PrevVisible, WellFormed, ToDisplayed;
  }

  lemma IntoSiblingPlan(s: seq<Node>, idx: nat, f: ItemRef -> bool)
    requires idx < |s| && idx <= |Cut(s, idx)| && PrevVisible(Cut(s, idx), idx) >= 0
    requires var prev := Cut(s, idx)[PrevVisible(Cut(s, idx), idx)];
      prev.level == s[idx].level && prev.unfolded && f(prev.itemRef)
    ensures PlanFor(s, idx, Up, f) == Put(idx, s[idx].level + 1, 0)
  {
    hide Cut, PrevVisible;
  }

  lemma NothingShallower(rest: seq<Node>, p: nat, pos: nat)
    requires 0 < pos <= |rest| && InSubtree(rest, p, pos - 1)
    ensures forall k :: p < k < pos ==> rest[k].level >= rest[p].level + 1
  {
  }

  /** Up, behind a sibling that is folded or may not have children: the item goes in front of it. */
  lemma {:induction false} UpPastSibling(s: seq<Node>, v: nat, f: ItemRef -> bool, idx: nat, t: seq<Node>, v': nat)
    requires WellFormed(s) && ToDisplayed(s, v) == Some(idx) && MoveItem(s, v, Up, f) == Done(t, v')
    requires PrevVisible(s, idx) >= 0
    requires var prev := s[PrevVisible(s, idx)]; prev.level == s[idx].level && !(prev.unfolded && f(prev.itemRef))
    ensures v' == v - 1 && SameButMoved(s, idx, t, PrevVisible(s, idx))
    ensures t[PrevVisible(s, idx)].level == s[idx].level
  {
    var rest, p := Cut(s, idx), PrevVisible(s, idx);
    PlanFits(s, v, idx, Up, f);
    assert idx <= |rest| && rest[p] == s[p];
    StepPlanned(s, v, Up, f, idx, PlanFor(s, idx, Up, f), t, v');
    assert PlanFor(s, idx, Up, f) == Put(p, s[idx].level, -1);
    hide MoveItem, PlanFor, Cut, ToDisplayed, WellFormed, ShiftFits, ShiftInPlace, Subtree, GoodGap, SubtreeEnd,
         PrevVisible;
  }
}
