/**
 What a bulk move makes of any selection, nested or not, and which successful moves keep the level
 invariant.  Slices are as long as the subtrees of the original list but are cut from the shrunken
 one, so a cut may leave nodes behind that are too deep for what now stands before them.
 */
module NestedLevels {
  import opened FlatTree
  import opened Rearrange
  import opened Location
  import opened Pruning
  import opened MoveItems
  import opened MovedForest
  import opened NestedMoves

  // ----- the loop, without its variables

  /** The nodes left in place when the slices of roots[m..] have been cut out. */
  function Left(s: seq<Node>, roots: seq<nat>, m: nat): seq<Node>
    requires Picks(roots, |s|) && m <= |roots|
    decreases |roots| - m
  {
    if m == |roots| then s
    else
      var later, end := Left(s, roots, m + 1), SubtreeEnd(s, roots[m]);
      if end <= |later| then later[..roots[m]] + later[end..] else later
  }

  /** What is cut out for root number `m`: as many nodes as its subtree had. */
  function Slice(s: seq<Node>, roots: seq<nat>, m: nat): seq<Node>
    requires Picks(roots, |s|) && m < |roots|
  {
    var later, end := Left(s, roots, m + 1), SubtreeEnd(s, roots[m]);
    if end <= |later| then later[roots[m]..end] else []
  }

  /** The slices of roots[m..], in order. */
  function Slices(s: seq<Node>, roots: seq<nat>, m: nat): (slices: seq<seq<Node>>)
    requires Picks(roots, |s|) && m <= |roots|
    ensures |slices| == |roots| - m
    decreases |roots| - m
  {
    if m == |roots| then [] else [Slice(s, roots, m)] + Slices(s, roots, m + 1)
  }

  lemma {:induction false} SliceAt(s: seq<Node>, roots: seq<nat>, m: nat, k: nat)
    requires Picks(roots, |s|) && m <= k < |roots|
    ensures Slices(s, roots, m)[k - m] == Slice(s, roots, k)
    decreases k - m
  {
    hide Slice;
    if m < k { SliceAt(s, roots, m + 1, k); }
  }

  /** The slices one after the other, each with its root at `level`. */
  function Shifted(slices: seq<seq<Node>>, level: Level): seq<Node> {
    if slices == [] then [] else ShiftInPlace(slices[0], level) + Shifted(slices[1..], level)
  }

  /** The target as it stands after those cuts. */
  function TargetLeft(s: seq<Node>, roots: seq<nat>, m: nat, before: nat): nat
    requires Picks(roots, |s|) && m <= |roots|
    decreases |roots| - m
  {
    if m == |roots| then before
    else
      var b, end := TargetLeft(s, roots, m + 1, before), SubtreeEnd(s, roots[m]);
      if end <= b then b - (end - roots[m]) else b
  }

  function CutTo(s: seq<Node>, roots: seq<nat>, target: TargetPosition, m: nat): Cutting
    requires Picks(roots, |s|) && m <= |roots|
  {
    Cutting(Left(s, roots, m), Shifted(Slices(s, roots, m), target.level), TargetLeft(s, roots, m, target.before))
  }

  /** A slice that has its root and can be shifted. */
  ghost predicate SliceFits(slice: seq<Node>, level: Level) {
    slice != [] && ShiftFits(slice, level)
  }

  ghost predicate AllFit(slices: seq<seq<Node>>, level: Level) {
    forall k :: 0 <= k < |slices| ==> SliceFits(slices[k], level)
  }

  /** Later cuts leave everything up to a root as it was. */
  lemma {:induction false} LeftPrefix(s: seq<Node>, roots: seq<nat>, m: nat, i: nat)
    requires Picks(roots, |s|) && m <= |roots| && i < |s|
    requires m < |roots| ==> i < roots[m]
    ensures i < |Left(s, roots, m)| && Left(s, roots, m)[i] == s[i]
    decreases |roots| - m
  {
    if m < |roots| {
      assert m + 1 < |roots| ==> roots[m] < roots[m + 1];
      LeftPrefix(s, roots, m + 1, i);
    }
  }

  lemma {:induction false} ShiftedNext(s: seq<Node>, roots: seq<nat>, level: Level, m: nat)
    requires Picks(roots, |s|) && m < |roots|
    ensures Shifted(Slices(s, roots, m), level) ==
        ShiftInPlace(Slice(s, roots, m), level) + Shifted(Slices(s, roots, m + 1), level)
  {
    assert Slices(s, roots, m)[1..] == Slices(s, roots, m + 1) && Slices(s, roots, m)[0] == Slice(s, roots, m);
    hide Slice, ShiftInPlace;
  }

  /** Once the later slices are cut out, the target is strictly inside the subtree of root number `m`. */
  ghost predicate CircularAt(s: seq<Node>, roots: seq<nat>, target: TargetPosition, m: nat)
    requires Picks(roots, |s|) && m < |roots|
  {
    roots[m] < TargetLeft(s, roots, m + 1, target.before) < SubtreeEnd(s, roots[m])
  }

  /** The iteration for root number `m`, when the later ones have cut their slices out. */
  lemma {:induction false} CutOnce(s: seq<Node>, roots: seq<nat>, target: TargetPosition, m: nat)
    requires Picks(roots, |s|) && m < |roots|
    ensures CutSubtree(s, roots[m], target.level, CutTo(s, roots, target, m + 1)) ==
      if CircularAt(s, roots, target, m) then Stop(Rejected(CircularMove))
      else if SubtreeEnd(s, roots[m]) > |Left(s, roots, m + 1)| then Stop(Panicked)
      else if !ShiftFits(Slice(s, roots, m), target.level) then Stop(Rejected(InvalidLevel))
      else Continue(CutTo(s, roots, target, m))
  {
    assert roots[m] < |s|;
    hide SubtreeEnd, ShiftInPlace, ShiftFits, Shifted, Slices, Picks;
    ShiftedNext(s, roots, target.level, m);
  }

  lemma {:induction false} SliceNotEmpty(s: seq<Node>, roots: seq<nat>, m: nat)
    requires Picks(roots, |s|) && m < |roots| && SubtreeEnd(s, roots[m]) <= |Left(s, roots, m + 1)|
    ensures Slice(s, roots, m) != []
  {
    hide Left;
  }

  lemma {:induction false} CutFits(s: seq<Node>, roots: seq<nat>, target: TargetPosition, m: nat)
    requires Picks(roots, |s|) && m < |roots|
    requires CutSubtree(s, roots[m], target.level, CutTo(s, roots, target, m + 1)).Continue?
    ensures CutSubtree(s, roots[m], target.level, CutTo(s, roots, target, m + 1)) ==
        Continue(CutTo(s, roots, target, m))
    ensures SliceFits(Slice(s, roots, m), target.level)
  {
    CutOnce(s, roots, target, m);
    SliceNotEmpty(s, roots, m);
    hide CutSubtree, CutTo, Slice, ShiftFits, Left, SubtreeEnd, CircularAt;
  }

  ghost predicate FitUpTo(s: seq<Node>, roots: seq<nat>, level: Level, m: nat)
    requires Picks(roots, |s|) && m <= |roots|
  {
    forall k :: 0 <= k < m ==> SliceFits(Slice(s, roots, k), level)
  }

  lemma NoneToFit(s: seq<Node>, roots: seq<nat>, level: Level)
    requires Picks(roots, |s|)
    ensures FitUpTo(s, roots, level, 0)
  {
  }

  lemma FitOneMore(s: seq<Node>, roots: seq<nat>, level: Level, m: nat)
    requires Picks(roots, |s|) && 0 < m <= |roots|
    requires FitUpTo(s, roots, level, m - 1) && SliceFits(Slice(s, roots, m - 1), level)
    ensures FitUpTo(s, roots, level, m)
  {
    hide Slice, SliceFits;
  }

  lemma {:induction false} LoopCut(s: seq<Node>, roots: seq<nat>, target: TargetPosition, m: nat, t: seq<Node>)
    requires Picks(roots, |s|) && 0 < m <= |roots|
    requires MoveLoop(s, roots, target.level, m, CutTo(s, roots, target, m)) == Moved(t)
    ensures MoveLoop(s, roots, target.level, m - 1, CutTo(s, roots, target, m - 1)) == Moved(t)
    ensures SliceFits(Slice(s, roots, m - 1), target.level)
  {
    hide *;
    LoopContinues(s, roots, target.level, m, CutTo(s, roots, target, m), t);
    CutFits(s, roots, target, m - 1);
  }

  lemma {:induction false} LoopShape(s: seq<Node>, roots: seq<nat>, target: TargetPosition, m: nat, t: seq<Node>)
    requires Picks(roots, |s|) && m <= |roots|
    requires MoveLoop(s, roots, target.level, m, CutTo(s, roots, target, m)) == Moved(t)
    ensures Reinsert(target.level, CutTo(s, roots, target, 0)) == Moved(t)
    ensures FitUpTo(s, roots, target.level, m)
    decreases m
  {
    hide *;
    if m == 0 {
      NoneToFit(s, roots, target.level);
      LoopExits(s, roots, target.level, CutTo(s, roots, target, 0));
    } else {
      LoopCut(s, roots, target, m, t);
      LoopShape(s, roots, target, m - 1, t);
      FitOneMore(s, roots, target.level, m);
    }
  }

  lemma {:induction false} AllSlicesFit(s: seq<Node>, roots: seq<nat>, level: Level)
    requires Picks(roots, |s|) && FitUpTo(s, roots, level, |roots|)
    ensures AllFit(Slices(s, roots, 0), level)
  {
    hide Slice, SliceFits;
    var slices := Slices(s, roots, 0);
    forall k | 0 <= k < |slices| ensures SliceFits(slices[k], level) {
      SliceAt(s, roots, 0, k);
    }
  }

  lemma LoopExits(s: seq<Node>, roots: seq<nat>, level: Level, c: Cutting)
    ensures MoveLoop(s, roots, level, 0, c) == Reinsert(level, c)
  {
  }

  lemma {:induction false} LoopContinues(s: seq<Node>, roots: seq<nat>, level: Level, m: nat, c: Cutting, t: seq<Node>)
    requires 0 < m <= |roots| && MoveLoop(s, roots, level, m, c) == Moved(t)
    ensures CutSubtree(s, roots[m - 1], level, c).Continue?
    ensures MoveLoop(s, roots, level, m - 1, CutSubtree(s, roots[m - 1], level, c).cutting) == Moved(t)
  {
  }

  /** Any successful move: what was left in place, with the shifted slices spliced in. */
  lemma {:induction false} MovedShape(s: seq<Node>, indices: seq<nat>, target: TargetPosition, t: seq<Node>)
    requires forall i: nat :: i in indices ==> i < |s|
    requires MoveAll(s, indices, target) == Moved(t)
    ensures var roots := Sorted(indices, Bound(indices));
      && Picks(roots, |s|)
      && AllFit(Slices(s, roots, 0), target.level)
      && Reinsert(target.level, CutTo(s, roots, target, 0)) == Moved(t)
  {
    var roots := Sorted(indices, Bound(indices));
    SortedAncestorFree(s, indices);
    assert indices != [] ==> indices[|indices| - 1] in indices;
    assert CutTo(s, roots, target, |roots|) == Cutting(s, [], target.before);
    hide CutTo, SliceFits, MoveLoop, Reinsert, Sorted, Bound, Slice, FitUpTo, AllFit, Picks;
    LoopShape(s, roots, target, |roots|, t);
    AllSlicesFit(s, roots, target.level);
  }

  lemma ReinsertSplices(level: Level, c: Cutting, t: seq<Node>)
    requires Reinsert(level, c) == Moved(t)
    ensures c.before <= |c.result| && t == Splice(c.result, c.before, c.extracted)
    ensures CheckLocation(c.result, TargetPosition(c.before, level)).Fine?
  {
  }

  // ----- which moves panic

  /** How many nodes the subtrees of roots[m..] have, counted for each root by itself. */
  function SizeFrom(s: seq<Node>, roots: seq<nat>, m: nat): nat
    requires Picks(roots, |s|) && m <= |roots|
    decreases |roots| - m
  {
    if m == |roots| then 0 else SubtreeEnd(s, roots[m]) - roots[m] + SizeFrom(s, roots, m + 1)
  }

  /** The slice for root number `m` would run past what the later ones leave of the list. */
  predicate RunsPast(s: seq<Node>, roots: seq<nat>, m: nat)
    requires Picks(roots, |s|) && m < |roots|
  {
    SubtreeEnd(s, roots[m]) + SizeFrom(s, roots, m + 1) > |s|
  }

  ghost predicate Passes(s: seq<Node>, roots: seq<nat>, target: TargetPosition, m: nat)
    requires Picks(roots, |s|) && m < |roots|
  {
    !CircularAt(s, roots, target, m) && !RunsPast(s, roots, m) && ShiftFits(Slice(s, roots, m), target.level)
  }

  /** The loop, standing before `upTo`, gets to root number `m` and panics there. */
  ghost predicate PanicsAt(s: seq<Node>, roots: seq<nat>, target: TargetPosition, m: nat, upTo: nat)
    requires Picks(roots, |s|) && m < upTo <= |roots|
  {
    && !CircularAt(s, roots, target, m) && RunsPast(s, roots, m)
    && forall k :: m < k < upTo ==> Passes(s, roots, target, k)
  }

  lemma {:induction false} LeftSize(s: seq<Node>, roots: seq<nat>, m: nat)
    requires Picks(roots, |s|) && m < |roots| && |Left(s, roots, m + 1)| + SizeFrom(s, roots, m + 1) == |s|
    ensures RunsPast(s, roots, m) <==> SubtreeEnd(s, roots[m]) > |Left(s, roots, m + 1)|
    ensures !RunsPast(s, roots, m) ==> |Left(s, roots, m)| + SizeFrom(s, roots, m) == |s|
  {
  }

  lemma {:induction false} ReinsertNeverPanics(level: Level, c: Cutting)
    ensures Reinsert(level, c) != Panicked
  {
    hide Splice;
  }

  ghost predicate PanicsBelow(s: seq<Node>, roots: seq<nat>, target: TargetPosition, m: nat)
    requires Picks(roots, |s|) && m <= |roots|
  {
    exists j :: 0 <= j < m && PanicsAt(s, roots, target, j, m)
  }

  lemma {:induction false} PanicsBelowStep(s: seq<Node>, roots: seq<nat>, target: TargetPosition, m: nat)
    requires Picks(roots, |s|) && 0 < m <= |roots|
    ensures PanicsBelow(s, roots, target, m) <==>
      if Passes(s, roots, target, m - 1) then PanicsBelow(s, roots, target, m - 1)
      else !CircularAt(s, roots, target, m - 1) && RunsPast(s, roots, m - 1)
  {
    hide *;
    PassesIs(s, roots, target, m - 1);
    BelowIs(s, roots, target, m);
    BelowIs(s, roots, target, m - 1);
    forall j | 0 <= j < m
      ensures PanicsAt(s, roots, target, j, m) <==>
        if j == m - 1 then !CircularAt(s, roots, target, m - 1) && RunsPast(s, roots, m - 1)
        else Passes(s, roots, target, m - 1) && PanicsAt(s, roots, target, j, m - 1)
    {
      PanicsAtStep(s, roots, target, j, m);
    }
    if PanicsBelow(s, roots, target, m) {
      var j :| 0 <= j < m && PanicsAt(s, roots, target, j, m);
    }
    if PanicsBelow(s, roots, target, m - 1) {
      var j :| 0 <= j < m - 1 && PanicsAt(s, roots, target, j, m - 1);
      assert Passes(s, roots, target, m - 1) ==> PanicsAt(s, roots, target, j, m);
    }
    if !CircularAt(s, roots, target, m - 1) && RunsPast(s, roots, m - 1) {
      assert PanicsAt(s, roots, target, m - 1, m);
    }
  }

  lemma BelowIs(s: seq<Node>, roots: seq<nat>, target: TargetPosition, m: nat)
    requires Picks(roots, |s|) && m <= |roots|
    ensures PanicsBelow(s, roots, target, m) <==> exists j :: 0 <= j < m && PanicsAt(s, roots, target, j, m)
  {
    hide PanicsAt;
  }

  lemma {:induction false} PanicsAtStep(s: seq<Node>, roots: seq<nat>, target: TargetPosition, j: nat, m: nat)
    requires Picks(roots, |s|) && j < m <= |roots|
    ensures PanicsAt(s, roots, target, j, m) <==>
      if j == m - 1 then !CircularAt(s, roots, target, m - 1) && RunsPast(s, roots, m - 1)
      else Passes(s, roots, target, m - 1) && PanicsAt(s, roots, target, j, m - 1)
  {
    hide CircularAt, RunsPast, Passes, Picks;
  }

  lemma LoopIs(s: seq<Node>, roots: seq<nat>, level: Level, m: nat, c: Cutting)
    requires 0 < m <= |roots|
    ensures MoveLoop(s, roots, level, m, c) ==
      match CutSubtree(s, roots[m - 1], level, c)
      case Stop(outcome) => outcome
      case Continue(c') => MoveLoop(s, roots, level, m - 1, c')
  {
    hide CutSubtree;
  }

  lemma NothingBelow(s: seq<Node>, roots: seq<nat>, target: TargetPosition)
    requires Picks(roots, |s|)
    ensures !PanicsBelow(s, roots, target, 0)
  {
  }

  lemma PassesIs(s: seq<Node>, roots: seq<nat>, target: TargetPosition, m: nat)
    requires Picks(roots, |s|) && m < |roots|
    ensures Passes(s, roots, target, m) <==>
      !CircularAt(s, roots, target, m) && !RunsPast(s, roots, m) && ShiftFits(Slice(s, roots, m), target.level)
  {
  }

  lemma {:induction false} LoopPanics(s: seq<Node>, roots: seq<nat>, target: TargetPosition, m: nat)
    requires Picks(roots, |s|) && m <= |roots| && |Left(s, roots, m)| + SizeFrom(s, roots, m) == |s|
    ensures MoveLoop(s, roots, target.level, m, CutTo(s, roots, target, m)) == Panicked <==>
        PanicsBelow(s, roots, target, m)
    decreases m
  {
    hide *;
    if m == 0 {
      NothingBelow(s, roots, target);
      LoopExits(s, roots, target.level, CutTo(s, roots, target, 0));
      ReinsertNeverPanics(target.level, CutTo(s, roots, target, 0));
    } else {
      LoopIs(s, roots, target.level, m, CutTo(s, roots, target, m));
      CutOnce(s, roots, target, m - 1);
      LeftSize(s, roots, m - 1);
      PassesIs(s, roots, target, m - 1);
      PanicsBelowStep(s, roots, target, m);
      if Passes(s, roots, target, m - 1) { LoopPanics(s, roots, target, m - 1); }
    }
  }

  /**
   A move of valid indices panics exactly if it gets to a selected node whose subtree end, together with
   the sizes of all subtrees selected later, exceeds the list.
   */
  lemma {:induction false} PanicsExactly(s: seq<Node>, indices: seq<nat>, target: TargetPosition)
    requires forall i: nat :: i in indices ==> i < |s|
    ensures var roots := Sorted(indices, Bound(indices));
      && Picks(roots, |s|)
      && (MoveAll(s, indices, target) == Panicked <==> PanicsBelow(s, roots, target, |roots|))
  {
    var roots := Sorted(indices, Bound(indices));
    SortedAncestorFree(s, indices);
    assert indices != [] ==> indices[|indices| - 1] in indices;
    assert CutTo(s, roots, target, |roots|) == Cutting(s, [], target.before);
    hide CutTo, MoveLoop, Sorted, Bound, PanicsBelow, Picks;
    LoopPanics(s, roots, target, |roots|);
  }

  // ----- lists without jumps

  /** No node is more than one level deeper than the one before it. */
  ghost predicate Linked(nodes: seq<Node>) {
    forall i, j :: 0 <= i && j == i + 1 && j < |nodes| ==> nodes[j].level <= nodes[i].level + 1
  }

  lemma {:induction false} LinkedFromTop(nodes: seq<Node>)
    ensures WellFormed(nodes) <==> Linked(nodes) && (nodes != [] ==> nodes[0].level == 0)
  {
    if WellFormed(nodes) {
      forall i, j | 0 <= i && j == i + 1 && j < |nodes|
        ensures nodes[j].level <= nodes[i].level + 1
      {
        assert Climbs(nodes, j);
      }
      if nodes != [] { assert Climbs(nodes, 0); }
    }
    if Linked(nodes) && (nodes != [] ==> nodes[0].level == 0) {
      forall i: nat | i < |nodes| ensures Climbs(nodes, i) {
        if i > 0 { assert nodes[i].level <= nodes[i - 1].level + 1; }
      }
    }
  }

  /** `b` may follow `a`. */
  ghost predicate Joins(a: seq<Node>, b: seq<Node>) {
    a != [] && b != [] ==> b[0].level <= a[|a| - 1].level + 1
  }

  lemma {:induction false} LinkedConcat(a: seq<Node>, b: seq<Node>)
    ensures Linked(a + b) <==> Linked(a) && Linked(b) && Joins(a, b)
  {
    var all := a + b;
    if Linked(all) {
      forall i, j | 0 <= i && j == i + 1 && j < |a| ensures a[j].level <= a[i].level + 1 {
        assert all[j].level <= all[i].level + 1;
      }
      forall i, j | 0 <= i && j == i + 1 && j < |b| ensures b[j].level <= b[i].level + 1 {
        assert all[|a| + j].level <= all[|a| + i].level + 1;
      }
      if a != [] && b != [] { assert all[|a|].level <= all[|a| - 1].level + 1; }
    }
    if Linked(a) && Linked(b) && Joins(a, b) {
      forall i, j | 0 <= i && j == i + 1 && j < |all| ensures all[j].level <= all[i].level + 1 {
        if i >= |a| { assert b[j - |a|].level <= b[i - |a|].level + 1; }
      }
    }
  }

  lemma {:induction false} LinkedShift(nodes: seq<Node>, level: Level)
    requires nodes != [] && ShiftFits(nodes, level)
    ensures var t := ShiftInPlace(nodes, level);
      && t != [] && t[0].level == level
      && t[|t| - 1].level == level + nodes[|nodes| - 1].level - nodes[0].level
      && (Linked(t) <==> Linked(nodes))
  {
    var t := ShiftInPlace(nodes, level);
    forall k | 0 <= k < |nodes|
      ensures t[k].level == nodes[k].level + level - nodes[0].level
    {
      ShiftInPlaceNode(nodes, level, k);
    }
    hide ShiftInPlace, ShiftFits;
  }

  // ----- which successful moves keep the invariant

  /** How far below its root a slice ends; negative if foreign nodes end it further out. */
  function Overhang(slice: seq<Node>): int
    requires slice != []
  {
    slice[|slice| - 1].level - slice[0].level
  }

  /** No slice has a jump where something was cut out of it, and every next one may follow. */
  ghost predicate CleanSlices(slices: seq<seq<Node>>) {
    && (forall k :: 0 <= k < |slices| ==> slices[k] != [] && Linked(slices[k]))
    && (forall k :: 0 <= k < |slices| - 1 ==> Overhang(slices[k]) >= -1)
  }

  lemma {:induction false} CleanHead(slices: seq<seq<Node>>)
    requires slices != [] && forall k :: 0 <= k < |slices| ==> slices[k] != []
    ensures CleanSlices(slices) <==>
      && Linked(slices[0]) && CleanSlices(slices[1..]) && (|slices| > 1 ==> Overhang(slices[0]) >= -1)
  {
    var tail := slices[1..];
    assert forall k :: 0 <= k < |tail| ==> tail[k] == slices[k + 1];
    if CleanSlices(tail) && Linked(slices[0]) && (|slices| > 1 ==> Overhang(slices[0]) >= -1) {
      assert forall k :: 0 < k < |slices| ==> slices[k] == tail[k - 1];
    }
    hide Linked, Overhang;
  }

  lemma {:induction false} FitParts(slices: seq<seq<Node>>, level: Level)
    requires slices != [] && AllFit(slices, level)
    ensures SliceFits(slices[0], level) && AllFit(slices[1..], level)
    ensures forall k :: 0 <= k < |slices| ==> slices[k] != []
    ensures |slices| > 1 ==> slices[1..] != [] && slices[1..][|slices| - 2] == slices[|slices| - 1]
  {
    hide ShiftFits;
    assert forall k :: 0 <= k < |slices| ==> SliceFits(slices[k], level) ==> slices[k] != [];
  }

  lemma ShiftedHead(slices: seq<seq<Node>>, level: Level)
    requires slices != []
    ensures Shifted(slices, level) == ShiftInPlace(slices[0], level) + Shifted(slices[1..], level)
    ensures |slices| == 1 ==> Shifted(slices, level) == ShiftInPlace(slices[0], level)
  {
    hide ShiftInPlace;
    assert |slices| == 1 ==> slices[1..] == [];
  }

  /** A list that starts at `level` may follow a shifted slice that does not end too far out. */
  lemma JoinsShifted(first: seq<Node>, rest: seq<Node>, slice: seq<Node>, level: int)
    requires first != [] && rest != [] && slice != []
    requires first[|first| - 1].level == level + slice[|slice| - 1].level - slice[0].level && rest[0].level == level
    ensures Joins(first, rest) <==> Overhang(slice) >= -1
    ensures (first + rest)[0] == first[0] && (first + rest)[|first + rest| - 1] == rest[|rest| - 1]
  {
  }

  lemma CleanOne(slices: seq<seq<Node>>)
    requires |slices| == 1 && slices[0] != []
    ensures CleanSlices(slices) <==> Linked(slices[0])
  {
    hide Linked;
  }

  lemma {:induction false} ShiftedLinked(slices: seq<seq<Node>>, level: Level)
    requires slices != [] && AllFit(slices, level)
    ensures var block := Shifted(slices, level);
      && block != [] && block[0].level == level
      && slices[|slices| - 1] != []
      && block[|block| - 1].level == level + Overhang(slices[|slices| - 1])
      && (Linked(block) <==> CleanSlices(slices))
    decreases |slices|
  {
    hide *;
    FitParts(slices, level);
    OverhangIs(slices[0]);
    var first, rest := ShiftInPlace(slices[0], level), Shifted(slices[1..], level);
    FitsMeans(slices[0], level);
    LinkedShift(slices[0], level);
    ShiftedHead(slices, level);
    if |slices| == 1 {
      CleanOne(slices);
    } else {
      ShiftedLinked(slices[1..], level);
      LinkedConcat(first, rest);
      JoinsShifted(first, rest, slices[0], level);
      CleanHead(slices);
    }
  }

  lemma OverhangIs(slice: seq<Node>)
    requires slice != []
    ensures Overhang(slice) == slice[|slice| - 1].level - slice[0].level
  {
  }

  lemma FitsMeans(slice: seq<Node>, level: Level)
    requires SliceFits(slice, level)
    ensures slice != [] && ShiftFits(slice, level)
  {
  }

  /** No jump in what stays nor in the slices, and what stands behind the target may follow the last slice. */
  ghost predicate NoSeams(rest: seq<Node>, pos: nat, slices: seq<seq<Node>>, level: int) {
    && Linked(rest) && (pos > 0 && rest != [] ==> rest[0].level == 0)
    && CleanSlices(slices)
    && (slices != [] && pos < |rest| ==> rest[pos].level <= level + Overhang(slices[|slices| - 1]) + 1)
  }

  /**
   What a caller can check beforehand: the cuts leave no jump in what stays, nor in any slice; no slice
   but the last ends more than one level above its root; and the last one ends deep enough for what
   stands behind the target.
   */
  ghost predicate Seamless(s: seq<Node>, roots: seq<nat>, target: TargetPosition)
    requires Picks(roots, |s|)
  {
    NoSeams(Left(s, roots, 0), TargetLeft(s, roots, 0, target.before), Slices(s, roots, 0), target.level)
  }

  /** The level check fails at a jump, so a place it accepts is not one. */
  lemma {:induction false} AcceptedPlace(rest: seq<Node>, pos: nat, level: Level)
    requires pos <= |rest| && CheckLocation(rest, TargetPosition(pos, level)).Fine?
    ensures pos == 0 ==> level == 0
    ensures Linked(rest[..pos]) && Linked(rest[pos..]) && (pos > 0 ==> level <= rest[pos - 1].level + 1) <==>
        Linked(rest)
  {
    var a, b := rest[..pos], rest[pos..];
    LinkedConcat(a, b);
    assert a + b == rest;
    hide Linked;
  }

  lemma JoinsIn(rest: seq<Node>, pos: nat, block: seq<Node>, level: int)
    requires pos <= |rest| && block != [] && block[0].level == level
    ensures Joins(rest[..pos], block) <==> (pos > 0 ==> level <= rest[pos - 1].level + 1)
    ensures Joins(rest[..pos] + block, rest[pos..]) <==>
        (pos < |rest| ==> rest[pos].level <= block[|block| - 1].level + 1)
    ensures (rest[..pos] + block + rest[pos..])[0] == if pos > 0 then rest[0] else block[0]
  {
    var a := rest[..pos] + block;
    assert a[|a| - 1] == block[|block| - 1];
  }

  lemma {:induction false} SplicedLinked(rest: seq<Node>, pos: nat, block: seq<Node>, level: Level)
    requires pos <= |rest| && block != [] && block[0].level == level
    requires CheckLocation(rest, TargetPosition(pos, level)).Fine?
    ensures WellFormed(Splice(rest, pos, block)) <==>
      && Linked(rest) && (pos > 0 ==> rest[0].level == 0) && Linked(block)
      && (pos < |rest| ==> rest[pos].level <= block[|block| - 1].level + 1)
  {
    var a, b := rest[..pos], rest[pos..];
    assert Splice(rest, pos, block) == a + block + b;
    hide *;
    LinkedFromTop(a + block + b);
    LinkedConcat(a, block);
    LinkedConcat(a + block, b);
    JoinsIn(rest, pos, block, level);
    AcceptedPlace(rest, pos, level);
  }

  /** A successful move of valid indices keeps the level invariant exactly if its cuts are seamless. */
  lemma {:induction false} MoveKeepsLevelsExactly(s: seq<Node>, indices: seq<nat>, target: TargetPosition, t: seq<Node>)
    requires WellFormed(s) && forall i: nat :: i in indices ==> i < |s|
    requires MoveAll(s, indices, target) == Moved(t)
    ensures Picks(Sorted(indices, Bound(indices)), |s|)
    ensures WellFormed(t) <==> Seamless(s, Sorted(indices, Bound(indices)), target)
  {
    var roots := Sorted(indices, Bound(indices));
    MovedShape(s, indices, target, t);
    hide *;
    ShapeLevels(s, roots, target, t);
  }

  lemma {:induction false} SplicedSlices(rest: seq<Node>, pos: nat, slices: seq<seq<Node>>, level: Level)
    requires pos <= |rest| && slices != [] && AllFit(slices, level)
    requires CheckLocation(rest, TargetPosition(pos, level)).Fine?
    ensures WellFormed(Splice(rest, pos, Shifted(slices, level))) <==> NoSeams(rest, pos, slices, level)
  {
    hide Linked, Shifted, CheckLocation, Splice, WellFormed, CleanSlices, Overhang, AllFit;
    ShiftedLinked(slices, level);
    SplicedLinked(rest, pos, Shifted(slices, level), level);
  }

  lemma {:induction false} NoCuts(s: seq<Node>, roots: seq<nat>, target: TargetPosition)
    requires WellFormed(s) && Picks(roots, |s|) && roots == []
    ensures CutTo(s, roots, target, 0) == Cutting(s, [], target.before)
    ensures Seamless(s, roots, target)
  {
    LinkedFromTop(s);
  }

  lemma {:induction false} ShapeLevels(s: seq<Node>, roots: seq<nat>, target: TargetPosition, t: seq<Node>)
    requires WellFormed(s) && Picks(roots, |s|) && AllFit(Slices(s, roots, 0), target.level)
    requires Reinsert(target.level, CutTo(s, roots, target, 0)) == Moved(t)
    ensures WellFormed(t) <==> Seamless(s, roots, target)
  {
    ReinsertSplices(target.level, CutTo(s, roots, target, 0), t);
    if roots == [] {
      NoCuts(s, roots, target);
      assert t == s;
    } else {
      hide NoSeams, AllFit, Shifted, CheckLocation, Splice, WellFormed, Left, Slice, Picks, TargetLeft;
      SplicedSlices(Left(s, roots, 0), TargetLeft(s, roots, 0, target.before), Slices(s, roots, 0), target.level);
    }
  }

  /** Without nesting all cuts are seamless. */
  lemma {:induction false} FreeIsSeamless(s: seq<Node>, indices: seq<nat>, target: TargetPosition, t: seq<Node>)
    requires WellFormed(s) && forall i: nat :: i in indices ==> i < |s|
    requires AncestorFree(s, Sorted(indices, Bound(indices)))
    requires MoveAll(s, indices, target) == Moved(t)
    ensures WellFormed(t)
  {
    hide *;
    MoveAllKeepsStructure(s, indices, target, t);
  }

  // ----- a successful move that breaks the invariant

  /** Two roots with a child each. */
  function TwoPairs(): seq<Node> {
    [Node(0, 0, true, false), Node(1, 1, true, false), Node(2, 0, true, false), Node(3, 1, true, false)]
  }

  lemma {:induction false} TwoPairsSteps()
    ensures var s := TwoPairs();
      && CutSubtree(s, 1, 0, Cutting(s, [], 4)) == Continue(Cutting([s[0], s[2], s[3]], [s[1].(level := 0)], 3))
      && CutSubtree(s, 0, 0, Cutting([s[0], s[2], s[3]], [s[1].(level := 0)], 3))
         == Continue(Cutting([s[3]], [s[0], s[2], s[1].(level := 0)], 1))
  {
    var s := TwoPairs();
    assert SubtreeEnd(s, 1) == 2 && SubtreeEnd(s, 0) == 2;
  }

  /** Moving the first root and its child to the end takes the second root along and leaves its child on top. */
  lemma {:induction false} InvariantLost()
    ensures var s := TwoPairs();
      && WellFormed(s)
      && MoveAll(s, [0, 1], TargetPosition(4, 0)) == Moved([s[3], s[0], s[2], s[1].(level := 0)])
      && !WellFormed([s[3], s[0], s[2], s[1].(level := 0)])
  {
    var s := TwoPairs();
    ExampleRoots();
    TwoPairsSteps();
    var c1, c2 := Cutting([s[0], s[2], s[3]], [s[1].(level := 0)], 3),
      Cutting([s[3]], [s[0], s[2], s[1].(level := 0)], 1);
    var t := [s[3], s[0], s[2], s[1].(level := 0)];
    assert !Climbs(t, 0);
    assert Reinsert(0, c2) == Moved(t);
    hide CutSubtree, Sorted, Bound;
    LoopExits(s, [0, 1], 0, c2);
    hide Reinsert, MoveLoop;
    LoopStep(s, [0, 1], 0, 1, c1, c2);
    LoopStep(s, [0, 1], 0, 2, Cutting(s, [], 4), c1);
  }
}
