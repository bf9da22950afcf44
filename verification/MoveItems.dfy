/**
 Moving several subtrees to one place.  `MoveAll` runs the loop of the program, back to front over
 the selected indices, panics included; the lemmas say what a selection without nested nodes gets.
 */
module MoveItems {
  import opened FlatTree
  import opened Rearrange
  import opened Location
  import opened Pruning

  // ----- shifting a subtree

  predicate LevelOk(x: int) { 0 <= x < 256 }

  /** Position of the first node whose level leaves the byte range when moved by `delta`. */
  function FirstUnfit(nodes: seq<Node>, delta: int): (n: nat)
    ensures n <= |nodes|
    ensures forall k :: 0 <= k < n ==> LevelOk(nodes[k].level + delta)
    ensures n < |nodes| ==> !LevelOk(nodes[n].level + delta)
  {
    if nodes == [] || !LevelOk(nodes[0].level + delta) then 0 else 1 + FirstUnfit(nodes[1..], delta)
  }

  predicate ShiftFits(nodes: seq<Node>, level: Level) {
    nodes == [] || FirstUnfit(nodes, level - nodes[0].level) == |nodes|
  }

  /** What the in-place shift leaves behind: it stops at the first node that does not fit. */
  function ShiftInPlace(nodes: seq<Node>, level: Level): (t: seq<Node>)
    ensures |t| == |nodes|
  {
    if nodes == [] then [] else
      var delta := level - nodes[0].level;
      var n := FirstUnfit(nodes, delta);
      Shift(nodes[..n], delta) + nodes[n..]
  }

  lemma ShiftInPlaceNode(nodes: seq<Node>, level: Level, k: nat)
    requires k < |nodes|
    ensures var delta := level - nodes[0].level;
            ShiftInPlace(nodes, level)[k] ==
              if k < FirstUnfit(nodes, delta) then nodes[k].(level := nodes[k].level + delta) else nodes[k]
  {
  }

  /** A shift fits exactly if it takes no node below level 0 or beyond level 255. */
  lemma {:induction false} ShiftFitsExactly(nodes: seq<Node>, level: Level)
    requires nodes != []
    ensures ShiftFits(nodes, level) <==>
      forall k :: 0 <= k < |nodes| ==> 0 <= nodes[k].level + level - nodes[0].level <= 255
  {
    var n := FirstUnfit(nodes, level - nodes[0].level);
    assert n < |nodes| ==> !LevelOk(nodes[n].level + (level - nodes[0].level));
  }

  // ----- the loop

  datatype Outcome = Moved(items: seq<Node>) | Rejected(error: MoveError) | Panicked

  /** The local variables of the loop: the list being emptied, the nodes taken out, the target. */
  datatype Cutting = Cutting(result: seq<Node>, extracted: seq<Node>, before: nat)

  datatype CutResult = Continue(cutting: Cutting) | Stop(outcome: Outcome)

  /** One iteration: the subtree of `start` is cut out and put in front of those found earlier. */
  function CutSubtree(s: seq<Node>, start: nat, level: Level, c: Cutting): CutResult {
    if start >= |s| then Stop(Panicked)
    else
      var end := SubtreeEnd(s, start);
      if start + 1 <= c.before < end then Stop(Rejected(CircularMove))
      else
        var before := if start < c.before then c.before - (end - start) else c.before;
        if end > |c.result| then Stop(Panicked)
        else
          var sub := c.result[start..end];
          if !ShiftFits(sub, level) then Stop(Rejected(InvalidLevel))
          else Continue(Cutting(c.result[..start] + c.result[end..], ShiftInPlace(sub, level) + c.extracted, before))
  }

  /** After the loop: the level check, then the splice. */
  function Reinsert(level: Level, c: Cutting): Outcome {
    match CheckLocation(c.result, TargetPosition(c.before, level))
    case Failed(e) => Rejected(e)
    case Fine => Moved(Splice(c.result, c.before, c.extracted))
  }

  /** The iterations for `roots[..m]`, last one first, and what follows them. */
  function MoveLoop(s: seq<Node>, roots: seq<nat>, level: Level, m: nat, c: Cutting): Outcome
    requires m <= |roots|
  {
    if m == 0 then Reinsert(level, c)
    else
      match CutSubtree(s, roots[m - 1], level, c)
      case Stop(outcome) => outcome
      case Continue(c') => MoveLoop(s, roots, level, m - 1, c')
  }

  /** The distinct members of `indices` below `n`, in increasing order. */
  function Sorted(indices: seq<nat>, n: nat): (r: seq<nat>)
    ensures Picks(r, n)
    ensures forall i: nat :: i in r <==> i in indices && i < n
  {
    if n == 0 then []
    else if n - 1 in indices then Sorted(indices, n - 1) + [n - 1]
    else Sorted(indices, n - 1)
  }

  function Bound(indices: seq<nat>): (n: nat)
    ensures forall i: nat :: i in indices ==> i < n
  {
    if indices == [] then 0 else
      var rest := Bound(indices[1..]);
      assert forall i: nat :: i in indices ==> i == indices[0] || i in indices[1..];
      if indices[0] < rest then rest else indices[0] + 1
  }

  function MoveAll(s: seq<Node>, indices: seq<nat>, target: TargetPosition): Outcome {
    if indices != [] && indices[|indices| - 1] >= |s| then Rejected(InvalidIndex)
    else
      var roots := Sorted(indices, Bound(indices));
      MoveLoop(s, roots, target.level, |roots|, Cutting(s, [], target.before))
  }

  // ----- selections in which no selected node is below another

  ghost predicate AncestorFree(s: seq<Node>, roots: seq<nat>) {
    && Picks(roots, |s|)
    && forall j, k :: 0 <= j < k < |roots| ==> SubtreeEnd(s, roots[j]) <= roots[k]
  }

  /** ... that is, none is a descendant of another. */
  lemma AncestorFreeMeaning(s: seq<Node>, roots: seq<nat>)
    requires Picks(roots, |s|)
    ensures AncestorFree(s, roots) <==> forall j, k :: 0 <= j < k < |roots| ==> !InSubtree(s, roots[j], roots[k])
  {
    forall j, k | 0 <= j < k < |roots|
      ensures SubtreeEnd(s, roots[j]) <= roots[k] <==> !InSubtree(s, roots[j], roots[k])
    {
      SubtreeIsRange(s, roots[j], roots[k]);
    }
  }

  lemma AncestorFreeEnds(s: seq<Node>, roots: seq<nat>, j: nat, k: nat)
    requires AncestorFree(s, roots) && j < k < |roots|
    ensures SubtreeEnd(s, roots[j]) <= roots[k]
  {
  }

  ghost function OneOf(roots: seq<nat>): nat -> bool {
    (a: nat) => a in roots
  }

  ghost predicate StrictlyInside(s: seq<Node>, roots: seq<nat>, before: nat)
    requires Picks(roots, |s|)
  {
    exists k :: 0 <= k < |roots| && roots[k] < before < SubtreeEnd(s, roots[k])
  }

  function Subtree(s: seq<Node>, i: nat): seq<Node>
    requires i < |s|
  {
    s[i..SubtreeEnd(s, i)]
  }

  ghost predicate AllShiftsFit(s: seq<Node>, roots: seq<nat>, level: Level)
    requires Picks(roots, |s|)
  {
    forall k :: 0 <= k < |roots| ==> ShiftFits(Subtree(s, roots[k]), level)
  }

  // ----- what remains when the subtrees of roots[m..] are cut out of s[c..]

  ghost predicate Between(s: seq<Node>, roots: seq<nat>, c: nat, m: nat)
    requires Picks(roots, |s|)
  {
    && m <= |roots| && c <= |s|
    && (m < |roots| ==> c <= roots[m])
    && (m > 0 ==> SubtreeEnd(s, roots[m - 1]) <= c)
  }

  ghost function Rest(s: seq<Node>, roots: seq<nat>, c: nat, m: nat): seq<Node>
    requires AncestorFree(s, roots) && m <= |roots| && c <= |s| && (m < |roots| ==> c <= roots[m])
    decreases |roots| - m
  {
    if m == |roots| then s[c..]
    else
      if m + 1 < |roots| then
        AncestorFreeEnds(s, roots, m, m + 1);
        s[c..roots[m]] + Rest(s, roots, SubtreeEnd(s, roots[m]), m + 1)
      else
        s[c..roots[m]] + Rest(s, roots, SubtreeEnd(s, roots[m]), m + 1)
  }

  lemma {:induction false} RestSplit(s: seq<Node>, roots: seq<nat>, c: nat, e: nat, m: nat)
    requires AncestorFree(s, roots) && m <= |roots| && c <= e <= |s| && (m < |roots| ==> e <= roots[m])
    ensures Rest(s, roots, c, m) == s[c..e] + Rest(s, roots, e, m)
  {
    if m < |roots| {
      assert s[c..roots[m]] == s[c..e] + s[e..roots[m]];
    }
  }

  /** Nothing between the subtrees is covered, everything inside them is. */
  lemma CoveredByRoots(s: seq<Node>, roots: seq<nat>, c: nat, m: nat, i: nat)
    requires AncestorFree(s, roots) && Between(s, roots, c, m) && c <= i
    ensures m < |roots| && i < roots[m] ==> !Covered(s, OneOf(roots), i)
    ensures m == |roots| ==> !Covered(s, OneOf(roots), i)
    ensures m < |roots| && roots[m] <= i < SubtreeEnd(s, roots[m]) ==> Covered(s, OneOf(roots), i)
  {
    if m < |roots| {
      SubtreeIsRange(s, roots[m], i);
      assert OneOf(roots)(roots[m]);
    }
    forall k: nat | k < m
      ensures !InSubtree(s, roots[k], i)
    {
      SubtreeIsRange(s, roots[k], i);
      if k < m - 1 { AncestorFreeEnds(s, roots, k, m - 1); }
    }
  }

  /** The same, for every node from `c` on, as the two selection rules see it. */
  lemma CoveredRanges(s: seq<Node>, roots: seq<nat>, c: nat, m: nat)
    requires AncestorFree(s, roots) && Between(s, roots, c, m)
    ensures forall i: nat :: c <= i && (m < |roots| ==> i < roots[m]) ==>
        Spared(s, OneOf(roots))(i) && !Lost(s, OneOf(roots))(i)
    ensures m < |roots| ==>
              forall i: nat :: roots[m] <= i < SubtreeEnd(s, roots[m]) ==>
                !Spared(s, OneOf(roots))(i) && Lost(s, OneOf(roots))(i)
  {
    hide Covered, SubtreeEnd;
    forall i: nat | c <= i
      ensures (m < |roots| ==> i < roots[m]) ==> !Covered(s, OneOf(roots), i)
      ensures m < |roots| && roots[m] <= i < SubtreeEnd(s, roots[m]) ==> Covered(s, OneOf(roots), i)
    {
      CoveredByRoots(s, roots, c, m, i);
    }
  }

  lemma {:induction false} TakenRest(s: seq<Node>, roots: seq<nat>, c: nat, m: nat)
    requires AncestorFree(s, roots) && Between(s, roots, c, m)
    ensures Taken(s, Spared(s, OneOf(roots)), |s|) == Taken(s, Spared(s, OneOf(roots)), c) + Rest(s, roots, c, m)
    decreases |roots| - m
  {
    hide Covered, PositionsWhere, SubtreeEnd, Spared, OneOf;
    var keep := Spared(s, OneOf(roots));
    CoveredRanges(s, roots, c, m);
    if m == |roots| {
      TakeRange(s, keep, c, |s|);
      assert s[c..|s|] == s[c..];
    } else {
      var r, e := roots[m], SubtreeEnd(s, roots[m]);
      TakeRange(s, keep, c, r);
      assert Taken(s, keep, e) == Taken(s, keep, r) by { SkipRange(s, keep, r, e); }
      TakenRest(s, roots, e, m + 1);
      Associate(Taken(s, keep, c), s[c..r], Rest(s, roots, e, m + 1));
    }
  }

  lemma Associate<T>(a: seq<T>, b: seq<T>, c: seq<T>)
    ensures (a + b) + c == a + (b + c)
  {
  }

  // ----- where the target ends up among the nodes that stay

  /** Number of nodes of the subtrees roots[m..] that start before `before`. */
  function RemovedBefore(s: seq<Node>, roots: seq<nat>, m: nat, before: nat): (n: nat)
    requires m <= |roots| && forall k :: 0 <= k < |roots| ==> roots[k] < |s|
    decreases |roots| - m
  {
    if m == |roots| || roots[m] >= before then 0
    else SubtreeEnd(s, roots[m]) - roots[m] + RemovedBefore(s, roots, m + 1, before)
  }

  ghost predicate NotInside(s: seq<Node>, roots: seq<nat>, m: nat, before: nat)
    requires Picks(roots, |s|)
  {
    forall k :: m <= k < |roots| ==> !(roots[k] < before < SubtreeEnd(s, roots[k]))
  }

  lemma {:induction false} RemovedBound(s: seq<Node>, roots: seq<nat>, m: nat, before: nat)
    requires AncestorFree(s, roots) && m < |roots| && NotInside(s, roots, m, before) && roots[m] < before
    ensures before - RemovedBefore(s, roots, m, before) >= roots[m]
    decreases |roots| - m
  {
    if m + 1 < |roots| && roots[m + 1] < before {
      AncestorFreeEnds(s, roots, m, m + 1);
      RemovedBound(s, roots, m + 1, before);
    }
  }

  /** Cutting out later subtrees does not change how the target compares to earlier ones. */
  lemma {:induction false} TargetStaysPut(s: seq<Node>, roots: seq<nat>, m: nat, before: nat)
    requires AncestorFree(s, roots) && 0 < m <= |roots| && NotInside(s, roots, m, before)
    ensures var b := before - RemovedBefore(s, roots, m, before);
            var r, end := roots[m - 1], SubtreeEnd(s, roots[m - 1]);
            b >= 0 && (r < b <==> r < before) && (end <= b <==> end <= before)
  {
    if m < |roots| && roots[m] < before {
      RemovedBound(s, roots, m, before);
      AncestorFreeEnds(s, roots, m - 1, m);
    }
  }

  lemma {:induction false} TakenCount(s: seq<Node>, roots: seq<nat>, c: nat, m: nat, before: nat)
    requires AncestorFree(s, roots) && Between(s, roots, c, m) && c <= before <= |s| && NotInside(s, roots, m, before)
    ensures |PositionsWhere(before, Spared(s, OneOf(roots)))| ==
            |PositionsWhere(c, Spared(s, OneOf(roots)))| + before - c - RemovedBefore(s, roots, m, before)
    decreases |roots| - m
  {
    hide Covered, PositionsWhere, SubtreeEnd, Spared, OneOf;
    var keep := Spared(s, OneOf(roots));
    CoveredRanges(s, roots, c, m);
    if m == |roots| || before <= roots[m] {
      CountRange(keep, c, before);
    } else {
      var r, e := roots[m], SubtreeEnd(s, roots[m]);
      CountRange(keep, c, r);
      SkipRange(s, keep, r, e);
      TakenCount(s, roots, e, m + 1, before);
    }
  }

  lemma {:induction false} CountRange(keep: nat -> bool, lo: nat, hi: nat)
    requires lo <= hi && forall i: nat :: lo <= i < hi ==> keep(i)
    ensures |PositionsWhere(hi, keep)| == |PositionsWhere(lo, keep)| + hi - lo
  {
    if lo < hi { CountRange(keep, lo, hi - 1); }
  }

  /** All roots lie before the end, so a target beyond the end sees all subtrees removed. */
  lemma {:induction false} RemovedBeyondEnd(s: seq<Node>, roots: seq<nat>, m: nat, before: nat)
    requires Picks(roots, |s|) && m <= |roots| && before >= |s|
    ensures RemovedBefore(s, roots, m, before) == RemovedBefore(s, roots, m, |s|)
    decreases |roots| - m
  {
    if m < |roots| { RemovedBeyondEnd(s, roots, m + 1, before); }
  }

  // ----- the verdict on a selection without nested nodes

  ghost function Kept(s: seq<Node>, roots: seq<nat>): seq<Node> {
    Select(s, Uncovered(s, OneOf(roots)))
  }

  /** How many of the unmoved nodes are stored before the target. */
  ghost function KeptBefore(s: seq<Node>, roots: seq<nat>, before: nat): (pos: nat)
  {
    |PositionsWhere(before, Spared(s, OneOf(roots)))|
  }

  /** The moved subtrees in their original order, each with its root at `level`. */
  function Extracted(s: seq<Node>, roots: seq<nat>, level: Level, m: nat): seq<Node>
    requires m <= |roots| && forall k :: 0 <= k < |roots| ==> roots[k] < |s|
    decreases |roots| - m
  {
    if m == |roots| then []
    else ShiftInPlace(Subtree(s, roots[m]), level) + Extracted(s, roots, level, m + 1)
  }

  /** The block goes exactly between the unmoved nodes before the target and those from the target on. */
  lemma {:induction false} TargetAmongKept(s: seq<Node>, roots: seq<nat>, before: nat)
    requires before <= |s|
    ensures var kept, pos := Uncovered(s, OneOf(roots)), KeptBefore(s, roots, before);
      pos <= |kept| && forall k :: 0 <= k < |kept| ==> (k < pos <==> kept[k] < before)
  {
    PositionsSplit(|s|, Spared(s, OneOf(roots)), before);
  }

  lemma KeptBeforeFits(s: seq<Node>, roots: seq<nat>, before: nat)
    requires before <= |s|
    ensures KeptBefore(s, roots, before) <= |Kept(s, roots)|
  {
    PositionsSplit(|s|, Spared(s, OneOf(roots)), before);
  }

  ghost function FinalVerdict(s: seq<Node>, roots: seq<nat>, target: TargetPosition): Outcome
    requires AncestorFree(s, roots)
  {
    if target.before > |s| then Rejected(InvalidIndex)
    else
      var kept, pos := Kept(s, roots), KeptBefore(s, roots, target.before);
      KeptBeforeFits(s, roots, target.before);
      if Fits(kept, pos, target.level) then Moved(Splice(kept, pos, Extracted(s, roots, target.level, 0)))
      else Rejected(InvalidLevel)
  }

  /** The selected subtrees are examined last one first; the first obstacle found decides. */
  ghost function Verdict(s: seq<Node>, roots: seq<nat>, target: TargetPosition, m: nat): Outcome
    requires AncestorFree(s, roots) && m <= |roots|
  {
    if m == 0 then FinalVerdict(s, roots, target)
    else if roots[m - 1] < target.before < SubtreeEnd(s, roots[m - 1]) then Rejected(CircularMove)
    else if !ShiftFits(Subtree(s, roots[m - 1]), target.level) then Rejected(InvalidLevel)
    else Verdict(s, roots, target, m - 1)
  }

  lemma {:induction false} KeptIsRest(s: seq<Node>, roots: seq<nat>)
    requires AncestorFree(s, roots)
    ensures Kept(s, roots) == Rest(s, roots, 0, 0)
  {
    TakenRest(s, roots, 0, 0);
    assert Taken(s, Spared(s, OneOf(roots)), 0) == [];
  }

  /** The decremented target counts the unmoved nodes before it, or still lies beyond the end. */
  lemma {:induction false} FinalTarget(s: seq<Node>, roots: seq<nat>, before: nat)
    requires AncestorFree(s, roots) && NotInside(s, roots, 0, before)
    ensures var b := before - RemovedBefore(s, roots, 0, before);
            if before <= |s| then b == KeptBefore(s, roots, before) else b > |Kept(s, roots)|
  {
    TakenCount(s, roots, 0, 0, |s|);
    if before <= |s| {
      TakenCount(s, roots, 0, 0, before);
    } else {
      RemovedBeyondEnd(s, roots, 0, before);
    }
  }

  /** The loop variables once the subtrees of roots[m..] are cut out. */
  ghost function CutFrom(s: seq<Node>, roots: seq<nat>, target: TargetPosition, m: nat): Cutting
    requires AncestorFree(s, roots) && m <= |roots|
    requires RemovedBefore(s, roots, m, target.before) <= target.before
  {
    Cutting(Rest(s, roots, 0, m), Extracted(s, roots, target.level, m),
      target.before - RemovedBefore(s, roots, m, target.before))
  }

  lemma KeptWellFormed(s: seq<Node>, roots: seq<nat>)
    requires WellFormed(s)
    ensures WellFormed(Kept(s, roots))
  {
    PruningKeepsStructure(s, OneOf(roots));
  }

  lemma {:induction false} ReinsertMeaning(level: Level, c: Cutting)
    requires WellFormed(c.result)
    ensures Reinsert(level, c) ==
              if c.before > |c.result| then Rejected(InvalidIndex)
              else if Fits(c.result, c.before, level) then Moved(Splice(c.result, c.before, c.extracted))
              else Rejected(InvalidLevel)
  {
    CheckLocationFits(c.result, TargetPosition(c.before, level));
  }

  lemma {:induction false} FinalCut(s: seq<Node>, roots: seq<nat>, target: TargetPosition)
    requires AncestorFree(s, roots) && NotInside(s, roots, 0, target.before)
    requires RemovedBefore(s, roots, 0, target.before) <= target.before
    ensures var c := CutFrom(s, roots, target, 0);
            && c.result == Kept(s, roots) && c.extracted == Extracted(s, roots, target.level, 0)
            && (if target.before <= |s| then c.before == KeptBefore(s, roots, target.before) <= |c.result|
              else c.before > |c.result|)
  {
    KeptIsRest(s, roots);
    FinalTarget(s, roots, target.before);
    if target.before <= |s| { KeptBeforeFits(s, roots, target.before); }
  }

  lemma {:induction false} ReinsertVerdict(s: seq<Node>, roots: seq<nat>, target: TargetPosition)
    requires WellFormed(s) && AncestorFree(s, roots) && NotInside(s, roots, 0, target.before)
    requires RemovedBefore(s, roots, 0, target.before) <= target.before
    ensures Reinsert(target.level, CutFrom(s, roots, target, 0)) == FinalVerdict(s, roots, target)
  {
    FinalCut(s, roots, target);
    KeptWellFormed(s, roots);
    ReinsertMeaning(target.level, CutFrom(s, roots, target, 0));
  }

  /** One iteration cuts subtree `m - 1` out of the list and puts it in front of the others. */
  lemma {:induction false} CutOut(s: seq<Node>, roots: seq<nat>, m: nat)
    requires AncestorFree(s, roots) && 0 < m <= |roots|
    ensures var start, end := roots[m - 1], SubtreeEnd(s, roots[m - 1]);
            var result := Rest(s, roots, 0, m);
            && end <= |result| && result[start..end] == Subtree(s, start)
            && result[..start] + result[end..] == Rest(s, roots, 0, m - 1)
  {
    hide SubtreeEnd;
    var start, end := roots[m - 1], SubtreeEnd(s, roots[m - 1]);
    if m < |roots| { AncestorFreeEnds(s, roots, m - 1, m); }
    RestSplit(s, roots, 0, end, m);
    assert s[0..end] == s[..end];
    assert s[..end][..start] == s[0..start];
  }

  lemma {:induction false} CutFromStep(s: seq<Node>, roots: seq<nat>, target: TargetPosition, m: nat)
    requires AncestorFree(s, roots) && 0 < m <= |roots| && NotInside(s, roots, m, target.before)
    requires RemovedBefore(s, roots, m, target.before) <= target.before
    ensures CutSubtree(s, roots[m - 1], target.level, CutFrom(s, roots, target, m)) ==
              if roots[m - 1] < target.before < SubtreeEnd(s, roots[m - 1]) then Stop(Rejected(CircularMove))
              else if !ShiftFits(Subtree(s, roots[m - 1]), target.level) then Stop(Rejected(InvalidLevel))
              else (NextTarget(s, roots, m, target.before); Continue(CutFrom(s, roots, target, m - 1)))
  {
    NextTarget(s, roots, m, target.before);
    CutOut(s, roots, m);
    ExtractedStep(s, roots, target.level, m);
  }

  lemma {:induction false} LoopVerdict(s: seq<Node>, roots: seq<nat>, target: TargetPosition, m: nat)
    requires WellFormed(s) && AncestorFree(s, roots) && m <= |roots| && NotInside(s, roots, m, target.before)
    requires RemovedBefore(s, roots, m, target.before) <= target.before
    ensures MoveLoop(s, roots, target.level, m, CutFrom(s, roots, target, m)) == Verdict(s, roots, target, m)
  {
    hide Reinsert, CutSubtree, FinalVerdict, CutFrom, SubtreeEnd, ShiftFits;
    if m == 0 {
      ReinsertVerdict(s, roots, target);
    } else {
      CutFromStep(s, roots, target, m);
      if !(roots[m - 1] < target.before < SubtreeEnd(s, roots[m - 1])) {
        NextTarget(s, roots, m, target.before);
        LoopVerdict(s, roots, target, m - 1);
      }
    }
  }

  lemma ExtractedStep(s: seq<Node>, roots: seq<nat>, level: Level, m: nat)
    requires Picks(roots, |s|) && 0 < m <= |roots|
    ensures Extracted(s, roots, level, m - 1) ==
        ShiftInPlace(Subtree(s, roots[m - 1]), level) + Extracted(s, roots, level, m)
  {
  }

  lemma {:induction false} NextTarget(s: seq<Node>, roots: seq<nat>, m: nat, before: nat)
    requires AncestorFree(s, roots) && 0 < m <= |roots| && NotInside(s, roots, m, before)
    ensures var start, end := roots[m - 1], SubtreeEnd(s, roots[m - 1]);
            var b := before - RemovedBefore(s, roots, m, before);
            && b >= 0 && (start < b <==> start < before) && (start < b < end <==> start < before < end)
            && (!(start < before < end) ==>
                  && RemovedBefore(s, roots, m - 1, before) <= before
                  && (if start < before then b - (end - start) else b) ==
                    before - RemovedBefore(s, roots, m - 1, before))
  {
    TargetStaysPut(s, roots, m, before);
    if roots[m - 1] >= before { NothingRemoved(s, roots, m, before); }
  }

  lemma NothingRemoved(s: seq<Node>, roots: seq<nat>, m: nat, before: nat)
    requires Picks(roots, |s|) && 0 < m <= |roots| && roots[m - 1] >= before
    ensures RemovedBefore(s, roots, m, before) == 0
  {
  }

  // ----- main results

  lemma SortedAncestorFree(s: seq<Node>, indices: seq<nat>)
    requires forall i: nat :: i in indices ==> i < |s|
    ensures Picks(Sorted(indices, Bound(indices)), |s|)
  {
    forall k | 0 <= k < |Sorted(indices, Bound(indices))|
      ensures Sorted(indices, Bound(indices))[k] < |s|
    {
      assert Sorted(indices, Bound(indices))[k] in indices;
    }
  }

  /** For valid indices without nesting the program neither panics nor does anything but the verdict. */
  lemma {:induction false} MoveAllVerdict(s: seq<Node>, indices: seq<nat>, target: TargetPosition)
    requires WellFormed(s) && forall i: nat :: i in indices ==> i < |s|
    requires AncestorFree(s, Sorted(indices, Bound(indices)))
    ensures var roots := Sorted(indices, Bound(indices));
            MoveAll(s, indices, target) == Verdict(s, roots, target, |roots|)
  {
    var roots := Sorted(indices, Bound(indices));
    assert indices != [] ==> indices[|indices| - 1] in indices;
    assert CutFrom(s, roots, target, |roots|) == Cutting(s, [], target.before);
    LoopVerdict(s, roots, target, |roots|);
  }

  /** The target lies strictly inside a selected subtree, and all selected subtrees behind that one can be shifted. */
  ghost predicate CircularFirst(s: seq<Node>, roots: seq<nat>, target: TargetPosition)
    requires Picks(roots, |s|)
  {
    exists k :: 0 <= k < |roots| && HitAt(s, roots, target, k)
  }

  ghost predicate HitAt(s: seq<Node>, roots: seq<nat>, target: TargetPosition, k: nat)
    requires Picks(roots, |s|) && k < |roots|
  {
    && roots[k] < target.before < SubtreeEnd(s, roots[k])
    && forall j :: k < j < |roots| ==> ShiftFits(Subtree(s, roots[j]), target.level)
  }

  /** When a move succeeds, what each refusal means, and what the new list is. */
  lemma {:induction false} VerdictMeaning(s: seq<Node>, roots: seq<nat>, target: TargetPosition, m: nat)
    requires AncestorFree(s, roots) && m <= |roots|
    requires forall k :: m <= k < |roots| ==>
        !(roots[k] < target.before < SubtreeEnd(s, roots[k])) && ShiftFits(Subtree(s, roots[k]), target.level)
    ensures var v := Verdict(s, roots, target, m);
            var clear := !StrictlyInside(s, roots, target.before) && AllShiftsFit(s, roots, target.level);
            && v != Panicked
            && (v.Moved? <==>
                  && clear && target.before <= |s|
                  && Fits(Kept(s, roots), KeptBefore(s, roots, target.before), target.level))
            && (v.Moved? ==> v == FinalVerdict(s, roots, target))
            && (v == Rejected(CircularMove) <==> CircularFirst(s, roots, target))
            && (v == Rejected(InvalidIndex) <==> clear && target.before > |s|)
            && v != Rejected(LevelTooDeep)
  {
    hide Splice, Extracted, Kept, KeptBefore, ShiftFits, SubtreeEnd;
    if m > 0 {
      var r := roots[m - 1];
      if r < target.before < SubtreeEnd(s, r) {
        assert HitAt(s, roots, target, m - 1);
      } else if !ShiftFits(Subtree(s, r), target.level) {
      } else {
        VerdictMeaning(s, roots, target, m - 1);
      }
    }
  }

  // ----- indices that are not valid, and the error that never comes

  lemma {:induction false} SortedReaches(indices: seq<nat>, i: nat)
    requires i in indices
    ensures var roots := Sorted(indices, Bound(indices)); roots != [] && roots[|roots| - 1] >= i
  {
    var roots := Sorted(indices, Bound(indices));
    var k :| 0 <= k < |roots| && roots[k] == i;
  }

  /** An invalid index is reported only if it is the last one given; otherwise the loop runs into it. */
  lemma {:induction false} InvalidIndexExactly(s: seq<Node>, indices: seq<nat>, target: TargetPosition, i: nat)
    requires i in indices && i >= |s|
    ensures MoveAll(s, indices, target) ==
      if indices[|indices| - 1] >= |s| then Rejected(InvalidIndex) else Panicked
  {
    SortedReaches(indices, i);
    hide Sorted, Bound;
  }

  /** One node, and two indices of which the first is not valid. */
  lemma {:induction false} InvalidIndexPanics()
    ensures MoveAll([Node(0, 0, true, false)], [1, 0], TargetPosition(0, 0)) == Panicked
  {
    InvalidIndexExactly([Node(0, 0, true, false)], [1, 0], TargetPosition(0, 0), 1);
    hide *;
  }

  lemma CutNeverTooDeep(s: seq<Node>, start: nat, level: Level, c: Cutting)
    ensures CutSubtree(s, start, level, c).Stop? ==> CutSubtree(s, start, level, c).outcome != Rejected(LevelTooDeep)
  {
    hide SubtreeEnd, ShiftFits, ShiftInPlace;
  }

  lemma ReinsertNeverTooDeep(level: Level, c: Cutting)
    ensures Reinsert(level, c) != Rejected(LevelTooDeep)
  {
    hide Splice;
  }

  lemma {:induction false} LoopNeverTooDeep(s: seq<Node>, roots: seq<nat>, level: Level, m: nat, c: Cutting)
    requires m <= |roots|
    ensures MoveLoop(s, roots, level, m, c) != Rejected(LevelTooDeep)
    decreases m
  {
    hide CutSubtree, Reinsert;
    if m == 0 {
      ReinsertNeverTooDeep(level, c);
    } else {
      var cut := CutSubtree(s, roots[m - 1], level, c);
      CutNeverTooDeep(s, roots[m - 1], level, c);
      if cut.Continue? { LoopNeverTooDeep(s, roots, level, m - 1, cut.cutting); }
    }
  }

  /** `LevelTooDeep` is never reported, whatever is selected. */
  lemma {:induction false} NeverTooDeep(s: seq<Node>, indices: seq<nat>, target: TargetPosition)
    ensures MoveAll(s, indices, target) != Rejected(LevelTooDeep)
  {
    var roots := Sorted(indices, Bound(indices));
    LoopNeverTooDeep(s, roots, target.level, |roots|, Cutting(s, [], target.before));
    hide Sorted, Bound, MoveLoop;
  }
}
