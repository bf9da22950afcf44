/** The tree object itself: the operations that rewrite its list of nodes in place. */
module DisplayedItemTree {
  import opened Options
  import opened FlatTree
  import opened Rearrange
  import opened Location
  import opened Pruning
  import opened Visibility
  import opened MoveItems
  import opened NestedLevels
  import opened StepPlan
  import opened MoveItemStep
  import opened WrappingStep
  import opened StepSlots
  import opened StepResults
  import opened Flags
  import opened TreeLoops

  /** Shift a slice so that its first node is at `level`; on failure the nodes before the bad one stay shifted. */
  method ShiftSubtreeToLevel(nodes: seq<Node>, level: Level) returns (t: seq<Node>, ok: bool)
    ensures t == ShiftInPlace(nodes, level)
    ensures ok == ShiftFits(nodes, level)
  {
    t := nodes;
    if nodes == [] {
      return t, true;
    }
    var delta := level - nodes[0].level;
    var k := 0;
    while k < |nodes|
      invariant 0 <= k <= FirstUnfit(nodes, delta) && |t| == |nodes|
      invariant forall j :: 0 <= j < k ==> t[j] == nodes[j].(level := nodes[j].level + delta)
      invariant forall j :: k <= j < |nodes| ==> t[j] == nodes[j]
    {
      var shifted := t[k].level + delta;
      UnfitHere(nodes, delta, k);
      if !(0 <= shifted < 256) {
        ShiftedUpTo(nodes, level, t, k);
        return t, false;
      }
      t := t[k := t[k].(level := shifted)];
      k := k + 1;
    }
    ShiftedUpTo(nodes, level, t, k);
    ok := true;
  }

  method NextVisibleItem(items: seq<Node>, i: nat) returns (j: nat)
    requires i < |items|
    ensures j == NextVisible(items, i)
  {
    j := i + 1;
    if !items[i].unfolded {
      while j < |items| && items[j].level > items[i].level
        invariant i < j <= |items|
        invariant forall k :: i < k < j ==> items[k].level > items[i].level
      {
        j := j + 1;
      }
      EndIs(items, i, j);
    }
  }

  /** `Result<ItemIndex, MoveError>` */
  datatype InsertReport = InsertedAt(index: nat) | NotInserted(error: MoveError)

  /** `Result<(), MoveError>`, or a panic. */
  datatype MoveReport = AllMoved | NoneMoved(error: MoveError) | Stopped

  /** `Result<VisibleItemIndex, MoveError>` */
  datatype StepReport = MovedTo(vidx: nat) | NotMoved(error: MoveError)

  /** The report and the list left behind are those of the specified outcome. */
  ghost predicate Reported(outcome: StepOutcome, r: StepReport, items: seq<Node>) {
    match outcome
    case Done(t, v) => r == MovedTo(v) && items == t
    case Refused(t, e) => r == NotMoved(e) && items == t
    case Overflow => true
  }

  ghost predicate AllBelow(indices: seq<nat>, n: nat) {
    forall i: nat :: i in indices ==> i < n
  }

  lemma StayReported(s: seq<Node>, v: nat)
    ensures Reported(Done(s, v), MovedTo(v), s)
  {
  }

  /** A step that does not overflow is reported as specified, and keeps the invariant if it succeeds. */
  lemma {:induction false} StepReported(s: seq<Node>, v: nat, dir: MoveDir, f: ItemRef -> bool, idx: nat,
                                        r: StepReport, t: seq<Node>)
    requires WellFormed(s) && ToDisplayed(s, v) == Some(idx)
    requires MoveItemStep.MoveItem(s, v, dir, f) != Overflow && Reported(MoveItemStep.MoveItem(s, v, dir, f), r, t)
    ensures r.MovedTo? ==> WellFormed(t)
    ensures r.MovedTo? && ParentsAllowed(s, f) ==> Stepped(s, v, dir, f, t, r.vidx)
  {
    hide MoveItemStep.MoveItem, WellFormed, ToDisplayed, ParentsAllowed, Stepped;
    if r.MovedTo? {
      StepKeepsWellFormed(s, v, dir, f, idx, t, r.vidx);
      if ParentsAllowed(s, f) { StepSteps(s, v, dir, f, t, r.vidx); }
    }
  }

  class Tree {
    var items: seq<Node>

    ghost predicate Valid()
      reads this
    {
      WellFormed(items)
    }

    constructor ()
      ensures Valid() && items == []
    {
      items := [];
    }

    // ----- visible items

    /** All visible nodes, in order, as the visible iterators yield them. */
    method VisibleItems() returns (idx: seq<nat>)
      ensures Picks(idx, |items|)
      ensures forall i: nat :: i in idx <==> i < |items| && Visible(items, i)
      ensures forall v :: 0 <= v < |idx| ==> VisibleBefore(items, idx[v]) == v
    {
      idx := [];
      var next: nat := 0;
      while next < |items|
        invariant ShownBefore(items, idx, next)
        decreases |items| - next
      {
        ShownStep(items, idx, next);
        idx := idx + [next];
        next := NextVisibleItem(items, next);
      }
    }

    /** Position of the `v`-th visible node. */
    method Displayed(v: nat) returns (r: Option<nat>)
      ensures r == ToDisplayed(items, v)
    {
      var next: nat, left: nat := 0, v;
      while next < |items| && left > 0
        invariant next <= |items|
        invariant NthFrom(items, next, left) == ToDisplayed(items, v)
        decreases left
      {
        next := NextVisibleItem(items, next);
        left := left - 1;
      }
      r := if next < |items| then Some(next) else None;
    }

    /** The item before `start` that is visible, found by walking back to the first node not deeper. */
    method VisiblePredecessor(start: nat) returns (r: Option<nat>)
      requires start < |items| ==> Visible(items, start)
      requires start != |items| || start == 0
      ensures start <= |items| ==>
          r == (if PrevVisible(items, start) >= 0 then Some(PrevVisible(items, start)) else None)
      ensures start > |items| ==> r == None
    {
      if start == 0 || start > |items| {
        return None;
      }
      var startLevel := items[start].level;
      var candidate: nat := start - 1;
      var limit := items[candidate].level;
      var idx: nat := start - 1;
      ghost var shallowest: nat := idx;
      while !(items[idx].level <= startLevel || idx == 0)
        invariant WalkedBack(items, start, idx, shallowest, candidate) && items[shallowest].level == limit
        decreases idx
      {
        WalkBackOne(items, start, idx, shallowest, candidate);
        idx := idx - 1;
        if items[idx].level < limit {
          limit := items[idx].level;
          shallowest := idx;
          if !items[idx].unfolded {
            candidate := idx;
          }
        }
      }
      CandidateIsPredecessor(items, start, idx, candidate);
      return Some(candidate);
    }

    // ----- inserting and removing

    method InsertItem(item: ItemRef, target: TargetPosition) returns (r: InsertReport)
      requires Valid()
      modifies this
      ensures Valid()
      ensures match CheckLocation(old(items), target)
              case Fine =>
                && r == InsertedAt(target.before)
                && items == Splice(old(items), target.before, [Node(item, target.level, true, false)])
              case Failed(e) => r == NotInserted(e) && items == old(items)
    {
      match CheckLocation(items, target) {
        case Failed(e) =>
          r := NotInserted(e);
        case Fine =>
          CheckLocationFits(items, target);
          SpliceKeepsWellFormed(items, target.before, [Node(item, target.level, true, false)], target.level);
          items := items[..target.before] + [Node(item, target.level, true, false)] + items[target.before..];
          r := InsertedAt(target.before);
      }
    }

    method RemoveRecursive(i: nat) returns (removed: seq<ItemRef>)
      requires Valid() && i < |items|
      modifies this
      ensures Valid() && items == Cut(old(items), i) && removed == Refs(Subtree(old(items), i))
    {
      CutIsSound(items, i);
      var end := SubtreeEnd(items, i);
      removed := Refs(items[i..end]);
      items := items[..i] + items[end..];
    }

    method RemoveDissolve(i: nat) returns (removed: ItemRef)
      requires Valid() && i < |items|
      modifies this
      ensures Valid() && items == Dissolve(old(items), i) && removed == old(items)[i].itemRef
    {
      ghost var was := items;
      DissolveKeepsStructure(items, i);
      var end := SubtreeEnd(items, i);
      for k := i + 1 to end
        invariant |items| == |was|
        invariant forall j :: 0 <= j < |was| ==>
            items[j] == if i < j < k then was[j].(level := was[j].level - 1) else was[j]
      {
        items := items[k := items[k].(level := items[k].level - 1)];
      }
      removed := items[i].itemRef;
      items := items[..i] + items[i + 1..];
      assert items == Dissolve(was, i);
    }

    /**
     Remove every node that satisfies `f`, with its subtree.  The list shrinks under the loop; a
     node is examined once, unless it went away with an ancestor.
     */
    method DrainRecursiveIf(f: Node -> bool) returns (removed: seq<ItemRef>)
      requires Valid()
      modifies this
      ensures Valid()
      ensures Drained(old(items), f, items, removed)
    {
      removed := [];
      ghost var was := items;
      ghost var next: nat := 0;  // position in `was` of the node at `idx`
      var idx: nat := 0;
      DrainStart(was, Matching(was, f));
      hide *;
      while idx < |items|
        invariant Draining(was, Matching(was, f), next, items, idx, removed)
        decreases |was| - next
      {
        if f(items[idx]) {
          DrainTaken(was, f, next, items, idx, removed);
          removed := removed + SubtreeRefs(items, idx);
          items := Cut(items, idx);
          next := SubtreeEnd(was, next);
        } else {
          DrainKept(was, f, next, items, idx, removed);
          idx := idx + 1;
          next := next + 1;
        }
      }
      DrainEnd(was, f, next, items, removed);
    }

    // ----- moving

    /**
     Move one visible item, with its subtree, by one visible item, as a build without overflow checks
     does it; with them, the program stops where `MoveItemStep.MoveItem` overflows.
     */
    method MoveItem(v: nat, dir: MoveDir, f: ItemRef -> bool) returns (r: StepReport)
      requires Valid()
      modifies this
      ensures Reported(MoveItemWrapping(old(items), v, dir, f), r, items)
      ensures MoveItemStep.MoveItem(old(items), v, dir, f) != Overflow ==>
        && Reported(MoveItemStep.MoveItem(old(items), v, dir, f), r, items)
        && (r.MovedTo? ==> Valid())
        && (r.MovedTo? && ParentsAllowed(old(items), f) ==> Stepped(old(items), v, dir, f, items, r.vidx))
      ensures ToDisplayed(old(items), v).None? ==> r == NotMoved(InvalidIndex) && items == old(items)
    {
      ghost var was := items;
      var shown := Displayed(v);
      if shown.None? {
        return NotMoved(InvalidIndex);
      }
      ToDisplayedExact(items, v, shown.value);
      match dir {
        case Down => r := MoveDown(v, shown.value, f);
        case Up => r := MoveUp(v, shown.value, f);
      }
      hide Reported, Perform, Wrapped, Choose;
      if MoveItemStep.MoveItem(was, v, dir, f) != Overflow {
        WrapsOnOverflowOnly(was, v, dir, f);
        StepReported(was, v, dir, f, shown.value, r, items);
      }
    }

    method MoveDown(v: nat, idx: nat, f: ItemRef -> bool) returns (r: StepReport)
      requires Valid() && idx < |items|
      modifies this
      ensures Reported(Perform(old(items), v, idx, Wrapped(ChooseDown(old(items), idx, f))), r, items)
    {
      hide ShiftStep, MoveAll, Reported, SubtreeEnd, WellFormed;
      var level, end := items[idx].level, SubtreeEnd(items, idx);
      if end == |items| {
        r := ShiftAt(idx, if level == 0 then 0 else level - 1, v);
      } else if items[end].level < level {
        r := ShiftAt(idx, level - 1, v);
      } else if items[end].unfolded && f(items[end].itemRef) {
        r := TransferTo(idx, end + 1, (items[end].level + 1) % 256, v + 1);
      } else {
        r := TransferTo(idx, SubtreeEnd(items, end), level, v + 1);
      }
    }

    method MoveUp(v: nat, idx: nat, f: ItemRef -> bool) returns (r: StepReport)
      requires Valid() && ToDisplayed(items, v) == Some(idx) && idx < |items| && Visible(items, idx)
      modifies this
      ensures Reported(Perform(old(items), v, idx, Wrapped(ChooseUp(old(items), idx, f))), r, items)
    {
      hide ShiftStep, TransferStep, Reported, WellFormed, ToDisplayed, Visible, PrevVisible;
      var level: int := items[idx].level;
      var before := VisiblePredecessor(idx);
      if before.None? {
        StayReported(items, v);
        r := MovedTo(v);
      } else if MovesInto(items[before.value], level, f) {
        r := ShiftAt(idx, (level + 1) % 256, v);
      } else {
        BehindVisible(items, v, idx);
        r := TransferTo(idx, before.value, items[before.value].level, v - 1);
      }
    }

    method ShiftAt(idx: nat, level: Level, v: nat) returns (r: StepReport)
      requires idx < |items|
      modifies this
      ensures Reported(ShiftStep(old(items), idx, level, v), r, items)
    {
      var end := SubtreeEnd(items, idx);
      var shifted, ok := ShiftSubtreeToLevel(items[idx..end], level);
      items := items[..idx] + shifted + items[end..];
      r := if ok then MovedTo(v) else NotMoved(InvalidLevel);
    }

    method TransferTo(idx: nat, before: nat, level: Level, v: nat) returns (r: StepReport)
      requires Valid() && idx < |items|
      modifies this
      ensures Reported(TransferStep(old(items), idx, before, level, v), r, items)
    {
      SingleNeverPanics(items, idx, TargetPosition(before, level));
      var moved := MoveItems([idx], TargetPosition(before, level));
      match moved
      case AllMoved => r := MovedTo(v);
      case NoneMoved(e) => r := NotMoved(e);
    }

    /**
     Move several subtrees to one place; on any error, and when it panics, the list is left alone. The invariant
     survives a move of valid indices exactly if its cuts are seamless, so always if no selected node is below another.
     */
    method MoveItems(indices: seq<nat>, target: TargetPosition) returns (r: MoveReport)
      requires Valid()
      modifies this
      ensures match MoveAll(old(items), indices, target)
              case Moved(t) => r == AllMoved && items == t
              case Rejected(e) => r == NoneMoved(e) && items == old(items)
              case Panicked => r == Stopped && items == old(items)
      ensures r.AllMoved? && AllBelow(indices, |old(items)|) ==>
        && Picks(Sorted(indices, Bound(indices)), |old(items)|)
        && (Valid() <==> Seamless(old(items), Sorted(indices, Bound(indices)), target))
        && (AncestorFree(old(items), Sorted(indices, Bound(indices))) ==> Valid())
      ensures !r.AllMoved? ==> Valid()
    {
      hide MoveLoop, WellFormed;
      if indices != [] && indices[|indices| - 1] >= |items| {
        return NoneMoved(InvalidIndex);
      }
      var roots := Sorted(indices, Bound(indices));
      var cut := TakeOut(roots, target);
      match cut
      case Stop(Rejected(e)) => return NoneMoved(e);
      case Stop(Panicked) => return Stopped;
      case Continue(c) =>
        var check := CheckLocation(c.result, TargetPosition(c.before, target.level));
        ghost var was := items;
        match check
        case Failed(e) => r := NoneMoved(e);
        case Fine =>
          items := c.result[..c.before] + c.extracted + c.result[c.before..];
          r := AllMoved;
          if AllBelow(indices, |was|) {
            MoveKeepsLevelsExactly(was, indices, target, items);
            if AncestorFree(was, roots) { FreeIsSeamless(was, indices, target, items); }
          }
    }

    /** The loop of `MoveItems`: back to front, each selected subtree goes from a copy of the list to `extracted`. */
    method TakeOut(roots: seq<nat>, target: TargetPosition) returns (cut: CutResult)
      ensures cut.Stop? ==> !cut.outcome.Moved?
      ensures MoveLoop(items, roots, target.level, |roots|, Cutting(items, [], target.before)) ==
        match cut
        case Stop(outcome) => outcome
        case Continue(c) => Reinsert(target.level, c)
    {
      hide MoveLoop, ShiftInPlace, ShiftFits, SubtreeEnd, Reinsert;
      var result, extracted, before: nat := items, [], target.before;
      ghost var outcome := MoveLoop(items, roots, target.level, |roots|, Cutting(items, [], target.before));
      var m: nat := |roots|;
      while m > 0
        invariant m <= |roots|
        invariant MoveLoop(items, roots, target.level, m, Cutting(result, extracted, before)) == outcome
      {
        LoopIteration(items, roots, target.level, m, Cutting(result, extracted, before), outcome);
        m := m - 1;
        var start := roots[m];
        if start >= |items| {
          return Stop(Panicked);
        }
        var end := SubtreeEnd(items, start);
        if start + 1 <= before < end {
          return Stop(Rejected(CircularMove));
        }
        if start < before {
          before := before - (end - start);
        }
        if end > |result| {
          return Stop(Panicked);
        }
        var shifted, ok := ShiftSubtreeToLevel(result[start..end], target.level);
        if !ok {
          return Stop(Rejected(InvalidLevel));
        }
        extracted := shifted + extracted;
        result := result[..start] + result[end..];
      }
      LoopExit(items, roots, target.level, Cutting(result, extracted, before));
      cut := Continue(Cutting(result, extracted, before));
    }

    // ----- folding and selecting

    method XFold(i: nat, unfolded: bool)
      requires Valid() && i < |items|
      modifies this
      ensures Valid() && items == Fold(old(items), i, unfolded)
    {
      ghost var was := items;
      items := items[i := items[i].(unfolded := unfolded)];
      if !unfolded {
        var end := SubtreeEnd(items, i);
        SameEnd(was, items, i);
        for k := i to end
          invariant |items| == |was|
          invariant forall j :: 0 <= j < |was| ==>
                      items[j] == was[j].(unfolded := if j == i then false else was[j].unfolded,
                                          selected := was[j].selected && !(i <= j < k))
        {
          items := items[k := items[k].(selected := false)];
        }
      }
      assert items == Fold(was, i, unfolded);
      FlagsKeepWellFormed(was, items);
    }

    method XFoldAll(unfolded: bool)
      requires Valid()
      modifies this
      ensures Valid() && items == FoldAll(old(items), unfolded)
    {
      ghost var was := items;
      for k := 0 to |items|
        invariant |items| == |was|
        invariant forall j :: 0 <= j < |was| ==> items[j] == if j < k then FoldAll(was, unfolded)[j] else was[j]
      {
        var x := items[k].(unfolded := unfolded);
        items := items[k := if !unfolded && x.level > 0 then x.(selected := false) else x];
      }
      assert items == FoldAll(was, unfolded);
      FlagsKeepWellFormed(was, items);
    }

    method XFoldRecursive(i: nat, unfolded: bool)
      requires Valid() && i < |items|
      modifies this
      ensures Valid() && items == FoldRecursive(old(items), i, unfolded)
    {
      ghost var was := items;
      var end := SubtreeEnd(items, i);
      items := items[i := items[i].(unfolded := unfolded)];
      for k := i + 1 to end
        invariant |items| == |was|
        invariant forall j :: 0 <= j < |was| ==>
            items[j] == if i <= j < k then FoldRecursive(was, i, unfolded)[j] else was[j]
      {
        var x := items[k].(unfolded := unfolded);
        items := items[k := if !unfolded then x.(selected := false) else x];
      }
      assert items == FoldRecursive(was, i, unfolded);
      FlagsKeepWellFormed(was, items);
    }

    method XSelect(v: nat, selected: bool)
      requires Valid()
      modifies this
      ensures Valid() && items == SelectVisible(old(items), v, v + 1, selected)
    {
      ghost var was := items;
      var shown := Displayed(v);
      OnlyDisplayed(items, v);
      if shown.Some? {
        items := items[shown.value := items[shown.value].(selected := selected)];
      }
      assert items == SelectVisible(was, v, v + 1, selected);
      FlagsKeepWellFormed(was, items);
    }

    method XSelectAllVisible(selected: bool)
      requires Valid()
      modifies this
      ensures Valid() && items == SelectVisible(old(items), 0, |old(items)|, selected)
    {
      SelectBetween(0, |items|, selected);
    }

    /** Inclusive range, in either order. */
    method XSelectVisibleRange(first: nat, second: nat, selected: bool)
      requires Valid()
      modifies this
      ensures Valid()
      ensures items == if first < second then SelectVisible(old(items), first, second + 1, selected)
                       else SelectVisible(old(items), second, first + 1, selected)
    {
      var from, to := if first < second then first else second, if first < second then second + 1 else first + 1;
      SelectBetween(from, to, selected);
    }

    /** The mutable visible iterator, skipping `from` items and ending before the `to`-th. */
    method SelectBetween(from: nat, to: nat, selected: bool)
      requires Valid()
      modifies this
      ensures Valid() && items == SelectVisible(old(items), from, to, selected)
    {
      ghost var was := items;
      var next: nat, v: nat := 0, 0;
      while next < |items| && v < to
        invariant OnVisible(was, next, v) && Selecting(was, items, next, SelectVisible(was, from, to, selected))
        decreases |items| - next
      {
        SelectStep(was, items, next, v, from, to, selected);
        WalkOn(was, next, v);
        var this_idx := next;
        next := NextVisibleItem(items, next);
        if v >= from {
          items := items[this_idx := items[this_idx].(selected := selected)];
        }
        v := v + 1;
      }
      SelectDone(was, items, next, v, from, to, selected);
      FlagsKeepWellFormed(was, items);
    }
  }
}
