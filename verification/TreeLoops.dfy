/** Facts that carry the loops of the tree object from one iteration to the next. */
module TreeLoops {
  import opened Options
  import opened FlatTree
  import opened Rearrange
  import opened Location
  import opened Pruning
  import opened Visibility
  import opened MoveItems
  import opened Flags

  // ----- walking back to the visible predecessor

  /** The candidate of the backward walk that stopped at `idx` is the visible node closest before `start`. */
  lemma {:induction false} CandidateIsPredecessor(s: seq<Node>, start: nat, idx: nat, candidate: nat)
    requires idx <= candidate < start < |s| && Visible(s, start)
    requires candidate == start - 1 || (!s[candidate].unfolded && InSubtree(s, candidate, start - 1))
    requires forall a: nat :: idx <= a < candidate && InSubtree(s, a, candidate) ==> s[a].unfolded
    requires s[idx].level <= s[start].level || idx == 0
    ensures PrevVisible(s, start) == candidate
  {
    forall a: nat | a < candidate && InSubtree(s, a, candidate)
      ensures s[a].unfolded
    {
      if a < idx { assert InSubtree(s, a, start); }
    }
    forall k: nat | candidate < k < start
      ensures !Visible(s, k)
    {
      assert InSubtree(s, candidate, k);
    }
    PrevVisibleIs(s, start, candidate);
  }

  /** The walk back from `start` has come to `idx`; `shallowest` is the least deep node it has met. */
  ghost predicate WalkedBack(s: seq<Node>, start: nat, idx: nat, shallowest: nat, candidate: nat) {
    && idx <= shallowest <= candidate < start < |s|
    && (forall k :: idx <= k < start ==> s[k].level >= s[shallowest].level)
    && (candidate == start - 1 || (!s[candidate].unfolded && InSubtree(s, candidate, start - 1)))
    && (forall a: nat :: idx <= a < candidate && InSubtree(s, a, candidate) ==> s[a].unfolded)
  }

  lemma {:induction false} WalkBackOne(s: seq<Node>, start: nat, idx: nat, shallowest: nat, candidate: nat)
    requires WalkedBack(s, start, idx, shallowest, candidate) && idx > 0
    ensures s[idx - 1].level >= s[shallowest].level ==> WalkedBack(s, start, idx - 1, shallowest, candidate)
    ensures s[idx - 1].level < s[shallowest].level ==>
      WalkedBack(s, start, idx - 1, idx - 1, if s[idx - 1].unfolded then candidate else idx - 1)
  {
  }

  lemma {:induction false} PrevVisibleIs(s: seq<Node>, i: nat, p: nat)
    requires p < i <= |s| && Visible(s, p) && forall k: nat :: p < k < i ==> !Visible(s, k)
    ensures PrevVisible(s, i) == p
  {
    if p < i - 1 { PrevVisibleIs(s, i - 1, p); }
  }

  // ----- enumerating the visible nodes

  /** `idx` lists the visible nodes before `next`. */
  ghost predicate ShownBefore(s: seq<Node>, idx: seq<nat>, next: nat) {
    && next <= |s| && (next < |s| ==> Visible(s, next))
    && Picks(idx, next)
    && (forall i: nat :: i in idx <==> i < next && Visible(s, i))
    && (forall v :: 0 <= v < |idx| ==> idx[v] <= |s| && VisibleBefore(s, idx[v]) == v)
    && VisibleBefore(s, next) == |idx|
  }

  lemma {:induction false} ShownStep(s: seq<Node>, idx: seq<nat>, next: nat)
    requires ShownBefore(s, idx, next) && next < |s|
    ensures ShownBefore(s, idx + [next], NextVisible(s, next))
  {
    hide NextVisible, VisibleBefore;
    NextVisibleExact(s, next);
    VisibleBeforeStep(s, next);
    hide Visible;
    var longer, after := idx + [next], NextVisible(s, next);
    assert Picks(longer, after);
    forall i: nat
      ensures i in longer <==> i < after && Visible(s, i)
    {
      assert i in longer <==> i in idx || i == next;
    }
  }

  // ----- shifting levels in place

  lemma {:induction false} ShiftedUpTo(nodes: seq<Node>, level: Level, t: seq<Node>, k: nat)
    requires nodes != [] && k <= |nodes| == |t| && k == FirstUnfit(nodes, level - nodes[0].level)
    requires forall j :: 0 <= j < k ==> t[j] == nodes[j].(level := nodes[j].level + level - nodes[0].level)
    requires forall j :: k <= j < |nodes| ==> t[j] == nodes[j]
    ensures t == ShiftInPlace(nodes, level)
  {
    forall j: nat | j < |nodes|
      ensures t[j] == ShiftInPlace(nodes, level)[j]
    {
      ShiftInPlaceNode(nodes, level, j);
    }
  }

  lemma UnfitHere(nodes: seq<Node>, delta: int, k: nat)
    requires k <= FirstUnfit(nodes, delta) && k < |nodes|
    ensures k == FirstUnfit(nodes, delta) <==> !LevelOk(nodes[k].level + delta)
  {
  }

  // ----- draining

  /** No removed root before `next` covers the node at `next`. */
  ghost predicate Clear(s: seq<Node>, root: nat -> bool, next: nat) {
    forall a: nat :: a < next && root(a) ==> !InSubtree(s, a, next)
  }

  lemma {:induction false} DrainKeep(s: seq<Node>, root: nat -> bool, next: nat)
    requires next < |s| && Clear(s, root, next) && !root(next)
    ensures Taken(s, Spared(s, root), next + 1) == Taken(s, Spared(s, root), next) + [s[next]]
    ensures Taken(s, Lost(s, root), next + 1) == Taken(s, Lost(s, root), next)
    ensures Clear(s, root, next + 1)
  {
    assert !Covered(s, root, next);
    ClearNext(s, root, next);
    hide Covered, Clear;
    TakeRange(s, Spared(s, root), next, next + 1);
    SkipRange(s, Lost(s, root), next, next + 1);
    assert s[next..next + 1] == [s[next]];
  }

  lemma {:induction false} ClearNext(s: seq<Node>, root: nat -> bool, next: nat)
    requires next < |s| && Clear(s, root, next) && !root(next)
    ensures Clear(s, root, next + 1)
  {
    forall a: nat | a < next + 1 && root(a)
      ensures !InSubtree(s, a, next + 1)
    {
      assert InSubtree(s, a, next + 1) ==> InSubtree(s, a, next);
    }
  }

  lemma {:induction false} DrainSubtree(s: seq<Node>, root: nat -> bool, next: nat)
    requires next < |s| && Clear(s, root, next) && root(next)
    ensures var after := SubtreeEnd(s, next);
            && Taken(s, Spared(s, root), after) == Taken(s, Spared(s, root), next)
            && Taken(s, Lost(s, root), after) == Taken(s, Lost(s, root), next) + s[next..after]
            && Clear(s, root, after)
  {
    var after := SubtreeEnd(s, next);
    forall i: nat | next <= i < after
      ensures Covered(s, root, i)
    {
      SubtreeIsRange(s, next, i);
    }
    SkipRange(s, Spared(s, root), next, after);
    TakeRange(s, Lost(s, root), next, after);
    forall a: nat | a < after && root(a)
      ensures !InSubtree(s, a, after)
    {
      assert a < next && InSubtree(s, a, after) ==> InSubtree(s, a, next);
      assert next < a ==> s[a].level > s[next].level;
    }
  }

  /** The items of a subtree, in order. */
  function SubtreeRefs(items: seq<Node>, i: nat): seq<ItemRef>
    requires i < |items|
  {
    Refs(Subtree(items, i))
  }

  /** The nodes before `next` are decided, the rest of the list is still as it was. */
  ghost predicate Draining(s: seq<Node>, root: nat -> bool, next: nat, items: seq<Node>, idx: nat,
                           removed: seq<ItemRef>) {
    && next <= |s| && idx <= |items|
    && items[..idx] == Taken(s, Spared(s, root), next) && items[idx..] == s[next..]
    && removed == Refs(Taken(s, Lost(s, root), next))
    && Clear(s, root, next)
  }

  lemma MatchingAt(s: seq<Node>, f: Node -> bool, a: nat)
    requires a < |s|
    ensures Matching(s, f)(a) == f(s[a])
  {
  }

  lemma {:induction false} DrainStart(s: seq<Node>, root: nat -> bool)
    ensures Draining(s, root, 0, s, 0, [])
  {
  }

  lemma {:induction false} DrainKeepStep(s: seq<Node>, root: nat -> bool, next: nat, items: seq<Node>, idx: nat,
                                         removed: seq<ItemRef>)
    requires Draining(s, root, next, items, idx, removed) && idx < |items|
    ensures next < |s| && items[idx] == s[next]
    ensures !root(next) ==> Draining(s, root, next + 1, items, idx + 1, removed)
  {
    assert items[idx] == items[idx..][0] == s[next..][0];
    if !root(next) {
      DrainKeep(s, root, next);
      hide Clear, Covered, Taken, Lost, Spared;
      OneMore(items, idx);
      OneMore(s, next);
    }
  }

  lemma OneMore(s: seq<Node>, i: nat)
    requires i < |s|
    ensures s[..i + 1] == s[..i] + [s[i]] && s[i + 1..] == s[i..][1..]
  {
  }

  lemma {:induction false} DrainSubtreeStep(s: seq<Node>, root: nat -> bool, next: nat, items: seq<Node>, idx: nat,
                                            removed: seq<ItemRef>)
    requires Draining(s, root, next, items, idx, removed) && idx < |items| && next < |s| && root(next)
    ensures var end := SubtreeEnd(items, idx);
            Draining(s, root, SubtreeEnd(s, next), items[..idx] + items[end..], idx, removed + Refs(items[idx..end]))
  {
    var end, after := SubtreeEnd(items, idx), SubtreeEnd(s, next);
    SuffixSubtree(s, next, items, idx);
    DrainSubtree(s, root, next);
    hide Clear, Covered, SubtreeEnd, Taken, Lost, Spared;
    assert items[idx..end] == items[idx..][..end - idx] == s[next..][..after - next] == s[next..after];
    assert items[end..] == items[idx..][end - idx..] == s[next..][after - next..] == s[after..];
    assert (items[..idx] + items[end..])[..idx] == items[..idx];
    assert (items[..idx] + items[end..])[idx..] == items[end..];
    RefsConcat(Taken(s, Lost(s, root), next), s[next..after]);
  }

  /** One iteration of the drain, whichever way the predicate goes. */
  lemma {:induction false} DrainIteration(s: seq<Node>, f: Node -> bool, next: nat, items: seq<Node>, idx: nat,
                                          removed: seq<ItemRef>)
    requires Draining(s, Matching(s, f), next, items, idx, removed) && idx < |items|
    ensures next < |s|
    ensures !f(items[idx]) ==> Draining(s, Matching(s, f), next + 1, items, idx + 1, removed)
    ensures f(items[idx]) ==>
      var end := SubtreeEnd(items, idx);
      Draining(s, Matching(s, f), SubtreeEnd(s, next), items[..idx] + items[end..], idx,
        removed + Refs(items[idx..end]))
  {
    hide Draining;
    DrainKeepStep(s, Matching(s, f), next, items, idx, removed);
    MatchingAt(s, f, next);
    hide *;
    if f(items[idx]) { DrainSubtreeStep(s, Matching(s, f), next, items, idx, removed); }
  }

  lemma {:induction false} DrainKept(s: seq<Node>, f: Node -> bool, next: nat, items: seq<Node>, idx: nat,
                                     removed: seq<ItemRef>)
    requires Draining(s, Matching(s, f), next, items, idx, removed) && idx < |items| && !f(items[idx])
    ensures next < |s| && Draining(s, Matching(s, f), next + 1, items, idx + 1, removed)
  {
    hide *;
    DrainIteration(s, f, next, items, idx, removed);
  }

  lemma {:induction false} DrainTaken(s: seq<Node>, f: Node -> bool, next: nat, items: seq<Node>, idx: nat,
                                      removed: seq<ItemRef>)
    requires Draining(s, Matching(s, f), next, items, idx, removed) && idx < |items| && f(items[idx])
    ensures next < |s|
    ensures Draining(s, Matching(s, f), SubtreeEnd(s, next), Cut(items, idx), idx, removed + SubtreeRefs(items, idx))
  {
    DrainIteration(s, f, next, items, idx, removed);
    hide Draining, Matching, Refs;
  }

  lemma RefsConcat(a: seq<Node>, b: seq<Node>)
    ensures Refs(a + b) == Refs(a) + Refs(b)
  {
  }

  /** All nodes that `f` picks out are gone with their subtrees, and their items are listed. */
  ghost predicate Drained(s: seq<Node>, f: Node -> bool, items: seq<Node>, removed: seq<ItemRef>) {
    && items == Select(s, Uncovered(s, Matching(s, f)))
    && removed == Refs(Select(s, CoveredPositions(s, Matching(s, f))))
  }

  lemma {:induction false} DrainEnd(s: seq<Node>, f: Node -> bool, next: nat, items: seq<Node>, removed: seq<ItemRef>)
    requires WellFormed(s) && Draining(s, Matching(s, f), next, items, |items|, removed)
    ensures Drained(s, f, items, removed) && WellFormed(items)
  {
    DrainedAll(s, Matching(s, f), next, items, removed);
    hide *;
    PruningKeepsWellFormed(s, Matching(s, f));
    DrainedIs(s, f, items, removed);
  }

  lemma DrainedIs(s: seq<Node>, f: Node -> bool, items: seq<Node>, removed: seq<ItemRef>)
    requires items == Select(s, Uncovered(s, Matching(s, f)))
    requires removed == Refs(Select(s, CoveredPositions(s, Matching(s, f))))
    ensures Drained(s, f, items, removed)
  {
    hide Select, Uncovered, Matching, Refs, CoveredPositions;
  }

  lemma {:induction false} DrainedAll(s: seq<Node>, root: nat -> bool, next: nat, items: seq<Node>,
                                      removed: seq<ItemRef>)
    requires Draining(s, root, next, items, |items|, removed)
    ensures items == Select(s, Uncovered(s, root)) && removed == Refs(Select(s, CoveredPositions(s, root)))
  {
    assert items[..|items|] == items && |items[|items|..]| == 0;
    assert next == |s|;
  }

  // ----- moving

  /** One iteration of the loop, taken apart. */
  lemma {:induction false} LoopIteration(s: seq<Node>, roots: seq<nat>, level: Level, m: nat, c: Cutting,
                                         outcome: Outcome)
    requires 0 < m <= |roots| && MoveLoop(s, roots, level, m, c) == outcome
    ensures roots[m - 1] >= |s| ==> outcome == Panicked
    ensures roots[m - 1] < |s| ==>
              var start, end := roots[m - 1], SubtreeEnd(s, roots[m - 1]);
              if start < c.before < end then outcome == Rejected(CircularMove)
              else if end > |c.result| then outcome == Panicked
              else
                var sub := c.result[start..end];
                if ShiftFits(sub, level) then
                  MoveLoop(s, roots, level, m - 1,
                           Cutting(c.result[..start] + c.result[end..], ShiftInPlace(sub, level) + c.extracted,
                                   if start < c.before then c.before - (end - start) else c.before)) == outcome
                else outcome == Rejected(InvalidLevel)
  {
    hide ShiftFits, ShiftInPlace, SubtreeEnd;
  }

  lemma LoopExit(s: seq<Node>, roots: seq<nat>, level: Level, c: Cutting)
    ensures MoveLoop(s, roots, level, 0, c) == Reinsert(level, c)
  {
  }

  /** The end of a subtree depends only on what follows its root. */
  lemma {:induction false} SuffixSubtree(s: seq<Node>, i: nat, t: seq<Node>, j: nat)
    requires i < |s| && j < |t| && s[i..] == t[j..]
    ensures SubtreeEnd(s, i) - i == SubtreeEnd(t, j) - j
  {
    var n := SubtreeEnd(s, i) - i;
    assert |s| - i == |s[i..]| == |t[j..]| == |t| - j;
    forall k | j <= k < |t|
      ensures t[k] == s[k - j + i]
    {
      assert s[i..][k - j] == t[j..][k - j];
    }
    var e := SubtreeEnd(t, j);
    assert j + n < |t| ==> !(t[j + n].level > t[j].level);
    assert e < |t| ==> !(t[e].level > t[j].level);
  }

  // ----- selecting

  lemma {:induction false} OnlyDisplayed(s: seq<Node>, v: nat)
    ensures forall k: nat :: k < |s| && Visible(s, k) && VisibleBefore(s, k) == v ==> ToDisplayed(s, v) == Some(k)
    ensures ToDisplayed(s, v).Some? ==>
        Visible(s, ToDisplayed(s, v).value) && VisibleBefore(s, ToDisplayed(s, v).value) == v
  {
    forall k: nat | k < |s| && Visible(s, k) && VisibleBefore(s, k) == v
      ensures ToDisplayed(s, v) == Some(k)
    {
      ToDisplayedExact(s, v, k);
    }
    if ToDisplayed(s, v).Some? { ToDisplayedExact(s, v, ToDisplayed(s, v).value); }
  }

  lemma {:induction false} SameNext(s: seq<Node>, t: seq<Node>, i: nat)
    requires |s| == |t| && i < |s| && forall j :: i <= j < |s| ==> t[j] == s[j]
    ensures NextVisible(t, i) == NextVisible(s, i)
  {
    assert s[i..] == t[i..];
    SuffixSubtree(s, i, t, i);
  }

  /** The items before `next` carry their final flags, the others are untouched. */
  ghost predicate Selecting(s: seq<Node>, items: seq<Node>, next: nat, picked: seq<Node>) {
    && next <= |items| == |s| == |picked|
    && (forall j :: 0 <= j < next ==> items[j] == picked[j])
    && (forall j :: next <= j < |s| ==> items[j] == s[j])
  }

  /** The walk stands on the visible node with index `v`, or at the end. */
  ghost predicate OnVisible(s: seq<Node>, next: nat, v: nat) {
    next <= |s| && (next < |s| ==> Visible(s, next)) && VisibleBefore(s, next) == v
  }

  lemma {:induction false} WalkOn(s: seq<Node>, next: nat, v: nat)
    requires OnVisible(s, next, v) && next < |s|
    ensures OnVisible(s, NextVisible(s, next), v + 1)
  {
    NextVisibleExact(s, next);
    VisibleBeforeStep(s, next);
  }

  lemma {:induction false} SelectStep(s: seq<Node>, items: seq<Node>, next: nat, v: nat, from: nat, to: nat,
                                      selected: bool)
    requires OnVisible(s, next, v) && next < |s| && v < to
      && Selecting(s, items, next, SelectVisible(s, from, to, selected))
    ensures NextVisible(items, next) == NextVisible(s, next)
    ensures var t := if v >= from then items[next := items[next].(selected := selected)] else items;
            Selecting(s, t, NextVisible(s, next), SelectVisible(s, from, to, selected))
  {
    SameNext(s, items, next);
    NextVisibleExact(s, next);
    PickedNode(s, next, from, to, selected);
    forall j: nat | next < j < NextVisible(s, next)
      ensures SelectVisible(s, from, to, selected)[j] == s[j]
    {
      PickedNode(s, j, from, to, selected);
    }
    hide NextVisible, VisibleBefore, Visible, SelectVisible, SameShape;
  }

  lemma {:induction false} PickedNode(s: seq<Node>, j: nat, from: nat, to: nat, selected: bool)
    requires j < |s|
    ensures SelectVisible(s, from, to, selected)[j] ==
              if Visible(s, j) && from <= VisibleBefore(s, j) < to then s[j].(selected := selected) else s[j]
  {
    hide Visible, VisibleBefore;
  }

  /** Behind the last visited item nothing lies in the range any more. */
  lemma {:induction false} SelectDone(s: seq<Node>, items: seq<Node>, next: nat, v: nat, from: nat, to: nat,
                                      selected: bool)
    requires OnVisible(s, next, v) && (next == |s| || v >= to)
      && Selecting(s, items, next, SelectVisible(s, from, to, selected))
    ensures items == SelectVisible(s, from, to, selected)
  {
    forall j: nat | next <= j < |s|
      ensures SelectVisible(s, from, to, selected)[j] == s[j]
    {
      PastTheEnd(s, next, j, from, to, selected);
    }
    hide VisibleBefore, Visible, SelectVisible, SameShape;
  }

  lemma {:induction false} PastTheEnd(s: seq<Node>, next: nat, j: nat, from: nat, to: nat, selected: bool)
    requires next <= j < |s| && VisibleBefore(s, next) >= to
    ensures SelectVisible(s, from, to, selected)[j] == s[j]
  {
    if next < j { VisibleBeforeMonotone(s, next, j); }
    hide Visible;
  }
}
