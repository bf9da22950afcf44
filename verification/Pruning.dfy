/** What removing whole subtrees, or dissolving one node, does to the rest of the tree. */
module Pruning {
  import opened FlatTree
  import opened Rearrange

  // ----- whole subtrees

  /** Node `i` has an ancestor-or-self that is one of the roots. */
  ghost predicate Covered(s: seq<Node>, root: nat -> bool, i: nat) {
    exists a: nat :: root(a) && InSubtree(s, a, i)
  }

  ghost function Spared(s: seq<Node>, root: nat -> bool): nat -> bool {
    (i: nat) => !Covered(s, root, i)
  }

  ghost function Uncovered(s: seq<Node>, root: nat -> bool): (idx: seq<nat>)
    ensures Picks(idx, |s|)
    ensures forall i: nat :: i in idx <==> i < |s| && !Covered(s, root, i)
  {
    PositionsWhere(|s|, Spared(s, root))
  }

  ghost function Lost(s: seq<Node>, root: nat -> bool): nat -> bool {
    (i: nat) => Covered(s, root, i)
  }

  ghost function CoveredPositions(s: seq<Node>, root: nat -> bool): (idx: seq<nat>)
    ensures Picks(idx, |s|)
    ensures forall i: nat :: i in idx <==> i < |s| && Covered(s, root, i)
  {
    PositionsWhere(|s|, Lost(s, root))
  }

  /** The descendants of a removed node are removed too, so survivors keep their parents. */
  lemma UncoveredIsParentClosed(s: seq<Node>, root: nat -> bool)
    ensures ParentClosed(s, Uncovered(s, root))
  {
    var idx := Uncovered(s, root);
    forall k | 0 <= k < |idx| && ParentOf(s, idx[k]) >= 0
      ensures ParentOf(s, idx[k]) in idx
    {
      var p: nat := ParentOf(s, idx[k]);
      assert idx[k] in idx;
      forall a: nat | root(a)
        ensures !InSubtree(s, a, p)
      {
        if a <= p { SubtreeFollowsParents(s, a, idx[k]); }
      }
    }
  }

  /** Removing whole subtrees keeps the invariant and the parent of every node that stays. */
  lemma PruningKeepsStructure(s: seq<Node>, root: nat -> bool)
    requires WellFormed(s)
    ensures var kept := Uncovered(s, root);
            var t := Select(s, kept);
            && WellFormed(t)
            && forall k: nat :: k < |kept| ==>
                 ParentOf(s, kept[k]) == if ParentOf(t, k) == -1 then -1 else kept[ParentOf(t, k)]
  {
    UncoveredIsParentClosed(s, root);
    var kept := Uncovered(s, root);
    SelectKeepsWellFormed(s, kept);
    forall k: nat | k < |kept|
      ensures ParentOf(s, kept[k]) == if ParentOf(Select(s, kept), k) == -1 then -1
          else kept[ParentOf(Select(s, kept), k)]
    {
      SelectKeepsParent(s, kept, k);
    }
  }

  lemma PruningKeepsWellFormed(s: seq<Node>, root: nat -> bool)
    requires WellFormed(s)
    ensures WellFormed(Select(s, Uncovered(s, root)))
  {
    PruningKeepsStructure(s, root);
  }

  // ----- reading a selection off the list, range by range

  ghost function Taken(s: seq<Node>, keep: nat -> bool, n: nat): seq<Node>
    requires n <= |s|
  {
    Select(s, PositionsWhere(n, keep))
  }

  lemma {:induction false} TakeRange(s: seq<Node>, keep: nat -> bool, lo: nat, hi: nat)
    requires lo <= hi <= |s| && forall i: nat :: lo <= i < hi ==> keep(i)
    ensures Taken(s, keep, hi) == Taken(s, keep, lo) + s[lo..hi]
  {
    if lo < hi {
      TakeRange(s, keep, lo, hi - 1);
      assert s[lo..hi] == s[lo..hi - 1] + [s[hi - 1]];
      assert Taken(s, keep, hi) == Taken(s, keep, hi - 1) + [s[hi - 1]];
    }
  }

  lemma {:induction false} SkipRange(s: seq<Node>, keep: nat -> bool, lo: nat, hi: nat)
    requires lo <= hi <= |s| && forall i: nat :: lo <= i < hi ==> !keep(i)
    ensures PositionsWhere(hi, keep) == PositionsWhere(lo, keep)
  {
    if lo < hi {
      SkipRange(s, keep, lo, hi - 1);
    }
  }

  lemma {:induction false} CutRange(s: seq<Node>, keep: nat -> bool, lo: nat, hi: nat)
    requires lo <= hi <= |s| && forall i: nat :: i < |s| ==> (keep(i) <==> !(lo <= i < hi))
    ensures Taken(s, keep, |s|) == s[..lo] + s[hi..]
  {
    SliceEnds(s, lo, hi);
    TakeRange(s, keep, 0, lo);
    assert Taken(s, keep, 0) == [];
    SkipRange(s, keep, lo, hi);
    hide PositionsWhere, Select;
    TakeRange(s, keep, hi, |s|);
  }

  lemma SliceEnds(s: seq<Node>, lo: nat, hi: nat)
    requires lo <= |s| && hi <= |s|
    ensures s[0..lo] == s[..lo] == [] + s[..lo] && s[hi..|s|] == s[hi..]
  {
  }

  ghost function Matching(s: seq<Node>, f: Node -> bool): nat -> bool {
    (a: nat) => a < |s| && f(s[a])
  }

  /** The list without the subtree that starts at `i`. */
  function Cut(s: seq<Node>, i: nat): seq<Node>
    requires i < |s|
  {
    s[..i] + s[SubtreeEnd(s, i)..]
  }

  ghost function Only(i: nat): nat -> bool {
    (a: nat) => a == i
  }

  lemma CoveredByOne(s: seq<Node>, i: nat, k: nat)
    requires i < |s|
    ensures Covered(s, Only(i), k) <==> i <= k < SubtreeEnd(s, i)
  {
    SubtreeIsRange(s, i, k);
    assert Only(i)(i);
  }

  /** Cutting out one subtree is keeping the nodes it does not cover. */
  lemma {:induction false} RemovedSubtree(s: seq<Node>, i: nat)
    requires i < |s|
    ensures Cut(s, i) == Select(s, Uncovered(s, Only(i)))
  {
    forall k: nat
      ensures Spared(s, Only(i))(k) <==> !(i <= k < SubtreeEnd(s, i))
    {
      CoveredByOne(s, i, k);
    }
    CutRange(s, Spared(s, Only(i)), i, SubtreeEnd(s, i));
  }

  // ----- dissolving one node

  /** The nodes of `s` with all levels moved by `delta`. */
  function Shift(s: seq<Node>, delta: int): (t: seq<Node>)
    requires forall k :: 0 <= k < |s| ==> 0 <= s[k].level + delta < 256
    ensures |t| == |s|
    ensures forall k :: 0 <= k < |s| ==> t[k] == s[k].(level := s[k].level + delta)
  {
    seq(|s|, k requires 0 <= k < |s| => s[k].(level := s[k].level + delta))
  }

  /** The node at `i` gone, everything below it one level further out. */
  function Dissolve(s: seq<Node>, i: nat): (t: seq<Node>)
    requires i < |s|
    ensures |t| == |s| - 1
  {
    var end := SubtreeEnd(s, i);
    s[..i] + Shift(s[i + 1..end], -1) + s[end..]
  }

  /** Position in the old list of the node now at `k`. */
  function Undissolved(i: nat, k: int): int {
    if k < i then k else k + 1
  }

  lemma DissolveNode(s: seq<Node>, i: nat, k: nat)
    requires i < |s| && k < |s| - 1
    ensures var t, k' := Dissolve(s, i), Undissolved(i, k);
            t[k] == if i <= k < SubtreeEnd(s, i) - 1 then s[k'].(level := s[k'].level - 1) else s[k']
  {
  }

  /**
   The children of the dissolved node move up to its parent; everybody else keeps theirs.  The descendants are one
   level further out, and nothing else changes.
   */
  lemma {:induction false} DissolveKeepsStructure(s: seq<Node>, i: nat)
    requires WellFormed(s) && i < |s|
    ensures WellFormed(Dissolve(s, i))
    ensures forall k: nat :: k < |s| - 1 ==>
              var x := s[if k < i then k else k + 1];
              Dissolve(s, i)[k] == if InSubtree(s, i, k + 1) && k >= i then x.(level := x.level - 1) else x
    ensures forall k: nat :: k < |s| - 1 ==>
              var p := ParentOf(s, Undissolved(i, k));
              Undissolved(i, ParentOf(Dissolve(s, i), k)) == if p == i then ParentOf(s, i) else p
  {
    var t := Dissolve(s, i);
    forall k: nat | k < |s| - 1
      ensures var x := s[if k < i then k else k + 1];
              t[k] == if InSubtree(s, i, k + 1) && k >= i then x.(level := x.level - 1) else x
    {
      hide Dissolve, InSubtree, Climbs;
      DissolveNode(s, i, k);
      SubtreeIsRange(s, i, k + 1);
    }
    forall k: nat | k < |t|
      ensures Climbs(t, k)
    {
      DissolveClimbs(s, i, k);
    }
    forall k: nat | k < |s| - 1
      ensures var p := ParentOf(s, Undissolved(i, k));
              Undissolved(i, ParentOf(t, k)) == if p == i then ParentOf(s, i) else p
    {
      DissolveParent(s, i, k);
    }
  }

  lemma {:induction false} DissolveClimbs(s: seq<Node>, i: nat, k: nat)
    requires WellFormed(s) && i < |s| && k < |s| - 1
    ensures Climbs(Dissolve(s, i), k)
  {
    hide Dissolve;
    assert Climbs(s, Undissolved(i, k));
    assert Climbs(s, i);
    DissolveNode(s, i, k);
    if k > 0 { DissolveNode(s, i, k - 1); }
  }

  lemma {:induction false} DissolveParent(s: seq<Node>, i: nat, k: nat)
    requires WellFormed(s) && i < |s| && k < |s| - 1
    ensures var p := ParentOf(s, Undissolved(i, k));
            Undissolved(i, ParentOf(Dissolve(s, i), k)) == if p == i then ParentOf(s, i) else p
  {
    hide Dissolve, ParentOf, SubtreeEnd, Climbs, WellFormed, LastBelow;
    var t, k', end := Dissolve(s, i), Undissolved(i, k), SubtreeEnd(s, i);
    var p := ParentOf(s, k');
    ParentLevel(s, k');
    ParentLevel(s, i);
    DissolveNode(s, i, k);
    var q := if p == i then ParentOf(s, i) else p;
    var q' := if q < i then q else q - 1;
    if q' >= 0 { DissolveNode(s, i, q'); }
    forall j | q' < j < k
      ensures t[j].level >= t[k].level
    {
      DissolveNode(s, i, j);
    }
    LastBelowUnique(t, k, t[k].level, q');
  }
}
