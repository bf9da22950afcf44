/**
 The displayed-item forest as it is stored: one flat list of nodes in preorder, where the
 nesting `level` of each node is the only trace of the tree structure.  Parents and subtrees are
 implicit; this module gives them a meaning that does not depend on how the operations compute.
 */
module FlatTree {

  /** Rust's `u8`; a saturating or overflowing addition is written out where it happens. */
  type Level = x: int | 0 <= x < 256

  type ItemRef = nat

  datatype Node = Node(itemRef: ItemRef, level: Level, unfolded: bool, selected: bool)

  function SaturatingAdd(a: Level, b: nat): Level {
    if a + b > 255 then 255 else a + b
  }

  // ----- the documented invariant

  /** The level of a node is at most one deeper than that of the node stored before it. */
  ghost predicate Climbs(s: seq<Node>, i: nat)
    requires i < |s|
  {
    s[i].level <= if i == 0 then 0 else s[i - 1].level + 1
  }

  ghost predicate WellFormed(s: seq<Node>) {
    forall i: nat :: i < |s| ==> Climbs(s, i)
  }

  // ----- subtrees

  /** Node `i` is `a` itself or one of its descendants. */
  ghost predicate InSubtree(s: seq<Node>, a: int, i: int) {
    0 <= a <= i < |s| && forall k :: a < k <= i ==> s[k].level > s[a].level
  }

  /** First position at or after `k` whose level is at most `level`. */
  function EndFrom(s: seq<Node>, k: nat, level: int): (end: nat)
    requires k <= |s|
    ensures k <= end <= |s|
    ensures forall j :: k <= j < end ==> s[j].level > level
    ensures end < |s| ==> s[end].level <= level
    decreases |s| - k
  {
    if k == |s| || s[k].level <= level then k else EndFrom(s, k + 1, level)
  }

  /** The index past the end of the subtree that starts at `i`. */
  function SubtreeEnd(s: seq<Node>, i: nat): (end: nat)
    requires i < |s|
    ensures i < end <= |s|
    ensures forall j :: i < j < end ==> s[j].level > s[i].level
    ensures end < |s| ==> s[end].level <= s[i].level
  {
    EndFrom(s, i + 1, s[i].level)
  }

  /** The half-open index range computed by `SubtreeEnd` is exactly the set of descendants. */
  lemma SubtreeIsRange(s: seq<Node>, a: nat, i: int)
    requires a < |s|
    ensures InSubtree(s, a, i) <==> a <= i < SubtreeEnd(s, a)
  {
    var end := SubtreeEnd(s, a);
    assert end < |s| ==> !(s[end].level > s[a].level);
  }

  // ----- parents

  /** The nearest position before `i` whose level is below `level`, or -1. */
  function LastBelow(s: seq<Node>, i: nat, level: int): (p: int)
    requires i <= |s|
    ensures -1 <= p < i
    ensures p >= 0 ==> s[p].level < level
    ensures forall k :: p < k < i ==> s[k].level >= level
  {
    if i == 0 then -1
    else if s[i - 1].level < level then i - 1
    else LastBelow(s, i - 1, level)
  }

  lemma LastBelowUnique(s: seq<Node>, i: nat, level: int, p: int)
    requires i <= |s| && -1 <= p < i
    requires p >= 0 ==> s[p].level < level
    requires forall k :: p < k < i ==> s[k].level >= level
    ensures LastBelow(s, i, level) == p
  {
    var q := LastBelow(s, i, level);
    assert p >= 0 ==> !(s[p].level >= level);
    assert q >= 0 ==> !(s[q].level >= level);
  }

  /** The position of the parent of node `i`, or -1 for a top-level node. */
  function ParentOf(s: seq<Node>, i: nat): (p: int)
    requires i < |s|
    ensures -1 <= p < i
    ensures p >= 0 ==> s[p].level < s[i].level
    ensures forall k :: p < k < i ==> s[k].level >= s[i].level
  {
    LastBelow(s, i, s[i].level)
  }

  /** In a well-formed list the search stops exactly one level up, and at -1 only for level 0. */
  lemma LastBelowLevel(s: seq<Node>, i: nat, level: int)
    requires WellFormed(s) && i <= |s| && level >= 0
    requires if i == 0 then level == 0 else level <= s[i - 1].level + 1
    ensures var p := LastBelow(s, i, level);
            if level == 0 then p == -1 else p >= 0 && s[p].level == level - 1
  {
    if i > 0 && s[i - 1].level >= level {
      assert Climbs(s, i - 1);
      LastBelowLevel(s, i - 1, level);
    }
  }

  /** The level of every node is its depth: one more than its parent's, 0 at the top. */
  lemma ParentLevel(s: seq<Node>, i: nat)
    requires WellFormed(s) && i < |s|
    ensures ParentOf(s, i) == -1 <==> s[i].level == 0
    ensures ParentOf(s, i) >= 0 ==> s[ParentOf(s, i)].level == s[i].level - 1
  {
    assert Climbs(s, i);
    LastBelowLevel(s, i, s[i].level);
  }

  /** Subtree membership is reachability along parents. */
  lemma {:induction false} SubtreeFollowsParents(s: seq<Node>, a: nat, i: nat)
    requires a < i < |s|
    ensures InSubtree(s, a, i) <==> ParentOf(s, i) >= a && InSubtree(s, a, ParentOf(s, i))
  {
    var p := ParentOf(s, i);
    if p >= a && InSubtree(s, a, p) {
      forall k | a < k <= i
        ensures s[k].level > s[a].level
      {
        if k > p && a < p { assert s[p].level > s[a].level; }
      }
    }
    assert p < a ==> s[a].level >= s[i].level;
  }

  /** The items of a list of nodes, in order. */
  function Refs(s: seq<Node>): (r: seq<ItemRef>)
    ensures |r| == |s|
    ensures forall k :: 0 <= k < |s| ==> r[k] == s[k].itemRef
  {
    seq(|s|, k requires 0 <= k < |s| => s[k].itemRef)
  }
}
