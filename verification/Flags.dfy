/** The operations that change only the `unfolded` and `selected` flags, as functions on the list. */
module Flags {
  import opened FlatTree
  import opened Visibility

  /** Same items at the same levels, in the same order. */
  ghost predicate SameShape(s: seq<Node>, t: seq<Node>) {
    |s| == |t| && forall i :: 0 <= i < |s| ==> t[i].itemRef == s[i].itemRef && t[i].level == s[i].level
  }

  lemma {:induction false} FlagsKeepWellFormed(s: seq<Node>, t: seq<Node>)
    requires WellFormed(s) && SameShape(s, t)
    ensures WellFormed(t)
  {
    forall i: nat | i < |t| ensures Climbs(t, i) { assert Climbs(s, i); }
  }

  lemma {:induction false} SameEnd(s: seq<Node>, t: seq<Node>, i: nat)
    requires SameShape(s, t) && i < |s|
    ensures SubtreeEnd(t, i) == SubtreeEnd(s, i)
  {
    var e, e' := SubtreeEnd(s, i), SubtreeEnd(t, i);
    assert e < |s| ==> t[e].level <= t[i].level;
    assert e' < |s| ==> s[e'].level <= s[i].level;
  }

  /** `xfold`: folding a node deselects it and everything below it. */
  function Fold(s: seq<Node>, i: nat, unfolded: bool): (t: seq<Node>)
    requires i < |s|
    ensures SameShape(s, t)
    ensures forall k :: 0 <= k < |s| ==>
              && t[k].unfolded == (if k == i then unfolded else s[k].unfolded)
              && t[k].selected == (s[k].selected && (unfolded || !(i <= k < SubtreeEnd(s, i))))
  {
    var end := SubtreeEnd(s, i);
    seq(|s|, k requires 0 <= k < |s| =>
      s[k].(unfolded := if k == i then unfolded else s[k].unfolded,
            selected := s[k].selected && (unfolded || !(i <= k < end))))
  }

  /** `xfold_all`: folding everything leaves only top-level nodes selected. */
  function FoldAll(s: seq<Node>, unfolded: bool): (t: seq<Node>)
    ensures SameShape(s, t)
    ensures forall k :: 0 <= k < |s| ==>
              t[k].unfolded == unfolded && t[k].selected == (s[k].selected && (unfolded || s[k].level == 0))
  {
    seq(|s|, k requires 0 <= k < |s| =>
      s[k].(unfolded := unfolded, selected := s[k].selected && (unfolded || s[k].level == 0)))
  }

  /** `xfold_recursive`: as `Fold` for the whole subtree, but the root itself stays selected. */
  function FoldRecursive(s: seq<Node>, i: nat, unfolded: bool): (t: seq<Node>)
    requires i < |s|
    ensures SameShape(s, t)
    ensures forall k :: 0 <= k < |s| ==>
              && t[k].unfolded == (if i <= k < SubtreeEnd(s, i) then unfolded else s[k].unfolded)
              && t[k].selected == (s[k].selected && (unfolded || !(i < k < SubtreeEnd(s, i))))
  {
    var end := SubtreeEnd(s, i);
    seq(|s|, k requires 0 <= k < |s| =>
      s[k].(unfolded := if i <= k < end then unfolded else s[k].unfolded,
            selected := s[k].selected && (unfolded || !(i < k < end))))
  }

  /** The visible nodes with visible index in [from, to) get `selected`, nobody else changes. */
  ghost function SelectVisible(s: seq<Node>, from: nat, to: nat, selected: bool): (t: seq<Node>)
    ensures SameShape(s, t)
    ensures forall k :: 0 <= k < |s| ==>
              && t[k].unfolded == s[k].unfolded
              && t[k].selected == if Visible(s, k) && from <= VisibleBefore(s, k) < to then selected else s[k].selected
  {
    seq(|s|, k requires 0 <= k < |s| =>
      s[k].(selected := if Visible(s, k) && from <= VisibleBefore(s, k) < to then selected else s[k].selected))
  }
}
