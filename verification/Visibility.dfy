/** Which nodes are shown, and the index arithmetic on visible nodes. */
module Visibility {
  import opened Options
  import opened FlatTree
  import opened Rearrange
  import opened Location

  /** Every proper ancestor of the node is unfolded. */
  ghost predicate Visible(s: seq<Node>, i: nat)
    requires i < |s|
  {
    forall a: nat :: a < i && InSubtree(s, a, i) ==> s[a].unfolded
  }

  /** The visible index of position `n`: how many nodes before it are visible. */
  ghost function VisibleBefore(s: seq<Node>, n: nat): (v: nat)
    requires n <= |s|
    ensures v <= n
  {
    if n == 0 then 0 else VisibleBefore(s, n - 1) + if Visible(s, n - 1) then 1 else 0
  }

  /** The visible node closest before `i`, or -1. */
  ghost function PrevVisible(s: seq<Node>, i: nat): (p: int)
    requires i <= |s|
    ensures -1 <= p < i
    ensures p >= 0 ==> Visible(s, p)
    ensures forall k: nat :: p < k < i ==> !Visible(s, k)
  {
    if i == 0 then -1 else if Visible(s, i - 1) then i - 1 else PrevVisible(s, i - 1)
  }

  // ----- walking over visible nodes

  function NextVisible(s: seq<Node>, i: nat): (j: nat)
    requires i < |s|
    ensures i < j <= |s|
  {
    if s[i].unfolded then i + 1 else SubtreeEnd(s, i)
  }

  /** From a visible node the walk reaches the very next visible one. */
  lemma NextVisibleExact(s: seq<Node>, i: nat)
    requires i < |s| && Visible(s, i)
    ensures forall k: nat :: i < k < NextVisible(s, i) ==> !Visible(s, k)
    ensures NextVisible(s, i) < |s| ==> Visible(s, NextVisible(s, i))
  {
    var j := NextVisible(s, i);
    forall k: nat | i < k < j
      ensures !Visible(s, k)
    {
      SubtreeIsRange(s, i, k);
    }
    if j < |s| {
      forall a: nat | a < j && InSubtree(s, a, j)
        ensures s[a].unfolded
      {
        if a < i { assert InSubtree(s, a, i); }
      }
    }
  }

  /** The `n`-th node of the walk that starts at `start`. */
  function NthFrom(s: seq<Node>, start: nat, n: nat): (r: Option<nat>)
    requires start <= |s|
    ensures r.Some? ==> start <= r.value < |s|
    decreases n
  {
    if start == |s| then None
    else if n == 0 then Some(start)
    else NthFrom(s, NextVisible(s, start), n - 1)
  }

  function ToDisplayed(s: seq<Node>, v: nat): (r: Option<nat>)
    ensures r.Some? ==> r.value < |s|
  {
    NthFrom(s, 0, v)
  }

  lemma {:induction false} VisibleBeforeSkip(s: seq<Node>, i: nat, j: nat)
    requires i <= j <= |s| && forall k: nat :: i <= k < j ==> !Visible(s, k)
    ensures VisibleBefore(s, j) == VisibleBefore(s, i)
  {
    if i < j { VisibleBeforeSkip(s, i, j - 1); }
  }

  lemma {:induction false} VisibleBeforeStep(s: seq<Node>, i: nat)
    requires i < |s| && Visible(s, i)
    ensures VisibleBefore(s, NextVisible(s, i)) == VisibleBefore(s, i) + 1
  {
    NextVisibleExact(s, i);
    VisibleBeforeSkip(s, i + 1, NextVisible(s, i));
  }

  lemma {:induction false} VisibleBeforeMonotone(s: seq<Node>, i: nat, j: nat)
    requires i < j <= |s|
    ensures VisibleBefore(s, i) + (if Visible(s, i) then 1 else 0) <= VisibleBefore(s, j)
  {
    if i + 1 < j { VisibleBeforeMonotone(s, i, j - 1); }
  }

  lemma {:induction false} NthFromExact(s: seq<Node>, start: nat, n: nat, i: nat)
    requires start <= |s| && (start < |s| ==> Visible(s, start))
    ensures NthFrom(s, start, n) == Some(i) <==>
              start <= i < |s| && Visible(s, i) && VisibleBefore(s, i) == VisibleBefore(s, start) + n
    decreases n
  {
    hide Visible, NextVisible, VisibleBefore;
    if start < |s| {
      if start < i < |s| { VisibleBeforeMonotone(s, start, i); }
      if n > 0 {
        NextVisibleExact(s, start);
        VisibleBeforeStep(s, start);
        NthFromExact(s, NextVisible(s, start), n - 1, i);
      }
    }
  }

  /** Looking up visible index `v` finds the node that has exactly `v` visible nodes before it. */
  lemma {:induction false} ToDisplayedExact(s: seq<Node>, v: nat, i: nat)
    ensures ToDisplayed(s, v) == Some(i) <==> i < |s| && Visible(s, i) && VisibleBefore(s, i) == v
  {
    NthFromExact(s, 0, v, i);
  }

  /** ... and finds nothing exactly when there are not that many visible nodes. */
  lemma {:induction false} ToDisplayedNone(s: seq<Node>, start: nat, n: nat)
    requires start <= |s| && (start < |s| ==> Visible(s, start))
    ensures NthFrom(s, start, n) == None <==> VisibleBefore(s, |s|) <= VisibleBefore(s, start) + n
    decreases n
  {
    if start < |s| {
      VisibleBeforeMonotone(s, start, |s|);
      if n > 0 {
        NextVisibleExact(s, start);
        VisibleBeforeStep(s, start);
        ToDisplayedNone(s, NextVisible(s, start), n - 1);
      }
    }
  }

  /** Visibility is decided by what is stored at or before a node. */
  lemma {:induction false} VisiblePrefix(s: seq<Node>, t: seq<Node>, n: nat)
    requires n <= |s| && n <= |t| && forall k :: 0 <= k < n ==> s[k] == t[k]
    ensures forall i: nat :: i < n ==> (Visible(s, i) <==> Visible(t, i))
    ensures VisibleBefore(s, n) == VisibleBefore(t, n)
  {
    forall i: nat | i < n
      ensures Visible(s, i) <==> Visible(t, i)
    {
      forall a: nat | a < i
        ensures InSubtree(s, a, i) <==> InSubtree(t, a, i)
      {
      }
    }
    if n > 0 { VisiblePrefix(s, t, n - 1); }
  }

  // ----- levels offered when inserting at a visible position

  /** Half-open, as Rust's `Range<u8>`. */
  datatype LevelRange = LevelRange(start: Level, end: Level) {
    predicate Contains(level: Level) { start <= level < end }
  }

  function ValidLevelsVisible(s: seq<Node>, v: nat, f: ItemRef -> bool): LevelRange {
    if v == 0 then LevelRange(0, 1)
    else
      match ToDisplayed(s, v - 1)
      case None => LevelRange(0, 1)
      case Some(i) =>
        var end := SaturatingAdd(s[i].level, if f(s[i].itemRef) && s[i].unfolded then 2 else 1);
        match ToDisplayed(s, v)
        case None => LevelRange(0, end)
        case Some(j) => LevelRange(s[j].level, end)
  }

  /** Every node that already has children is one that may have children. */
  ghost predicate ParentsAllowed(s: seq<Node>, f: ItemRef -> bool) {
    forall i: nat, k: nat :: i < k && InSubtree(s, i, k) ==> f(s[i].itemRef)
  }

  /** The list position that corresponds to "at visible index `v`"; past the last one it is the end. */
  function InsertionPoint(s: seq<Node>, v: nat): nat {
    match ToDisplayed(s, v)
    case None => |s|
    case Some(i) => i
  }

  /** The node inserted at `pos` passes the level check, is shown as visible item `v`, and hangs
      under a node that may have children (or at the top). */
  ghost predicate GoodInsertion(s: seq<Node>, pos: nat, node: Node, v: nat, f: ItemRef -> bool)
    requires pos <= |s|
  {
    var t := Splice(s, pos, [node]);
    && CheckLocation(s, TargetPosition(pos, node.level)).Fine?
    && Visible(t, pos)
    && VisibleBefore(t, pos) == v
    && (ParentOf(t, pos) == -1 || f(t[ParentOf(t, pos)].itemRef))
  }

  lemma {:induction false} InsertionPointStep(s: seq<Node>, v: nat, i: nat)
    requires ToDisplayed(s, v) == Some(i)
    ensures i < |s| && Visible(s, i)
    ensures InsertionPoint(s, v + 1) == NextVisible(s, i)
    ensures VisibleBefore(s, NextVisible(s, i)) == v + 1
  {
    hide Visible, NextVisible, NthFrom;
    ToDisplayedExact(s, v, i);
    var j := NextVisible(s, i);
    NextVisibleExact(s, i);
    VisibleBeforeStep(s, i);
    if j < |s| { ToDisplayedExact(s, v + 1, j); }
    else { ToDisplayedNone(s, 0, v + 1); }
  }

  /** Ancestors of what is inserted after visible node `i`, no deeper than it, are ancestors of `i`. */
  lemma {:induction false} AncestorBeside(s: seq<Node>, i: nat, node: Node, a: nat)
    requires i < |s| && node.level <= s[i].level && a < NextVisible(s, i)
    requires InSubtree(Splice(s, NextVisible(s, i), [node]), a, NextVisible(s, i))
    ensures a < i && InSubtree(s, a, i)
  {
    var pos := NextVisible(s, i);
    var t := Splice(s, pos, [node]);
    assert t[pos] == node && t[i] == s[i] && t[a] == s[a];
    forall k | a < k <= i
      ensures s[k].level > s[a].level
    {
      assert t[k] == s[k];
    }
  }

  /** Inserted after visible node `i`, no deeper than it: shown, and under an ancestor of `i`. */
  lemma {:induction false} InsertBeside(s: seq<Node>, i: nat, node: Node, f: ItemRef -> bool)
    requires i < |s| && Visible(s, i) && ParentsAllowed(s, f) && node.level <= s[i].level
    ensures var pos := NextVisible(s, i);
            var t := Splice(s, pos, [node]);
            && Visible(t, pos)
            && (ParentOf(t, pos) == -1 || f(t[ParentOf(t, pos)].itemRef))
  {
    var pos := NextVisible(s, i);
    var t := Splice(s, pos, [node]);
    forall a: nat | a < pos && InSubtree(t, a, pos)
      ensures t[a].unfolded && f(t[a].itemRef)
    {
      AncestorBeside(s, i, node, a);
      assert t[a] == s[a];
    }
    var p := ParentOf(t, pos);
    if p >= 0 { SubtreeFollowsParents(t, p, pos); }
  }

  /** Inserted directly below unfolded visible node `i`. */
  lemma {:induction false} InsertBelow(s: seq<Node>, i: nat, node: Node)
    requires i < |s| && Visible(s, i) && s[i].unfolded && node.level == s[i].level + 1
    ensures var t := Splice(s, i + 1, [node]);
            Visible(t, i + 1) && ParentOf(t, i + 1) == i
  {
    var t := Splice(s, i + 1, [node]);
    assert t[i + 1] == node && t[i] == s[i];
    forall a: nat | a < i + 1 && InSubtree(t, a, i + 1)
      ensures t[a].unfolded
    {
      if a < i {
        assert InSubtree(s, a, i) by {
          forall k | a < k <= i ensures s[k].level > s[a].level { assert t[k] == s[k]; }
        }
      }
    }
    LastBelowUnique(t, i + 1, node.level, i);
  }

  /** Inserted behind a folded node but deeper than it: swallowed. */
  lemma {:induction false} InsertHidden(s: seq<Node>, i: nat, node: Node)
    requires i < |s| && !s[i].unfolded && node.level > s[i].level
    ensures !Visible(Splice(s, SubtreeEnd(s, i), [node]), SubtreeEnd(s, i))
  {
    var pos := SubtreeEnd(s, i);
    var t := Splice(s, pos, [node]);
    forall k | i < k <= pos
      ensures t[k].level > t[i].level
    {
      if k < pos { assert t[k] == s[k]; }
    }
    assert InSubtree(t, i, pos);
  }

  /** After visible node `i`, the good levels are those from the next node's up to one below `i`. */
  lemma {:induction false} GoodLevels(s: seq<Node>, i: nat, node: Node, f: ItemRef -> bool)
    requires WellFormed(s) && i < |s| && Visible(s, i) && ParentsAllowed(s, f)
    ensures var pos := NextVisible(s, i);
            var t := Splice(s, pos, [node]);
            (&& Fits(s, pos, node.level) && Visible(t, pos)
             && (ParentOf(t, pos) == -1 || f(t[ParentOf(t, pos)].itemRef)))
            <==>
            (&& node.level <= s[i].level + (if f(s[i].itemRef) && s[i].unfolded then 1 else 0)
             && (pos < |s| ==> node.level >= s[pos].level))
  {
    var pos, level := NextVisible(s, i), node.level;
    if level <= s[i].level {
      InsertBeside(s, i, node, f);
    } else if !s[i].unfolded {
      InsertHidden(s, i, node);
    } else if level == s[i].level + 1 {
      InsertBelow(s, i, node);
      assert Splice(s, pos, [node])[i] == s[i];
    }
  }

  /** The offered range, in terms of the visible node `i` before the insertion point. */
  lemma {:induction false} OfferedAfter(s: seq<Node>, v: nat, i: nat, f: ItemRef -> bool, level: Level)
    requires v > 0 && ToDisplayed(s, v - 1) == Some(i)
    ensures var pos := InsertionPoint(s, v);
            ValidLevelsVisible(s, v, f).Contains(level) <==>
              && level < 255
              && level <= s[i].level + (if f(s[i].itemRef) && s[i].unfolded then 1 else 0)
              && (pos < |s| ==> level >= s[pos].level)
  {
  }

  lemma {:induction false} GoodInsertionParts(s: seq<Node>, pos: nat, node: Node, v: nat, f: ItemRef -> bool)
    requires WellFormed(s) && pos <= |s| && VisibleBefore(s, pos) == v
    ensures var t := Splice(s, pos, [node]);
            GoodInsertion(s, pos, node, v, f) <==>
              && Fits(s, pos, node.level) && Visible(t, pos)
              && (ParentOf(t, pos) == -1 || f(t[ParentOf(t, pos)].itemRef))
  {
    CheckLocationFits(s, TargetPosition(pos, node.level));
    VisiblePrefix(s, Splice(s, pos, [node]), pos);
  }

  lemma {:induction false} ValidLevelsAtTop(s: seq<Node>, f: ItemRef -> bool, node: Node)
    requires WellFormed(s)
    ensures InsertionPoint(s, 0) == 0
    ensures ValidLevelsVisible(s, 0, f).Contains(node.level) <==> node.level < 255 && GoodInsertion(s, 0, node, 0, f)
  {
    GoodInsertionParts(s, 0, node, 0, f);
    if |s| > 0 { assert Climbs(s, 0); }
  }

  /**
   The offered levels are exactly the good ones, save that a half-open range of bytes can never
   offer level 255 (see `Level255NeverOffered`).
   */
  lemma {:induction false} ValidLevelsExact(s: seq<Node>, v: nat, f: ItemRef -> bool, node: Node)
    requires WellFormed(s) && ParentsAllowed(s, f) && v <= VisibleBefore(s, |s|)
    ensures ValidLevelsVisible(s, v, f).Contains(node.level) <==>
              node.level < 255 && GoodInsertion(s, InsertionPoint(s, v), node, v, f)
  {
    hide *;
    if v == 0 {
      ValidLevelsAtTop(s, f, node);
    } else {
      PreviousShown(s, v);
      var i := ToDisplayed(s, v - 1).value;
      InsertionPointStep(s, v - 1, i);
      GoodInsertionParts(s, InsertionPoint(s, v), node, v, f);
      GoodLevels(s, i, node, f);
      OfferedAfter(s, v, i, f, node.level);
    }
  }

  lemma {:induction false} PreviousShown(s: seq<Node>, v: nat)
    requires 0 < v <= VisibleBefore(s, |s|)
    ensures ToDisplayed(s, v - 1).Some?
  {
    ToDisplayedNone(s, 0, v - 1);
  }

  /** A chain of 256 nodes: level 255 would be a good insertion at its end, yet it is not offered. */
  lemma {:induction false} Level255NeverOffered(f: ItemRef -> bool)
    requires forall r: ItemRef :: f(r)
    ensures var s := seq(256, k requires 0 <= k < 256 => Node(k, k, true, false));
            var node := Node(256, 255, true, false);
            && WellFormed(s) && ParentsAllowed(s, f)
            && InsertionPoint(s, 256) == 256
            && GoodInsertion(s, 256, node, 256, f)
            && !ValidLevelsVisible(s, 256, f).Contains(255)
  {
    var s := seq(256, k requires 0 <= k < 256 => Node(k, k, true, false));
    var node := Node(256, 255, true, false);
    AllUnfoldedAllVisible(s, 256);
    ToDisplayedNone(s, 0, 256);
    ToDisplayedExact(s, 255, 255);
    InsertBeside(s, 255, node, f);
    VisiblePrefix(s, Splice(s, 256, [node]), 256);
  }

  lemma {:induction false} AllUnfoldedAllVisible(s: seq<Node>, n: nat)
    requires n <= |s| && forall k :: 0 <= k < |s| ==> s[k].unfolded
    ensures VisibleBefore(s, n) == n
    ensures forall i: nat :: i < |s| ==> Visible(s, i)
  {
    if n > 0 { AllUnfoldedAllVisible(s, n - 1); }
  }
}
