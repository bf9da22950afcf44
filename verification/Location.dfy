/** Where a node may be put: the level check, and what makes it the right one. */
module Location {
  import opened FlatTree
  import opened Rearrange

  datatype MoveError = InvalidIndex | InvalidLevel | CircularMove | LevelTooDeep

  datatype TargetPosition = TargetPosition(before: nat, level: Level)

  datatype Check = Fine | Failed(error: MoveError)

  function CheckLocation(s: seq<Node>, target: TargetPosition): (c: Check)
    ensures c == Failed(InvalidIndex) <==> target.before > |s|
  {
    if target.before > |s| then Failed(InvalidIndex)
    else
      var (low, high) :=
        if target.before == 0 then
          (0, 0)
        else
          var before := s[target.before - 1].level;
          if target.before == |s| then
            (0, SaturatingAdd(before, 1))
          else
            var after := s[target.before].level;
            if after > before then (after, after)
            else if after == before then (before, SaturatingAdd(after, 1))
            else (after, SaturatingAdd(before, 1));
      if low <= target.level <= high then Fine else Failed(InvalidLevel)
  }

  lemma CheckLocationFits(s: seq<Node>, target: TargetPosition)
    requires WellFormed(s)
    ensures CheckLocation(s, target).Fine? <==> Fits(s, target.before, target.level)
  {
    if target.before < |s| {
      assert Climbs(s, target.before);
    }
  }

  /** No node of `s` gets another parent when `node` is inserted at `pos`. */
  ghost predicate KeepsAllParents(s: seq<Node>, pos: nat, node: Node)
    requires pos <= |s|
  {
    forall i: nat :: i < |s| ==>
      ParentOf(Splice(s, pos, [node]), Shifted(i, pos, 1)) == Shifted(ParentOf(s, i), pos, 1)
  }

  /** The level check accepts exactly the harmless insertions, for any item inserted there. */
  lemma {:induction false} CheckLocationExact(s: seq<Node>, target: TargetPosition, node: Node)
    requires WellFormed(s) && target.before <= |s| && node.level == target.level
    ensures CheckLocation(s, target).Fine? <==>
              WellFormed(Splice(s, target.before, [node])) && KeepsAllParents(s, target.before, node)
  {
    var pos, t := target.before, Splice(s, target.before, [node]);
    CheckLocationFits(s, target);
    if Fits(s, pos, node.level) {
      SpliceKeepsWellFormed(s, pos, [node], node.level);
      forall i: nat | i < |s|
        ensures ParentOf(t, Shifted(i, pos, 1)) == Shifted(ParentOf(s, i), pos, 1)
      {
        SpliceKeepsParent(s, pos, [node], node.level, i);
      }
    } else if WellFormed(t) {
      assert t[pos] == node;
      assert Climbs(t, pos);
      assert t[pos + 1] == s[pos];
      LastBelowUnique(t, pos + 1, s[pos].level, pos);
      assert ParentOf(t, Shifted(pos, pos, 1)) != Shifted(ParentOf(s, pos), pos, 1);
    }
  }
}
