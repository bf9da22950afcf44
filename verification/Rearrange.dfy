/**
 Two ways of changing a flat tree that leave every parent relation intact: keeping a selection of
 nodes that is closed under parents, and splicing a block of whole subtrees in at a fitting level.
 All structural operations of the tree are combinations of these two.
 */
module Rearrange {
  import opened FlatTree

  // ----- keeping some of the nodes

  /** `idx` lists distinct positions below `n` in increasing order. */
  ghost predicate Picks(idx: seq<nat>, n: nat) {
    && (forall k :: 0 <= k < |idx| ==> idx[k] < n)
    && (forall j, k :: 0 <= j < k < |idx| ==> idx[j] < idx[k])
  }

  ghost function Select(s: seq<Node>, idx: seq<nat>): (t: seq<Node>)
    requires Picks(idx, |s|)
    ensures |t| == |idx|
    ensures forall k :: 0 <= k < |idx| ==> t[k] == s[idx[k]]
  {
    seq(|idx|, k requires 0 <= k < |idx| => s[idx[k]])
  }

  /** The positions below `n` that satisfy `keep`, in increasing order. */
  ghost function PositionsWhere(n: nat, keep: nat -> bool): (idx: seq<nat>)
    ensures Picks(idx, n)
    ensures forall i: nat :: i in idx <==> i < n && keep(i)
  {
    if n == 0 then []
    else if keep(n - 1) then PositionsWhere(n - 1, keep) + [n - 1]
    else PositionsWhere(n - 1, keep)
  }

  /** No selected node loses its parent. */
  ghost predicate ParentClosed(s: seq<Node>, idx: seq<nat>)
    requires Picks(idx, |s|)
  {
    forall k :: 0 <= k < |idx| ==> ParentOf(s, idx[k]) == -1 || ParentOf(s, idx[k]) in idx
  }

  /** The parent of a selected node in the shorter list is its old parent. */
  lemma SelectKeepsParent(s: seq<Node>, idx: seq<nat>, k: nat)
    requires Picks(idx, |s|) && ParentClosed(s, idx) && k < |idx|
    ensures var p := ParentOf(Select(s, idx), k);
            ParentOf(s, idx[k]) == if p == -1 then -1 else idx[p]
  {
    var t, q := Select(s, idx), ParentOf(s, idx[k]);
    if q == -1 {
      LastBelowUnique(t, k, t[k].level, -1);
    } else {
      var j :| 0 <= j < |idx| && idx[j] == q;
      assert j < k;
      LastBelowUnique(t, k, t[k].level, j);
    }
  }

  lemma SelectKeepsWellFormed(s: seq<Node>, idx: seq<nat>)
    requires WellFormed(s) && Picks(idx, |s|) && ParentClosed(s, idx)
    ensures WellFormed(Select(s, idx))
  {
    var t := Select(s, idx);
    forall k: nat | k < |t|
      ensures Climbs(t, k)
    {
      SelectKeepsParent(s, idx, k);
      ParentLevel(s, idx[k]);
      var p := ParentOf(t, k);
      assert p >= 0 && p < k - 1 ==> t[k - 1].level >= t[k].level;
    }
  }

  /** The positions of `PositionsWhere` split at any point: those below `m` come first. */
  lemma {:induction false} PositionsSplit(n: nat, keep: nat -> bool, m: nat)
    requires m <= n
    ensures PositionsWhere(m, keep) <= PositionsWhere(n, keep)
    ensures forall k :: |PositionsWhere(m, keep)| <= k < |PositionsWhere(n, keep)| ==> PositionsWhere(n, keep)[k] >= m
  {
    if m < n {
      PositionsSplit(n - 1, keep, m);
    }
  }

  // ----- splicing a block in

  function Splice(s: seq<Node>, pos: nat, block: seq<Node>): (t: seq<Node>)
    requires pos <= |s|
    ensures |t| == |s| + |block|
    ensures forall i :: 0 <= i < pos ==> t[i] == s[i]
    ensures forall b :: 0 <= b < |block| ==> t[pos + b] == block[b]
    ensures forall i :: pos <= i < |s| ==> t[i + |block|] == s[i]
  {
    s[..pos] + block + s[pos..]
  }

  /** Where position `i` (or the "no parent" mark -1) ends up when `n` nodes are spliced in at `pos`. */
  function Shifted(i: int, pos: nat, n: nat): int {
    if i < pos then i else i + n
  }

  /** Inverse of `Shifted` on positions outside the block. */
  ghost function Unshifted(i: int, pos: nat, n: nat): int {
    if i < pos then i else i - n
  }

  /** A node of level `level` may be put at `pos` without changing anybody else's parent. */
  ghost predicate Fits(s: seq<Node>, pos: nat, level: int) {
    && pos <= |s|
    && 0 <= level <= (if pos == 0 then 0 else s[pos - 1].level + 1)
    && (pos < |s| ==> level >= s[pos].level)
  }

  /** A run of whole subtrees whose roots are all at `level`. */
  ghost predicate ForestAt(block: seq<Node>, level: int) {
    && (block != [] ==> block[0].level == level)
    && (forall b :: 0 <= b < |block| ==> block[b].level >= level)
    && (forall b: nat :: 0 < b < |block| ==> Climbs(block, b))
  }

  lemma {:induction false} SpliceKeepsWellFormed(s: seq<Node>, pos: nat, block: seq<Node>, level: int)
    requires WellFormed(s) && Fits(s, pos, level) && ForestAt(block, level)
    ensures WellFormed(Splice(s, pos, block))
  {
    hide Splice;
    var t, n := Splice(s, pos, block), |block|;
    forall i: nat | i < |t|
      ensures Climbs(t, i)
    {
      if i < pos {
        assert Climbs(s, i);
      } else if i < pos + n {
        assert t[i] == block[i - pos];
        if i > pos { assert Climbs(block, i - pos); assert t[i - 1] == block[i - 1 - pos]; }
      } else {
        assert Climbs(s, i - n) && t[i] == s[i - n];
        if i > pos + n { assert t[i - 1] == s[i - 1 - n]; }
        else if n > 0 { assert t[i - 1] == block[n - 1]; }
      }
    }
  }

  /** Splicing leaves the parent of every existing node what it was. */
  lemma {:induction false} SpliceKeepsParent(s: seq<Node>, pos: nat, block: seq<Node>, level: int, i: nat)
    requires Fits(s, pos, level) && ForestAt(block, level) && i < |s|
    ensures var n := |block|;
            ParentOf(Splice(s, pos, block), Shifted(i, pos, n)) == Shifted(ParentOf(s, i), pos, n)
  {
    hide Splice, ParentOf;
    var t, n, p := Splice(s, pos, block), |block|, ParentOf(s, i);
    var q := Shifted(p, pos, n);
    forall k | q < k < Shifted(i, pos, n)
      ensures t[k].level >= s[i].level
    {
      if k < pos {
        assert t[k] == s[k];
      } else if k < pos + n {
        assert t[k] == block[k - pos];
        assert s[pos].level >= s[i].level;
      } else {
        assert t[k] == s[k - n];
      }
    }
    LastBelowUnique(t, Shifted(i, pos, n), s[i].level, q);
  }

  /** Roots of the block hang under the node that `LastBelow` finds before the gap ... */
  lemma {:induction false} SpliceRootParent(s: seq<Node>, pos: nat, block: seq<Node>, level: int, b: nat)
    requires pos <= |s| && ForestAt(block, level) && b < |block| && block[b].level == level
    ensures ParentOf(Splice(s, pos, block), pos + b) == LastBelow(s, pos, level)
  {
    var t, p := Splice(s, pos, block), LastBelow(s, pos, level);
    forall k | p < k < pos + b
      ensures t[k].level >= level
    {
      if k < pos { assert t[k] == s[k]; } else { assert t[k] == block[k - pos]; }
    }
    assert t[pos + b] == block[b];
    LastBelowUnique(t, pos + b, level, p);
  }

  /** ... and every other node of the block keeps its parent inside the block. */
  lemma {:induction false} SpliceInnerParent(s: seq<Node>, pos: nat, block: seq<Node>, level: int, b: nat)
    requires pos <= |s| && ForestAt(block, level) && b < |block| && block[b].level > level
    ensures ParentOf(block, b) >= 0
    ensures ParentOf(Splice(s, pos, block), pos + b) == pos + ParentOf(block, b)
  {
    var t, p := Splice(s, pos, block), ParentOf(block, b);
    assert !(block[0].level >= block[b].level);
    forall k | pos + p < k < pos + b
      ensures t[k].level >= block[b].level
    {
      assert t[k] == block[k - pos];
    }
    LastBelowUnique(t, pos + b, block[b].level, pos + p);
  }
}
