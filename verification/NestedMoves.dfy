/**
 Selections with a node and one of its descendants.  The loop takes the length of each subtree from
 the original list but cuts it from the shrunken one, so below a nested selection it also takes nodes
 that were not selected; the moved subtrees stay together only if no selected node is below another.
 */
module NestedMoves {
  import opened FlatTree
  import opened Rearrange
  import opened Location
  import opened Pruning
  import opened MoveItems
  import opened MovedForest

  ghost predicate DistinctItems(s: seq<Node>) {
    forall i, j :: 0 <= i < j < |s| ==> s[i].itemRef != s[j].itemRef
  }

  /** Node `p` of the new list is the item of a node that should move along. */
  ghost predicate Belongs(s: seq<Node>, roots: seq<nat>, t: seq<Node>, p: nat)
    requires p < |t|
  {
    exists i: nat :: i < |s| && s[i].itemRef == t[p].itemRef && Covered(s, OneOf(roots), i)
  }

  /** No foreign node stands between two nodes of the selected subtrees. */
  ghost predicate Together(s: seq<Node>, roots: seq<nat>, t: seq<Node>) {
    forall a, b, c :: 0 <= a < b < c < |t| && Belongs(s, roots, t, a) && Belongs(s, roots, t, c) ==>
      Belongs(s, roots, t, b)
  }

  // ----- following the loop by positions in the original list

  /** `idx` lists the original positions of the items in `nodes`. */
  ghost predicate SameItems(s: seq<Node>, nodes: seq<Node>, idx: seq<nat>) {
    && |nodes| == |idx|
    && (forall k :: 0 <= k < |idx| ==> idx[k] < |s| && nodes[k].itemRef == s[idx[k]].itemRef)
  }

  lemma SameItemsConcat(s: seq<Node>, a: seq<Node>, b: seq<Node>, i: seq<nat>, j: seq<nat>)
    requires SameItems(s, a, i) && SameItems(s, b, j)
    ensures SameItems(s, a + b, i + j)
  {
  }

  /** `res` and `ext` list the original positions of the nodes still in place and taken out. */
  ghost predicate Tracks(s: seq<Node>, c: Cutting, res: seq<nat>, ext: seq<nat>) {
    && Picks(res, |s|)
    && c.result == Select(s, res)
    && SameItems(s, c.extracted, ext)
    && (forall i :: 0 <= i < |s| ==> (i in res <==> i !in ext))
  }

  /** Nothing before position `b` has been touched. */
  ghost predicate Untouched(res: seq<nat>, b: nat) {
    b <= |res| && forall k :: 0 <= k < b ==> res[k] == k
  }

  /** Everything below the roots from number `m` on has been taken out. */
  ghost predicate TakenFrom(s: seq<Node>, roots: seq<nat>, m: nat, ext: seq<nat>) {
    forall k, i :: m <= k < |roots| && InSubtree(s, roots[k], i) ==> i in ext
  }

  lemma {:induction false} ShiftKeepsItems(nodes: seq<Node>, level: Level, k: nat)
    requires k < |nodes|
    ensures ShiftInPlace(nodes, level)[k].itemRef == nodes[k].itemRef
  {
    ShiftInPlaceNode(nodes, level, k);
  }

  /** An increasing list that starts with the identity runs ahead of it ever after. */
  lemma {:induction false} RunsAhead(res: seq<nat>, n: nat, q: nat)
    requires Picks(res, n) && q < |res|
    ensures res[q] >= q
  {
    if q > 0 { RunsAhead(res, n, q - 1); }
  }

  lemma {:induction false} NotCutIsOutside(s: seq<Node>, c: Cutting, res: seq<nat>, ext: seq<nat>, start: nat,
                                           end: nat, i: nat)
    requires Tracks(s, c, res, ext) && Untouched(res, start) && start <= end <= |res|
    requires start <= i < end
    ensures i in ext || i in res[start..end]
  {
    if i !in ext {
      RunsAhead(res, |s|, end - 1);
      var q :| 0 <= q < |res| && res[q] == i;
      RunsAhead(res, |s|, q);
      assert q >= start;
      assert res[start..end][q - start] == i;
    }
  }

  /** One iteration in terms of positions. */
  lemma {:induction false} TrackStep(s: seq<Node>, roots: seq<nat>, m: nat, level: Level, c: Cutting, res: seq<nat>,
                                     ext: seq<nat>)
    requires Picks(roots, |s|) && 0 < m <= |roots|
    requires Tracks(s, c, res, ext) && Untouched(res, roots[m - 1] + 1)
    requires CutSubtree(s, roots[m - 1], level, c).Continue?
    ensures var start, end := roots[m - 1], SubtreeEnd(s, roots[m - 1]);
      && end <= |res|
      && Tracks(s, CutSubtree(s, start, level, c).cutting, res[..start] + res[end..], res[start..end] + ext)
      && Untouched(res[..start] + res[end..], start)
  {
    var start, end := roots[m - 1], SubtreeEnd(s, roots[m - 1]);
    var sub := c.result[start..end];
    var c' := CutSubtree(s, start, level, c).cutting;
    assert c'.result == c.result[..start] + c.result[end..];
    assert c'.extracted == ShiftInPlace(sub, level) + c.extracted;
    hide SubtreeEnd, CutSubtree, ShiftInPlace;
    CutPositions(s, start, end, level, c, c', res, ext);
  }

  lemma {:induction false} CutPositions(s: seq<Node>, start: nat, end: nat, level: Level, c: Cutting, c': Cutting,
                                        res: seq<nat>, ext: seq<nat>)
    requires Tracks(s, c, res, ext) && start <= end <= |res|
    requires c'.result == c.result[..start] + c.result[end..]
    requires c'.extracted == ShiftInPlace(c.result[start..end], level) + c.extracted
    ensures Tracks(s, c', res[..start] + res[end..], res[start..end] + ext)
  {
    var res', ext' := res[..start] + res[end..], res[start..end] + ext;
    CutResultPositions(s, start, end, c, res);
    CutItems(s, start, end, level, c, c', res, ext);
    hide Select, ShiftInPlace, SameItems;
    forall i | 0 <= i < |s|
      ensures i in res' <==> i !in ext'
    {
      MembersSplit(res, start, end, i);
    }
  }

  lemma {:induction false} CutResultPositions(s: seq<Node>, start: nat, end: nat, c: Cutting, res: seq<nat>)
    requires Picks(res, |s|) && c.result == Select(s, res) && start <= end <= |res|
    ensures Picks(res[..start] + res[end..], |s|)
    ensures c.result[..start] + c.result[end..] == Select(s, res[..start] + res[end..])
  {
  }

  lemma {:induction false} SameItemsSlice(s: seq<Node>, nodes: seq<Node>, idx: seq<nat>, start: nat, end: nat,
                                          level: Level)
    requires SameItems(s, nodes, idx) && start <= end <= |idx|
    ensures SameItems(s, ShiftInPlace(nodes[start..end], level), idx[start..end])
  {
    var sub := nodes[start..end];
    hide ShiftInPlace;
    forall k | 0 <= k < |sub|
      ensures ShiftInPlace(sub, level)[k].itemRef == s[idx[start..end][k]].itemRef
    {
      ShiftKeepsItems(sub, level, k);
    }
  }

  lemma {:induction false} CutItems(s: seq<Node>, start: nat, end: nat, level: Level, c: Cutting, c': Cutting,
                                    res: seq<nat>, ext: seq<nat>)
    requires SameItems(s, c.result, res) && SameItems(s, c.extracted, ext) && start <= end <= |res|
    requires c'.extracted == ShiftInPlace(c.result[start..end], level) + c.extracted
    ensures SameItems(s, c'.extracted, res[start..end] + ext)
  {
    hide ShiftInPlace;
    SameItemsSlice(s, c.result, res, start, end, level);
    SameItemsConcat(s, ShiftInPlace(c.result[start..end], level), c.extracted, res[start..end], ext);
  }

  lemma {:induction false} MembersSplit(res: seq<nat>, start: nat, end: nat, i: nat)
    requires start <= end <= |res| && forall j, k :: 0 <= j < k < |res| ==> res[j] < res[k]
    ensures i in res <==> i in res[..start] + res[end..] || i in res[start..end]
    ensures !(i in res[..start] + res[end..] && i in res[start..end])
  {
    assert res == res[..start] + res[start..end] + res[end..];
    if i in res[start..end] {
      var q :| 0 <= q < end - start && res[start..end][q] == i;
      assert res[start + q] == i;
    }
  }

  lemma {:induction false} TakenStep(s: seq<Node>, roots: seq<nat>, m: nat, c: Cutting, res: seq<nat>, ext: seq<nat>)
    requires Picks(roots, |s|) && 0 < m <= |roots|
    requires Tracks(s, c, res, ext) && Untouched(res, roots[m - 1] + 1) && TakenFrom(s, roots, m, ext)
    requires SubtreeEnd(s, roots[m - 1]) <= |res|
    ensures TakenFrom(s, roots, m - 1, res[roots[m - 1]..SubtreeEnd(s, roots[m - 1])] + ext)
  {
    var start, end := roots[m - 1], SubtreeEnd(s, roots[m - 1]);
    forall k, i | m - 1 <= k < |roots| && InSubtree(s, roots[k], i)
      ensures i in res[start..end] + ext
    {
      if k == m - 1 {
        SubtreeIsRange(s, start, i);
        NotCutIsOutside(s, c, res, ext, start, end, i);
      }
    }
  }

  // ----- a nested selection tears the block apart

  /** A foreign node at `b`, between two nodes of the selected subtrees. */
  ghost predicate TornAt(s: seq<Node>, roots: seq<nat>, ext: seq<nat>, a: nat, b: nat, c: nat) {
    && a < b < c < |ext|
    && Covered(s, OneOf(roots), ext[a]) && !Covered(s, OneOf(roots), ext[b]) && Covered(s, OneOf(roots), ext[c])
  }

  ghost predicate Torn(s: seq<Node>, roots: seq<nat>, ext: seq<nat>) {
    exists a: nat, b: nat, c: nat :: TornAt(s, roots, ext, a, b, c)
  }

  lemma {:induction false} TornPrepend(s: seq<Node>, roots: seq<nat>, front: seq<nat>, ext: seq<nat>)
    requires Torn(s, roots, ext)
    ensures Torn(s, roots, front + ext)
  {
    var a: nat, b: nat, c: nat :| TornAt(s, roots, ext, a, b, c);
    var all, n := front + ext, |front|;
    hide Covered;
    assert all[n + a] == ext[a] && all[n + b] == ext[b] && all[n + c] == ext[c];
    assert TornAt(s, roots, all, n + a, n + b, n + c);
  }

  /** Number `o` is selected, not below another selected node, and has number `d` below it. */
  ghost predicate Outermost(s: seq<Node>, roots: seq<nat>, o: nat, d: nat)
    requires Picks(roots, |s|)
  {
    && o < d < |roots| && InSubtree(s, roots[o], roots[d])
    && forall q :: 0 <= q < o ==> !InSubtree(s, roots[q], roots[o])
  }

  lemma {:induction false} FindOutermost(s: seq<Node>, roots: seq<nat>, o: nat, d: nat) returns (o': nat, d': nat)
    requires Picks(roots, |s|) && o < d < |roots| && InSubtree(s, roots[o], roots[d])
    ensures Outermost(s, roots, o', d')
  {
    if q :| 0 <= q < o && InSubtree(s, roots[q], roots[o]) {
      o', d' := FindOutermost(s, roots, q, o);
    } else {
      o', d' := o, d;
    }
  }

  /** With a hole in its range, the slice as long as the subtree reaches past the subtree. */
  lemma {:induction false} ReachesPast(res: seq<nat>, n: nat, d: nat, q: nat)
    requires Picks(res, n) && d <= q < |res| && d !in res
    ensures res[q] > q
  {
    RunsAhead(res, n, q);
    if q == d {
      assert res[q] in res;
    } else {
      ReachesPast(res, n, d, q - 1);
    }
  }

  lemma {:induction false} BeyondIsForeign(s: seq<Node>, roots: seq<nat>, o: nat, d: nat, ext: seq<nat>, x: nat)
    requires Picks(roots, |s|) && Outermost(s, roots, o, d) && TakenFrom(s, roots, o + 1, ext)
    requires SubtreeEnd(s, roots[o]) <= x < |s| && x !in ext
    ensures !Covered(s, OneOf(roots), x)
  {
    forall a: nat | OneOf(roots)(a)
      ensures !InSubtree(s, a, x)
    {
      var k :| 0 <= k < |roots| && roots[k] == a;
      if k == o {
        SubtreeIsRange(s, roots[o], x);
      } else if k < o {
        assert roots[k] < roots[o] && !InSubtree(s, roots[k], roots[o]);
      }
    }
  }

  lemma {:induction false} SliceMember(res: seq<nat>, start: nat, end: nat, ext: seq<nat>)
    requires start < end <= |res|
    ensures (res[start..end] + ext)[0] == res[start]
    ensures (res[start..end] + ext)[end - start - 1] == res[end - 1]
    ensures forall k :: 0 <= k < |ext| ==> (res[start..end] + ext)[end - start + k] == ext[k]
  {
  }

  lemma {:induction false} OutermostTears(s: seq<Node>, roots: seq<nat>, o: nat, d: nat, c: Cutting, res: seq<nat>,
                                          ext: seq<nat>)
    requires Picks(roots, |s|) && Outermost(s, roots, o, d)
    requires Tracks(s, c, res, ext) && Untouched(res, roots[o] + 1) && TakenFrom(s, roots, o + 1, ext)
    requires SubtreeEnd(s, roots[o]) <= |res|
    ensures Torn(s, roots, res[roots[o]..SubtreeEnd(s, roots[o])] + ext)
  {
    var start, end, nested := roots[o], SubtreeEnd(s, roots[o]), roots[d];
    var ext' := res[start..end] + ext;
    SubtreeIsRange(s, start, nested);
    assert InSubtree(s, roots[d], nested);
    assert nested in ext && nested !in res;
    ReachesPast(res, |s|, nested, end - 1);
    var x := res[end - 1];
    assert x in res && x !in ext;
    BeyondIsForeign(s, roots, o, d, ext, x);
    var k :| 0 <= k < |ext| && ext[k] == nested;
    SliceMember(res, start, end, ext);
    assert OneOf(roots)(start) && InSubtree(s, start, start) && InSubtree(s, start, nested);
    hide InSubtree, Tracks, Picks, Outermost, TakenFrom;
    assert res[start] == start;
    assert Covered(s, OneOf(roots), ext'[0]);
    assert !Covered(s, OneOf(roots), ext'[end - start - 1]);
    assert Covered(s, OneOf(roots), ext'[end - start + k]);
    assert TornAt(s, roots, ext', 0, end - start - 1, end - start + k);
  }

  ghost predicate EndsTorn(s: seq<Node>, roots: seq<nat>, level: Level, t: seq<Node>) {
    exists last, res, ext :: Tracks(s, last, res, ext) && Torn(s, roots, ext) && Reinsert(level, last) == Moved(t)
  }

  lemma {:induction false} TornStep(s: seq<Node>, roots: seq<nat>, o: nat, d: nat, m: nat, c: Cutting, res: seq<nat>,
                                    ext: seq<nat>)
    requires Picks(roots, |s|) && Outermost(s, roots, o, d) && 0 < m <= |roots|
    requires Tracks(s, c, res, ext) && TakenFrom(s, roots, m, ext) && Untouched(res, roots[m - 1] + 1)
    requires SubtreeEnd(s, roots[m - 1]) <= |res|
    requires m > o || Torn(s, roots, ext)
    ensures m - 1 > o || Torn(s, roots, res[roots[m - 1]..SubtreeEnd(s, roots[m - 1])] + ext)
  {
    hide Tracks, Torn, Outermost, TakenFrom, Untouched, SubtreeEnd;
    if m - 1 == o {
      OutermostTears(s, roots, o, d, c, res, ext);
    } else if m <= o {
      TornPrepend(s, roots, res[roots[m - 1]..SubtreeEnd(s, roots[m - 1])], ext);
    }
  }

  /** Once torn, or as long as an outermost node with a nested one is still to come, the result ends up torn. */
  lemma {:induction false} LoopTears(s: seq<Node>, roots: seq<nat>, o: nat, d: nat, level: Level, m: nat,
                                     c: Cutting, res: seq<nat>, ext: seq<nat>, t: seq<Node>)
    requires Picks(roots, |s|) && Outermost(s, roots, o, d) && m <= |roots|
    requires Tracks(s, c, res, ext) && TakenFrom(s, roots, m, ext)
    requires m > 0 ==> Untouched(res, roots[m - 1] + 1)
    requires m > o || Torn(s, roots, ext)
    requires MoveLoop(s, roots, level, m, c) == Moved(t)
    ensures EndsTorn(s, roots, level, t)
    decreases m
  {
    assert m > 0 ==> CutSubtree(s, roots[m - 1], level, c).Continue?;
    assert m > 0 ==> MoveLoop(s, roots, level, m - 1, CutSubtree(s, roots[m - 1], level, c).cutting) == Moved(t);
    assert m == 0 ==> Reinsert(level, c) == Moved(t);
    assert m > 1 ==> roots[m - 2] < roots[m - 1];
    hide *;
    if m == 0 {
      EndsNow(s, roots, level, c, res, ext, t);
    } else {
      var start, end := roots[m - 1], SubtreeEnd(s, roots[m - 1]);
      TrackStep(s, roots, m, level, c, res, ext);
      TakenStep(s, roots, m, c, res, ext);
      TornStep(s, roots, o, d, m, c, res, ext);
      var c' := CutSubtree(s, start, level, c).cutting;
      var res', ext' := res[..start] + res[end..], res[start..end] + ext;
      if m > 1 { UntouchedLess(res', start, roots[m - 2] + 1); }
      LoopTears(s, roots, o, d, level, m - 1, c', res', ext', t);
    }
  }

  lemma UntouchedLess(res: seq<nat>, b: nat, b': nat)
    requires Untouched(res, b) && b' <= b
    ensures Untouched(res, b')
  {
  }

  lemma {:induction false} EndsNow(s: seq<Node>, roots: seq<nat>, level: Level, last: Cutting, res: seq<nat>,
                                   ext: seq<nat>, t: seq<Node>)
    requires Tracks(s, last, res, ext) && Torn(s, roots, ext) && Reinsert(level, last) == Moved(t)
    ensures EndsTorn(s, roots, level, t)
  {
    hide Tracks, Torn, Reinsert;
  }

  lemma {:induction false} BelongsExactly(s: seq<Node>, roots: seq<nat>, t: seq<Node>, p: nat, i: nat)
    requires DistinctItems(s) && p < |t| && i < |s| && t[p].itemRef == s[i].itemRef
    ensures Belongs(s, roots, t, p) <==> Covered(s, OneOf(roots), i)
  {
    hide Covered;
    if Belongs(s, roots, t, p) {
      var j: nat :| j < |s| && s[j].itemRef == t[p].itemRef && Covered(s, OneOf(roots), j);
      assert j == i;
    }
  }

  lemma {:induction false} SplicedItem(s: seq<Node>, last: Cutting, res: seq<nat>, ext: seq<nat>, level: Level,
                                       t: seq<Node>, k: nat)
    requires Tracks(s, last, res, ext) && Reinsert(level, last) == Moved(t) && k < |ext|
    ensures last.before + k < |t| && ext[k] < |s| && t[last.before + k].itemRef == s[ext[k]].itemRef
  {
    assert last.before <= |last.result| && t == Splice(last.result, last.before, last.extracted);
    assert t[last.before + k] == last.extracted[k];
    hide *;
  }

  lemma {:induction false} TornIsNotTogether(s: seq<Node>, roots: seq<nat>, level: Level, last: Cutting, res: seq<nat>,
                                             ext: seq<nat>, t: seq<Node>)
    requires DistinctItems(s) && Tracks(s, last, res, ext) && Torn(s, roots, ext)
    requires Reinsert(level, last) == Moved(t)
    ensures !Together(s, roots, t)
  {
    var a: nat, b: nat, c: nat :| TornAt(s, roots, ext, a, b, c);
    var p := last.before;
    assert a < b < c < |ext|;
    assert Covered(s, OneOf(roots), ext[a]) && !Covered(s, OneOf(roots), ext[b]) && Covered(s, OneOf(roots), ext[c]);
    hide Tracks, Reinsert, Covered, Belongs, Torn, TornAt;
    SplicedItem(s, last, res, ext, level, t, a);
    SplicedItem(s, last, res, ext, level, t, b);
    SplicedItem(s, last, res, ext, level, t, c);
    BelongsExactly(s, roots, t, p + a, ext[a]);
    BelongsExactly(s, roots, t, p + b, ext[b]);
    BelongsExactly(s, roots, t, p + c, ext[c]);
  }

  lemma {:induction false} NestedTearsApart(s: seq<Node>, roots: seq<nat>, target: TargetPosition, t: seq<Node>)
    requires DistinctItems(s) && Picks(roots, |s|) && !AncestorFree(s, roots)
    requires MoveLoop(s, roots, target.level, |roots|, Cutting(s, [], target.before)) == Moved(t)
    ensures !Together(s, roots, t)
  {
    AncestorFreeMeaning(s, roots);
    var j, k :| 0 <= j < k < |roots| && InSubtree(s, roots[j], roots[k]);
    var o, d := FindOutermost(s, roots, j, k);
    var all := seq(|s|, i => i);
    var start := Cutting(s, [], target.before);
    TracksStart(s, start, all);
    assert roots != [] ==> Untouched(all, roots[|roots| - 1] + 1);
    hide InSubtree, Tracks, Torn, Outermost, Untouched, Reinsert, Together;
    LoopTears(s, roots, o, d, target.level, |roots|, start, all, [], t);
    var last, res, ext :| Tracks(s, last, res, ext) && Torn(s, roots, ext) && Reinsert(target.level, last) == Moved(t);
    TornIsNotTogether(s, roots, target.level, last, res, ext, t);
  }

  lemma {:induction false} TracksStart(s: seq<Node>, start: Cutting, all: seq<nat>)
    requires start.result == s && start.extracted == []
    requires |all| == |s| && forall i :: 0 <= i < |s| ==> all[i] == i
    ensures Tracks(s, start, all, [])
  {
    assert Select(s, all) == s;
    forall i | 0 <= i < |s| ensures i in all { assert all[i] == i; }
  }

  // ----- without nesting the block stays together

  lemma {:induction false} RelocatedItem(s: seq<Node>, roots: seq<nat>, rest: seq<Node>, t: seq<Node>, pos: nat,
                                         level: Level, p: nat)
    requires DistinctItems(s) && Relocated(s, roots, rest, t, pos, level) && p < |t|
    ensures Belongs(s, roots, t, p) <==> pos <= p < pos + |Moving(s, roots)|
  {
    var kept, moving := Uncovered(s, OneOf(roots)), Moving(s, roots);
    var n := |moving|;
    hide Covered, CarriedKeepParents, OthersKeepParents, PositionsWhere, Belongs;
    if pos <= p < pos + n {
      assert t[pos..pos + n][p - pos] == t[p];
      assert moving[p - pos] in moving;
      BelongsExactly(s, roots, t, p, moving[p - pos]);
    } else {
      var k := if p < pos then p else p - n;
      assert (t[..pos] + t[pos + n..])[k] == t[p];
      assert kept[k] in kept;
      BelongsExactly(s, roots, t, p, kept[k]);
    }
  }

  lemma {:induction false} RelocatedTogether(s: seq<Node>, roots: seq<nat>, rest: seq<Node>, t: seq<Node>, pos: nat,
                                             level: Level)
    requires DistinctItems(s) && Relocated(s, roots, rest, t, pos, level)
    ensures Together(s, roots, t)
  {
    hide Relocated, Belongs;
    forall a: nat, b: nat, c: nat | 0 <= a < b < c < |t| && Belongs(s, roots, t, a) && Belongs(s, roots, t, c)
      ensures Belongs(s, roots, t, b)
    {
      RelocatedItem(s, roots, rest, t, pos, level, a);
      RelocatedItem(s, roots, rest, t, pos, level, b);
      RelocatedItem(s, roots, rest, t, pos, level, c);
    }
  }

  lemma {:induction false} FreeStaysTogether(s: seq<Node>, indices: seq<nat>, target: TargetPosition, t: seq<Node>)
    requires DistinctItems(s) && WellFormed(s) && forall i: nat :: i in indices ==> i < |s|
    requires AncestorFree(s, Sorted(indices, Bound(indices)))
    requires MoveAll(s, indices, target) == Moved(t)
    ensures Together(s, Sorted(indices, Bound(indices)), t)
  {
    var roots := Sorted(indices, Bound(indices));
    MoveAllKeepsStructure(s, indices, target, t);
    hide *;
    RelocatedTogether(s, roots, Kept(s, roots), t, KeptBefore(s, roots, target.before), target.level);
  }

  /**
   * A successful move of valid indices keeps the selected subtrees together, with nothing foreign
   * between them, exactly if no selected node is below another selected one.
   */
  lemma {:induction false} MoveTogetherExactly(s: seq<Node>, indices: seq<nat>, target: TargetPosition, t: seq<Node>)
    requires DistinctItems(s) && WellFormed(s) && forall i: nat :: i in indices ==> i < |s|
    requires MoveAll(s, indices, target) == Moved(t)
    ensures Together(s, Sorted(indices, Bound(indices)), t) <==> AncestorFree(s, Sorted(indices, Bound(indices)))
  {
    var roots := Sorted(indices, Bound(indices));
    SortedAncestorFree(s, indices);
    assert indices != [] ==> indices[|indices| - 1] in indices;
    assert MoveLoop(s, roots, target.level, |roots|, Cutting(s, [], target.before)) == Moved(t);
    hide AncestorFree, Together, MoveAll, MoveLoop, Sorted, Bound;
    if AncestorFree(s, roots) {
      FreeStaysTogether(s, indices, target, t);
    } else {
      NestedTearsApart(s, roots, target, t);
    }
  }

  /** A root with one child, and a third node. */
  function Example(): seq<Node> {
    [Node(0, 0, true, false), Node(1, 1, true, false), Node(2, 0, true, false)]
  }

  lemma {:induction false} ExampleSteps()
    ensures var s := Example();
      && CutSubtree(s, 1, 0, Cutting(s, [], 3)) == Continue(Cutting([s[0], s[2]], [s[1].(level := 0)], 2))
      && CutSubtree(s, 0, 0, Cutting([s[0], s[2]], [s[1].(level := 0)], 2))
         == Continue(Cutting([], [s[0], s[2], s[1].(level := 0)], 0))
  {
    var s := Example();
    assert SubtreeEnd(s, 1) == 2 && SubtreeEnd(s, 0) == 2;
  }

  lemma {:induction false} ExampleRoots()
    ensures Bound([0, 1]) == 2 && Sorted([0, 1], 2) == [0, 1]
  {
    assert [0, 1][1..] == [1] && [1][1..] == [];
    assert Sorted([0, 1], 1) == [0];
  }

  lemma {:induction false} LoopStep(s: seq<Node>, roots: seq<nat>, level: Level, m: nat, c: Cutting, c': Cutting)
    requires 0 < m <= |roots| && CutSubtree(s, roots[m - 1], level, c) == Continue(c')
    ensures MoveLoop(s, roots, level, m, c) == MoveLoop(s, roots, level, m - 1, c')
  {
  }

  /** Moving root and child behind the third node takes that node along, between the two. */
  lemma {:induction false} NestedExample()
    ensures var s := Example();
      MoveAll(s, [0, 1], TargetPosition(3, 0)) == Moved([s[0], s[2], s[1].(level := 0)])
  {
    var s := Example();
    ExampleRoots();
    ExampleSteps();
    var t := [s[0], s[2], s[1].(level := 0)];
    assert Reinsert(0, Cutting([], t, 0)) == Moved(t);
    hide CutSubtree, Sorted, Bound;
    assert MoveLoop(s, [0, 1], 0, 0, Cutting([], t, 0)) == Moved(t);
    hide Reinsert, MoveLoop;
    LoopStep(s, [0, 1], 0, 1, Cutting([s[0], s[2]], [s[1].(level := 0)], 2), Cutting([], t, 0));
    LoopStep(s, [0, 1], 0, 2, Cutting(s, [], 3), Cutting([s[0], s[2]], [s[1].(level := 0)], 2));
  }

  // ----- nested selections that do not succeed

  /** A root and its child. */
  function Pair(): seq<Node> {
    [Node(0, 0, true, false), Node(1, 1, true, false)]
  }

  lemma {:induction false} PairSteps(before: nat)
    ensures var s := Pair();
      CutSubtree(s, 1, 0, Cutting(s, [], before)) ==
        Continue(Cutting([s[0]], [s[1].(level := 0)], if before > 1 then before - 1 else before))
    ensures SubtreeEnd(Pair(), 0) == 2
  {
    var s := Pair();
    assert SubtreeEnd(s, 1) == 2 && SubtreeEnd(s, 0) == 2;
  }

  /** Behind the child's slice too little is left for the root's: the program panics. */
  lemma {:induction false} NestedPanics()
    ensures MoveAll(Pair(), [0, 1], TargetPosition(0, 0)) == Panicked
  {
    var s := Pair();
    ExampleRoots();
    PairSteps(0);
    hide Sorted, Bound;
    LoopStep(s, [0, 1], 0, 2, Cutting(s, [], 0), Cutting([s[0]], [s[1].(level := 0)], 0));
  }

  /** The target moves into the root's range when the child is cut out: a circular move that is none. */
  lemma {:induction false} NestedCircular()
    ensures MoveAll(Pair(), [0, 1], TargetPosition(2, 0)) == Rejected(CircularMove)
    ensures Picks([0, 1], |Pair()|) && !StrictlyInside(Pair(), [0, 1], 2)
  {
    var s := Pair();
    ExampleRoots();
    PairSteps(2);
    hide Sorted, Bound;
    LoopStep(s, [0, 1], 0, 2, Cutting(s, [], 2), Cutting([s[0]], [s[1].(level := 0)], 1));
  }

  // ----- when a move does what is described

  /**
   A move of valid indices succeeds with the selected subtrees together exactly if no selected node is
   below another, the target is not strictly inside a selected subtree, all subtrees fit below it, and
   the target level fits the nodes that stay.
   */
  lemma {:induction false} MoveAsDescribedExactly(s: seq<Node>, indices: seq<nat>, target: TargetPosition)
    requires DistinctItems(s) && WellFormed(s) && forall i: nat :: i in indices ==> i < |s|
    ensures Picks(Sorted(indices, Bound(indices)), |s|)
    ensures var roots := Sorted(indices, Bound(indices));
      (exists t :: MoveAll(s, indices, target) == Moved(t) && Together(s, roots, t)) <==>
        && AncestorFree(s, roots)
        && !StrictlyInside(s, roots, target.before)
        && AllShiftsFit(s, roots, target.level)
        && target.before <= |s|
        && Fits(Kept(s, roots), KeptBefore(s, roots, target.before), target.level)
  {
    var roots := Sorted(indices, Bound(indices));
    var outcome := MoveAll(s, indices, target);
    SortedAncestorFree(s, indices);
    if outcome.Moved? { MoveTogetherExactly(s, indices, target, outcome.items); }
    if AncestorFree(s, roots) {
      MoveAllVerdict(s, indices, target);
      VerdictMeaning(s, roots, target, |roots|);
    }
    hide *;
  }
}
