/**
 The walk over the pixels of an analog row.  It queries the sample structure once per pixel at
 most, jumps from transition to transition, and must not lose a sample on the way.
 */
module AnalogWalk {
  import opened Options
  import opened SignalRmq
  import opened PixelTime
  import opened CommandOutput
  import opened Depiction
  import opened RowTruth

  // ----- which samples a walk must have seen

  ghost predicate AllFinite(r: Rmq) {
    forall i :: 0 <= i < |r.values| ==> r.values[i].Finite?
  }

  /** All samples from time `from` on and before time `until` have been visited. */
  ghost predicate Covered(r: Rmq, visited: set<nat>, from: nat, until: nat) {
    forall i: nat :: i < |r.timestamps| && from <= r.timestamps[i] < until ==> i in visited
  }

  /** Visited samples are the one held at time `from`, or lie in the closed time range from there. */
  ghost predicate Within(r: Rmq, visited: set<nat>, from: nat, to: nat) {
    forall i :: i in visited ==> i < |r.timestamps| && r.timestamps[i] <= to && HeldOrLater(r, i, from)
  }

  function Min(a: real, b: real): real { if a < b then a else b }

  // ----- extremes of growing sets of samples

  lemma {:induction false} ExtremesAdd(min: Bound, max: Bound, vs: seq<Value>, visited: set<nat>, i: nat)
    requires Extremes(min, max, vs, visited) && i < |vs| && vs[i].Finite?
    ensures Extremes(Least(min, At(vs[i].v)), Greatest(max, At(vs[i].v)), vs, visited + {i})
  {
    assert i in visited + {i};
    assert forall k :: k in visited ==> k in visited + {i};
  }

  lemma {:induction false} ExtremesAddRange(min: Bound, max: Bound, vs: seq<Value>, visited: set<nat>, m: MinMax,
                                            lo: nat, hi: nat)
    requires Extremes(min, max, vs, visited) && Summarises(m, vs, lo, hi) && forall i :: lo <= i < hi ==> vs[i].Finite?
    ensures m.min.At? && m.max.At? && !m.hasNonFinite
    ensures Extremes(Least(min, m.min), Greatest(max, m.max), vs, visited + Run(lo, hi))
  {
    assert vs[lo].Finite?;
    assert forall k :: k in visited ==> k in visited + Run(lo, hi);
    assert forall k: nat :: lo <= k < hi ==> k in visited + Run(lo, hi);
  }

  ghost function Run(lo: nat, hi: nat): (run: set<nat>)
    ensures forall k: nat :: k in run <==> lo <= k < hi
  {
    if lo >= hi then {} else Run(lo, hi - 1) + {hi - 1}
  }

  // ----- steps of the walk, on the time stamps

  lemma {:induction false} HeldIsLast(r: Rmq, time: nat, n: nat, i: nat)
    requires Valid(r) && SplitsAt(r, time, n) && Held(r, i, time)
    ensures i + 1 == n
  {
  }

  lemma {:induction false} OnlyOneHeld(r: Rmq, time: nat, n: nat)
    requires Valid(r) && SplitsAt(r, time, n)
    ensures forall i: nat :: Held(r, i, time) ==> i + 1 == n
  {
    forall i: nat | Held(r, i, time)
      ensures i + 1 == n
    {
      HeldIsLast(r, time, n, i);
    }
  }

  lemma IncreasingFrom(ts: seq<nat>, n: nat)
    requires Increasing(ts)
    ensures forall i: nat :: n <= i < |ts| ==> ts[n] <= ts[i]
  {
  }

  /** Visiting the held sample covers everything up to the next transition. */
  lemma {:induction false} CoveredByHeld(r: Rmq, visited: set<nat>, from: nat, t0: nat, n: nat, until: nat)
    requires Valid(r) && SplitsAt(r, t0, n) && Covered(r, visited, from, t0)
    requires n < |r.timestamps| ==> until <= r.timestamps[n]
    ensures Covered(r, if n == 0 then visited else visited + {n - 1}, from, until)
  {
    var ts := r.timestamps;
    IncreasingFrom(ts, n);
    forall i: nat | i < |ts| && from <= ts[i] < until
      ensures i in (if n == 0 then visited else visited + {n - 1})
    {
      assert i < n - 1 ==> ts[i] < ts[n - 1];
    }
  }

  lemma {:induction false} WithinHeld(r: Rmq, visited: set<nat>, from: nat, to: nat, t0: nat, n: nat)
    requires SplitsAt(r, t0, n) && n > 0 && from <= t0 <= to && Within(r, visited, from, to)
    ensures Within(r, visited + {n - 1}, from, to)
  {
  }

  /** `first` and `last` delimit the samples from time `t0` on and before `t1`. */
  ghost predicate Delimits(r: Rmq, first: nat, last: nat, t0: nat, t1: nat) {
    && first <= last < |r.timestamps|
    && forall i: nat :: i < |r.timestamps| ==> (t0 <= r.timestamps[i] < t1 <==> first <= i <= last)
  }

  /** Value at the first transition in the pixel. */
  function EntryValue(r: Rmq, t0: nat, fallback: Value): Value
    requires Valid(r)
  {
    var query := QueryAtTime(r, t0);
    if query.current.Some? && query.current.value.0 == t0 then query.current.value.1
    else if query.next.None? then fallback
    else
      var first := QueryAtTime(r, query.next.value);
      if first.current.Some? then first.current.value.1 else fallback
  }

  /** Value held at the end of the pixel. */
  function ExitValue(r: Rmq, time: nat, fallback: Value): Value
    requires Valid(r)
  {
    var query := QueryAtTime(r, time);
    if query.current.Some? then query.current.value.1 else fallback
  }

  /** Entry and exit value are those of the first and the last sample in the pixel. */
  lemma {:induction false} EntryExit(r: Rmq, t0: nat, t1: nat, first: nat, last: nat, fallback: Value)
    requires Valid(r) && t0 < t1 && Delimits(r, first, last, t0, t1)
    ensures EntryValue(r, t0, fallback) == r.values[first]
    ensures ExitValue(r, t1 - 1, fallback) == r.values[last]
  {
    hide *;
    EntryIsFirst(r, t0, t1, first, last, fallback);
    ExitIsLast(r, t0, t1, first, last, fallback);
  }

  lemma {:induction false} ExitIsLast(r: Rmq, t0: nat, t1: nat, first: nat, last: nat, fallback: Value)
    requires Valid(r) && t0 < t1 && Delimits(r, first, last, t0, t1)
    ensures ExitValue(r, t1 - 1, fallback) == r.values[last]
  {
    var n := QueryAtTimeExact(r, t1 - 1);
    hide QueryAtTime;
    SplitsBehind(r, t0, t1, first, last, n);
  }

  lemma {:induction false} SplitsBehind(r: Rmq, t0: nat, t1: nat, first: nat, last: nat, n: nat)
    requires Increasing(r.timestamps) && t0 < t1 && Delimits(r, first, last, t0, t1) && SplitsAt(r, t1 - 1, n)
    ensures n == last + 1
  {
    IncreasingFrom(r.timestamps, last);
    assert n > 0 ==> r.timestamps[n - 1] < t1;
    assert t0 <= r.timestamps[last] < t1;
    assert n < |r.timestamps| ==> !(t0 <= r.timestamps[n] < t1);
  }

  lemma {:induction false} EntryIsFirst(r: Rmq, t0: nat, t1: nat, first: nat, last: nat, fallback: Value)
    requires Valid(r) && t0 < t1 && Delimits(r, first, last, t0, t1)
    ensures EntryValue(r, t0, fallback) == r.values[first]
  {
    var n := QueryAtTimeExact(r, t0);
    assert t0 <= r.timestamps[first] < t1;
    if r.timestamps[first] == t0 {
      assert first + 1 == n;
    } else {
      assert n == first;
      var m := QueryAtTimeExact(r, r.timestamps[n]);
      assert m == n + 1;
    }
  }

  /** Everything the walk needs to know about a pixel that has samples in it. */
  lemma {:induction false} PixelRange(r: Rmq, t0: nat, t1: nat) returns (first: nat, last: nat, m: MinMax)
    requires Valid(r) && t0 < t1 && CacheTimeRange(r, t0, t1 - 1).Some?
    ensures Delimits(r, first, last, t0, t1) && Summarises(m, r.values, first, last + 1)
    ensures CacheTimeRange(r, t0, t1 - 1) ==
        Some((ToFloat(m.min), if m.hasNonFinite then NAN_UNDEF else ToFloat(m.max)))
    ensures t0 <= r.timestamps[first] < t1
  {
    first, last := QueryTimeRangeExact(r, t0, t1 - 1);
    m := QueryTimeRange(r, t0, t1 - 1).value;
    assert Delimits(r, first, last, t0, t1);
  }

  lemma {:induction false} PixelEmpty(r: Rmq, t0: nat, t1: nat)
    requires Valid(r) && t0 < t1
    ensures CacheTimeRange(r, t0, t1 - 1) == None <==>
        !exists i: nat :: i < |r.timestamps| && t0 <= r.timestamps[i] < t1
  {
    QueryTimeRangeNone(r, t0, t1 - 1);
  }

  // ----- the loop invariant, and the three ways through the loop body

  /** Up to where all samples have been visited when the loop stands at pixel `px`. */
  ghost function Reached(v: View, px: nat, jump: Option<nat>): nat {
    match jump case Some(t) => t case None => TimeAt(v, px)
  }

  lemma ReachedIs(v: View, px: nat, jump: Option<nat>)
    ensures Reached(v, px, jump) == if jump.Some? then jump.value else TimeAt(v, px)
  {
  }

  /** What holds whenever the loop is about to look at pixel `px`. */
  ghost predicate Walking(r: Rmq, v: View, visited: set<nat>, px: nat, end: nat, jump: Option<nat>) {
    && px <= end && (px == 0 ==> jump.None?)
    && Covered(r, visited, TimeAt(v, 0), Reached(v, px, jump))
    && Within(r, visited, TimeAt(v, 0), TimeAt(v, end))
    && TimeAt(v, px) <= Reached(v, px, jump)
    && (px < end ==> Reached(v, px, jump) <= TimeAt(v, px + 1))
    && (forall i: nat :: Held(r, i, TimeAt(v, 0)) && (px > 0 || r.timestamps[i] < TimeAt(v, 0)) ==> i in visited)
  }

  /** A pixel that would be queried with the time queried last has nothing new to show. */
  ghost predicate NothingNew(r: Rmq, v: View, visited: set<nat>, px: nat, jump: Option<nat>, last: Option<nat>) {
    jump.None? && last.Some? ==>
      && px > 0
      && forall p: nat :: p >= px && TimeAt(v, p) == last.value ==> Covered(r, visited, TimeAt(v, 0), TimeAt(v, p + 1))
  }

  lemma {:induction false} SkipPixel(r: Rmq, v: View, visited: set<nat>, px: nat, end: nat, last: Option<nat>)
    requires Sound(v) && px < end && Walking(r, v, visited, px, end, None)
    requires NothingNew(r, v, visited, px, None, last) && last == Some(TimeAt(v, px))
    ensures Walking(r, v, visited, px + 1, end, None) && NothingNew(r, v, visited, px + 1, None, last)
  {
    TimeAtMonotone(v, px + 1, px + 2);
  }

  lemma {:induction false} WalkDone(r: Rmq, v: View, visited: set<nat>, end: nat, jump: Option<nat>)
    requires end > 0 && Walking(r, v, visited, end, end, jump)
    ensures Covered(r, visited, TimeAt(v, 0), TimeAt(v, end)) && Within(r, visited, TimeAt(v, 0), TimeAt(v, end))
    ensures forall i: nat :: Held(r, i, TimeAt(v, 0)) ==> i in visited
  {
  }

  lemma {:induction false} FlatWalked(r: Rmq, v: View, was: set<nat>, px: nat, end: nat, jump: Option<nat>, t0: nat,
                                      n: nat, next: nat, jump': Option<nat>)
    requires Valid(r) && Sound(v) && px < end && Walking(r, v, was, px, end, jump) && t0 == Reached(v, px, jump)
    requires SplitsAt(r, t0, n) && (n < |r.timestamps| ==> r.timestamps[n] >= TimeAt(v, px + 1))
    requires px < next <= end
    requires if n == |r.timestamps| then jump' == None && next == end
             else if PixelOf(v, r.timestamps[n]) > px
             then jump' == Some(r.timestamps[n])
               && next == (if PixelOf(v, r.timestamps[n]) < end then PixelOf(v, r.timestamps[n]) else end)
             else jump' == None && next == px + 1
    ensures var visited := if n == 0 then was else was + {n - 1};
            Walking(r, v, visited, next, end, jump') && NothingNew(r, v, visited, next, jump', Some(t0))
  {
    var visited := if n == 0 then was else was + {n - 1};
    FlatWithin(r, v, was, px, end, jump, t0, n);
    HeldVisited(r, was, px, TimeAt(v, 0), t0, n);
    hide TimeAt, PixelOf, Sound, Valid, Held, Within, Covered, HeldOrLater, SplitsAt;
    FlatCovers(r, v, was, px, end, t0, n, next, jump');
    FlatTimes(r, v, px, end, t0, n, next, jump');
  }

  lemma {:induction false} FlatWithin(r: Rmq, v: View, was: set<nat>, px: nat, end: nat, jump: Option<nat>, t0: nat,
                                      n: nat)
    requires Sound(v) && px < end && Walking(r, v, was, px, end, jump) && t0 == Reached(v, px, jump)
      && SplitsAt(r, t0, n)
    ensures Within(r, if n == 0 then was else was + {n - 1}, TimeAt(v, 0), TimeAt(v, end))
  {
    TimeAtMonotone(v, 0, px);
    TimeAtMonotone(v, px + 1, end);
    assert TimeAt(v, 0) <= t0 <= TimeAt(v, end);
    hide TimeAt, Sound, Within, Covered, Held;
    if n > 0 { WithinHeld(r, was, TimeAt(v, 0), TimeAt(v, end), t0, n); }
  }

  /** Where the next query will be. */
  lemma {:induction false} FlatTimes(r: Rmq, v: View, px: nat, end: nat, t0: nat, n: nat, next: nat, jump': Option<nat>)
    requires Sound(v) && px < next <= end && n <= |r.timestamps|
    requires jump'.Some? ==> n < |r.timestamps| && jump' == Some(r.timestamps[n]) && PixelOf(v, r.timestamps[n]) > px
                             && next == (if PixelOf(v, r.timestamps[n]) < end then PixelOf(v, r.timestamps[n]) else end)
    ensures TimeAt(v, next) <= Reached(v, next, jump')
    ensures next < end ==> Reached(v, next, jump') <= TimeAt(v, next + 1)
  {
    hide TimeAt, PixelOf, Sound;
    if jump'.Some? {
      NotAfter(v, r.timestamps[n], next);
      if next < end { NotBefore(v, r.timestamps[n], next + 1); }
    } else {
      TimeAtMonotone(v, next, next + 1);
    }
  }

  lemma {:induction false} FlatCovers(r: Rmq, v: View, was: set<nat>, px: nat, end: nat, t0: nat, n: nat, next: nat,
                                      jump': Option<nat>)
    requires Valid(r) && Sound(v) && px < next <= end && Covered(r, was, TimeAt(v, 0), t0)
    requires SplitsAt(r, t0, n) && (n < |r.timestamps| ==> r.timestamps[n] >= TimeAt(v, px + 1))
    requires if n == |r.timestamps| then jump' == None && next == end
             else if PixelOf(v, r.timestamps[n]) > px then jump' == Some(r.timestamps[n])
             else jump' == None && next == px + 1
    ensures var visited := if n == 0 then was else was + {n - 1};
            Covered(r, visited, TimeAt(v, 0), Reached(v, next, jump'))
              && NothingNew(r, v, visited, next, jump', Some(t0))
  {
    if n < |r.timestamps| {
      assert t0 < r.timestamps[n];
      CoveredByHeld(r, was, TimeAt(v, 0), t0, n, r.timestamps[n]);
      CoveredByHeld(r, was, TimeAt(v, 0), t0, n, TimeAt(v, px + 1));
      hide TimeAt, PixelOf, Sound, Valid, Covered, SplitsAt;
      if jump'.None? {
        NotBefore(v, r.timestamps[n], px + 1);
        LaterPixels(v, px + 1, t0);
      }
    } else {
      CoveredByHeld(r, was, TimeAt(v, 0), t0, n, TimeAt(v, end));
      forall p: nat | p >= end && TimeAt(v, p) == t0
        ensures Covered(r, if n == 0 then was else was + {n - 1}, TimeAt(v, 0), TimeAt(v, p + 1))
      {
        CoveredByHeld(r, was, TimeAt(v, 0), t0, n, TimeAt(v, p + 1));
      }
      hide TimeAt, PixelOf, Sound, Valid, Covered, SplitsAt;
    }
  }

  /** The first pixel's query visits the sample held at the left edge. */
  lemma {:induction false} HeldVisited(r: Rmq, was: set<nat>, px: nat, start: nat, t0: nat, n: nat)
    requires Valid(r) && SplitsAt(r, t0, n) && (px == 0 ==> t0 == start)
    requires forall i: nat :: Held(r, i, start) && (px > 0 || r.timestamps[i] < start) ==> i in was
    ensures forall i: nat :: Held(r, i, start) ==> i in (if n == 0 then was else was + {n - 1})
  {
    if px == 0 {
      forall i: nat | Held(r, i, start)
        ensures i + 1 == n
      {
        HeldIsLast(r, start, n, i);
      }
    }
  }

  lemma {:induction false} RangeWalked(r: Rmq, v: View, was: set<nat>, px: nat, end: nat, jump: Option<nat>, t0: nat,
                                       n: nat, first: nat, last: nat)
    requires Valid(r) && Sound(v) && px < end && Walking(r, v, was, px, end, jump) && t0 == Reached(v, px, jump)
    requires SplitsAt(r, t0, n) && n < |r.timestamps| && r.timestamps[n] < TimeAt(v, px + 1)
    requires Delimits(r, first, last, t0, TimeAt(v, px + 1))
    ensures var visited := was + Run(first, last + 1);
            Walking(r, v, visited, px + 1, end, None) && NothingNew(r, v, visited, px + 1, None, Some(t0))
  {
    hide *;
    var visited, start, t1 := was + Run(first, last + 1), TimeAt(v, 0), TimeAt(v, px + 1);
    BeforeRange(r, v, was, px, end, jump, t0, n);
    RangeCovers(r, was, px, start, t0, t1, first, last);
    RangeWithin(r, was, start, TimeAt(v, end), t0, t1, first, last);
    BehindRange(r, v, visited, px, end, t0);
  }

  /** What a walk that is about to draw a bar can rely on. */
  lemma {:induction false} BeforeRange(r: Rmq, v: View, was: set<nat>, px: nat, end: nat, jump: Option<nat>, t0: nat,
                                       n: nat)
    requires Sound(v) && px < end && Walking(r, v, was, px, end, jump) && t0 == Reached(v, px, jump)
    requires SplitsAt(r, t0, n) && n < |r.timestamps| && r.timestamps[n] < TimeAt(v, px + 1)
    ensures TimeAt(v, 0) <= t0 < TimeAt(v, px + 1) <= TimeAt(v, end) && (px == 0 ==> t0 == TimeAt(v, 0))
    ensures Covered(r, was, TimeAt(v, 0), t0) && Within(r, was, TimeAt(v, 0), TimeAt(v, end))
    ensures forall i: nat :: Held(r, i, TimeAt(v, 0)) && (px > 0 || r.timestamps[i] < TimeAt(v, 0)) ==> i in was
  {
    TimeAtMonotone(v, 0, px);
    TimeAtMonotone(v, px + 1, end);
    hide TimeAt, Sound, Held, Within, Covered;
  }

  /** Where it stands behind the bar. */
  lemma {:induction false} BehindRange(r: Rmq, v: View, visited: set<nat>, px: nat, end: nat, t0: nat)
    requires Sound(v) && px < end && t0 < TimeAt(v, px + 1)
    requires Covered(r, visited, TimeAt(v, 0), TimeAt(v, px + 1)) && Within(r, visited, TimeAt(v, 0), TimeAt(v, end))
    requires forall i: nat :: Held(r, i, TimeAt(v, 0)) ==> i in visited
    ensures Walking(r, v, visited, px + 1, end, None) && NothingNew(r, v, visited, px + 1, None, Some(t0))
  {
    TimeAtMonotone(v, px + 1, px + 2);
    LaterPixels(v, px + 1, t0);
    hide TimeAt, Sound, Held, Within, Covered;
  }

  lemma {:induction false} RangeCovers(r: Rmq, was: set<nat>, px: nat, start: nat, t0: nat, t1: nat, first: nat,
                                       last: nat)
    requires start <= t0 < t1 && (px == 0 ==> t0 == start) && Covered(r, was, start, t0)
      && Delimits(r, first, last, t0, t1)
    requires forall i: nat :: Held(r, i, start) && (px > 0 || r.timestamps[i] < start) ==> i in was
    ensures Covered(r, was + Run(first, last + 1), start, t1)
    ensures forall i: nat :: Held(r, i, start) ==> i in was + Run(first, last + 1)
  {
    forall i: nat | i < |r.timestamps| && start <= r.timestamps[i] < t1
      ensures i in was + Run(first, last + 1)
    {
      assert r.timestamps[i] >= t0 ==> first <= i <= last;
    }
    forall i: nat | Held(r, i, start)
      ensures i in was + Run(first, last + 1)
    {
      assert r.timestamps[i] == start ==> start <= r.timestamps[i] < t1;
    }
  }

  lemma {:induction false} RangeWithin(r: Rmq, was: set<nat>, from: nat, to: nat, t0: nat, t1: nat, first: nat,
                                       last: nat)
    requires Valid(r) && Within(r, was, from, to) && from <= t0 && t1 <= to && Delimits(r, first, last, t0, t1)
    ensures Within(r, was + Run(first, last + 1), from, to)
  {
    forall i | i in Run(first, last + 1)
      ensures i < |r.timestamps| && r.timestamps[i] <= to && HeldOrLater(r, i, from)
    {
      assert i + 1 < |r.timestamps| ==> r.timestamps[i] < r.timestamps[i + 1];
    }
  }

  // ----- which pixels have shown what they hold

  /** A visited sample on the right border of the window is one that the last pixel still reaches. */
  ghost predicate Border(r: Rmq, v: View, visited: set<nat>, end: nat)
    requires end > 0
  {
    TimeAt(v, end - 1) < TimeAt(v, end) ==>
      forall i :: i in visited && i < |r.timestamps| && r.timestamps[i] == TimeAt(v, end) ==>
        TimeAt(v, end) as real < Exact(v, end as real)
  }

  /** All pixels before `px`, and the last query, have shown every sample up to their time. */
  ghost predicate Shown(r: Rmq, v: View, visited: set<nat>, px: nat, end: nat, jump: Option<nat>, last: Option<nat>)
    requires v.scale != 0.0 && end > 0
  {
    && (px > 0 ==> Covered(r, visited, TimeAt(v, 0), TimeAt(v, px - 1) + 1))
    && (last.Some? ==> Covered(r, visited, TimeAt(v, 0), last.value + 1))
    && (jump.Some? && px < end ==> px == PixelOf(v, jump.value))
    && Border(r, v, visited, end)
  }

  lemma CoveredLess(r: Rmq, visited: set<nat>, from: nat, until: nat, until': nat)
    requires Covered(r, visited, from, until) && until' <= until
    ensures Covered(r, visited, from, until')
  {
  }

  lemma {:induction false} ShownFlat(r: Rmq, v: View, was: set<nat>, px: nat, end: nat, jump: Option<nat>,
                                     last: Option<nat>, t0: nat, n: nat, next: nat, jump': Option<nat>)
    requires Valid(r) && Sound(v) && px < end && Walking(r, v, was, px, end, jump) && t0 == Reached(v, px, jump)
    requires Shown(r, v, was, px, end, jump, last) && SplitsAt(r, t0, n) && px < next <= end
    requires if n == |r.timestamps| then jump' == None && next == end
             else if PixelOf(v, r.timestamps[n]) > px
             then jump' == Some(r.timestamps[n])
               && next == (if PixelOf(v, r.timestamps[n]) < end then PixelOf(v, r.timestamps[n]) else end)
             else jump' == None && next == px + 1
    ensures Shown(r, v, if n == 0 then was else was + {n - 1}, next, end, jump', Some(t0))
  {
    assert Covered(r, was, TimeAt(v, 0), t0) && TimeAt(v, px) <= t0;
    hide TimeAt, PixelOf, Sound, Valid, Covered, Border, SplitsAt, Walking;
    FlatBorder(r, v, was, px, end, jump, last, t0, n);
    FlatShowsQuery(r, was, TimeAt(v, 0), t0, n);
    FlatShowsPixels(r, v, was, px, end, t0, n, next, jump');
    var visited := if n == 0 then was else was + {n - 1};
    assert jump'.Some? && next < end ==> next == PixelOf(v, jump'.value);
    hide *;
    ShownParts(r, v, visited, next, end, jump', t0);
  }

  lemma ShownParts(r: Rmq, v: View, visited: set<nat>, px: nat, end: nat, jump: Option<nat>, last: nat)
    requires v.scale != 0.0 && end > 0 && px > 0
    requires Covered(r, visited, TimeAt(v, 0), TimeAt(v, px - 1) + 1)
    requires Covered(r, visited, TimeAt(v, 0), last + 1)
    requires jump.Some? && px < end ==> px == PixelOf(v, jump.value)
    requires Border(r, v, visited, end)
    ensures Shown(r, v, visited, px, end, jump, Some(last))
  {
  }

  lemma {:induction false} FlatShowsQuery(r: Rmq, was: set<nat>, start: nat, t0: nat, n: nat)
    requires Valid(r) && Covered(r, was, start, t0) && SplitsAt(r, t0, n)
    ensures Covered(r, if n == 0 then was else was + {n - 1}, start, t0 + 1)
  {
    assert n < |r.timestamps| ==> t0 < r.timestamps[n];
    hide Covered, Valid;
    CoveredByHeld(r, was, start, t0, n, t0 + 1);
  }

  lemma {:induction false} FlatShowsPixels(r: Rmq, v: View, was: set<nat>, px: nat, end: nat, t0: nat, n: nat,
                                           next: nat, jump': Option<nat>)
    requires Valid(r) && Sound(v) && Covered(r, was, TimeAt(v, 0), t0) && TimeAt(v, px) <= t0
    requires SplitsAt(r, t0, n) && px < next <= end
    requires if n == |r.timestamps| then next == end
             else next == px + 1 || next <= PixelOf(v, r.timestamps[n])
    ensures Covered(r, if n == 0 then was else was + {n - 1}, TimeAt(v, 0), TimeAt(v, next - 1) + 1)
  {
    if n < |r.timestamps| && next != px + 1 {
      StrictlyBefore(v, r.timestamps[n], next - 1);
    }
    hide TimeAt, PixelOf, Sound, Covered;
    CoveredByHeld(r, was, TimeAt(v, 0), t0, n, TimeAt(v, next - 1) + 1);
  }

  lemma {:induction false} FlatBorder(r: Rmq, v: View, was: set<nat>, px: nat, end: nat, jump: Option<nat>,
                                      last: Option<nat>, t0: nat, n: nat)
    requires Sound(v) && px < end && Walking(r, v, was, px, end, jump) && t0 == Reached(v, px, jump)
    requires Shown(r, v, was, px, end, jump, last) && SplitsAt(r, t0, n)
    ensures Border(r, v, if n == 0 then was else was + {n - 1}, end)
  {
    TimeAtMonotone(v, px, end - 1);
    TimeAtMonotone(v, px + 1, end);
    PixelBefore(v, t0, end as real);
    assert t0 <= TimeAt(v, end);
    assert jump.None? ==> t0 <= TimeAt(v, end - 1);
    assert jump.Some? ==> t0 as real < Exact(v, end as real);
    hide TimeAt, PixelOf, Exact, Covered, Walking;
  }

  lemma {:induction false} ShownRange(r: Rmq, v: View, was: set<nat>, px: nat, end: nat, jump: Option<nat>,
                                      last: Option<nat>, t0: nat, lo: nat, hi: nat)
    requires Sound(v) && px < end && TimeAt(v, px) <= t0 < TimeAt(v, px + 1)
    requires Shown(r, v, was, px, end, jump, last) && Delimits(r, lo, hi, t0, TimeAt(v, px + 1))
    requires Covered(r, was + Run(lo, hi + 1), TimeAt(v, 0), TimeAt(v, px + 1))
    ensures Shown(r, v, was + Run(lo, hi + 1), px + 1, end, None, Some(t0))
  {
    var visited, t1 := was + Run(lo, hi + 1), TimeAt(v, px + 1);
    TimeAtMonotone(v, px + 1, end);
    RangeBorder(r, v, was, end, t0, t1, lo, hi);
    hide TimeAt, PixelOf, Exact, Covered, Border, Delimits, Run;
    CoveredLess(r, visited, TimeAt(v, 0), t1, t0 + 1);
    CoveredLess(r, visited, TimeAt(v, 0), t1, TimeAt(v, px) + 1);
  }

  lemma {:induction false} RangeBorder(r: Rmq, v: View, was: set<nat>, end: nat, t0: nat, t1: nat, lo: nat, hi: nat)
    requires end > 0 && Border(r, v, was, end) && Delimits(r, lo, hi, t0, t1) && t1 <= TimeAt(v, end)
    ensures Border(r, v, was + Run(lo, hi + 1), end)
  {
    hide TimeAt, Exact;
  }

  lemma {:induction false} ShownDone(r: Rmq, v: View, visited: set<nat>, end: nat, jump: Option<nat>, last: Option<nat>)
    requires Sound(v) && end > 0 && Shown(r, v, visited, end, end, jump, last)
    ensures Covered(r, visited, TimeAt(v, 0), TimeAt(v, end - 1) + 1) && Border(r, v, visited, end)
  {
  }

  /** All that holds at the head of the loop. */
  ghost predicate AtPixel(r: Rmq, v: View, visited: set<nat>, px: nat, end: nat, jump: Option<nat>, last: Option<nat>)
    requires v.scale != 0.0 && end > 0
  {
    Walking(r, v, visited, px, end, jump) && NothingNew(r, v, visited, px, jump, last)
      && Shown(r, v, visited, px, end, jump, last)
  }

  lemma {:induction false} SkipStep(r: Rmq, v: View, visited: set<nat>, px: nat, end: nat, last: Option<nat>)
    requires Sound(v) && px < end && AtPixel(r, v, visited, px, end, None, last) && last == Some(TimeAt(v, px))
    ensures AtPixel(r, v, visited, px + 1, end, None, last)
  {
    hide Walking, NothingNew, Shown;
    SkipPixel(r, v, visited, px, end, last);
    ShownSkip(r, v, visited, px, end, TimeAt(v, px));
  }

  lemma {:induction false} FlatStep(r: Rmq, v: View, was: set<nat>, px: nat, end: nat, jump: Option<nat>,
                                    last: Option<nat>, t0: nat, n: nat, next: nat, jump': Option<nat>)
    requires Valid(r) && Sound(v) && px < end && AtPixel(r, v, was, px, end, jump, last) && t0 == Reached(v, px, jump)
    requires SplitsAt(r, t0, n) && (n < |r.timestamps| ==> r.timestamps[n] >= TimeAt(v, px + 1))
    requires px < next <= end
    requires if n == |r.timestamps| then jump' == None && next == end
             else if PixelOf(v, r.timestamps[n]) > px
             then jump' == Some(r.timestamps[n])
               && next == (if PixelOf(v, r.timestamps[n]) < end then PixelOf(v, r.timestamps[n]) else end)
             else jump' == None && next == px + 1
    ensures AtPixel(r, v, if n == 0 then was else was + {n - 1}, next, end, jump', Some(t0))
  {
    hide Walking, NothingNew, Shown, Reached, PixelOf, TimeAt, SplitsAt;
    FlatWalked(r, v, was, px, end, jump, t0, n, next, jump');
    ShownFlat(r, v, was, px, end, jump, last, t0, n, next, jump');
  }

  lemma {:induction false} RangeStep(r: Rmq, v: View, was: set<nat>, px: nat, end: nat, jump: Option<nat>,
                                     last: Option<nat>, t0: nat, n: nat, lo: nat, hi: nat)
    requires Valid(r) && Sound(v) && px < end && AtPixel(r, v, was, px, end, jump, last) && t0 == Reached(v, px, jump)
    requires SplitsAt(r, t0, n) && n < |r.timestamps| && r.timestamps[n] < TimeAt(v, px + 1)
    requires Delimits(r, lo, hi, t0, TimeAt(v, px + 1))
    ensures AtPixel(r, v, was + Run(lo, hi + 1), px + 1, end, None, Some(t0))
  {
    RangeWalked(r, v, was, px, end, jump, t0, n, lo, hi);
    assert TimeAt(v, px) <= t0;
    assert t0 < TimeAt(v, px + 1);
    assert Covered(r, was + Run(lo, hi + 1), TimeAt(v, 0), TimeAt(v, px + 1));
    hide *;
    ShownRange(r, v, was, px, end, jump, last, t0, lo, hi);
    Together(r, v, was + Run(lo, hi + 1), px + 1, end, None, Some(t0));
  }

  lemma Together(r: Rmq, v: View, visited: set<nat>, px: nat, end: nat, jump: Option<nat>, last: Option<nat>)
    requires v.scale != 0.0 && end > 0
    requires Walking(r, v, visited, px, end, jump) && NothingNew(r, v, visited, px, jump, last)
      && Shown(r, v, visited, px, end, jump, last)
    ensures AtPixel(r, v, visited, px, end, jump, last)
  {
  }

  /** After the loop: everything in the window has been visited, and nothing outside it but the held sample. */
  lemma {:induction false} LoopDone(r: Rmq, v: View, visited: set<nat>, end: nat, jump: Option<nat>, last: Option<nat>)
    requires Sound(v) && end > 0 && AtPixel(r, v, visited, end, end, jump, last)
    ensures Covered(r, visited, TimeAt(v, 0), TimeAt(v, end)) && Within(r, visited, TimeAt(v, 0), TimeAt(v, end))
    ensures Covered(r, visited, TimeAt(v, 0), TimeAt(v, end - 1) + 1) && Border(r, v, visited, end)
    ensures forall i: nat :: Held(r, i, TimeAt(v, 0)) ==> i in visited
  {
    hide Walking, NothingNew, Shown, Covered, Within, Border, TimeAt;
    WalkDone(r, v, visited, end, jump);
    ShownDone(r, v, visited, end, jump, last);
  }

  lemma {:induction false} ShownSkip(r: Rmq, v: View, visited: set<nat>, px: nat, end: nat, last: nat)
    requires Sound(v) && px < end && Shown(r, v, visited, px, end, None, Some(last)) && last == TimeAt(v, px)
    ensures Shown(r, v, visited, px + 1, end, None, Some(last))
  {
    hide TimeAt, PixelOf, Covered, Border;
  }

  // ----- the samples seen in the end

  /** Sample `i` is the first one later than `time`. */
  ghost predicate FirstAfter(r: Rmq, i: nat, time: nat) {
    i < |r.timestamps| && r.timestamps[i] > time && (i > 0 ==> r.timestamps[i - 1] <= time)
  }

  /**
   Held at the left edge, inside the window up to pixel `end` or up to the time of the pixel before it,
   or the first sample behind the window.
   */
  ghost predicate MustSee(r: Rmq, v: View, i: nat, end: nat)
    requires end > 0
  {
    var from, to := TimeAt(v, 0), TimeAt(v, end);
    && i < |r.timestamps|
    && (Held(r, i, from) || from <= r.timestamps[i] < to || from <= r.timestamps[i] <= TimeAt(v, end - 1)
        || FirstAfter(r, i, to))
  }

  /** Held at the left edge, or inside the window: the samples the row has to show. */
  ghost predicate MustDraw(r: Rmq, v: View, i: nat, end: nat)
    requires end > 0
  {
    var from := TimeAt(v, 0);
    && i < |r.timestamps|
    && (Held(r, i, from) || from <= r.timestamps[i] < TimeAt(v, end) || from <= r.timestamps[i] <= TimeAt(v, end - 1))
  }

  /**
   Sample `i` is not earlier than the left edge, and pixel `p` reaches it: it lies before the time the next
   pixel is asked at, or not behind the one `p` is asked at.
   */
  ghost predicate InPixel(r: Rmq, v: View, i: nat, p: nat) {
    && i < |r.timestamps| && TimeAt(v, 0) <= r.timestamps[i]
    && (r.timestamps[i] < TimeAt(v, p + 1) || r.timestamps[i] <= TimeAt(v, p))
  }

  lemma {:induction false} PixelsDrawn(r: Rmq, v: View, end: nat)
    requires Sound(v) && end > 0
    ensures forall i: nat, p: nat :: InPixel(r, v, i, p) && p < end ==> MustDraw(r, v, i, end) && MustSee(r, v, i, end)
  {
    forall i: nat, p: nat | InPixel(r, v, i, p) && p < end
      ensures MustDraw(r, v, i, end) && MustSee(r, v, i, end)
    {
      TimeAtMonotone(v, p + 1, end);
      TimeAtMonotone(v, p, end - 1);
      hide TimeAt, Sound, Held;
    }
  }

  /** The last command is a run up to sample `i`, with its value at the end. */
  ghost predicate EndsAt(cs: seq<Command>, pending: Option<(real, Value)>, r: Rmq, v: View, i: nat) {
    && i < |r.timestamps| == |r.values| && v.scale != 0.0
    && pending == None && cs != [] && cs[|cs| - 1].Flat?
    && cs[|cs| - 1].endPx == PixelAt(v, r.timestamps[i]) && cs[|cs| - 1].endVal == r.values[i]
  }

  /** On the right border of a last pixel that reaches a fraction of a time unit beyond it. */
  ghost predicate OnBorder(r: Rmq, v: View, i: nat, end: nat)
    requires end > 0
  {
    && i < |r.timestamps| && r.timestamps[i] == TimeAt(v, end)
    && TimeAt(v, end - 1) < TimeAt(v, end) && TimeAt(v, end) as real < Exact(v, end as real)
  }

  lemma {:induction false} FirstAfterIs(r: Rmq, time: nat, n: nat)
    requires Valid(r) && SplitsAt(r, time, n)
    ensures forall i: nat :: FirstAfter(r, i, time) <==> i == n && n < |r.timestamps|
  {
    forall i: nat | n < i < |r.timestamps|
      ensures !FirstAfter(r, i, time)
    {
      assert r.timestamps[i - 1] > time;
    }
  }

  lemma {:induction false} NextIsHeld(r: Rmq, time: nat, n: nat, m: nat)
    requires Valid(r) && n < |r.timestamps| && r.timestamps[n] == time && SplitsAt(r, time, m)
    ensures m == n + 1
  {
    assert n + 1 < |r.timestamps| ==> r.timestamps[n] < r.timestamps[n + 1];
  }

  /** The next sample after the queried time lies behind the edge. */
  lemma {:induction false} BehindTheEdge(v: View, time: nat, end: nat)
    requires Sound(v) && time > TimeAt(v, end)
    ensures PixelAt(v, time) > end as real
  {
    var px, q := end as real, PixelAt(v, time);
    assert Exact(v, px) < time as real;
    assert q * v.scale == time as real - v.left;
    assert (q - px) * v.scale == q * v.scale - px * v.scale > 0.0;
  }

  lemma {:induction false} WalkStart(r: Rmq, v: View, visited: set<nat>, end: nat)
    requires Sound(v) && end > 0 && Within(r, visited, TimeAt(v, 0), TimeAt(v, 0))
    requires forall i: nat :: Held(r, i, TimeAt(v, 0)) && r.timestamps[i] < TimeAt(v, 0) ==> i in visited
    ensures Walking(r, v, visited, 0, end, None)
  {
    TimeAtMonotone(v, 0, 1);
    TimeAtMonotone(v, 0, end);
  }

  lemma {:induction false} BorderStart(r: Rmq, v: View, visited: set<nat>, end: nat)
    requires Sound(v) && end > 0 && Within(r, visited, TimeAt(v, 0), TimeAt(v, 0))
    ensures Border(r, v, visited, end)
  {
    TimeAtMonotone(v, 0, end - 1);
    hide TimeAt;
  }

  lemma {:induction false} DrawnWalked(r: Rmq, v: View, walked: set<nat>, end: nat)
    requires end > 0 && Covered(r, walked, TimeAt(v, 0), TimeAt(v, end))
    requires Covered(r, walked, TimeAt(v, 0), TimeAt(v, end - 1) + 1)
    requires forall i: nat :: Held(r, i, TimeAt(v, 0)) ==> i in walked
    ensures forall i: nat :: MustDraw(r, v, i, end) ==> i in walked
  {
    hide TimeAt, Held;
  }

  lemma {:induction false} SeenExactly(r: Rmq, v: View, walked: set<nat>, visited: set<nat>, end: nat)
    requires Valid(r) && Sound(v) && end > 0
    requires Covered(r, walked, TimeAt(v, 0), TimeAt(v, end)) && Within(r, walked, TimeAt(v, 0), TimeAt(v, end))
    requires Covered(r, walked, TimeAt(v, 0), TimeAt(v, end - 1) + 1) && Border(r, v, walked, end)
    requires forall i: nat :: Held(r, i, TimeAt(v, 0)) ==> i in walked
    requires forall i: nat :: i in visited <==> i in walked || FirstAfter(r, i, TimeAt(v, end))
    ensures forall i: nat :: MustSee(r, v, i, end) ==> i in visited
    ensures forall i: nat :: i in visited ==> MustSee(r, v, i, end) || OnBorder(r, v, i, end)
  {
    var from, to := TimeAt(v, 0), TimeAt(v, end);
    TimeAtMonotone(v, 0, end);
    TimeAtMonotone(v, end - 1, end);
    hide TimeAt, Sound, Exact;
    forall i: nat | i in walked
      ensures MustSee(r, v, i, end) || OnBorder(r, v, i, end)
    {
      assert r.timestamps[i] < from ==> Held(r, i, from);
    }
  }

  // ----- the bar of one pixel

  datatype Bar = Bar(min: Value, max: Value, entry: Value, exit: Value)

  /** Extremes, entry and exit value of the samples from `t0` to before `t1`, if there are any. */
  method PixelBar(r: Rmq, t0: nat, t1: nat)
    returns (bar: Option<Bar>, ghost first: nat, ghost last: nat, ghost m: MinMax)
    requires Valid(r) && t0 < t1
    ensures bar.None? <==> !exists i: nat :: i < |r.timestamps| && t0 <= r.timestamps[i] < t1
    ensures bar.Some? ==>
              && Delimits(r, first, last, t0, t1) && Summarises(m, r.values, first, last + 1)
              && bar.value == Bar(ToFloat(m.min), if m.hasNonFinite then NAN_UNDEF else ToFloat(m.max),
                                  r.values[first], r.values[last])
  {
    bar, first, last, m := None, 0, 0, Single(NAN_UNDEF);
    var found := CacheTimeRange(r, t0, t1 - 1);
    PixelEmpty(r, t0, t1);
    if found.Some? {
      var (min, max) := found.value;
      first, last, m := PixelRange(r, t0, t1);
      EntryExit(r, t0, t1, first, last, min);
      EntryExit(r, t0, t1, first, last, max);
      hide CacheTimeRange, EntryValue, ExitValue, Summarises, Valid, Delimits;
      bar := Some(Bar(min, max, EntryValue(r, t0, min), ExitValue(r, t1 - 1, max)));
    }
  }

  // ----- what has been seen is in the picture

  /** The sample a constant stretch shows was seen before, or is due at this very pixel. */
  lemma {:induction false} NewOrDue(r: Rmq, v: View, visited: set<nat>, px: nat, end: nat, jump: Option<nat>,
                                    last: Option<nat>, t0: nat, n: nat)
    requires Valid(r) && Sound(v) && px < end && AtPixel(r, v, visited, px, end, jump, last)
      && t0 == Reached(v, px, jump)
    requires SplitsAt(r, t0, n)
    ensures n > 0 ==> n - 1 in visited || OnPixel(v, r.timestamps[n - 1], px)
  {
    if n == 0 { return; }
    var start := TimeAt(v, 0);
    TimeAtMonotone(v, 0, px);
    assert start <= t0 && Covered(r, visited, start, t0);
    if r.timestamps[n - 1] < start {
      assert Held(r, n - 1, start);
    }
    hide TimeAt, PixelOf, Sound, Valid;
  }

  /** A run that starts at a sample left of the viewport shows it at pixel 0. */
  lemma {:induction false} LeftOfView(r: Rmq, v: View, i: nat)
    requires Usable(r, v, i) && PixelAt(v, r.timestamps[i]) < 0.0
    ensures AllPictured([], Some((PixelAt(v, r.timestamps[i]), r.values[i])), r, v, {i}, 0.0)
  {
    OpensHere(Some((PixelAt(v, r.timestamps[i]), r.values[i])), r, v, i, 0);
    hide Open;
  }

  /** The bar of a pixel shows all samples it was made from. */
  lemma {:induction false} BarPictures(cs: seq<Command>, pending: Option<(real, Value)>, cs': seq<Command>,
                                       pending': Option<(real, Value)>, r: Rmq, v: View, visited: set<nat>, first: nat,
                                       last: nat, m: MinMax, px: nat, t0: nat)
    requires Valid(r) && Sound(v) && TimeAt(v, px) <= t0 && Delimits(r, first, last, t0, TimeAt(v, px + 1))
    requires Summarises(m, r.values, first, last + 1)
    requires AllPictured(cs, pending, r, v, visited, px as real)
    requires RangeEmitted(cs, pending, cs', px as real, ToFloat(m.min),
                          if m.hasNonFinite then NAN_UNDEF else ToFloat(m.max), r.values[first])
    ensures AllPictured(cs', pending', r, v, visited + Run(first, last + 1), (px + 1) as real)
      && first in Run(first, last + 1)
  {
    var min, max := ToFloat(m.min), if m.hasNonFinite then NAN_UNDEF else ToFloat(m.max);
    forall i | i in Run(first, last + 1)
      ensures Usable(r, v, i) && BarAt(px as real, min, max, r, v, i, px)
    {
      SummarySpans(m, r, first, last + 1, i);
      hide Spans, Summarises, AllPictured, RangeEmitted, TimeAt, ToFloat;
    }
    RangePictures(cs, pending, cs', pending', r, v, visited, Run(first, last + 1), px, min, max, r.values[first]);
    hide *;
  }

  // ----- what is shown is true

  lemma {:induction false} ReachedWithin(r: Rmq, v: View, visited: set<nat>, px: nat, end: nat, jump: Option<nat>,
                                         last: Option<nat>)
    requires Sound(v) && px < end && AtPixel(r, v, visited, px, end, jump, last)
    ensures TimeAt(v, px) <= Reached(v, px, jump) <= TimeAt(v, px + 1)
  {
    hide TimeAt, PixelOf, NothingNew, Shown;
  }

  /** A constant stretch keeps the row true. */
  lemma {:induction false} FlatTruth(r: Rmq, v: View, cs: seq<Command>, pending: Option<(real, Value)>,
                                     cs': seq<Command>, pending': Option<(real, Value)>, px: nat, end: nat, t0: nat,
                                     last: Option<nat>, n: nat, next: nat, jump': Option<nat>)
    requires Valid(r) && Sound(v) && Truthful(r, v, cs, pending, px, t0, last) && SplitsAt(r, t0, n)
    requires TimeAt(v, px) <= t0 <= TimeAt(v, px + 1) && px < next <= end
    requires if n == |r.timestamps| then jump' == None && next == end
             else if PixelOf(v, r.timestamps[n]) > px
             then jump' == Some(r.timestamps[n])
               && next == (if PixelOf(v, r.timestamps[n]) < end then PixelOf(v, r.timestamps[n]) else end)
             else jump' == None && next == px + 1
    requires if n == 0 then cs' == cs && pending' == pending
             else FlatEmitted(cs, pending, cs', pending', px as real, r.values[n - 1])
    ensures Truthful(r, v, cs', pending', next, Reached(v, next, jump'), Some(t0))
  {
    TimeAtMonotone(v, px + 1, next);
    assert jump'.Some? ==> t0 < r.timestamps[n];
    assert t0 <= Reached(v, next, jump');
    hide TimeAt, PixelOf, Valid, Sound, SplitsAt, FlatEmitted, Truthful, Reached;
    TruthFlat(r, v, cs, pending, cs', pending', px, t0, last, n, next, Reached(v, next, jump'));
  }

  /** A bar keeps the row true. */
  lemma {:induction false} RangeTruth(r: Rmq, v: View, cs: seq<Command>, pending: Option<(real, Value)>,
                                      cs': seq<Command>, pending': Option<(real, Value)>, px: nat, t0: nat,
                                      last: Option<nat>, first: nat, hi: nat, m: MinMax)
    requires Valid(r) && Sound(v) && Truthful(r, v, cs, pending, px, t0, last)
    requires TimeAt(v, px) <= t0 < TimeAt(v, px + 1) && Delimits(r, first, hi, t0, TimeAt(v, px + 1))
    requires Summarises(m, r.values, first, hi + 1)
    requires RangeEmitted(cs, pending, cs', px as real, ToFloat(m.min),
                          if m.hasNonFinite then NAN_UNDEF else ToFloat(m.max), r.values[first])
    requires pending' == Some(((px + 1) as real, r.values[hi]))
    ensures Truthful(r, v, cs', pending', px + 1, Reached(v, px + 1, None), Some(t0))
  {
    var min, max := ToFloat(m.min), if m.hasNonFinite then NAN_UNDEF else ToFloat(m.max);
    ReachedIs(v, px + 1, None);
    hide TimeAt, Sound, Truthful, RangeEmitted, Summarises, ToFloat, Reached;
    assert BarOf(r, v, px, first, hi + 1, m, min, max);
    hide *;
    TruthRange(r, v, cs, pending, cs', pending', px, t0, last, first, hi + 1, m, min, max, r.values[first]);
  }

  lemma {:induction false} RowDone(r: Rmq, v: View, cs: seq<Command>, pending: Option<(real, Value)>,
                                   commands: seq<Command>, end: nat, reached: nat, asked: Option<nat>, edge: real)
    requires Truthful(r, v, cs, pending, end, reached, asked) && RowClosed(cs, pending, commands, end, edge)
    requires TilesAll(commands)
    ensures AllTrue(r, v, commands, end as real)
    ensures forall p: nat :: p < end && Begun(r, TimeAt(v, p)) ==> PixelCovered(commands, p, edge)
  {
    hide *;
    RowTrue(r, v, cs, pending, commands, end, reached, asked, edge);
    forall p: nat | p < end && Begun(r, TimeAt(v, p))
      ensures PixelCovered(commands, p, edge)
    {
      RowCovered(r, v, cs, pending, commands, end, reached, asked, edge, p);
    }
  }

  // ----- the builder

  class Builder {
    const rmq: Rmq
    const view: View
    const viewWidth: real
    const maxValidPixel: real
    const output: Output
    /** Positions of the samples whose values have gone into the viewport bounds. */
    ghost var visited: set<nat>

    constructor (rmq: Rmq, view: View, viewWidth: real, maxTimestamp: nat)
      requires Valid(rmq) && Sound(view)
      ensures this.rmq == rmq && this.view == view && this.viewWidth == viewWidth
        && maxValidPixel == PixelAt(view, maxTimestamp)
      ensures fresh(output) && output.commands == [] && output.pending == None
      ensures visited == {} && BoundsExact()
    {
      this.rmq, this.view, this.viewWidth, maxValidPixel := rmq, view, viewWidth, PixelAt(view, maxTimestamp);
      output := new Output();
      visited := {};
    }

    ghost predicate Ready() {
      Valid(rmq) && Sound(view)
    }

    /** For a finite signal, the bounds are exactly the extremes of the visited samples. */
    ghost predicate BoundsExact()
      reads this, output
    {
      AllFinite(rmq) ==> Extremes(output.viewportMin, output.viewportMax, rmq.values, visited)
    }

    ghost predicate Drawn(before: Option<(real, Value)>, px: real)
      reads output
    {
      Tiles(output.commands, output.pending) && Forward(output.commands, output.pending, px)
        && StartsAt(output.commands, output.pending, before)
    }

    /** Every visited sample is shown by a command or by the open run, at a pixel where it is due. */
    ghost predicate InPicture(upTo: real)
      reads this, output
    {
      && AllPictured(output.commands, output.pending, rmq, view, visited, upTo)
      && (visited != {} <==> output.pending.Some?)
    }

    /** Nothing wrong is shown before pixel `px`, and from the first sample on nothing is left out. */
    ghost predicate Truth(px: nat, reached: nat, asked: Option<nat>)
      reads output
    {
      Truthful(rmq, view, output.commands, output.pending, px, reached, asked)
    }

    lemma Further(before: Option<(real, Value)>, px: real, px': real)
      requires Drawn(before, px) && InPicture(px) && px <= px'
      ensures Drawn(before, px') && InPicture(px')
    {
      AllLater(output.commands, output.pending, rmq, view, visited, px, px');
      hide AllPictured;
    }

    lemma SkipTruth(px: nat)
      requires Ready() && Truth(px, TimeAt(view, px), Some(TimeAt(view, px)))
      ensures Truth(px + 1, Reached(view, px + 1, None), Some(TimeAt(view, px)))
    {
      ReachedIs(view, px + 1, None);
      hide Truthful;
      TruthSkip(rmq, view, output.commands, output.pending, px);
    }

    /** The value of sample `i` goes into the bounds. */
    method Visit(value: Value, ghost i: nat)
      requires Ready() && i < |rmq.values| && value == rmq.values[i] && BoundsExact()
      modifies this`visited, output`viewportMin, output`viewportMax
      ensures visited == old(visited) + {i} && BoundsExact()
    {
      if AllFinite(rmq) {
        ExtremesAdd(output.viewportMin, output.viewportMax, rmq.values, visited, i);
      }
      output.UpdateBounds(value);
      visited := visited + {i};
    }

    /** Both ends of a range go into the bounds, and with them all its samples. */
    method VisitRange(min: Value, max: Value, ghost m: MinMax, ghost first: nat, ghost last: nat)
      requires Ready() && BoundsExact() && Summarises(m, rmq.values, first, last + 1)
      requires min == ToFloat(m.min) && max == if m.hasNonFinite then NAN_UNDEF else ToFloat(m.max)
      modifies this`visited, output`viewportMin, output`viewportMax
      ensures visited == old(visited) + Run(first, last + 1) && BoundsExact()
    {
      if AllFinite(rmq) {
        ExtremesAddRange(output.viewportMin, output.viewportMax, rmq.values, visited, m, first, last + 1);
      }
      ghost var a, b := output.viewportMin, output.viewportMax;
      output.UpdateBounds(min);
      output.UpdateBounds(max);
      visited := visited + Run(first, last + 1);
      if AllFinite(rmq) {
        TwoUpdates(a, b, m);
      }
    }

    method AddBeforeViewportSample() returns (before: Option<real>, ghost first: Option<(real, Value)>)
      requires Ready() && BoundsExact() && visited == {} && output.commands == [] && output.pending == None
      modifies this`visited, output
      ensures BoundsExact() && Drawn(first, 0.0) && InPicture(0.0) && Leads(before, first)
      ensures Truth(0, TimeAt(view, 0), None)
      ensures Within(rmq, visited, TimeAt(view, 0), TimeAt(view, 0))
      ensures forall i: nat :: Held(rmq, i, TimeAt(view, 0)) && rmq.timestamps[i] < TimeAt(view, 0) ==> i in visited
      ensures forall i: nat :: Held(rmq, i, TimeAt(view, 0)) && PixelAt(view, rmq.timestamps[i]) < 0.0 ==>
                i < |rmq.values| && first == Some((PixelAt(view, rmq.timestamps[i]), rmq.values[i]))
    {
      var start := TimeAt(view, 0);
      var query := QueryAtTime(rmq, start);
      ghost var n := QueryAtTimeExact(rmq, start);
      before, first := None, None;
      OnlyOneHeld(rmq, start, n);
      SplitBegun(rmq, start, n);
      TruthStart(rmq, view, None);
      hide TimeAt, QueryAtTime, Valid, Sound, AllPictured, Extremes, AllFinite, PixelAt, Truthful, Begun;
      if query.current.Some? {
        var (time, value) := query.current.value;
        var px := PixelAt(view, time);
        PixelBefore(view, time, 0.0);
        if px < 0.0 {
          Visit(value, n - 1);
          output.pending := Some((px, value));
          before, first := Some(px), Some((px, value));
          assert visited == {n - 1};
          LeftOfView(rmq, view, n - 1);
          TruthStart(rmq, view, first);
        }
      }
    }

    /** A pixel without a transition in it: the held value, then on to the next transition. */
    method ProcessFlat(px: nat, end: nat, query: AtTime, ghost n: nat, ghost before: Option<(real, Value)>)
      returns (next: nat, jump: Option<nat>)
      requires Ready() && BoundsExact() && Drawn(before, px as real) && InPicture(px as real) && px < end
        && n <= |rmq.values|
      requires n > 0 ==> n - 1 in visited || OnPixel(view, rmq.timestamps[n - 1], px)
      requires query.current == if n == 0 then None else Some((rmq.timestamps[n - 1], rmq.values[n - 1]))
      modifies this`visited, output
      ensures BoundsExact() && Drawn(before, px as real) && InPicture(px as real)
      ensures visited == if n == 0 then old(visited) else old(visited) + {n - 1}
      ensures if n == 0 then output.commands == old(output.commands) && output.pending == old(output.pending)
              else FlatEmitted(old(output.commands), old(output.pending), output.commands, output.pending, px as real,
                               rmq.values[n - 1])
      ensures query.current.Some? ==> output.pending.Some? && output.pending.value.1 == query.current.value.1
      ensures px < next <= end
      ensures match query.next
              case None => jump == None && next == end
              case Some(change) =>
                if PixelOf(view, change) > px
                then jump == Some(change)
                  && next == (if PixelOf(view, change) < end then PixelOf(view, change) else end)
                else jump == None && next == px + 1
    {
      if query.current.Some? {
        var value := query.current.value.1;
        ghost var was, cs, pending := visited, output.commands, output.pending;
        Visit(value, n - 1);
        output.EmitFlat(px as real, value, before);
        FlatPictures(cs, pending, output.commands, output.pending, rmq, view, was, n - 1, px);
      }
      jump := None;
      match query.next {
        case Some(change) =>
          var target := PixelOf(view, change);
          if target > px {
            jump := Some(change);
            return if target < end then target else end, jump;
          }
          next := if px + 1 < end then px + 1 else end;
        case None =>
          next := end;
      }
    }

    /** A pixel with transitions in it: one bar over the samples from `t0` to before `t1`. */
    method ProcessRange(px: nat, t0: nat, t1: nat, ghost before: Option<(real, Value)>)
      returns (ghost first: nat, ghost last: nat, ghost m: MinMax)
      requires Ready() && BoundsExact() && Drawn(before, px as real) && InPicture(px as real)
      requires TimeAt(view, px) <= t0 < t1 == TimeAt(view, px + 1)
      modifies this`visited, output
      ensures BoundsExact() && Drawn(before, (px + 1) as real) && InPicture((px + 1) as real)
      ensures if exists i: nat :: i < |rmq.timestamps| && t0 <= rmq.timestamps[i] < t1
              then
                && Delimits(rmq, first, last, t0, t1) && visited == old(visited) + Run(first, last + 1)
                && Summarises(m, rmq.values, first, last + 1)
                && output.pending == Some(((px + 1) as real, rmq.values[last]))
                && RangeEmitted(old(output.commands), old(output.pending), output.commands, px as real,
                                ToFloat(m.min), if m.hasNonFinite then NAN_UNDEF else ToFloat(m.max), rmq.values[first])
              else
                && visited == old(visited)
                && output.commands == old(output.commands) && output.pending == old(output.pending)
    {
      hide Summarises, Extremes, Delimits, RangeEmitted, AllPictured, AllFinite, TimeAt, Valid, Tiles, Forward,
           StartsAt, Run;
      var bar;
      bar, first, last, m := PixelBar(rmq, t0, t1);
      if bar.None? {
        Further(before, px as real, (px + 1) as real);
      } else {
        ghost var was, cs, pending := visited, output.commands, output.pending;
        VisitRange(bar.value.min, bar.value.max, m, first, last);
        output.EmitRange(px as real, bar.value.min, bar.value.max, bar.value.entry, bar.value.exit, before);
        BarPictures(cs, pending, output.commands, output.pending, rmq, view, was, first, last, m, px, t0);
      }
    }

    // ----- the walk itself

    /** Query at `t0` and draw what is found: a constant stretch, or a bar up to `t1`. */
    method DrawPixel(px: nat, end: nat, t0: nat, t1: nat, ghost jump: Option<nat>, ghost asked: Option<nat>,
                     ghost before: Option<(real, Value)>)
      returns (next: nat, jump': Option<nat>)
      requires Ready() && BoundsExact() && Drawn(before, px as real) && InPicture(px as real) && px < end
      requires AtPixel(rmq, view, visited, px, end, jump, asked)
      requires t0 == Reached(view, px, jump) && t1 == TimeAt(view, px + 1) && Truth(px, t0, asked)
      modifies this`visited, output
      ensures px < next <= end && BoundsExact() && Drawn(before, next as real) && InPicture(next as real)
      ensures AtPixel(rmq, view, visited, next, end, jump', Some(t0))
      ensures Truth(next, Reached(view, next, jump'), Some(t0))
    {
      hide Drawn, InPicture, BoundsExact, QueryAtTime, Covered, Within, Valid, Sound, TimeAt, PixelOf, Held, Walking,
           Border, AtPixel, Truthful, FlatEmitted, RangeEmitted, Summarises, ToFloat, Delimits, Reached;
      var query := QueryAtTime(rmq, t0);
      ghost var n := QueryAtTimeExact(rmq, t0);
      ghost var was, cs, pending := visited, output.commands, output.pending;
      ReachedWithin(rmq, view, was, px, end, jump, asked);
      if query.next.None? || query.next.value >= t1 {
        NewOrDue(rmq, view, was, px, end, jump, asked, t0, n);
        next, jump' := ProcessFlat(px, end, query, n, before);
        FlatStep(rmq, view, was, px, end, jump, asked, t0, n, next, jump');
        FlatTruth(rmq, view, cs, pending, output.commands, output.pending, px, end, t0, asked, n, next, jump');
        Further(before, px as real, next as real);
      } else {
        ghost var first, last, m := ProcessRange(px, t0, t1, before);
        RangeStep(rmq, view, was, px, end, jump, asked, t0, n, first, last);
        RangeTruth(rmq, view, cs, pending, output.commands, output.pending, px, t0, asked, first, last, m);
        next, jump' := px + 1, None;
      }
    }

    method IteratePixels(end: nat, ghost before: Option<(real, Value)>)
      returns (ghost reached: nat, ghost asked: Option<nat>)
      requires Ready() && BoundsExact() && Drawn(before, 0.0) && InPicture(0.0) && end > 0
        && Walking(rmq, view, visited, 0, end, None)
      requires Border(rmq, view, visited, end) && Truth(0, TimeAt(view, 0), None)
      modifies this`visited, output
      ensures Truth(end, reached, asked)
      ensures BoundsExact() && Drawn(before, end as real) && InPicture(end as real)
      ensures Covered(rmq, visited, TimeAt(view, 0), TimeAt(view, end))
      ensures Covered(rmq, visited, TimeAt(view, 0), TimeAt(view, end - 1) + 1) && Border(rmq, view, visited, end)
      ensures Within(rmq, visited, TimeAt(view, 0), TimeAt(view, end))
      ensures forall i: nat :: Held(rmq, i, TimeAt(view, 0)) ==> i in visited
    {
      assert AtPixel(rmq, view, visited, 0, end, None, None);
      hide *;
      ReachedIs(view, 0, None);
      var px: nat := 0;
      var nextQueryTime: Option<nat>, lastQueriedTime: Option<nat> := None, None;
      while px < end
        invariant px <= end && BoundsExact() && Drawn(before, px as real) && InPicture(px as real)
        invariant AtPixel(rmq, view, visited, px, end, nextQueryTime, lastQueriedTime)
        invariant Truth(px, Reached(view, px, nextQueryTime), lastQueriedTime)
      {
        var jumped := nextQueryTime.Some?;
        var t0 := if jumped then nextQueryTime.value else TimeAt(view, px);
        var t1 := TimeAt(view, px + 1);
        ReachedIs(view, px, nextQueryTime);
        if !jumped && lastQueriedTime == Some(t0) {
          SkipStep(rmq, view, visited, px, end, lastQueriedTime);
          SkipTruth(px);
          Further(before, px as real, (px + 1) as real);
          px := px + 1;
          continue;
        }
        px, nextQueryTime := DrawPixel(px, end, t0, t1, nextQueryTime, lastQueriedTime, before);
        lastQueriedTime := Some(t0);
      }
      reached, asked := Reached(view, end, nextQueryTime), lastQueriedTime;
      LoopDone(rmq, view, visited, end, nextQueryTime, lastQueriedTime);
    }

    /** The first sample behind the viewport ends the last run. */
    method AddAfterViewportSample(end: nat, ghost before: Option<(real, Value)>)
      requires Ready() && BoundsExact() && Drawn(before, end as real) && InPicture(end as real)
      modifies this`visited, output
      ensures BoundsExact() && TilesAll(output.commands) && StartsAt(output.commands, output.pending, before)
      ensures ForwardAll(output.commands)
      ensures (output.commands == old(output.commands) && output.pending == old(output.pending))
        || (output.pending == None
            && RowClosed(old(output.commands), old(output.pending), output.commands, end, maxValidPixel))
      ensures output.pending.Some? ==> Tiles(output.commands, output.pending)
      ensures forall i: nat :: i in visited <==> i in old(visited) || FirstAfter(rmq, i, TimeAt(view, end))
      ensures AllPictured(output.commands, output.pending, rmq, view, old(visited), end as real)
      ensures forall i: nat :: FirstAfter(rmq, i, TimeAt(view, end)) ==>
                EndsAt(output.commands, output.pending, rmq, view, i)
                  || (output.commands == [] && output.pending == None)
    {
      hide AllPictured, Extremes, AllFinite, QueryAtTime, TimeAt, Valid;
      var query := QueryAtTime(rmq, TimeAt(view, end));
      ghost var n := QueryAtTimeExact(rmq, TimeAt(view, end));
      FirstAfterIs(rmq, TimeAt(view, end), n);
      if query.next.Some? {
        var nextTime := query.next.value;
        var afterPx := PixelAt(view, nextTime);
        BehindTheEdge(view, nextTime, end);
        if afterPx > end as real {
          var after := QueryAtTime(rmq, nextTime);
          ghost var m := QueryAtTimeExact(rmq, nextTime);
          NextIsHeld(rmq, nextTime, n, m);
          if after.current.Some? {
            var value := after.current.value.1;
            Visit(value, n);
            if output.pending.Some? {
              var (start, startVal) := output.pending.value;
              ClosePictures(output.commands, output.pending, rmq, view, old(visited), end as real, afterPx, value);
              output.commands := output.commands + [Flat(start, startVal, afterPx, value)];
              output.pending := None;
            }
          }
        }
      }
    }

    /** Close the last run at the end of the signal, and widen the first one to the sample before the viewport. */
    method Finalize(before: Option<real>, ghost first: Option<(real, Value)>) returns (commands: seq<Command>)
      requires TilesAll(output.commands) && (output.pending.Some? ==> Tiles(output.commands, output.pending))
      requires ForwardAll(output.commands)
      requires Leads(before, first) && StartsAt(output.commands, output.pending, first)
      modifies output`commands, output`pending
      ensures TilesAll(commands) && commands == output.commands && ForwardButLast(commands, maxValidPixel)
      ensures commands == match old(output.pending)
                          case None => old(output.commands)
                          case Some(p) => old(output.commands) + [Flat(p.0, p.1, maxValidPixel, p.1)]
      ensures first.Some? ==>
                && commands != [] && commands[0].Flat?
                && (commands[0].startPx, commands[0].startVal) == first.value
    {
      if output.pending.Some? {
        var (start, startVal) := output.pending.value;
        output.commands := output.commands + [Flat(start, startVal, maxValidPixel, startVal)];
        output.pending := None;
      }
      if before.Some? && output.commands != [] && output.commands[0].Flat? {
        var command := output.commands[0];
        output.commands := output.commands[0 := command.(startPx := Min(command.startPx, before.value))];
      }
      commands := output.commands;
    }

    /** The pixel behind the last one that is walked. */
    function EndPixel(): (end: nat)
      ensures if viewWidth < 0.0 then end == 1 else (end - 1) as real <= viewWidth < end as real
    {
      (if viewWidth.Floor < 0 then 0 else viewWidth.Floor) + 1
    }

    /**
     All commands of the row.  Every sample that a pixel of the view reaches has been drawn, nothing is
     drawn where the signal does not have it, and from the first sample on no pixel is left out.  For a
     finite signal the bounds are exactly the extremes of the samples visited: the one held at the left
     edge, those in the window, the first one behind it, and possibly one right on its border.
     */
    method Build() returns (commands: seq<Command>)
      requires Ready() && BoundsExact() && visited == {} && output.commands == [] && output.pending == None
      modifies this`visited, output
      ensures TilesAll(commands) && ForwardButLast(commands, maxValidPixel)
      ensures forall i: nat :: Held(rmq, i, TimeAt(view, 0)) && PixelAt(view, rmq.timestamps[i]) < 0.0 ==>
                && commands != [] && commands[0].Flat? && commands[0].startPx == PixelAt(view, rmq.timestamps[i])
                && i < |rmq.values| && commands[0].startVal == rmq.values[i]
      ensures forall i: nat :: MustDraw(rmq, view, i, EndPixel()) ==>
                && Usable(rmq, view, i)
                && (Depicted(commands, rmq, view, i) || InLastRun(commands, rmq, view, i, maxValidPixel))
      ensures forall i: nat :: FirstAfter(rmq, i, TimeAt(view, EndPixel())) && commands != [] ==>
                EndsAt(commands, None, rmq, view, i)
      ensures forall i: nat :: MustSee(rmq, view, i, EndPixel()) ==> i in visited
      ensures forall i: nat :: i in visited ==> MustSee(rmq, view, i, EndPixel()) || OnBorder(rmq, view, i, EndPixel())
      ensures AllFinite(rmq) ==> Extremes(output.viewportMin, output.viewportMax, rmq.values, visited)
      ensures forall i: nat, p: nat :: InPixel(rmq, view, i, p) && (p == 0 || p as real <= viewWidth) ==>
                && i in visited && Usable(rmq, view, i)
                && (Depicted(commands, rmq, view, i) || InLastRun(commands, rmq, view, i, maxValidPixel))
      ensures AllTrue(rmq, view, commands, EndPixel() as real)
      ensures forall p: nat :: (p == 0 || p as real <= viewWidth) && Begun(rmq, TimeAt(view, p)) ==>
                PixelCovered(commands, p, maxValidPixel)
    {
      var end := EndPixel();
      hide Truthful, RowClosed, AllTrue, Begun, PixelCovered, InPixel, AllPictured, Extremes, AllFinite, InPicture,
           Usable, Depicted, FirstAfter, MustSee, MustDraw, OnBorder, Held, Covered, Within, Walking, Border, TimeAt,
           Valid;
      var before, first := AddBeforeViewportSample();
      WalkStart(rmq, view, visited, end);
      BorderStart(rmq, view, visited, end);
      ghost var reached, asked := IteratePixels(end, first);
      ghost var walked, cs0, pending0 := visited, output.commands, output.pending;
      AddAfterViewportSample(end, first);
      SeenExactly(rmq, view, walked, visited, end);
      DrawnWalked(rmq, view, walked, end);
      ghost var cs, pending := output.commands, output.pending;
      commands := Finalize(before, first);
      RowPictures(cs, pending, commands, rmq, view, walked, end as real, maxValidPixel);
      ClosedOnce(cs0, pending0, cs, pending, commands, end, maxValidPixel);
      RowDone(rmq, view, cs0, pending0, commands, end, reached, asked, maxValidPixel);
      PixelsDrawn(rmq, view, end);
    }
  }

  /** No command but a last run closed at `edge`, the end of the signal, ends before it starts. */
  ghost predicate ForwardButLast(cs: seq<Command>, edge: real) {
    forall k :: 0 <= k < |cs| ==>
      StartOf(cs[k]) <= EndOf(cs[k]) || (k == |cs| - 1 && cs[k].Flat? && cs[k].endPx == edge)
  }

  /** The pixel of the sample before the viewport, and what is drawn from there. */
  ghost predicate Leads(before: Option<real>, first: Option<(real, Value)>) {
    match before
    case None => first == None
    case Some(px) => first.Some? && first.value.0 == px
  }

  lemma {:induction false} TwoUpdates(min: Bound, max: Bound, m: MinMax)
    requires m.min.At? && m.max.At? && Below(m.min, m.max)
    ensures Least(Least(min, m.min), m.max) == Least(min, m.min)
    ensures Greatest(Greatest(max, m.min), m.max) == Greatest(max, m.max)
  {
  }
}