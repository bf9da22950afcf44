/**
 What an analog row displays at each pixel: commands show nothing but values the signal has there, and
 from the first sample on no pixel is left out.
 */
module RowTruth {
  import opened Options
  import opened SignalRmq
  import opened PixelTime
  import opened CommandOutput
  import opened Depiction

  /** The signal has value `val` at some time of pixel `p`, both edges included. */
  ghost predicate ValueAt(r: Rmq, v: View, p: nat, val: Value) {
    exists t: nat :: TimeAt(v, p) <= t <= TimeAt(v, p + 1) && HasValue(r, t, val)
  }

  ghost predicate HasValue(r: Rmq, time: nat, val: Value) {
    exists i: nat :: Held(r, i, time) && i < |r.values| && r.values[i] == val
  }

  /** At every pixel from `from` to before `to` the signal has value `val`. */
  ghost predicate RunTrue(r: Rmq, v: View, val: Value, from: real, to: real) {
    forall p: nat :: from <= p as real < to ==> ValueAt(r, v, p, val)
  }

  /** A bar stands at a pixel and has exactly the extremes of samples whose times fall into that pixel. */
  ghost predicate BarTrue(r: Rmq, v: View, px: real, min: Value, max: Value) {
    exists p: nat, lo: nat, hi: nat, m: MinMax :: px == p as real && BarOf(r, v, p, lo, hi, m, min, max)
  }

  ghost predicate BarOf(r: Rmq, v: View, p: nat, lo: nat, hi: nat, m: MinMax, min: Value, max: Value) {
    && lo < hi <= |r.timestamps| == |r.values| && Summarises(m, r.values, lo, hi)
    && (forall i :: lo <= i < hi ==> TimeAt(v, p) <= r.timestamps[i] < TimeAt(v, p + 1))
    && min == ToFloat(m.min) && max == if m.hasNonFinite then NAN_UNDEF else ToFloat(m.max)
  }

  /** Nothing wrong is shown before pixel `upTo`. */
  ghost predicate CommandTrue(r: Rmq, v: View, c: Command, upTo: real) {
    match c
    case Flat(start, val, end, _) => RunTrue(r, v, val, start, if end < upTo then end else upTo)
    case Range(px, min, max) => BarTrue(r, v, px, min, max)
  }

  ghost predicate AllTrue(r: Rmq, v: View, cs: seq<Command>, upTo: real) {
    forall k :: 0 <= k < |cs| ==> CommandTrue(r, v, cs[k], upTo)
  }

  /** Closed commands are true in full. */
  ghost predicate WholeTrue(r: Rmq, v: View, cs: seq<Command>) {
    forall k :: 0 <= k < |cs| ==> CommandTrue(r, v, cs[k], EndOf(cs[k]))
  }

  /** A command covers pixel `p`; the last run does so up to the end of the row if it is closed at `edge`. */
  ghost predicate CoveredBy(cs: seq<Command>, k: nat, p: nat, edge: real)
    requires k < |cs|
  {
    && StartOf(cs[k]) <= p as real
    && (p as real < EndOf(cs[k]) || (k == |cs| - 1 && cs[k].Flat? && cs[k].endPx == edge))
  }

  ghost predicate PixelCovered(cs: seq<Command>, p: nat, edge: real) {
    exists k: nat :: k < |cs| && CoveredBy(cs, k, p, edge)
  }

  function FirstStart(cs: seq<Command>, pending: Option<(real, Value)>): real
    requires cs != [] || pending.Some?
  {
    if cs != [] then StartOf(cs[0]) else pending.value.0
  }

  /** Some sample is not later than `time`. */
  predicate Begun(r: Rmq, time: nat) {
    r.timestamps != [] && r.timestamps[0] <= time
  }

  /** What holds of the row when the walk stands at pixel `px` and has last asked at `asked`. */
  ghost predicate Truthful(r: Rmq, v: View, cs: seq<Command>, pending: Option<(real, Value)>, px: nat, reached: nat,
                           asked: Option<nat>) {
    && WholeTrue(r, v, cs)
    && (cs != [] ==> pending.Some?)
    && (pending.Some? ==> OpenTrue(r, v, cs, pending, px, reached))
    && (asked.Some? && Begun(r, asked.value) ==> pending.Some?)
    && (asked.Some? && pending.Some? ==> StillTrue(r, v, pending.value.1, px, asked.value))
    && Begins(r, v, cs, pending, px)
  }

  /** The open run is true up to pixel `px`. */
  ghost predicate OpenTrue(r: Rmq, v: View, cs: seq<Command>, pending: Option<(real, Value)>, px: nat, reached: nat)
    requires pending.Some?
  {
    && RunTrue(r, v, pending.value.1, pending.value.0, px as real)
    && Begun(r, reached) && FirstStart(cs, pending) <= px as real && pending.value.0 <= px as real
  }

  /** Pixels from `px` on that would be asked at the same time again have that value. */
  ghost predicate StillTrue(r: Rmq, v: View, val: Value, px: nat, asked: nat) {
    forall p: nat :: p >= px && TimeAt(v, p) == asked ==> ValueAt(r, v, p, val)
  }

  /** The drawing begins no later than the first pixel before `px` by which there is a sample. */
  ghost predicate Begins(r: Rmq, v: View, cs: seq<Command>, pending: Option<(real, Value)>, px: nat) {
    forall p: nat :: p < px && Begun(r, TimeAt(v, p)) ==> pending.Some? && FirstStart(cs, pending) <= p as real
  }

  // ----- single facts

  lemma HeldHasValue(r: Rmq, v: View, p: nat, t: nat, i: nat)
    requires Held(r, i, t) && i < |r.values| && TimeAt(v, p) <= t <= TimeAt(v, p + 1)
    ensures ValueAt(r, v, p, r.values[i])
  {
    hide TimeAt, Held;
    assert HasValue(r, t, r.values[i]);
  }

  /** A constant stretch: the sample held at `t0` has its value at every pixel before the next transition. */
  lemma {:induction false} StretchTrue(r: Rmq, v: View, px: nat, t0: nat, n: nat, next: nat, p: nat)
    requires Valid(r) && Sound(v) && SplitsAt(r, t0, n) && n > 0
    requires TimeAt(v, px) <= t0 <= TimeAt(v, px + 1) && px <= p < next
    requires n < |r.timestamps| ==> next == px + 1 || next <= PixelOf(v, r.timestamps[n])
    ensures ValueAt(r, v, p, r.values[n - 1])
  {
    assert Held(r, n - 1, t0);
    if p == px {
      hide TimeAt, PixelOf, Valid, Sound, Held;
      HeldHasValue(r, v, p, t0, n - 1);
    } else {
      TimeAtMonotone(v, px + 1, p);
      TimeAtMonotone(v, p, p + 1);
      if n < |r.timestamps| { StrictlyBefore(v, r.timestamps[n], p); }
      hide TimeAt, PixelOf, Sound;
      assert Held(r, n - 1, TimeAt(v, p));
      HeldHasValue(r, v, p, TimeAt(v, p), n - 1);
    }
  }

  /** Before the first sample nothing has begun. */
  lemma {:induction false} NotBegun(r: Rmq, v: View, px: nat, t0: nat, next: nat, p: nat)
    requires Valid(r) && Sound(v) && SplitsAt(r, t0, 0) && TimeAt(v, px) <= t0 && px <= p < next
    requires 0 < |r.timestamps| ==> next == px + 1 || next <= PixelOf(v, r.timestamps[0])
    ensures !Begun(r, TimeAt(v, p)) && !Begun(r, t0)
  {
    if 0 < |r.timestamps| && p > px { StrictlyBefore(v, r.timestamps[0], p); }
    hide TimeAt, PixelOf, Sound;
  }

  lemma {:induction false} SplitBegun(r: Rmq, time: nat, n: nat)
    requires Valid(r) && SplitsAt(r, time, n)
    ensures n <= |r.values| && (n > 0 <==> Begun(r, time))
  {
  }

  lemma RunLonger(r: Rmq, v: View, val: Value, from: real, px: nat, next: nat)
    requires RunTrue(r, v, val, from, px as real) && px <= next
    requires forall p: nat :: px <= p < next ==> ValueAt(r, v, p, val)
    ensures RunTrue(r, v, val, from, next as real)
  {
    hide ValueAt;
  }

  lemma RunFrom(r: Rmq, v: View, val: Value, px: nat, next: nat)
    requires forall p: nat :: px <= p < next ==> ValueAt(r, v, p, val)
    ensures RunTrue(r, v, val, px as real, next as real)
  {
    hide ValueAt;
  }

  lemma {:induction false} WholeAppend(r: Rmq, v: View, cs: seq<Command>, c: Command)
    requires WholeTrue(r, v, cs) && CommandTrue(r, v, c, EndOf(c))
    ensures WholeTrue(r, v, cs + [c])
  {
    hide CommandTrue, EndOf;
  }

  // ----- the steps of the walk

  /** A row starts empty, or with a run that begins left of the viewport. */
  lemma TruthStart(r: Rmq, v: View, pending: Option<(real, Value)>)
    requires pending.Some? ==> pending.value.0 < 0.0 && Begun(r, TimeAt(v, 0))
    ensures Truthful(r, v, [], pending, 0, TimeAt(v, 0), None)
  {
    hide TimeAt, Begun, ValueAt;
  }

  /** A run that is closed at `px` is true in full. */
  lemma {:induction false} CloseTrue(r: Rmq, v: View, cs: seq<Command>, pending: Option<(real, Value)>, px: nat,
                                     endVal: Value)
    requires WholeTrue(r, v, cs) && pending.Some?
    requires RunTrue(r, v, pending.value.1, pending.value.0, px as real)
    ensures WholeTrue(r, v, cs + [Flat(pending.value.0, pending.value.1, px as real, endVal)])
  {
    hide RunTrue;
    WholeAppend(r, v, cs, Flat(pending.value.0, pending.value.1, px as real, endVal));
  }

  /** A pixel asked at the time asked last shows the open run once more. */
  lemma {:induction false} TruthSkip(r: Rmq, v: View, cs: seq<Command>, pending: Option<(real, Value)>, px: nat)
    requires Sound(v) && Truthful(r, v, cs, pending, px, TimeAt(v, px), Some(TimeAt(v, px)))
    ensures Truthful(r, v, cs, pending, px + 1, TimeAt(v, px + 1), Some(TimeAt(v, px)))
  {
    TimeAtMonotone(v, px, px + 1);
    hide TimeAt, Sound, WholeTrue, ValueAt, FirstStart, RunTrue;
    if pending.Some? {
      assert ValueAt(r, v, px, pending.value.1);
      RunLonger(r, v, pending.value.1, pending.value.0, px, px + 1);
    }
  }

  /** A constant stretch shows the held value up to the next transition. */
  lemma {:induction false} TruthFlat(r: Rmq, v: View, cs: seq<Command>, pending: Option<(real, Value)>,
                                     cs': seq<Command>, pending': Option<(real, Value)>, px: nat, t0: nat,
                                     asked: Option<nat>, n: nat, next: nat, reached: nat)
    requires Valid(r) && Sound(v) && Truthful(r, v, cs, pending, px, t0, asked) && SplitsAt(r, t0, n)
    requires TimeAt(v, px) <= t0 <= TimeAt(v, px + 1) && px < next && t0 <= reached
    requires n < |r.timestamps| ==> next == px + 1 || next <= PixelOf(v, r.timestamps[n])
    requires if n == 0 then cs' == cs && pending' == pending
             else FlatEmitted(cs, pending, cs', pending', px as real, r.values[n - 1])
    ensures Truthful(r, v, cs', pending', next, reached, Some(t0))
  {
    hide *;
    SplitBegun(r, t0, n);
    if n == 0 {
      TruthBefore(r, v, cs, pending, px, t0, asked, next, reached);
    } else {
      HeldStretch(r, v, px, t0, n, next);
      TruthRun(r, v, cs, pending, cs', pending', px, t0, asked, r.values[n - 1], next, reached);
    }
  }

  /** Before the first sample nothing is drawn. */
  lemma {:induction false} TruthBefore(r: Rmq, v: View, cs: seq<Command>, pending: Option<(real, Value)>, px: nat,
                                       t0: nat, asked: Option<nat>, next: nat, reached: nat)
    requires Valid(r) && Sound(v) && Truthful(r, v, cs, pending, px, t0, asked) && SplitsAt(r, t0, 0)
    requires TimeAt(v, px) <= t0 && px < next
    requires 0 < |r.timestamps| ==> next == px + 1 || next <= PixelOf(v, r.timestamps[0])
    ensures Truthful(r, v, cs, pending, next, reached, Some(t0))
  {
    hide TimeAt, Sound, Valid, PixelOf, WholeTrue, RunTrue, StillTrue, FirstStart, Begun, SplitsAt;
    forall p: nat | px <= p < next
      ensures !Begun(r, TimeAt(v, p))
    {
      NotBegun(r, v, px, t0, next, p);
    }
    NotBegun(r, v, px, t0, next, px);
  }

  /** What a constant stretch from pixel `px` to before `next` needs to be true. */
  ghost predicate Stretch(r: Rmq, v: View, val: Value, px: nat, next: nat, t0: nat) {
    && Begun(r, t0) && StillTrue(r, v, val, next, t0)
    && forall p: nat :: px <= p < next ==> ValueAt(r, v, p, val)
  }

  lemma {:induction false} HeldStretch(r: Rmq, v: View, px: nat, t0: nat, n: nat, next: nat)
    requires Valid(r) && Sound(v) && SplitsAt(r, t0, n) && n > 0
    requires TimeAt(v, px) <= t0 <= TimeAt(v, px + 1) && px < next
    requires n < |r.timestamps| ==> next == px + 1 || next <= PixelOf(v, r.timestamps[n])
    ensures Stretch(r, v, r.values[n - 1], px, next, t0)
  {
    var val := r.values[n - 1];
    assert Held(r, n - 1, t0);
    hide TimeAt, Sound, Valid, PixelOf, ValueAt, Held;
    forall p: nat | px <= p < next
      ensures ValueAt(r, v, p, val)
    {
      StretchTrue(r, v, px, t0, n, next, p);
    }
    forall p: nat | p >= next && TimeAt(v, p) == t0
      ensures ValueAt(r, v, p, val)
    {
      TimeAtMonotone(v, p, p + 1);
      HeldHasValue(r, v, p, t0, n - 1);
    }
  }

  lemma {:induction false} TruthRun(r: Rmq, v: View, cs: seq<Command>, pending: Option<(real, Value)>,
                                    cs': seq<Command>, pending': Option<(real, Value)>, px: nat, t0: nat,
                                    asked: Option<nat>, val: Value, next: nat, reached: nat)
    requires Truthful(r, v, cs, pending, px, t0, asked) && px < next && t0 <= reached
    requires Stretch(r, v, val, px, next, t0)
    requires FlatEmitted(cs, pending, cs', pending', px as real, val)
    ensures Truthful(r, v, cs', pending', next, reached, Some(t0))
  {
    hide TimeAt, WholeTrue, RunTrue, StillTrue, ValueAt;
    if pending.Some? && pending.value.1 == val {
      RunLonger(r, v, val, pending.value.0, px, next);
    } else {
      RunFrom(r, v, val, px, next);
      if pending.Some? {
        CloseTrue(r, v, cs, pending, px, if pending.value.1.Finite? && val.Finite? then val else pending.value.1);
      }
    }
  }

  /** A bar shows the samples of its pixel. */
  lemma {:induction false} TruthRange(r: Rmq, v: View, cs: seq<Command>, pending: Option<(real, Value)>,
                                      cs': seq<Command>, pending': Option<(real, Value)>, px: nat, t0: nat,
                                      asked: Option<nat>, lo: nat, hi: nat, m: MinMax, min: Value, max: Value,
                                      entry: Value)
    requires Valid(r) && Sound(v) && Truthful(r, v, cs, pending, px, t0, asked) && t0 < TimeAt(v, px + 1)
    requires BarOf(r, v, px, lo, hi, m, min, max)
    requires RangeEmitted(cs, pending, cs', px as real, min, max, entry)
    requires pending'.Some? && pending'.value.0 == (px + 1) as real
    ensures Truthful(r, v, cs', pending', px + 1, TimeAt(v, px + 1), Some(t0))
  {
    hide *;
    BarBegun(r, v, px, lo, hi, m, min, max);
    BarWhole(r, v, cs, pending, cs', px, t0, asked, lo, hi, m, min, max, entry);
    BarOnward(r, v, cs, pending, cs', pending', px, t0, asked, min, max, entry);
  }

  lemma {:induction false} BarBegun(r: Rmq, v: View, px: nat, lo: nat, hi: nat, m: MinMax, min: Value, max: Value)
    requires Valid(r) && BarOf(r, v, px, lo, hi, m, min, max)
    ensures Begun(r, TimeAt(v, px + 1))
  {
    hide TimeAt, Summarises;
    assert r.timestamps[lo] < TimeAt(v, px + 1);
  }

  lemma {:induction false} BarWhole(r: Rmq, v: View, cs: seq<Command>, pending: Option<(real, Value)>,
                                    cs': seq<Command>, px: nat, t0: nat, asked: Option<nat>, lo: nat, hi: nat,
                                    m: MinMax, min: Value, max: Value, entry: Value)
    requires Truthful(r, v, cs, pending, px, t0, asked)
    requires BarOf(r, v, px, lo, hi, m, min, max)
    requires RangeEmitted(cs, pending, cs', px as real, min, max, entry)
    ensures WholeTrue(r, v, cs')
  {
    hide TimeAt, WholeTrue, RunTrue, StillTrue, ValueAt, BarOf, Begins, FirstStart, Begun;
    if pending.Some? {
      CloseTrue(r, v, cs, pending, px, if pending.value.1.Finite? && entry.Finite? then entry else pending.value.1);
    }
    assert CommandTrue(r, v, Range(px as real, min, max), (px + 1) as real);
    WholeAppend(r, v, cs'[..|cs'| - 1], Range(px as real, min, max));
    assert cs'[..|cs'| - 1] + [Range(px as real, min, max)] == cs';
  }

  lemma {:induction false} BarOnward(r: Rmq, v: View, cs: seq<Command>, pending: Option<(real, Value)>,
                                     cs': seq<Command>, pending': Option<(real, Value)>, px: nat, t0: nat,
                                     asked: Option<nat>, min: Value, max: Value, entry: Value)
    requires Sound(v) && Truthful(r, v, cs, pending, px, t0, asked) && t0 < TimeAt(v, px + 1)
    requires RangeEmitted(cs, pending, cs', px as real, min, max, entry)
    requires pending'.Some? && pending'.value.0 == (px + 1) as real
    requires Begun(r, TimeAt(v, px + 1)) && WholeTrue(r, v, cs')
    ensures Truthful(r, v, cs', pending', px + 1, TimeAt(v, px + 1), Some(t0))
  {
    BarFirst(cs, pending, cs', pending', px, min, max, entry);
    LaterPixels(v, px + 1, t0);
    hide TimeAt, Sound, WholeTrue, ValueAt, Begun, RangeEmitted, FirstStart;
  }

  lemma {:induction false} BarFirst(cs: seq<Command>, pending: Option<(real, Value)>, cs': seq<Command>,
                                    pending': Option<(real, Value)>, px: nat, min: Value, max: Value, entry: Value)
    requires RangeEmitted(cs, pending, cs', px as real, min, max, entry)
    requires cs != [] ==> pending.Some?
    ensures cs' != [] && FirstStart(cs', pending') == if pending.Some? then FirstStart(cs, pending) else px as real
  {
    assert |cs'| > 1 ==> cs'[0] == cs'[..|cs'| - 1][0];
  }

  // ----- the finished row

  /** The open run was closed behind pixel `end`, or at the end of the signal. */
  ghost predicate RowClosed(cs: seq<Command>, pending: Option<(real, Value)>, commands: seq<Command>, end: nat,
                            edge: real) {
    match pending
    case None => commands == cs
    case Some(p) =>
      && |commands| == |cs| + 1 && commands[..|cs|] == cs && commands[|cs|].Flat?
      && (commands[|cs|].startPx, commands[|cs|].startVal) == p
      && (commands[|cs|].endPx > end as real || commands[|cs|].endPx == edge)
  }

  /** The open run is closed by the first sample behind the row, or else at the end of the signal. */
  lemma {:induction false} ClosedOnce(cs: seq<Command>, pending: Option<(real, Value)>, cs': seq<Command>,
                                      pending': Option<(real, Value)>, commands: seq<Command>, end: nat, edge: real)
    requires (cs' == cs && pending' == pending) || (pending' == None && RowClosed(cs, pending, cs', end, edge))
    requires commands == match pending' case None => cs' case Some(p) => cs' + [Flat(p.0, p.1, edge, p.1)]
    ensures RowClosed(cs, pending, commands, end, edge)
  {
  }

  /** Nothing the row shows up to its last pixel is wrong. */
  lemma {:induction false} RowTrue(r: Rmq, v: View, cs: seq<Command>, pending: Option<(real, Value)>,
                                   commands: seq<Command>, end: nat, reached: nat, asked: Option<nat>, edge: real)
    requires Truthful(r, v, cs, pending, end, reached, asked) && RowClosed(cs, pending, commands, end, edge)
    ensures AllTrue(r, v, commands, end as real)
  {
    forall k | 0 <= k < |commands|
      ensures CommandTrue(r, v, commands[k], end as real)
    {
      hide ValueAt, BarTrue, StillTrue, Begins, Begun, FirstStart;
      if k < |cs| {
        assert commands[k] == commands[..|cs|][k] == cs[k];
        assert CommandTrue(r, v, cs[k], EndOf(cs[k]));
      }
    }
  }

  /** From the first sample on it leaves no pixel out. */
  lemma {:induction false} RowCovered(r: Rmq, v: View, cs: seq<Command>, pending: Option<(real, Value)>,
                                      commands: seq<Command>, end: nat, reached: nat, asked: Option<nat>, edge: real,
                                      p: nat)
    requires Truthful(r, v, cs, pending, end, reached, asked) && RowClosed(cs, pending, commands, end, edge)
    requires TilesAll(commands) && p < end && Begun(r, TimeAt(v, p))
    ensures PixelCovered(commands, p, edge)
  {
    hide TimeAt, Begun, WholeTrue, OpenTrue, StillTrue;
    assert pending.Some? && FirstStart(cs, pending) <= p as real;
    assert cs != [] ==> commands[0] == commands[..|cs|][0];
    assert StartOf(commands[0]) <= p as real;
    hide Truthful, TilesAll, Begins;
    SomeCovers(commands, |cs|, p, edge);
  }

  /** Going back from the last command, the first one that does not start behind a pixel covers it. */
  lemma {:induction false} SomeCovers(cs: seq<Command>, k: nat, p: nat, edge: real)
    requires TilesAll(cs) && k < |cs| && StartOf(cs[0]) <= p as real
    requires k + 1 < |cs| ==> p as real < StartOf(cs[k + 1])
    requires k + 1 == |cs| ==> p as real < EndOf(cs[k]) || (cs[k].Flat? && cs[k].endPx == edge)
    ensures PixelCovered(cs, p, edge)
    decreases k
  {
    if StartOf(cs[k]) <= p as real {
      assert k + 1 < |cs| ==> Joined(cs[k], cs[k + 1]);
      assert CoveredBy(cs, k, p, edge);
    } else {
      SomeCovers(cs, k - 1, p, edge);
    }
  }
}
