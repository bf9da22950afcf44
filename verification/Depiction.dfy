/** Which sample of a signal a drawing command shows, and where. */
module Depiction {
  import opened Options
  import opened SignalRmq
  import opened PixelTime
  import opened CommandOutput

  /** No sample after `i` is held already at time `from`. */
  ghost predicate HeldOrLater(r: Rmq, i: nat, from: nat) {
    i + 1 < |r.timestamps| ==> r.timestamps[i + 1] > from
  }

  /** Sample `i` is the one held at `time`. */
  ghost predicate Held(r: Rmq, i: nat, time: nat) {
    i < |r.timestamps| && r.timestamps[i] <= time && HeldOrLater(r, i, time)
  }

  /** A pixel at which a sample is due: the one its time falls into, or one that is queried with that very time. */
  predicate OnPixel(v: View, time: nat, px: nat)
    requires v.scale != 0.0
  {
    px == PixelOf(v, time) || TimeAt(v, px) == time
  }

  /** A bar covers a value; with a value that is not finite it reports the "undefined" NaN as its upper end. */
  predicate Spans(min: Value, max: Value, value: Value) {
    match value
    case Finite(v) => min.Finite? && min.v <= v && (max == NAN_UNDEF || (max.Finite? && v <= max.v))
    case NonFinite(_) => max == NAN_UNDEF
  }

  ghost predicate Usable(r: Rmq, v: View, i: nat) {
    |r.timestamps| == |r.values| && i < |r.timestamps| && v.scale != 0.0
  }

  /** A run from `start` to `end` shows sample `i` at pixel `px`. */
  ghost predicate RunAt(start: real, val: Value, end: real, r: Rmq, v: View, i: nat, px: nat)
    requires Usable(r, v, i)
  {
    && val == r.values[i] && OnPixel(v, r.timestamps[i], px)
    && start <= px as real <= end
  }

  /** A bar at pixel `p` shows sample `i`, whose time falls into that pixel. */
  ghost predicate BarAt(px: real, min: Value, max: Value, r: Rmq, v: View, i: nat, p: nat)
    requires Usable(r, v, i)
  {
    px == p as real && TimeAt(v, p) <= r.timestamps[i] < TimeAt(v, p + 1) && Spans(min, max, r.values[i])
  }

  ghost predicate Depicts(c: Command, r: Rmq, v: View, i: nat)
    requires Usable(r, v, i)
  {
    match c
    case Flat(start, val, end, _) => exists px: nat :: RunAt(start, val, end, r, v, i, px)
    case Range(px, min, max) => exists p: nat :: BarAt(px, min, max, r, v, i, p)
  }

  /** The open run shows sample `i` at a pixel up to `upTo`. */
  ghost predicate Open(pending: Option<(real, Value)>, r: Rmq, v: View, i: nat, upTo: real)
    requires Usable(r, v, i)
  {
    && pending.Some? && pending.value.1 == r.values[i]
    && exists px: nat :: OnPixel(v, r.timestamps[i], px) && pending.value.0 <= px as real <= upTo
  }

  ghost predicate Depicted(cs: seq<Command>, r: Rmq, v: View, i: nat)
    requires Usable(r, v, i)
  {
    exists k :: 0 <= k < |cs| && Depicts(cs[k], r, v, i)
  }

  ghost predicate Pictured(cs: seq<Command>, pending: Option<(real, Value)>, r: Rmq, v: View, i: nat, upTo: real) {
    Usable(r, v, i) && (Depicted(cs, r, v, i) || Open(pending, r, v, i, upTo))
  }

  /** Every sample looked at is in the picture. */
  ghost predicate AllPictured(cs: seq<Command>, pending: Option<(real, Value)>, r: Rmq, v: View, visited: set<nat>,
                              upTo: real) {
    forall i :: i in visited ==> Pictured(cs, pending, r, v, i, upTo)
  }

  lemma {:induction false} DepictedAppend(cs: seq<Command>, c: Command, r: Rmq, v: View, i: nat)
    requires Usable(r, v, i)
    ensures Depicted(cs, r, v, i) ==> Depicted(cs + [c], r, v, i)
    ensures Depicts(c, r, v, i) ==> Depicted(cs + [c], r, v, i)
  {
    var all := cs + [c];
    hide Depicts;
    assert all[|cs|] == c;
    if Depicted(cs, r, v, i) {
      var k :| 0 <= k < |cs| && Depicts(cs[k], r, v, i);
      assert all[k] == cs[k];
    }
  }

  /** Closing the open run behind what it shows keeps it shown. */
  lemma {:induction false} ClosedRun(pending: Option<(real, Value)>, r: Rmq, v: View, i: nat, upTo: real, end: real,
                                     endVal: Value)
    requires Usable(r, v, i) && Open(pending, r, v, i, upTo) && upTo <= end
    ensures Depicts(Flat(pending.value.0, pending.value.1, end, endVal), r, v, i)
  {
    hide OnPixel;
    var px: nat :| OnPixel(v, r.timestamps[i], px) && pending.value.0 <= px as real <= upTo;
    assert RunAt(pending.value.0, pending.value.1, end, r, v, i, px);
  }

  lemma {:induction false} CloseKeeps(cs: seq<Command>, pending: Option<(real, Value)>, r: Rmq, v: View, i: nat,
                                      upTo: real, end: real, endVal: Value)
    requires pending.Some? && upTo <= end
    requires Pictured(cs, pending, r, v, i, upTo)
    ensures Depicted(cs + [Flat(pending.value.0, pending.value.1, end, endVal)], r, v, i)
  {
    var c := Flat(pending.value.0, pending.value.1, end, endVal);
    DepictedAppend(cs, c, r, v, i);
    if Open(pending, r, v, i, upTo) { ClosedRun(pending, r, v, i, upTo, end, endVal); }
    hide Depicted, Open, Depicts;
  }

  lemma {:induction false} AllLater(cs: seq<Command>, pending: Option<(real, Value)>, r: Rmq, v: View,
                                    visited: set<nat>, upTo: real, upTo': real)
    requires AllPictured(cs, pending, r, v, visited, upTo) && upTo <= upTo'
    ensures AllPictured(cs, pending, r, v, visited, upTo')
  {
    forall i | i in visited
      ensures Pictured(cs, pending, r, v, i, upTo')
    {
      assert Pictured(cs, pending, r, v, i, upTo);
      OpenLater(pending, r, v, i, upTo, upTo');
      hide Open, Depicted;
    }
  }

  lemma OpenLater(pending: Option<(real, Value)>, r: Rmq, v: View, i: nat, upTo: real, upTo': real)
    requires Usable(r, v, i) && upTo <= upTo'
    ensures Open(pending, r, v, i, upTo) ==> Open(pending, r, v, i, upTo')
  {
    hide OnPixel;
  }

  /** A run at the value of a sample that is due at this pixel shows it, and nothing gets lost. */
  lemma {:induction false} FlatPictures(cs: seq<Command>, pending: Option<(real, Value)>, cs': seq<Command>,
                                        pending': Option<(real, Value)>, r: Rmq, v: View, visited: set<nat>, n: nat,
                                        px: nat)
    requires AllPictured(cs, pending, r, v, visited, px as real) && Usable(r, v, n)
    requires pending.Some? ==> pending.value.0 <= px as real
    requires FlatEmitted(cs, pending, cs', pending', px as real, r.values[n])
    requires n in visited || OnPixel(v, r.timestamps[n], px)
    ensures AllPictured(cs', pending', r, v, visited + {n}, px as real)
  {
    forall i | i in visited
      ensures Pictured(cs', pending', r, v, i, px as real)
    {
      assert Pictured(cs, pending, r, v, i, px as real);
      hide Open, Depicted, OnPixel;
      if cs' != cs {
        CloseKeeps(cs, pending, r, v, i, px as real, px as real, cs'[|cs|].endVal);
      }
      if pending.None? { NothingOpen(r, v, i, px as real); }
    }
    if n !in visited {
      OpensHere(pending', r, v, n, px);
    }
    hide Depicted, Open, OnPixel, FlatEmitted;
  }

  lemma NothingOpen(r: Rmq, v: View, i: nat, upTo: real)
    requires Usable(r, v, i)
    ensures !Open(None, r, v, i, upTo)
  {
  }

  lemma OpensHere(pending: Option<(real, Value)>, r: Rmq, v: View, n: nat, px: nat)
    requires Usable(r, v, n) && OnPixel(v, r.timestamps[n], px)
    requires pending.Some? && pending.value.1 == r.values[n] && pending.value.0 <= px as real
    ensures Open(pending, r, v, n, px as real)
  {
    hide OnPixel;
  }

  /** A bar shows all samples whose times fall into its pixel, and nothing gets lost. */
  lemma {:induction false} RangePictures(cs: seq<Command>, pending: Option<(real, Value)>, cs': seq<Command>,
                                         pending': Option<(real, Value)>, r: Rmq, v: View, visited: set<nat>,
                                         more: set<nat>, px: nat, min: Value, max: Value, entry: Value)
    requires AllPictured(cs, pending, r, v, visited, px as real)
    requires RangeEmitted(cs, pending, cs', px as real, min, max, entry)
    requires forall i :: i in more ==> Usable(r, v, i) && BarAt(px as real, min, max, r, v, i, px)
    ensures AllPictured(cs', pending', r, v, visited + more, (px + 1) as real)
  {
    var bar := Range(px as real, min, max);
    forall i | i in visited
      ensures Pictured(cs', pending', r, v, i, (px + 1) as real)
    {
      assert Pictured(cs, pending, r, v, i, px as real);
      hide Open, Depicted;
      if pending.Some? {
        var endVal := if pending.value.1.Finite? && entry.Finite? then entry else pending.value.1;
        var run := Flat(pending.value.0, pending.value.1, px as real, endVal);
        CloseKeeps(cs, pending, r, v, i, px as real, px as real, endVal);
        DepictedAppend(cs + [run], bar, r, v, i);
      } else {
        NothingOpen(r, v, i, px as real);
        DepictedAppend(cs, bar, r, v, i);
      }
    }
    forall i | i in more
      ensures Pictured(cs', pending', r, v, i, (px + 1) as real)
    {
      assert BarAt(px as real, min, max, r, v, i, px);
      assert Depicts(bar, r, v, i);
      hide Depicts, BarAt;
      DepictedAppend(cs'[..|cs'| - 1], bar, r, v, i);
      assert cs'[..|cs'| - 1] + [bar] == cs';
    }
    hide Depicted, Open, RangeEmitted, BarAt;
  }

  /** Closing the last run leaves everything depicted. */
  lemma {:induction false} ClosePictures(cs: seq<Command>, pending: Option<(real, Value)>, r: Rmq, v: View,
                                         visited: set<nat>, upTo: real, end: real, endVal: Value)
    requires AllPictured(cs, pending, r, v, visited, upTo) && pending.Some? && upTo <= end
    ensures AllPictured(cs + [Flat(pending.value.0, pending.value.1, end, endVal)], None, r, v, visited, upTo)
  {
    forall i | i in visited
      ensures Pictured(cs + [Flat(pending.value.0, pending.value.1, end, endVal)], None, r, v, i, upTo)
    {
      assert Pictured(cs, pending, r, v, i, upTo);
      hide Depicted, Open;
      CloseKeeps(cs, pending, r, v, i, upTo, end, endVal);
    }
  }

  /**
   The last run, closed at the end of the signal, has the value of sample `i` and starts no later than a
   pixel where the sample is due.
   */
  ghost predicate InLastRun(cs: seq<Command>, r: Rmq, v: View, i: nat, edge: real)
    requires Usable(r, v, i)
  {
    && cs != [] && cs[|cs| - 1].Flat? && cs[|cs| - 1].endPx == edge && cs[|cs| - 1].startVal == r.values[i]
    && exists px: nat :: OnPixel(v, r.timestamps[i], px) && cs[|cs| - 1].startPx <= px as real
  }

  /** Once the last run is closed at `edge`, all that was in the picture is shown by a command. */
  lemma {:induction false} RowPictures(cs: seq<Command>, pending: Option<(real, Value)>, commands: seq<Command>,
                                       r: Rmq, v: View, visited: set<nat>, upTo: real, edge: real)
    requires AllPictured(cs, pending, r, v, visited, upTo)
    requires commands == match pending case None => cs case Some(p) => cs + [Flat(p.0, p.1, edge, p.1)]
    ensures forall i :: i in visited ==>
        Usable(r, v, i) && (Depicted(commands, r, v, i) || InLastRun(commands, r, v, i, edge))
  {
    forall i | i in visited
      ensures Usable(r, v, i) && (Depicted(commands, r, v, i) || InLastRun(commands, r, v, i, edge))
    {
      assert Pictured(cs, pending, r, v, i, upTo);
      match pending
      case None => NothingOpen(r, v, i, upTo); hide *;
      case Some(p) =>
        DepictedAppend(cs, Flat(p.0, p.1, edge, p.1), r, v, i);
        hide Depicted, Depicts, OnPixel;
    }
  }

  /** The reported extremes of a range of samples span each of them. */
  lemma {:induction false} SummarySpans(m: MinMax, r: Rmq, lo: nat, hi: nat, i: nat)
    requires Summarises(m, r.values, lo, hi) && lo <= i < hi
    ensures Spans(ToFloat(m.min), if m.hasNonFinite then NAN_UNDEF else ToFloat(m.max), r.values[i])
  {
    if r.values[i].Finite? {
      assert Below(m.min, At(r.values[i].v)) && Below(At(r.values[i].v), m.max);
    }
  }
}
