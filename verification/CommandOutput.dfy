/** The drawing commands of an analog row, as they are collected pixel by pixel. */
module CommandOutput {
  import opened Options
  import opened SignalRmq

  /** A run at one value, or a vertical bar one pixel wide. */
  datatype Command =
    | Flat(startPx: real, startVal: Value, endPx: real, endVal: Value)
    | Range(px: real, minVal: Value, maxVal: Value)

  function StartOf(c: Command): real {
    match c case Flat(start, _, _, _) => start case Range(px, _, _) => px
  }

  function EndOf(c: Command): real {
    match c case Flat(_, _, end, _) => end case Range(px, _, _) => px + 1.0
  }

  /**
   `b` starts where `a` ends, and is not the same run again.  The line of a run ends at the value of the next run,
   unless one of the two cannot be drawn.
   */
  predicate Joined(a: Command, b: Command) {
    && StartOf(b) == EndOf(a)
    && (a.Flat? && b.Flat? ==>
          && a.startVal != b.startVal
          && a.endVal == if a.startVal.Finite? && b.startVal.Finite? then b.startVal else a.startVal)
  }

  ghost predicate TilesAll(cs: seq<Command>) {
    forall i, j :: 0 <= i && j == i + 1 && j < |cs| ==> Joined(cs[i], cs[j])
  }

  /** Commands so far, and the run that is still open: it continues where they end. */
  ghost predicate Tiles(cs: seq<Command>, pending: Option<(real, Value)>) {
    && TilesAll(cs)
    && (cs != [] ==>
          && pending.Some?
          && Joined(cs[|cs| - 1], Flat(pending.value.0, pending.value.1, 0.0, pending.value.1)))
  }

  /** No command ends before it starts. */
  ghost predicate ForwardAll(cs: seq<Command>) {
    forall i :: 0 <= i < |cs| ==> StartOf(cs[i]) <= EndOf(cs[i])
  }

  /** No command ends before it starts, and the open run does not start behind pixel `px`. */
  ghost predicate Forward(cs: seq<Command>, pending: Option<(real, Value)>, px: real) {
    && ForwardAll(cs)
    && (pending.Some? ==> pending.value.0 <= px)
  }

  /** With a sample before the viewport, the first thing drawn is a run that starts there with its value. */
  ghost predicate StartsAt(cs: seq<Command>, pending: Option<(real, Value)>, before: Option<(real, Value)>) {
    before.Some? ==>
      if cs != [] then cs[0].Flat? && (cs[0].startPx, cs[0].startVal) == before.value
      else pending == before
  }

  /** `min` and `max` are exactly the extremes of the visited samples. */
  ghost predicate Extremes(min: Bound, max: Bound, vs: seq<Value>, visited: set<nat>) {
    && (forall i :: i in visited ==> i < |vs| && vs[i].Finite? && Below(min, At(vs[i].v)) && Below(At(vs[i].v), max))
    && (min == PosInfinity || exists i :: i in visited && vs[i].Finite? && min == At(vs[i].v))
    && (max == NegInfinity || exists i :: i in visited && vs[i].Finite? && max == At(vs[i].v))
  }

  /**
   From `px` on a run at `value` is open: the old one if it has that value, else a new one closing the old one.
   Interpolated lines end at the next value, unless one of the two cannot be drawn.
   */
  ghost predicate FlatEmitted(cs: seq<Command>, pending: Option<(real, Value)>, cs': seq<Command>,
                              pending': Option<(real, Value)>, px: real, value: Value) {
    match pending
    case None => cs' == cs && pending' == Some((px, value))
    case Some(p) =>
      if p.1 == value then cs' == cs && pending' == pending
      else && cs' == cs + [Flat(p.0, p.1, px, if p.1.Finite? && value.Finite? then value else p.1)]
           && pending' == Some((px, value))
  }

  /** A bar at `px` was added, and the open run before it ends at the bar's entry value. */
  ghost predicate RangeEmitted(cs: seq<Command>, pending: Option<(real, Value)>, cs': seq<Command>, px: real,
                               min: Value, max: Value, entry: Value) {
    && cs' != [] && cs'[|cs'| - 1] == Range(px, min, max)
    && cs'[..|cs'| - 1] == match pending
                           case None => cs
                           case Some(p) =>
                             cs + [Flat(p.0, p.1, px, if p.1.Finite? && entry.Finite? then entry else p.1)]
  }

  /** A bar that starts where the commands end carries them on. */
  lemma {:induction false} BarTiles(cs: seq<Command>, px: real, min: Value, max: Value, exit: Value)
    requires TilesAll(cs) && ForwardAll(cs) && (cs != [] ==> EndOf(cs[|cs| - 1]) == px)
    ensures Tiles(cs + [Range(px, min, max)], Some((px + 1.0, exit)))
    ensures Forward(cs + [Range(px, min, max)], Some((px + 1.0, exit)), px + 1.0)
  {
    var all := cs + [Range(px, min, max)];
    forall i, j | 0 <= i && j == i + 1 && j < |all|
      ensures Joined(all[i], all[j])
    {
      assert j < |cs| ==> Joined(cs[i], cs[j]);
    }
  }

  class Output {
    var commands: seq<Command>
    var pending: Option<(real, Value)>
    var viewportMin: Bound
    var viewportMax: Bound

    constructor ()
      ensures commands == [] && pending == None && viewportMin == PosInfinity && viewportMax == NegInfinity
    {
      commands, pending, viewportMin, viewportMax := [], None, PosInfinity, NegInfinity;
    }

    method UpdateBounds(value: Value)
      modifies this`viewportMin, this`viewportMax
      ensures viewportMin == if value.Finite? then Least(old(viewportMin), At(value.v)) else old(viewportMin)
      ensures viewportMax == if value.Finite? then Greatest(old(viewportMax), At(value.v)) else old(viewportMax)
    {
      if value.Finite? {
        viewportMin := Least(viewportMin, At(value.v));
        viewportMax := Greatest(viewportMax, At(value.v));
      }
    }

    /** Close the open run at `px`, if there is one. */
    method Flush(px: real, next: Value)
      requires Tiles(commands, pending) && Forward(commands, pending, px)
      modifies this`commands, this`pending
      ensures pending == None
      ensures commands == match old(pending)
                          case None => old(commands)
                          case Some(p) =>
                            old(commands)
                            + [Flat(p.0, p.1, px, if p.1.Finite? && next.Finite? then next else p.1)]
      ensures TilesAll(commands) && ForwardAll(commands)
      ensures commands != [] ==> EndOf(commands[|commands| - 1]) == px
    {
      if pending.Some? {
        var (start, startVal) := pending.value;
        commands := commands + [Flat(start, startVal, px, if startVal.Finite? && next.Finite? then next else startVal)];
        pending := None;
      }
    }

    method EmitFlat(px: real, value: Value, ghost before: Option<(real, Value)>)
      requires Tiles(commands, pending) && Forward(commands, pending, px) && StartsAt(commands, pending, before)
      modifies this`commands, this`pending
      ensures Tiles(commands, pending) && Forward(commands, pending, px) && StartsAt(commands, pending, before)
      ensures FlatEmitted(old(commands), old(pending), commands, pending, px, value)
    {
      match pending {
        case Some(p) =>
          if p.1 != value {
            Flush(px, value);
            pending := Some((px, value));
          }
        case None =>
          pending := Some((px, value));
      }
    }

    method EmitRange(px: real, min: Value, max: Value, entry: Value, exit: Value, ghost before: Option<(real, Value)>)
      requires Tiles(commands, pending) && Forward(commands, pending, px) && StartsAt(commands, pending, before)
      modifies this`commands, this`pending
      ensures Tiles(commands, pending) && Forward(commands, pending, px + 1.0) && StartsAt(commands, pending, before)
      ensures pending == Some((px + 1.0, exit))
      ensures RangeEmitted(old(commands), old(pending), commands, px, min, max, entry)
    {
      Flush(px, entry);
      BarTiles(commands, px, min, max, exit);
      hide Tiles, TilesAll, Forward, ForwardAll, Joined, EndOf, StartOf;
      commands := commands + [Range(px, min, max)];
      pending := Some((px + 1.0, exit));
    }
  }
}
