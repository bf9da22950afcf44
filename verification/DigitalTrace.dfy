/** The sampling of a digital trace: one walk over the pixels that asks only where something may change. */
module DigitalTrace {
  import opened Options
  import opened PixelTime

  datatype Change<+W> = Change(time: nat, value: W)

  /** Whether the wave container can answer a query. */
  datatype Access = Ready | Absent | Broken

  datatype Entry<+V> = Entry(pixel: int, value: V, forceAntiAlias: bool)

  datatype Job<!W, !V> = Job(
    view: View,
    stamps: seq<Stamp>,
    changes: seq<Change<W>>,
    access: nat -> Access,
    translate: W -> Option<V>,
    antiAliasing: bool)

  // ----- what a signal holds at a time

  ghost predicate Sorted<W(!new)>(changes: seq<Change<W>>) {
    forall i, j :: 0 <= i < j < |changes| ==> changes[i].time < changes[j].time
  }

  /** How many changes have happened by time `t`. */
  function Passed<W>(changes: seq<Change<W>>, t: nat): (n: nat)
    ensures n <= |changes|
    ensures n > 0 ==> changes[n - 1].time <= t
  {
    if changes == [] then 0
    else if changes[|changes| - 1].time <= t then |changes|
    else Passed(changes[..|changes| - 1], t)
  }

  lemma {:induction false} PassedExact<W(!new)>(changes: seq<Change<W>>, t: nat, n: nat)
    requires Sorted(changes) && n <= |changes|
    ensures n == Passed(changes, t) <==>
      (n > 0 ==> changes[n - 1].time <= t) && (n < |changes| ==> t < changes[n].time)
    decreases |changes|
  {
    if changes != [] && t < changes[|changes| - 1].time {
      var front := changes[..|changes| - 1];
      if n < |changes| { PassedExact(front, t, n); }
    }
  }

  // ----- pixels

  /** Consecutive pixels, each with the time of its left edge. */
  ghost predicate FromView(view: View, stamps: seq<Stamp>) {
    forall i :: 0 <= i < |stamps| ==>
      && stamps[i].pixel == stamps[0].pixel + i
      && Exact(view, stamps[i].pixel as real) >= 0.0
      && stamps[i].time == Exact(view, stamps[i].pixel as real).Floor
  }

  ghost predicate Sound<W(!new), V(!new)>(job: Job<W, V>) {
    PixelTime.Sound(job.view) && FromView(job.view, job.stamps) && Sorted(job.changes)
  }

  ghost predicate AllReady<W(!new), V(!new)>(job: Job<W, V>) {
    forall i :: 0 <= i < |job.stamps| ==> job.access(job.stamps[i].time) == Ready
  }

  /** How many changes have happened by pixel number `i`. */
  function At<W, V>(job: Job<W, V>, i: nat): (n: nat)
    requires i < |job.stamps|
    ensures n <= |job.changes|
  {
    Passed(job.changes, job.stamps[i].time)
  }

  /** The translated value that the signal holds at pixel number `i`. */
  function HeldAt<W, V>(job: Job<W, V>, i: nat): Option<V>
    requires i < |job.stamps|
  {
    if At(job, i) == 0 then None else job.translate(job.changes[At(job, i) - 1].value)
  }

  lemma {:induction false} AtGrows<W(!new), V(!new)>(job: Job<W, V>, i: nat)
    requires Sound(job) && 0 < i < |job.stamps|
    ensures At(job, i - 1) <= At(job, i)
  {
    var a, b := At(job, i - 1), At(job, i);
    ExactMonotone(job.view, job.stamps[i - 1].pixel as real, job.stamps[i].pixel as real);
    PassedExact(job.changes, job.stamps[i - 1].time, a);
    PassedExact(job.changes, job.stamps[i].time, b);
  }

  // ----- asking at every pixel

  function Pushed<V(==)>(entries: seq<Entry<V>>, pixel: int, value: V, isLast: bool, antiAlias: bool): seq<Entry<V>> {
    var isNew := entries == [] || entries[|entries| - 1].value != value;
    if isNew || isLast || antiAlias then entries + [Entry(pixel, value, antiAlias && !isNew)] else entries
  }

  /** Whether the change seen at pixel number `n` is newer than the pixel before it, and shall be drawn as such. */
  predicate Sharpened<W, V>(job: Job<W, V>, n: nat)
    requires 0 < n < |job.stamps| && At(job, n) > 0
  {
    job.changes[At(job, n) - 1].time > job.stamps[n - 1].time && job.antiAliasing
  }

  /** The trace up to pixel number `n` when every pixel is asked; `None` if the translator fails. */
  function Reference<W, V(==)>(job: Job<W, V>, n: nat): Option<seq<Entry<V>>>
    requires n == 0 || n < |job.stamps|
  {
    if n == 0 then Some([])
    else
      var before := Reference(job, n - 1);
      var p := At(job, n);
      if before.None? || p == 0 then before
      else
        var value := job.translate(job.changes[p - 1].value);
        if value.None? then None
        else
          Some(Pushed(before.value, job.stamps[n].pixel, value.value, n == |job.stamps| - 1, Sharpened(job, n)))
  }

  /** One more pixel, taken apart. */
  lemma {:induction false} ReferenceNext<W(!new), V(!new)>(job: Job<W, V>, n: nat)
    requires 0 < n < |job.stamps| && Reference(job, n).Some?
    ensures Reference(job, n - 1).Some?
    ensures At(job, n) == 0 ==> Reference(job, n) == Reference(job, n - 1)
    ensures At(job, n) > 0 ==>
      && HeldAt(job, n).Some?
      && Reference(job, n).value == Pushed(Reference(job, n - 1).value, job.stamps[n].pixel, HeldAt(job, n).value,
                                           n == |job.stamps| - 1, Sharpened(job, n))
  {
    hide Pushed, Passed;
  }

  // ----- the pruned walk

  datatype Walk<+V> = Walking(entries: seq<Entry<V>>, nextChange: real) | Disabled

  /** The pixel from which the walk has to ask again after asking at time `t`. */
  function NextChange<W, V>(job: Job<W, V>, t: nat): real
    requires job.stamps != [] && job.view.scale != 0.0
  {
    var p := Passed(job.changes, t);
    match job.access(t)
    case Broken => job.stamps[0].pixel as real
    case Absent => job.stamps[|job.stamps| - 1].pixel as real
    case Ready =>
      if p < |job.changes| then PixelAt(job.view, job.changes[p].time)
      else job.stamps[|job.stamps| - 1].pixel as real
  }

  function PrunedStep<W, V(==)>(job: Job<W, V>, i: nat, entries: seq<Entry<V>>, nextChange: real): Walk<V>
    requires 0 < i < |job.stamps| && job.view.scale != 0.0
  {
    var pixel, time := job.stamps[i].pixel, job.stamps[i].time;
    var isFirst, isLast := pixel == job.stamps[1].pixel, pixel == job.stamps[|job.stamps| - 1].pixel;
    if pixel as real < nextChange && !isFirst && !isLast then Walking(entries, nextChange)
    else
      var next := NextChange(job, time);
      var p := Passed(job.changes, time);
      if job.access(time) != Ready || p == 0 then Walking(entries, next)
      else
        var change := job.changes[p - 1];
        if change.time < job.stamps[i - 1].time && !isFirst && !isLast then Walking(entries, next)
        else
          match job.translate(change.value)
          case None => Disabled
          case Some(value) =>
            var antiAlias := change.time > job.stamps[i - 1].time && job.antiAliasing;
            Walking(Pushed(entries, pixel, value, isLast, antiAlias), next)
  }

  function Pruned<W, V(==)>(job: Job<W, V>, n: nat): Walk<V>
    requires n < |job.stamps| && job.view.scale != 0.0
  {
    if n == 0 then Walking([], job.stamps[0].pixel as real)
    else
      match Pruned(job, n - 1)
      case Disabled => Disabled
      case Walking(entries, nextChange) => PrunedStep(job, n, entries, nextChange)
  }

  /** The loop as it is written. */
  method DigitalDrawCommands<W(!new), V(==, !new)>(job: Job<W, V>) returns (trace: Option<seq<Entry<V>>>)
    requires job.view.scale != 0.0
    ensures job.stamps == [] ==> trace == Some([])
    ensures job.stamps != [] ==>
      var walk := Pruned(job, |job.stamps| - 1);
      trace == if walk.Disabled? then None else Some(walk.entries)
    ensures Sound(job) && AllReady(job) && job.stamps != [] && trace.Some? ==>
      TraceExact(job, trace.value, |job.stamps| - 1)
  {
    hide Sound, AllReady, TraceExact;
    var entries: seq<Entry<V>> := [];
    if job.stamps == [] { return Some([]); }
    var endPixel := job.stamps[|job.stamps| - 1].pixel;
    var startPixel := if |job.stamps| > 1 then job.stamps[1].pixel else 0;
    var nextChange := job.stamps[0].pixel as real;
    var previous: Option<V> := None;
    for i := 1 to |job.stamps|
      invariant Pruned(job, i - 1) == Walking(entries, nextChange)
      invariant previous == if entries == [] then None else Some(entries[|entries| - 1].value)
    {
      var prevTime, pixel, time := job.stamps[i - 1].time, job.stamps[i].pixel, job.stamps[i].time;
      var isLast, isFirst := pixel == endPixel, pixel == startPixel;
      ghost var before := entries;
      assert Pruned(job, i) == PrunedStep(job, i, entries, nextChange);
      if pixel as real < nextChange && !isFirst && !isLast {
        continue;
      }
      nextChange := NextChange(job, time);
      var p := Passed(job.changes, time);
      if job.access(time) != Ready || p == 0 {
        continue;
      }
      var change := job.changes[p - 1];
      if change.time < prevTime && !isFirst && !isLast {
        continue;
      }
      var result := job.translate(change.value);
      if result.None? {
        DisabledStays(job, i, |job.stamps| - 1);
        return None;
      }
      var antiAlias := change.time > prevTime && job.antiAliasing;
      var isNew := previous != result;
      if isNew || isLast || antiAlias {
        previous := result;
        entries := entries + [Entry(pixel, result.value, antiAlias && !isNew)];
      }
      assert entries == Pushed(before, pixel, result.value, isLast, antiAlias);
    }
    trace := Some(entries);
    if Sound(job) && AllReady(job) { WalkExact(job); }
  }

  lemma {:induction false} DisabledStays<W, V>(job: Job<W, V>, i: nat, n: nat)
    requires i <= n < |job.stamps| && job.view.scale != 0.0
    requires Pruned(job, i).Disabled?
    ensures Pruned(job, n).Disabled?
    decreases n
  {
    if i < n { DisabledStays(job, i, n - 1); }
  }

  // ----- the pruned walk draws what asking everywhere draws

  ghost predicate Shows<W(!new), V(!new)>(job: Job<W, V>, n: nat, entries: seq<Entry<V>>)
    requires n < |job.stamps|
  {
    var p := At(job, n);
    if p == 0 then entries == []
    else entries != [] && job.translate(job.changes[p - 1].value) == Some(entries[|entries| - 1].value)
  }

  /** After every pixel but the very first, the last entry holds the value at that pixel's time. */
  lemma {:induction false} ReferenceShows<W(!new), V(!new)>(job: Job<W, V>, n: nat)
    requires Sound(job) && 0 < n < |job.stamps|
    requires Reference(job, n).Some?
    ensures Shows(job, n, Reference(job, n).value)
  {
    ReferenceNext(job, n);
    assert n == 1 ==> Reference(job, 0) == Some([]);
    if n > 1 {
      ReferenceShows(job, n - 1);
      AtGrows(job, n);
    }
    hide Reference, Sound, Passed;
  }

  /** A pixel by which nothing new has happened adds nothing. */
  lemma {:induction false} QuietPixel<W(!new), V(!new)>(job: Job<W, V>, n: nat)
    requires Sound(job) && 1 < n < |job.stamps| - 1
    requires At(job, n) == At(job, n - 1)
    ensures Reference(job, n) == Reference(job, n - 1)
  {
    if Reference(job, n - 1).Some? { ReferenceShows(job, n - 1); }
    hide Sound, At, Sharpened;
  }

  /** `next` is a pixel before which nothing happens that pixel number `i` has not seen. */
  ghost predicate Safe<W(!new), V(!new)>(job: Job<W, V>, i: nat, next: real)
    requires i < |job.stamps| && PixelTime.Sound(job.view)
  {
    At(job, i) < |job.changes| ==> next == PixelAt(job.view, job.changes[At(job, i)].time)
  }

  lemma {:induction false} SkippedIsQuiet<W(!new), V(!new)>(job: Job<W, V>, i: nat, next: real)
    requires Sound(job) && 0 < i < |job.stamps| && Safe(job, i - 1, next)
    requires job.stamps[i].pixel as real < next
    ensures At(job, i) == At(job, i - 1)
  {
    var c := At(job, i - 1);
    AtGrows(job, i);
    if c < |job.changes| {
      ChangeAhead(job, i, job.changes[c].time);
      NotYet(job.changes, job.stamps[i].time, c);
    }
  }

  lemma {:induction false} ChangeAhead<W(!new), V(!new)>(job: Job<W, V>, i: nat, time: nat)
    requires Sound(job) && i < |job.stamps|
    requires job.stamps[i].pixel as real < PixelAt(job.view, time)
    ensures job.stamps[i].time < time
  {
    var pixel := job.stamps[i].pixel as real;
    PixelBefore(job.view, time, pixel);
    PixelAhead(job.view, time, pixel);
  }

  lemma PixelAhead(view: View, time: nat, px: real)
    requires PixelTime.Sound(view) && px < PixelAt(view, time)
    ensures Exact(view, px) < time as real
  {
    var q := PixelAt(view, time);
    assert q * view.scale == time as real - view.left;
    assert (q - px) * view.scale > 0.0;
    assert q * view.scale - px * view.scale == (q - px) * view.scale;
  }

  lemma {:induction false} NotYet<W(!new)>(changes: seq<Change<W>>, t: nat, c: nat)
    requires Sorted(changes) && c < |changes| && t < changes[c].time
    ensures Passed(changes, t) <= c
  {
    var p := Passed(changes, t);
    if p > 0 {
      assert changes[p - 1].time <= t < changes[c].time;
    }
  }

  lemma {:induction false} OldChangeIsQuiet<W(!new), V(!new)>(job: Job<W, V>, i: nat)
    requires Sound(job) && 0 < i < |job.stamps| && At(job, i) > 0
    requires job.changes[At(job, i) - 1].time <= job.stamps[i - 1].time
    ensures At(job, i) == At(job, i - 1)
  {
    var p := At(job, i);
    ExactMonotone(job.view, job.stamps[i - 1].pixel as real, job.stamps[i].pixel as real);
    PassedExact(job.changes, job.stamps[i].time, p);
    PassedExact(job.changes, job.stamps[i - 1].time, p);
  }

  lemma {:induction false} PrunedInvariant<W(!new), V(!new)>(job: Job<W, V>, n: nat)
    requires Sound(job) && AllReady(job) && n < |job.stamps|
    ensures Pruned(job, n).Disabled? <==> Reference(job, n).None?
    ensures Pruned(job, n).Walking? ==>
      && Reference(job, n) == Some(Pruned(job, n).entries)
      && (n > 0 ==> Safe(job, n, Pruned(job, n).nextChange))
  {
    if n > 0 {
      PrunedInvariant(job, n - 1);
      if Pruned(job, n - 1).Walking? {
        var w := Pruned(job, n - 1);
        PrunedStepSound(job, n, w.entries, w.nextChange);
      }
    }
  }

  /** Pixels that may be skipped: neither the first that is drawn nor the last one. */
  predicate Inside<W, V>(job: Job<W, V>, n: nat) {
    1 < n < |job.stamps| - 1
  }

  lemma {:induction false} InsideByPixel<W(!new), V(!new)>(job: Job<W, V>, n: nat)
    requires FromView(job.view, job.stamps) && 0 < n < |job.stamps|
    ensures Inside(job, n) <==>
      job.stamps[n].pixel != job.stamps[1].pixel && job.stamps[n].pixel != job.stamps[|job.stamps| - 1].pixel
    ensures n == |job.stamps| - 1 <==> job.stamps[n].pixel == job.stamps[|job.stamps| - 1].pixel
  {
  }

  /** A step of the loop does what the reference does, and the next change is known behind it. */
  ghost predicate Matches<W(!new), V(!new)>(job: Job<W, V>, n: nat, entries: seq<Entry<V>>, next: real)
    requires PixelTime.Sound(job.view) && 0 < n < |job.stamps|
  {
    && (PrunedStep(job, n, entries, next).Disabled? <==> Reference(job, n).None?)
    && (PrunedStep(job, n, entries, next).Walking? ==>
          && Reference(job, n) == Some(PrunedStep(job, n, entries, next).entries)
          && Safe(job, n, PrunedStep(job, n, entries, next).nextChange))
  }

  /** A pixel left of the next change is skipped without a query. */
  lemma {:induction false} SkippedStep<W(!new), V(!new)>(job: Job<W, V>, n: nat, entries: seq<Entry<V>>, next: real)
    requires Sound(job) && 0 < n < |job.stamps| && Inside(job, n)
    requires Reference(job, n - 1) == Some(entries) && Safe(job, n - 1, next)
    requires job.stamps[n].pixel as real < next
    ensures Matches(job, n, entries, next)
  {
    InsideByPixel(job, n);
    SkippedIsQuiet(job, n, next);
    QuietPixel(job, n);
    hide Sound, Reference, At, NextChange, Passed;
  }

  /** A change that is older than the pixel before is not drawn again. */
  lemma {:induction false} OldStep<W(!new), V(!new)>(job: Job<W, V>, n: nat, entries: seq<Entry<V>>, next: real)
    requires Sound(job) && 0 < n < |job.stamps| && Inside(job, n) && job.access(job.stamps[n].time) == Ready
    requires Reference(job, n - 1) == Some(entries) && next <= job.stamps[n].pixel as real
    requires At(job, n) > 0 && job.changes[At(job, n) - 1].time < job.stamps[n - 1].time
    ensures Matches(job, n, entries, next)
  {
    InsideByPixel(job, n);
    OldChangeIsQuiet(job, n);
    QuietPixel(job, n);
    hide Sound, Reference, Passed;
  }

  /** Any other pixel is drawn as the reference draws it. */
  lemma {:induction false} AskedStep<W(!new), V(!new)>(job: Job<W, V>, n: nat, entries: seq<Entry<V>>, next: real)
    requires Sound(job) && 0 < n < |job.stamps| && job.access(job.stamps[n].time) == Ready
    requires Reference(job, n - 1) == Some(entries)
    requires Inside(job, n) ==>
               && next <= job.stamps[n].pixel as real
               && (At(job, n) > 0 ==> job.changes[At(job, n) - 1].time >= job.stamps[n - 1].time)
    ensures Matches(job, n, entries, next)
  {
    AskedPixel(job, n, entries, next);
    hide Sound, Passed, Pushed, Inside, PrunedStep, Sharpened;
  }

  lemma {:induction false} AskedPixel<W(!new), V(!new)>(job: Job<W, V>, n: nat, entries: seq<Entry<V>>, next: real)
    requires Sound(job) && 0 < n < |job.stamps| && job.access(job.stamps[n].time) == Ready
    requires Inside(job, n) ==>
               && next <= job.stamps[n].pixel as real
               && (At(job, n) > 0 ==> job.changes[At(job, n) - 1].time >= job.stamps[n - 1].time)
    ensures PrunedStep(job, n, entries, next) ==
              var p, later := At(job, n), NextChange(job, job.stamps[n].time);
              if p == 0 then Walking(entries, later)
              else
                match job.translate(job.changes[p - 1].value)
                case None => Disabled
                case Some(value) =>
                  Walking(Pushed(entries, job.stamps[n].pixel, value, n == |job.stamps| - 1, Sharpened(job, n)), later)
  {
    InsideByPixel(job, n);
    hide Sound, Passed, Pushed, Inside, NextChange;
  }

  lemma {:induction false} PrunedStepSound<W(!new), V(!new)>(job: Job<W, V>, n: nat, entries: seq<Entry<V>>, next: real)
    requires Sound(job) && AllReady(job) && 0 < n < |job.stamps|
    requires Reference(job, n - 1) == Some(entries)
    requires n > 1 ==> Safe(job, n - 1, next)
    ensures Matches(job, n, entries, next)
  {
    assert job.access(job.stamps[n].time) == Ready;
    assert Inside(job, n) ==> n > 1;
    hide Sound, AllReady, Reference, Safe, At, Inside, Matches;
    if Inside(job, n) && job.stamps[n].pixel as real < next {
      SkippedStep(job, n, entries, next);
    } else if Inside(job, n) && At(job, n) > 0 && job.changes[At(job, n) - 1].time < job.stamps[n - 1].time {
      OldStep(job, n, entries, next);
    } else {
      AskedStep(job, n, entries, next);
    }
  }

  /** Skipping pixels changes nothing: not the entries, not their flags, not the translator's failure. */
  lemma {:induction false} PrunedDrawsTheSame<W(!new), V(!new)>(job: Job<W, V>)
    requires Sound(job) && AllReady(job) && job.stamps != []
    ensures Reference(job, |job.stamps| - 1) ==
      match Pruned(job, |job.stamps| - 1)
      case Disabled => None
      case Walking(entries, _) => Some(entries)
  {
    PrunedInvariant(job, |job.stamps| - 1);
  }

  // ----- what the drawn trace means

  /** The value on display at a pixel: that of the last entry not right of it. */
  function ShownAt<V>(entries: seq<Entry<V>>, pixel: int): Option<V> {
    if entries == [] then None
    else if entries[|entries| - 1].pixel <= pixel then Some(entries[|entries| - 1].value)
    else ShownAt(entries[..|entries| - 1], pixel)
  }

  ghost predicate UpTo<V(!new)>(entries: seq<Entry<V>>, pixel: int) {
    forall k :: 0 <= k < |entries| ==> entries[k].pixel <= pixel
  }

  lemma {:induction false} ReferenceUpTo<W(!new), V(!new)>(job: Job<W, V>, n: nat)
    requires Sound(job) && n < |job.stamps|
    requires Reference(job, n).Some?
    ensures UpTo(Reference(job, n).value, job.stamps[n].pixel)
  {
    if n > 0 { ReferenceUpTo(job, n - 1); }
  }

  lemma {:induction false} PushedShows<V(!new)>(entries: seq<Entry<V>>, pixel: int, value: V, isLast: bool,
                                                antiAlias: bool, at: int)
    requires at < pixel
    ensures ShownAt(Pushed(entries, pixel, value, isLast, antiAlias), at) == ShownAt(entries, at)
  {
    var isNew := entries == [] || entries[|entries| - 1].value != value;
    var entry := Entry(pixel, value, antiAlias && !isNew);
    assert (entries + [entry])[..|entries|] == entries;
  }

  /** At every pixel but the very first, the trace displays the value held at that pixel's time. */
  lemma {:induction false} EveryPixelShown<W(!new), V(!new)>(job: Job<W, V>, n: nat, i: nat)
    requires Sound(job) && 0 < i <= n < |job.stamps|
    requires Reference(job, n).Some?
    ensures ShownAt(Reference(job, n).value, job.stamps[i].pixel) == HeldAt(job, i)
    decreases n
  {
    assert job.stamps[i].pixel == job.stamps[n].pixel + i - n;
    ReferenceNext(job, n);
    hide Reference, Sound, Passed, Pushed;
    if i == n {
      ReferenceShows(job, n);
      ReferenceUpTo(job, n);
    } else {
      EveryPixelShown(job, n - 1, i);
      if At(job, n) > 0 {
        PushedShows(Reference(job, n - 1).value, job.stamps[n].pixel, HeldAt(job, n).value, n == |job.stamps| - 1,
                    Sharpened(job, n), job.stamps[i].pixel);
      }
    }
  }

  ghost predicate HasEntry<V(!new)>(entries: seq<Entry<V>>, pixel: int) {
    exists k :: 0 <= k < |entries| && entries[k].pixel == pixel
  }

  /** With anti-aliasing, every pixel in which something happened has an entry, even if the text stays. */
  lemma {:induction false} EveryChangeDrawn<W(!new), V(!new)>(job: Job<W, V>, n: nat, i: nat)
    requires Sound(job) && job.antiAliasing && 0 < i <= n < |job.stamps|
    requires Reference(job, n).Some?
    requires At(job, i - 1) < At(job, i)
    ensures HasEntry(Reference(job, n).value, job.stamps[i].pixel)
    decreases n
  {
    ReferenceNext(job, n);
    hide Reference, Sound, At, Pushed, HasEntry;
    if i == n {
      if !Sharpened(job, n) { OldChangeIsQuiet(job, n); }
      PushedEntry(Reference(job, n - 1).value, job.stamps[n].pixel, HeldAt(job, n).value, n == |job.stamps| - 1);
    } else {
      EveryChangeDrawn(job, n - 1, i);
      if At(job, n) > 0 {
        PushedKeeps(Reference(job, n - 1).value, job.stamps[n].pixel, HeldAt(job, n).value, n == |job.stamps| - 1,
                    Sharpened(job, n), job.stamps[i].pixel);
      }
    }
  }

  lemma {:induction false} PushedEntry<V(!new)>(entries: seq<Entry<V>>, pixel: int, value: V, isLast: bool)
    ensures HasEntry(Pushed(entries, pixel, value, isLast, true), pixel)
  {
    var after := Pushed(entries, pixel, value, isLast, true);
    assert after[|after| - 1].pixel == pixel;
  }

  lemma {:induction false} PushedKeeps<V(!new)>(entries: seq<Entry<V>>, pixel: int, value: V, isLast: bool,
                                                antiAlias: bool, at: int)
    requires HasEntry(entries, at)
    ensures HasEntry(Pushed(entries, pixel, value, isLast, antiAlias), at)
  {
    var k :| 0 <= k < |entries| && entries[k].pixel == at;
    assert Pushed(entries, pixel, value, isLast, antiAlias)[k] == entries[k];
  }

  /** No entry without need: a repeated value is the closing entry or a flagged change. */
  ghost predicate Needed<W(!new), V(!new)>(job: Job<W, V>, entries: seq<Entry<V>>)
    requires job.stamps != []
  {
    forall k :: 0 < k < |entries| ==>
      || entries[k].value != entries[k - 1].value
      || entries[k].forceAntiAlias
      || entries[k].pixel == job.stamps[|job.stamps| - 1].pixel
  }

  lemma {:induction false} PushedNeeded<W(!new), V(!new)>(job: Job<W, V>, entries: seq<Entry<V>>, n: nat, value: V,
                                                          antiAlias: bool)
    requires n < |job.stamps| && Needed(job, entries)
    ensures Needed(job, Pushed(entries, job.stamps[n].pixel, value, n == |job.stamps| - 1, antiAlias))
  {
  }

  lemma {:induction false} NoNeedlessEntries<W(!new), V(!new)>(job: Job<W, V>, n: nat)
    requires Sound(job) && n < |job.stamps|
    requires Reference(job, n).Some?
    ensures Needed(job, Reference(job, n).value)
  {
    assert n == 0 ==> Reference(job, 0) == Some([]);
    if n > 0 {
      ReferenceNext(job, n);
      hide Reference, Sound, Passed, Sharpened, Pushed, Needed;
      NoNeedlessEntries(job, n - 1);
      if At(job, n) > 0 {
        PushedNeeded(job, Reference(job, n - 1).value, n, HeldAt(job, n).value, Sharpened(job, n));
      }
    }
  }

  /** The promise of the walk, all in one: it draws the held value everywhere and misses no change. */
  lemma {:induction false} TraceIsComplete<W(!new), V(!new)>(job: Job<W, V>, entries: seq<Entry<V>>)
    requires Sound(job) && AllReady(job) && job.stamps != []
    requires Pruned(job, |job.stamps| - 1).Walking? && entries == Pruned(job, |job.stamps| - 1).entries
    ensures forall i :: 0 < i < |job.stamps| ==> ShownAt(entries, job.stamps[i].pixel) == HeldAt(job, i)
    ensures job.antiAliasing ==> forall i :: 0 < i < |job.stamps| && At(job, i - 1) < At(job, i) ==>
      HasEntry(entries, job.stamps[i].pixel)
    ensures Needed(job, entries)
  {
    var n := |job.stamps| - 1;
    PrunedDrawsTheSame(job);
    NoNeedlessEntries(job, n);
    forall i | 0 < i < |job.stamps|
      ensures ShownAt(entries, job.stamps[i].pixel) == HeldAt(job, i)
      ensures job.antiAliasing && At(job, i - 1) < At(job, i) ==> HasEntry(entries, job.stamps[i].pixel)
    {
      EveryPixelShown(job, n, i);
      if job.antiAliasing && At(job, i - 1) < At(job, i) { EveryChangeDrawn(job, n, i); }
    }
  }

  // ----- the entries, one by one

  /** Change number `c` is the last one by pixel number `i`. */
  ghost predicate Latest<W(!new), V(!new)>(job: Job<W, V>, i: nat, c: nat) {
    && i < |job.stamps| && c < |job.changes| && job.changes[c].time <= job.stamps[i].time
    && (c + 1 < |job.changes| ==> job.stamps[i].time < job.changes[c + 1].time)
  }

  ghost predicate NoneYet<W(!new), V(!new)>(job: Job<W, V>, i: nat) {
    i < |job.stamps| && forall c :: 0 <= c < |job.changes| ==> job.stamps[i].time < job.changes[c].time
  }

  ghost predicate OnlyEntry<V(!new)>(entries: seq<Entry<V>>, entry: Entry<V>) {
    forall k :: 0 <= k < |entries| && entries[k].pixel == entry.pixel ==> entries[k] == entry
  }

  /**
   What pixel number `i` gets: nothing before the first change; else the value of the last change is shown,
   and has an entry there exactly if it differs from what was shown before, or at the last pixel, or if it
   is a change since the pixel before and such changes shall be drawn.  The entry is flagged exactly if it
   is such a change and repeats the value shown.
   */
  ghost predicate PixelExact<W(!new), V(!new)>(job: Job<W, V>, entries: seq<Entry<V>>, i: nat)
    requires 0 < i < |job.stamps|
  {
    var pixel, before := job.stamps[i].pixel, ShownAt(entries, job.stamps[i - 1].pixel);
    && (NoneYet(job, i) ==> !HasEntry(entries, pixel) && ShownAt(entries, pixel) == None)
    && forall c: nat :: Latest(job, i, c) ==>
         var value, sharp := job.translate(job.changes[c].value), job.antiAliasing
           && job.changes[c].time > job.stamps[i - 1].time;
         && value.Some? && ShownAt(entries, pixel) == value
         && (HasEntry(entries, pixel) <==> before != value || i == |job.stamps| - 1 || sharp)
         && OnlyEntry(entries, Entry(pixel, value.value, sharp && before == value))
  }

  ghost predicate LeftToRight<V(!new)>(entries: seq<Entry<V>>) {
    forall j, k :: 0 <= j < k < |entries| ==> entries[j].pixel < entries[k].pixel
  }

  ghost predicate OnRow<W(!new), V(!new)>(job: Job<W, V>, entries: seq<Entry<V>>, n: nat)
    requires n < |job.stamps|
  {
    forall k :: 0 <= k < |entries| ==> exists i :: 0 < i <= n && entries[k].pixel == job.stamps[i].pixel
  }

  /** The trace up to pixel number `n`: entries from left to right, at pixels of the row, each as it should be. */
  ghost predicate TraceExact<W(!new), V(!new)>(job: Job<W, V>, entries: seq<Entry<V>>, n: nat)
    requires n < |job.stamps|
  {
    && LeftToRight(entries) && OnRow(job, entries, n)
    && forall i :: 0 < i <= n ==> PixelExact(job, entries, i)
  }

  lemma {:induction false} LatestIs<W(!new), V(!new)>(job: Job<W, V>, i: nat, c: nat)
    requires Sound(job) && Latest(job, i, c)
    ensures At(job, i) == c + 1 && HeldAt(job, i) == job.translate(job.changes[c].value)
  {
    PassedExact(job.changes, job.stamps[i].time, c + 1);
  }

  lemma {:induction false} NoneYetIs<W(!new), V(!new)>(job: Job<W, V>, i: nat)
    requires Sound(job) && NoneYet(job, i)
    ensures At(job, i) == 0 && HeldAt(job, i) == None
  {
    PassedExact(job.changes, job.stamps[i].time, 0);
  }

  /** What one push adds: at most one entry, behind all others. */
  lemma {:induction false} PushedExact<V(!new)>(entries: seq<Entry<V>>, pixel: int, value: V, isLast: bool, sharp: bool,
                                                before: Option<V>)
    requires forall k :: 0 <= k < |entries| ==> entries[k].pixel < pixel
    requires before == if entries == [] then None else Some(entries[|entries| - 1].value)
    ensures var after := Pushed(entries, pixel, value, isLast, sharp);
      && after == (if before != Some(value) || isLast || sharp
                   then entries + [Entry(pixel, value, sharp && before == Some(value))] else entries)
      && (HasEntry(after, pixel) <==> before != Some(value) || isLast || sharp)
      && OnlyEntry(after, Entry(pixel, value, sharp && before == Some(value)))
  {
    var after := Pushed(entries, pixel, value, isLast, sharp);
    if before != Some(value) || isLast || sharp { assert after[|entries|].pixel == pixel; }
  }

  /** A later entry changes nothing about an earlier pixel. */
  lemma {:induction false} EarlierPixel<W(!new), V(!new)>(job: Job<W, V>, entries: seq<Entry<V>>, entry: Entry<V>,
                                                          i: nat)
    requires 0 < i < |job.stamps| && PixelExact(job, entries, i)
    requires job.stamps[i - 1].pixel < job.stamps[i].pixel < entry.pixel
    ensures PixelExact(job, entries + [entry], i)
  {
    var after := entries + [entry];
    assert after[..|entries|] == entries;
    assert HasEntry(after, job.stamps[i].pixel) <==> HasEntry(entries, job.stamps[i].pixel) by {
      if HasEntry(entries, job.stamps[i].pixel) {
        var k :| 0 <= k < |entries| && entries[k].pixel == job.stamps[i].pixel;
        assert after[k] == entries[k];
      }
    }
    assert ShownAt(after, job.stamps[i].pixel) == ShownAt(entries, job.stamps[i].pixel);
    assert ShownAt(after, job.stamps[i - 1].pixel) == ShownAt(entries, job.stamps[i - 1].pixel);
    hide ShownAt, HasEntry, Latest, NoneYet;
  }

  /** What stands at the end is what is shown there and everywhere behind. */
  lemma {:induction false} ShownLast<V(!new)>(entries: seq<Entry<V>>, pixel: int)
    requires UpTo(entries, pixel)
    ensures ShownAt(entries, pixel) == if entries == [] then None else Some(entries[|entries| - 1].value)
  {
  }

  lemma {:induction false} PixelFrom<W(!new), V(!new)>(job: Job<W, V>, n: nat, after: seq<Entry<V>>, value: V,
                                                       before: Option<V>, sharp: bool)
    requires Sound(job) && 0 < n < |job.stamps| && At(job, n) > 0 && HeldAt(job, n) == Some(value)
    requires sharp == Sharpened(job, n) && before == ShownAt(after, job.stamps[n - 1].pixel)
    requires ShownAt(after, job.stamps[n].pixel) == Some(value)
    requires HasEntry(after, job.stamps[n].pixel) <==> before != Some(value) || n == |job.stamps| - 1 || sharp
    requires OnlyEntry(after, Entry(job.stamps[n].pixel, value, sharp && before == Some(value)))
    ensures PixelExact(job, after, n)
  {
    hide Sound, At, HeldAt, ShownAt, HasEntry, OnlyEntry, Latest, NoneYet;
    if NoneYet(job, n) { NoneYetIs(job, n); }
    forall c: nat | Latest(job, n, c)
      ensures At(job, n) == c + 1 && HeldAt(job, n) == job.translate(job.changes[c].value)
    {
      LatestIs(job, n, c);
    }
  }

  lemma {:induction false} UpToPushed<V(!new)>(entries: seq<Entry<V>>, at: int, pixel: int, value: V, isLast: bool,
                                               sharp: bool)
    requires UpTo(entries, at) && at < pixel
    ensures var after := Pushed(entries, pixel, value, isLast, sharp);
      UpTo(after, pixel) && after != [] && after[|after| - 1].value == value
    ensures forall k :: 0 <= k < |entries| ==> entries[k].pixel < pixel
  {
  }

  lemma {:induction false} PixelDrawn<W(!new), V(!new)>(job: Job<W, V>, n: nat, entries: seq<Entry<V>>)
    requires Sound(job) && 0 < n < |job.stamps| && At(job, n) > 0 && HeldAt(job, n).Some?
    requires UpTo(entries, job.stamps[n - 1].pixel) && job.stamps[n - 1].pixel < job.stamps[n].pixel
    ensures PixelExact(job, Pushed(entries, job.stamps[n].pixel, HeldAt(job, n).value, n == |job.stamps| - 1,
                                   Sharpened(job, n)), n)
  {
    hide *;
    var at, pixel, value, isLast, sharp := job.stamps[n - 1].pixel, job.stamps[n].pixel, HeldAt(job, n).value,
      n == |job.stamps| - 1, Sharpened(job, n);
    var after := Pushed(entries, pixel, value, isLast, sharp);
    var before := ShownAt(entries, at);
    ShownLast(entries, at);
    UpToPushed(entries, at, pixel, value, isLast, sharp);
    PushedExact(entries, pixel, value, isLast, sharp, before);
    PushedShows(entries, pixel, value, isLast, sharp, at);
    ShownLast(after, pixel);
    PixelFrom(job, n, after, value, before, sharp);
  }

  lemma {:induction false} PixelEmpty<W(!new), V(!new)>(job: Job<W, V>, n: nat)
    requires Sound(job) && 0 < n < |job.stamps| && At(job, n) == 0
    ensures PixelExact(job, [], n)
  {
    forall c: nat | Latest(job, n, c)
      ensures false
    {
      LatestIs(job, n, c);
    }
  }

  lemma {:induction false} PixelKept<W(!new), V(!new)>(job: Job<W, V>, entries: seq<Entry<V>>, pixel: int, value: V,
                                                       isLast: bool, sharp: bool, i: nat)
    requires 0 < i < |job.stamps| && PixelExact(job, entries, i)
    requires job.stamps[i - 1].pixel < job.stamps[i].pixel < pixel
    ensures PixelExact(job, Pushed(entries, pixel, value, isLast, sharp), i)
  {
    var after := Pushed(entries, pixel, value, isLast, sharp);
    assert after == entries || (|after| == |entries| + 1 && after == entries + [after[|entries|]]
                                && after[|entries|].pixel == pixel);
    hide Pushed, PixelExact;
    if after != entries { EarlierPixel(job, entries, after[|entries|], i); }
  }

  lemma {:induction false} PushedInOrder<W(!new), V(!new)>(job: Job<W, V>, n: nat, entries: seq<Entry<V>>, value: V,
                                                           isLast: bool, sharp: bool)
    requires 0 < n < |job.stamps| && LeftToRight(entries) && OnRow(job, entries, n - 1)
    requires UpTo(entries, job.stamps[n - 1].pixel) && job.stamps[n - 1].pixel < job.stamps[n].pixel
    ensures LeftToRight(Pushed(entries, job.stamps[n].pixel, value, isLast, sharp))
    ensures OnRow(job, Pushed(entries, job.stamps[n].pixel, value, isLast, sharp), n)
  {
    var after := Pushed(entries, job.stamps[n].pixel, value, isLast, sharp);
    forall k | 0 <= k < |after|
      ensures exists i :: 0 < i <= n && after[k].pixel == job.stamps[i].pixel
    {
      if k < |entries| {
        var i :| 0 < i <= n - 1 && entries[k].pixel == job.stamps[i].pixel;
        assert 0 < i <= n && after[k].pixel == job.stamps[i].pixel;
      } else {
        assert after[k].pixel == job.stamps[n].pixel;
      }
    }
  }

  lemma NothingDrawn<W(!new), V(!new)>(job: Job<W, V>)
    requires job.stamps != []
    ensures Reference(job, 0) == Some([]) && LeftToRight<V>([]) && OnRow(job, [], 0)
  {
  }

  lemma NothingOnRow<W(!new), V(!new)>(job: Job<W, V>, n: nat)
    requires n < |job.stamps|
    ensures LeftToRight<V>([]) && OnRow(job, [], n)
  {
  }

  lemma {:induction false} PixelsInOrder<W(!new), V(!new)>(job: Job<W, V>, i: nat, n: nat)
    requires Sound(job) && i < n < |job.stamps|
    ensures job.stamps[i].pixel < job.stamps[n].pixel
  {
  }

  lemma {:induction false} ReferenceOrder<W(!new), V(!new)>(job: Job<W, V>, n: nat)
    requires Sound(job) && n < |job.stamps| && Reference(job, n).Some?
    ensures LeftToRight(Reference(job, n).value) && OnRow(job, Reference(job, n).value, n)
  {
    hide *;
    if n == 0 {
      NothingDrawn(job);
    } else {
      ReferenceNext(job, n);
      ReferenceOrder(job, n - 1);
      ReferenceUpTo(job, n - 1);
      PixelsInOrder(job, n - 1, n);
      var before := Reference(job, n - 1).value;
      ReferenceShows(job, n);
      ShowsNothing(job, n);
      NothingOnRow(job, n);
      if At(job, n) > 0 {
        PushedInOrder(job, n, before, HeldAt(job, n).value, n == |job.stamps| - 1, Sharpened(job, n));
      }
    }
  }

  lemma {:induction false} ReferencePixel<W(!new), V(!new)>(job: Job<W, V>, n: nat, i: nat)
    requires Sound(job) && 0 < i <= n < |job.stamps| && Reference(job, n).Some?
    ensures PixelExact(job, Reference(job, n).value, i)
    decreases n
  {
    hide *;
    ReferenceNext(job, n);
    ReferenceShows(job, n);
    ShowsNothing(job, n);
    ReferenceUpTo(job, n - 1);
    PixelsInOrder(job, n - 1, n);
    PixelsInOrder(job, i - 1, i);
    var before := Reference(job, n - 1).value;
    if i == n {
      if At(job, n) == 0 { PixelEmpty(job, n); } else { PixelDrawn(job, n, before); }
    } else {
      ReferencePixel(job, n - 1, i);
      PixelsInOrder(job, i, n);
      if At(job, n) > 0 {
        PixelKept(job, before, job.stamps[n].pixel, HeldAt(job, n).value, n == |job.stamps| - 1, Sharpened(job, n), i);
      }
    }
  }

  lemma ShowsNothing<W(!new), V(!new)>(job: Job<W, V>, n: nat)
    requires n < |job.stamps| && Reference(job, n).Some? && Shows(job, n, Reference(job, n).value)
    ensures At(job, n) == 0 ==> Reference(job, n).value == []
  {
    hide Reference, At;
  }

  /** Asking everywhere draws the exact trace ... */
  lemma {:induction false} ReferenceExact<W(!new), V(!new)>(job: Job<W, V>, n: nat)
    requires Sound(job) && n < |job.stamps| && Reference(job, n).Some?
    ensures TraceExact(job, Reference(job, n).value, n)
  {
    ReferenceOrder(job, n);
    hide Reference, Sound, PixelExact;
    forall i | 0 < i <= n
      ensures PixelExact(job, Reference(job, n).value, i)
    {
      ReferencePixel(job, n, i);
    }
  }

  /** ... and so does the pruned walk, if every query is answered. */
  lemma {:induction false} WalkExact<W(!new), V(!new)>(job: Job<W, V>)
    requires Sound(job) && AllReady(job) && job.stamps != [] && Pruned(job, |job.stamps| - 1).Walking?
    ensures TraceExact(job, Pruned(job, |job.stamps| - 1).entries, |job.stamps| - 1)
  {
    PrunedDrawsTheSame(job);
    hide Sound, AllReady, Reference, Pruned, TraceExact;
    ReferenceExact(job, |job.stamps| - 1);
  }

  // ----- which pixels are asked

  /** An answer at pixel number `a` lets the walk pass over pixel number `n`. */
  predicate Rests<W, V>(job: Job<W, V>, a: nat, n: nat)
    requires a < |job.stamps| && n < |job.stamps| && job.view.scale != 0.0
  {
    match job.access(job.stamps[a].time)
    case Broken => false
    case Absent => true
    case Ready =>
      || At(job, a) == |job.changes|
      || (job.stamps[n].pixel as real) < PixelAt(job.view, job.changes[At(job, a)].time)
  }

  /** The last pixel up to number `n` at which the signal is queried; 0 before the first one. */
  function LastAsked<W, V>(job: Job<W, V>, n: nat): (a: nat)
    requires n < |job.stamps| && job.view.scale != 0.0
    ensures a <= n && (n > 0 ==> a > 0)
  {
    if n == 0 then 0
    else
      var a := LastAsked(job, n - 1);
      if Inside(job, n) && Rests(job, a, n) then a else n
  }

  /** The walk remembers no more than its last answer. */
  lemma {:induction false} NextIsLastAnswer<W(!new), V(!new)>(job: Job<W, V>, n: nat)
    requires Sound(job) && 0 < n < |job.stamps| && Pruned(job, n).Walking?
    ensures Pruned(job, n).nextChange == NextChange(job, job.stamps[LastAsked(job, n)].time)
    ensures Pruned(job, n - 1).Walking? && (LastAsked(job, n) != n ==> Pruned(job, n) == Pruned(job, n - 1))
  {
    var w := Pruned(job, n - 1);
    assert Pruned(job, n) == PrunedStep(job, n, w.entries, w.nextChange);
    if n > 1 { NextIsLastAnswer(job, n - 1); }
    hide Pruned;
    AsksWhen(job, n, w.entries, w.nextChange);
  }

  lemma {:induction false} AsksWhen<W(!new), V(!new)>(job: Job<W, V>, n: nat, entries: seq<Entry<V>>, next: real)
    requires Sound(job) && 0 < n < |job.stamps|
    requires n > 1 ==> next == NextChange(job, job.stamps[LastAsked(job, n - 1)].time)
    ensures LastAsked(job, n) != n <==> Inside(job, n) && job.stamps[n].pixel as real < next
    ensures LastAsked(job, n) != n ==> PrunedStep(job, n, entries, next) == Walking(entries, next)
    ensures PrunedStep(job, n, entries, next).Walking? && LastAsked(job, n) == n ==>
      PrunedStep(job, n, entries, next).nextChange == NextChange(job, job.stamps[n].time)
  {
    InsideByPixel(job, n);
    if Inside(job, n) { RestsByPixel(job, LastAsked(job, n - 1), n); }
    hide Sound, At, Passed, NextChange, Rests;
  }

  lemma {:induction false} RestsByPixel<W(!new), V(!new)>(job: Job<W, V>, a: nat, n: nat)
    requires Sound(job) && Inside(job, n) && 0 < a < n
    ensures Rests(job, a, n) <==> (job.stamps[n].pixel as real) < NextChange(job, job.stamps[a].time)
  {
    assert job.stamps[0].pixel < job.stamps[n].pixel < job.stamps[|job.stamps| - 1].pixel;
    hide Passed, PixelAt;
  }

  /** The translator fails at a pixel that is asked and would draw. */
  predicate GivesUp<W, V>(job: Job<W, V>, m: nat)
    requires job.view.scale != 0.0
  {
    && 0 < m < |job.stamps| && LastAsked(job, m) == m && job.access(job.stamps[m].time) == Ready && At(job, m) > 0
    && (Inside(job, m) ==> job.changes[At(job, m) - 1].time >= job.stamps[m - 1].time)
    && HeldAt(job, m).None?
  }

  lemma {:induction false} DisabledStep<W(!new), V(!new)>(job: Job<W, V>, n: nat)
    requires Sound(job) && 0 < n < |job.stamps| && Pruned(job, n - 1).Walking?
    ensures Pruned(job, n).Disabled? <==> GivesUp(job, n)
  {
    var w := Pruned(job, n - 1);
    assert Pruned(job, n) == PrunedStep(job, n, w.entries, w.nextChange);
    if n > 1 { NextIsLastAnswer(job, n - 1); }
    AsksWhen(job, n, w.entries, w.nextChange);
    InsideByPixel(job, n);
    hide Sound, Passed, NextChange, Pruned, Pushed, LastAsked;
  }

  /** Nothing is drawn exactly if the translator fails somewhere where it is needed. */
  lemma {:induction false} DisabledExactly<W(!new), V(!new)>(job: Job<W, V>, n: nat)
    requires Sound(job) && n < |job.stamps|
    ensures Pruned(job, n).Disabled? <==> exists m :: 0 < m <= n && GivesUp(job, m)
  {
    if n > 0 {
      DisabledExactly(job, n - 1);
      hide GivesUp, Sound;
      if Pruned(job, n - 1).Walking? { DisabledStep(job, n); }
    }
  }

  // ----- exactly which failing queries show

  /**
   A pixel at which the display has to change: the first drawn one if it holds a value, later ones with a
   new value.
   */
  predicate MustRedraw<W, V(==)>(job: Job<W, V>, m: nat) {
    0 < m < |job.stamps| && if m == 1 then HeldAt(job, 1).Some? else HeldAt(job, m) != HeldAt(job, m - 1)
  }

  /** After an answer without a signal nothing is asked until the last pixel. */
  predicate Blind<W, V>(job: Job<W, V>, m: nat)
    requires 0 < m < |job.stamps| && job.view.scale != 0.0
  {
    Inside(job, m) && job.access(job.stamps[LastAsked(job, m - 1)].time) == Absent
  }

  ghost predicate RedrawsAnswered<W(!new), V(!new)>(job: Job<W, V>)
    requires job.view.scale != 0.0
  {
    forall m :: 0 < m < |job.stamps| && MustRedraw(job, m) ==> job.access(job.stamps[m].time) == Ready && !Blind(job, m)
  }

  function LastShown<V>(entries: seq<Entry<V>>): Option<V> {
    if entries == [] then None else Some(entries[|entries| - 1].value)
  }

  /** What is on display after pixel number `n` of the walk. */
  function Display<W, V(==)>(job: Job<W, V>, n: nat): Option<V>
    requires n < |job.stamps| && job.view.scale != 0.0 && Pruned(job, n).Walking?
  {
    LastShown(Pruned(job, n).entries)
  }

  lemma {:induction false} WalksBefore<W(!new), V(!new)>(job: Job<W, V>, i: nat, n: nat)
    requires i <= n < |job.stamps| && job.view.scale != 0.0 && Pruned(job, n).Walking?
    ensures Pruned(job, i).Walking?
  {
    if Pruned(job, i).Disabled? { DisabledStays(job, i, n); }
  }

  /** A step that is skipped, or whose query fails, leaves the display as it is; any other shows the held value. */
  lemma {:induction false} StepDisplay<W(!new), V(!new)>(job: Job<W, V>, n: nat)
    requires 0 < n < |job.stamps| && job.view.scale != 0.0
    requires Pruned(job, n - 1).Walking? && Pruned(job, n).Walking?
    ensures Display(job, n) == Display(job, n - 1)
      || (job.access(job.stamps[n].time) == Ready && Display(job, n) == HeldAt(job, n))
  {
    var w := Pruned(job, n - 1);
    assert Pruned(job, n) == PrunedStep(job, n, w.entries, w.nextChange);
  }

  /** Where nothing is asked after an answer that is not `Absent`, nothing has happened since. */
  lemma {:induction false} RestingIsQuiet<W(!new), V(!new)>(job: Job<W, V>, n: nat)
    requires Sound(job) && 0 < n < |job.stamps| && job.access(job.stamps[LastAsked(job, n)].time) == Ready
    ensures At(job, n) == At(job, LastAsked(job, n))
  {
    var a := LastAsked(job, n);
    if a != n {
      assert LastAsked(job, n - 1) == a && n > 1;
      RestingIsQuiet(job, n - 1);
      assert Rests(job, a, n);
      AtGrows(job, n);
      if At(job, a) < |job.changes| { SkippedIsQuiet(job, n, PixelAt(job.view, job.changes[At(job, a)].time)); }
      hide Sound, Passed, LastAsked;
    }
  }

  /** A pixel at which something has happened is asked, unless the walk is blind there. */
  lemma {:induction false} NewsIsAsked<W(!new), V(!new)>(job: Job<W, V>, n: nat)
    requires Sound(job) && 0 < n < |job.stamps| && !Blind(job, n) && (n > 1 ==> At(job, n - 1) < At(job, n))
    ensures LastAsked(job, n) == n
  {
    if LastAsked(job, n) != n {
      var a := LastAsked(job, n);
      assert a == LastAsked(job, n - 1) && Rests(job, a, n) && Inside(job, n);
      hide Passed;
      RestingIsQuiet(job, n);
      RestingIsQuiet(job, n - 1);
    }
  }

  /** An answered query at a pixel with a new value draws it. */
  lemma {:induction false} AnsweredRedraws<W(!new), V(!new)>(job: Job<W, V>, n: nat)
    requires Sound(job) && MustRedraw(job, n) && Pruned(job, n).Walking? && Pruned(job, n - 1).Walking?
    requires job.access(job.stamps[n].time) == Ready && !Blind(job, n)
    ensures Display(job, n) == HeldAt(job, n)
  {
    var w := Pruned(job, n - 1);
    assert Pruned(job, n) == PrunedStep(job, n, w.entries, w.nextChange);
    if n > 1 {
      AtGrows(job, n);
      NextIsLastAnswer(job, n - 1);
      if At(job, n) > 0 && job.changes[At(job, n) - 1].time < job.stamps[n - 1].time { OldChangeIsQuiet(job, n); }
    }
    hide Sound, Pruned, Passed, Blind;
    NewsIsAsked(job, n);
    AsksWhen(job, n, w.entries, w.nextChange);
    AskedDraws(job, n, w.entries, w.nextChange);
    hide PrunedStep;
  }

  /** A step that is not skipped pushes the held value. */
  lemma {:induction false} AskedDraws<W(!new), V(!new)>(job: Job<W, V>, n: nat, entries: seq<Entry<V>>, next: real)
    requires Sound(job) && 0 < n < |job.stamps| && job.access(job.stamps[n].time) == Ready && At(job, n) > 0
    requires Inside(job, n) ==>
        next <= job.stamps[n].pixel as real && job.changes[At(job, n) - 1].time >= job.stamps[n - 1].time
    requires PrunedStep(job, n, entries, next).Walking?
    ensures HeldAt(job, n).Some?
    ensures PrunedStep(job, n, entries, next).entries ==
      Pushed(entries, job.stamps[n].pixel, HeldAt(job, n).value, n == |job.stamps| - 1, Sharpened(job, n))
  {
    AskedPixel(job, n, entries, next);
    hide Pushed, Passed, NextChange, PrunedStep;
  }

  lemma {:induction false} AnsweredDisplays<W(!new), V(!new)>(job: Job<W, V>, n: nat)
    requires Sound(job) && 0 < n < |job.stamps| && Pruned(job, n).Walking? && RedrawsAnswered(job)
    ensures Display(job, n) == HeldAt(job, n)
  {
    ScaleNotZero(job);
    WalksBefore(job, n - 1, n);
    assert MustRedraw(job, n) ==> job.access(job.stamps[n].time) == Ready && !Blind(job, n);
    if n > 1 { AnsweredDisplays(job, n - 1); }
    if MustRedraw(job, n) {
      hide *;
      AnsweredRedraws(job, n);
    } else {
      NothingYet(job);
      hide Sound, RedrawsAnswered, Display, Pruned, HeldAt;
      StepDisplay(job, n);
    }
  }

  lemma NothingYet<W(!new), V(!new)>(job: Job<W, V>)
    requires job.stamps != [] && job.view.scale != 0.0
    ensures Pruned(job, 0).Walking? && Display(job, 0) == None
  {
  }

  /** Conversely, a redraw whose query fails or is not made leaves the wrong value on display. */
  lemma {:induction false} UnansweredStays<W(!new), V(!new)>(job: Job<W, V>, m: nat)
    requires Sound(job) && MustRedraw(job, m) && Pruned(job, m).Walking? && Pruned(job, m - 1).Walking?
    requires job.access(job.stamps[m].time) != Ready || Blind(job, m)
    requires m > 1 ==> Display(job, m - 1) == HeldAt(job, m - 1)
    ensures Display(job, m) != HeldAt(job, m)
  {
    NothingYet(job);
    NextIsLastAnswer(job, m);
    BlindIsNotAsked(job, m);
    hide Sound, Display, Pruned, HeldAt, LastAsked, Blind;
    if Blind(job, m) {
      assert Pruned(job, m) == Pruned(job, m - 1);
      SameDisplay(job, m);
    } else { StepDisplay(job, m); }
  }

  lemma SameDisplay<W(!new), V(!new)>(job: Job<W, V>, m: nat)
    requires 0 < m < |job.stamps| && job.view.scale != 0.0 && Pruned(job, m).Walking?
      && Pruned(job, m) == Pruned(job, m - 1)
    ensures Display(job, m) == Display(job, m - 1)
  {
  }

  lemma {:induction false} BlindIsNotAsked<W(!new), V(!new)>(job: Job<W, V>, m: nat)
    requires Sound(job) && 0 < m < |job.stamps|
    ensures Blind(job, m) ==> LastAsked(job, m) != m
  {
  }

  /** The display after pixel `i` is what the finished trace shows there. */
  lemma {:induction false} DisplayIsShown<W(!new), V(!new)>(job: Job<W, V>, n: nat, i: nat)
    requires Sound(job) && 0 < i <= n < |job.stamps| && Pruned(job, n).Walking?
    ensures Pruned(job, i).Walking?
    ensures ShownAt(Pruned(job, n).entries, job.stamps[i].pixel) == Display(job, i)
    decreases n
  {
    ScaleNotZero(job);
    WalksBefore(job, i, n);
    PrunedUpTo(job, n);
    if i < n {
      WalksBefore(job, n - 1, n);
      DisplayIsShown(job, n - 1, i);
      StepShows(job, n, job.stamps[i].pixel);
    }
  }

  lemma {:induction false} StepShows<W(!new), V(!new)>(job: Job<W, V>, n: nat, at: int)
    requires 0 < n < |job.stamps| && job.view.scale != 0.0 && at < job.stamps[n].pixel
    requires Pruned(job, n - 1).Walking? && Pruned(job, n).Walking?
    ensures ShownAt(Pruned(job, n).entries, at) == ShownAt(Pruned(job, n - 1).entries, at)
  {
    var w := Pruned(job, n - 1);
    assert Pruned(job, n) == PrunedStep(job, n, w.entries, w.nextChange);
    if Pruned(job, n).entries != w.entries {
      var change := job.changes[Passed(job.changes, job.stamps[n].time) - 1];
      var antiAlias := change.time > job.stamps[n - 1].time && job.antiAliasing;
      var isLast := job.stamps[n].pixel == job.stamps[|job.stamps| - 1].pixel;
      PushedShows(w.entries, job.stamps[n].pixel, job.translate(change.value).value, isLast, antiAlias, at);
    }
  }

  lemma {:induction false} PrunedUpTo<W(!new), V(!new)>(job: Job<W, V>, n: nat)
    requires Sound(job) && n < |job.stamps| && Pruned(job, n).Walking?
    ensures UpTo(Pruned(job, n).entries, job.stamps[n].pixel)
  {
    if n > 0 { PrunedUpTo(job, n - 1); }
  }

  /** The finished trace shows the held value at every pixel but the first. */
  ghost predicate AllShown<W(!new), V(!new)>(job: Job<W, V>, entries: seq<Entry<V>>) {
    forall i :: 0 < i < |job.stamps| ==> ShownAt(entries, job.stamps[i].pixel) == HeldAt(job, i)
  }

  /**
   Whatever the queries answer: of the rows that are drawn at all, exactly those show what the signal holds at
   every pixel whose queries, at each pixel where the display has to change, are made and answered.
   */
  lemma {:induction false} ShownExactly<W(!new), V(!new)>(job: Job<W, V>)
    requires Sound(job) && job.stamps != [] && Pruned(job, |job.stamps| - 1).Walking?
    ensures AllShown(job, Pruned(job, |job.stamps| - 1).entries) <==> RedrawsAnswered(job)
  {
    var n := |job.stamps| - 1;
    ScaleNotZero(job);
    var entries := Pruned(job, n).entries;
    forall i | 0 < i < |job.stamps|
      ensures Pruned(job, i).Walking? && ShownAt(entries, job.stamps[i].pixel) == Display(job, i)
    {
      DisplayIsShown(job, n, i);
    }
    NothingYet(job);
    hide Sound, Display, Pruned, HeldAt, MustRedraw, ShownAt, Blind;
    if RedrawsAnswered(job) {
      forall i | 0 < i < |job.stamps|
        ensures ShownAt(entries, job.stamps[i].pixel) == HeldAt(job, i)
      {
        AnsweredDisplays(job, i);
      }
    }
    if AllShown(job, entries) {
      forall m | 0 < m < |job.stamps| && MustRedraw(job, m)
        ensures job.access(job.stamps[m].time) == Ready && !Blind(job, m)
      {
        if job.access(job.stamps[m].time) != Ready || Blind(job, m) {
          assert m > 1 ==> Display(job, m - 1) == HeldAt(job, m - 1);
          UnansweredStays(job, m);
        }
      }
    }
  }

  lemma ScaleNotZero<W(!new), V(!new)>(job: Job<W, V>)
    requires Sound(job)
    ensures job.view.scale != 0.0
  {
  }

  // ----- a failing query

  /** Two changes; the query at the pixel that first sees the second one fails. */
  function FailingJob(): Job<nat, nat> {
    Job(View(0.0, 2.0),
        [Stamp(0, 0), Stamp(1, 2), Stamp(2, 4), Stamp(3, 6), Stamp(4, 8)],
        [Change(0, 7), Change(3, 8)],
        t => if t == 4 then Broken else Ready,
        v => Some(v),
        true)
  }

  lemma {:induction false} FailingSteps()
    ensures Pruned(FailingJob(), 1) == Walking([Entry(1, 7, false)], 1.5)
    ensures Pruned(FailingJob(), 2) == Walking([Entry(1, 7, false)], 0.0)
  {
    var job := FailingJob();
    PassedExact(job.changes, 2, 1);
    assert PixelAt(job.view, 3) == 1.5;
    assert Pruned(job, 0) == Walking([], 0.0);
  }

  lemma {:induction false} FailingEnd()
    ensures Pruned(FailingJob(), 4) == Walking([Entry(1, 7, false), Entry(4, 8, false)], 4.0)
  {
    var job := FailingJob();
    FailingSteps();
    PassedExact(job.changes, 6, 2);
    PassedExact(job.changes, 8, 2);
    assert Pruned(job, 3) == Walking([Entry(1, 7, false)], 4.0);
  }

  /**
   * A failed query is not made up for at the next pixel: the change is then older than the previous
   * pixel and counts as already drawn, so the old value stays on display.
   */
  lemma {:induction false} FailureLeavesStaleValue()
    ensures Sound(FailingJob())
    ensures FailingJob().access(FailingJob().stamps[3].time) == Ready
    ensures Pruned(FailingJob(), 4).Walking?
    ensures HeldAt(FailingJob(), 3) == Some(8)
    ensures ShownAt(Pruned(FailingJob(), 4).entries, 3) == Some(7)
  {
    FailingEnd();
    FailingJobSound();
    FailingShown();
    assert HeldAt(FailingJob(), 3) == Some(8) by { PassedExact(FailingJob().changes, 6, 2); }
    hide Pruned, Sound, ShownAt, HeldAt;
  }

  lemma {:induction false} FailingJobSound()
    ensures Sound(FailingJob())
  {
  }

  lemma {:induction false} FailingShown()
    ensures ShownAt([Entry(1, 7, false), Entry(4, 8, false)], 3) == Some(7)
  {
    assert [Entry(1, 7, false), Entry(4, 8, false)][..1] == [Entry(1, 7, false)];
  }
}
