/** The viewport as an exact, increasing linear map between pixels and time. */
module PixelTime {

  /** `left` is the time at pixel 0, `scale` the time per pixel. */
  datatype View = View(left: real, scale: real)

  /** A pixel and the time that is drawn there. */
  datatype Stamp = Stamp(pixel: int, time: nat)

  ghost predicate Sound(v: View) { v.scale > 0.0 }

  /** Exact time at a pixel. */
  function Exact(v: View, px: real): real {
    v.left + px * v.scale
  }

  /** The time stamp that is queried for a pixel; times before 0 count as 0. */
  function TimeAt(v: View, px: int): (t: nat) {
    var t := Exact(v, px as real).Floor;
    if t < 0 then 0 else t
  }

  function PixelAt(v: View, time: nat): real
    requires v.scale != 0.0
  {
    (time as real - v.left) / v.scale
  }

  /** A pixel is queried with the last whole time unit that has begun there. */
  lemma TimeAtExact(v: View, px: int)
    ensures Exact(v, px as real) >= 0.0 ==> TimeAt(v, px) as real <= Exact(v, px as real) < TimeAt(v, px) as real + 1.0
    ensures Exact(v, px as real) < 0.0 ==> TimeAt(v, px) == 0
  {
  }

  /** Both directions of the map undo each other; the left edge is pixel 0, and one pixel has `scale` time units. */
  lemma PixelAtExact(v: View, time: nat)
    requires Sound(v)
    ensures Exact(v, PixelAt(v, time)) == time as real
    ensures Exact(v, 0.0) == v.left && Exact(v, 1.0) == v.left + v.scale
    ensures PixelAt(v, time) >= 0.0 ==> PixelOf(v, time) as real <= PixelAt(v, time) < PixelOf(v, time) as real + 1.0
    ensures PixelAt(v, time) < 0.0 ==> PixelOf(v, time) == 0
  {
    assert PixelAt(v, time) * v.scale == time as real - v.left;
  }

  lemma {:induction false} ExactMonotone(v: View, a: real, b: real)
    requires Sound(v) && a <= b
    ensures Exact(v, a) <= Exact(v, b)
  {
    assert (b - a) * v.scale >= 0.0;
    assert b * v.scale - a * v.scale == (b - a) * v.scale;
  }

  lemma {:induction false} TimeAtMonotone(v: View, a: int, b: int)
    requires Sound(v) && a <= b
    ensures TimeAt(v, a) <= TimeAt(v, b)
  {
    ExactMonotone(v, a as real, b as real);
  }

  /** Once a pixel is queried later than `t0`, so are all pixels after it. */
  lemma {:induction false} LaterPixels(v: View, px: nat, t0: nat)
    requires Sound(v) && TimeAt(v, px) > t0
    ensures forall p: nat :: p >= px ==> TimeAt(v, p) > t0
  {
    forall p: nat | p >= px
      ensures TimeAt(v, p) > t0
    {
      TimeAtMonotone(v, px, p);
    }
  }

  /** The two directions of the map agree on which side of a pixel a time lies. */
  lemma {:induction false} PixelBefore(v: View, time: nat, px: real)
    requires Sound(v)
    ensures PixelAt(v, time) < px <==> time as real < Exact(v, px)
  {
    var d := time as real - v.left;
    var q := PixelAt(v, time);
    assert q * v.scale == d;
    if q < px { assert (px - q) * v.scale > 0.0; assert px * v.scale - q * v.scale == (px - q) * v.scale; }
    else { assert (q - px) * v.scale >= 0.0; assert q * v.scale - px * v.scale == (q - px) * v.scale; }
  }

  /** The whole pixel that a time falls into, never left of the viewport. */
  function PixelOf(v: View, time: nat): (px: nat)
    requires v.scale != 0.0
  {
    var px := PixelAt(v, time).Floor;
    if px < 0 then 0 else px
  }

  /** Pixels before the one a positive time falls into are queried strictly earlier. */
  lemma {:induction false} StrictlyBefore(v: View, time: nat, px: nat)
    requires Sound(v) && time > 0 && px < PixelOf(v, time)
    ensures TimeAt(v, px) < time
  {
    PixelBefore(v, time, (px + 1) as real);
    ExactStep(v, px as real);
  }

  lemma ExactStep(v: View, px: real)
    requires Sound(v)
    ensures Exact(v, px) < Exact(v, px + 1.0)
  {
    assert (px + 1.0) * v.scale == px * v.scale + v.scale;
  }

  /** A pixel up to the one a time falls into is not queried with a later time ... */
  lemma {:induction false} NotAfter(v: View, time: nat, px: nat)
    requires Sound(v) && 0 < px <= PixelOf(v, time)
    ensures TimeAt(v, px) <= time
  {
    PixelBefore(v, time, px as real);
  }

  /** ... and one behind it not with an earlier time. */
  lemma {:induction false} NotBefore(v: View, time: nat, px: nat)
    requires Sound(v) && PixelOf(v, time) < px
    ensures time <= TimeAt(v, px)
  {
    PixelBefore(v, time, px as real);
  }
}
