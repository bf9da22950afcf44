/** Packing values into bits, and bits into pixels. */
module FrameBuffer {
  import opened Powers

  // ----- numbers as bits, most significant first

  function BitOf(b: bool): nat { if b then 1 else 0 }

  /** The number that a sequence of bits spells. */
  function ValueOf(bits: seq<bool>): (v: nat)
    ensures v < Pow2(|bits|)
  {
    if bits == [] then 0 else 2 * ValueOf(bits[..|bits| - 1]) + BitOf(bits[|bits| - 1])
  }

  /** Bit `i` of a number, counted from the least significant. */
  function TestBit(v: nat, i: nat): bool {
    if i == 0 then v % 2 == 1 else TestBit(v / 2, i - 1)
  }

  /** The `width` lowest bits of a number. */
  function LowBits(v: nat, width: nat): (bits: seq<bool>)
    ensures |bits| == width
    ensures forall k :: 0 <= k < width ==> bits[k] == TestBit(v, width - 1 - k)
  {
    seq(width, k requires 0 <= k < width => TestBit(v, width - 1 - k))
  }

  /** Quotient and remainder are unique. */
  lemma DivisionUnique(x: nat, p: nat, q: nat, r: nat)
    requires x == p * q + r && r < p
    ensures x % p == r
  {
    var d := x / p - q;
    assert x == p * (x / p) + x % p;
    assert p * (x / p) == p * q + p * d;
    if d > 0 {
      MulAtLeast(p, d);
    } else if d < 0 {
      MulAtLeast(p, -d);
    }
  }

  lemma MulAtLeast(p: int, d: int)
    requires p > 0 && d > 0
    ensures p * d >= p
  {
    if d > 1 { MulAtLeast(p, d - 1); }
  }

  lemma ModDouble(v: nat, p: nat)
    requires p > 0
    ensures v % (2 * p) == 2 * (v / 2 % p) + v % 2
  {
    var h := v / 2;
    var q, r := h / p, h % p;
    assert h == p * q + r;
    assert 2 * (p * q) == (2 * p) * q;
    DivisionUnique(v, 2 * p, q, 2 * r + v % 2);
  }

  /** The low bits spell the value modulo the word size. */
  lemma {:induction false} LowBitsValue(v: nat, width: nat)
    ensures ValueOf(LowBits(v, width)) == v % Pow2(width)
    decreases width
  {
    if width > 0 {
      assert LowBits(v, width)[..width - 1] == LowBits(v / 2, width - 1);
      LowBitsValue(v / 2, width - 1);
      ModDouble(v, Pow2(width - 1));
    }
  }

  /** How many bits a number needs; 0 needs none. */
  function BitLength(v: nat): (n: nat)
    ensures v < Pow2(n)
    ensures n > 0 ==> Pow2(n - 1) <= v
  {
    if v == 0 then 0 else 1 + BitLength(v / 2)
  }

  lemma {:induction false} HighBitsZero(v: nat, i: nat)
    requires i >= BitLength(v)
    ensures !TestBit(v, i)
    decreases i
  {
    if i > 0 { HighBitsZero(v / 2, i - 1); }
  }

  // ----- appending values

  /** Exactly `width` bits are appended: the low bits of the value, zero-padded on the left. */
  method AppendNumber(value: nat, width: nat, before: seq<bool>) returns (out: seq<bool>)
    ensures |out| == |before| + width && out[..|before|] == before
    ensures out[|before|..] == LowBits(value, width)
    ensures ValueOf(out[|before|..]) == value % Pow2(width)
  {
    LowBitsValue(value, width);
    out := before;
    if width == 0 {
      assert out[|before|..] == LowBits(value, 0);
      return;
    }
    var valueBits := BitLength(value);
    ghost var low := LowBits(value, width);
    assert low[0..] == low;
    assert (before + low)[..|before|] == before && (before + low)[|before|..] == low;
    hide *;
    if valueBits >= width {
      out := AppendBits(value, width, width, out);
    } else {
      for pad := 0 to width - valueBits
        invariant out == before + LowBits(value, width)[..pad]
      {
        HighBitsZero(value, width - 1 - pad);
        Extend(LowBits(value, width), pad);
        out := out + [false];
      }
      out := AppendBits(value, width, valueBits, out);
      Glue(before, LowBits(value, width), width - valueBits);
    }
  }

  lemma SliceNext(bits: seq<bool>, a: nat, b: nat)
    requires a <= b < |bits|
    ensures bits[a..b + 1] == bits[a..b] + [bits[b]]
  {
  }

  /** The bits from number `count` down to, but not including, number `bit` of the lowest `width` ones. */
  function BitsBetween(value: nat, width: nat, count: nat, bit: nat): seq<bool>
    requires bit <= count <= width
  {
    LowBits(value, width)[width - count..width - bit]
  }

  lemma BitsBetweenNext(value: nat, width: nat, count: nat, bit: nat, before: seq<bool>)
    requires bit < count <= width
    ensures before + BitsBetween(value, width, count, bit)
         == before + BitsBetween(value, width, count, bit + 1) + [TestBit(value, bit)]
  {
    SliceNext(LowBits(value, width), width - count, width - bit - 1);
  }

  lemma BitsBetweenEnds(value: nat, width: nat, count: nat, before: seq<bool>)
    requires count <= width
    ensures before + BitsBetween(value, width, count, count) == before
    ensures BitsBetween(value, width, count, 0) == LowBits(value, width)[width - count..]
  {
  }

  /** Append the lowest `count` of the `width` bits, most significant first. */
  method AppendBits(value: nat, width: nat, count: nat, before: seq<bool>) returns (out: seq<bool>)
    requires count <= width
    ensures out == before + LowBits(value, width)[width - count..]
  {
    out := before;
    BitsBetweenEnds(value, width, count, before);
    hide *;
    var bit := count;
    while bit > 0
      invariant 0 <= bit <= count && out == before + BitsBetween(value, width, count, bit)
    {
      bit := bit - 1;
      BitsBetweenNext(value, width, count, bit, before);
      out := out + [TestBit(value, bit)];
    }
  }

  lemma Glue(before: seq<bool>, bits: seq<bool>, k: nat)
    requires k <= |bits|
    ensures before + bits[..k] + bits[k..] == before + bits
  {
  }

  lemma Extend(s: seq<bool>, k: nat)
    requires k < |s|
    ensures s[..k + 1] == s[..k] + [s[k]]
  {
  }

  /** The bits of a text of digits; everything that is not '1' counts as 0. */
  function DigitBits(src: string): (bits: seq<bool>)
    ensures |bits| == |src| && forall k :: 0 <= k < |src| ==> bits[k] == (src[k] == '1')
  {
    seq(|src|, k requires 0 <= k < |src| => src[k] == '1')
  }

  function Zeros(n: nat): (z: seq<bool>)
    ensures |z| == n && forall k :: 0 <= k < n ==> !z[k]
  {
    seq(n, _ => false)
  }

  lemma {:induction false} ValueConcat(a: seq<bool>, b: seq<bool>)
    ensures ValueOf(a + b) == Pow2(|b|) * ValueOf(a) + ValueOf(b)
    decreases |b|
  {
    if b == [] {
      assert a + b == a;
    } else {
      var c := b[..|b| - 1];
      ValueConcat(a, c);
      assert (a + b)[..|a + b| - 1] == a + c;
      DoubleSum(Pow2(|c|), ValueOf(a), ValueOf(c));
      hide ValueOf;
    }
  }

  lemma DoubleSum(p: nat, v: nat, w: nat)
    ensures 2 * (p * v + w) == (2 * p) * v + 2 * w
  {
  }

  lemma {:induction false} ZerosValue(n: nat)
    ensures ValueOf(Zeros(n)) == 0
  {
    if n > 0 {
      ZerosValue(n - 1);
      assert Zeros(n)[..n - 1] == Zeros(n - 1);
    }
  }

  lemma {:induction false} PaddedValue(n: nat, bits: seq<bool>)
    ensures ValueOf(Zeros(n) + bits) == ValueOf(bits)
  {
    ZerosValue(n);
    ValueConcat(Zeros(n), bits);
  }

  /** The last `width` digits spell the text's value modulo the word size. */
  lemma {:induction false} SuffixValue(bits: seq<bool>, width: nat)
    requires width <= |bits|
    ensures ValueOf(bits[|bits| - width..]) == ValueOf(bits) % Pow2(width)
  {
    var head, tail := bits[..|bits| - width], bits[|bits| - width..];
    assert bits == head + tail;
    ValueConcat(head, tail);
    DivisionUnique(ValueOf(bits), Pow2(width), ValueOf(head), ValueOf(tail));
  }

  lemma {:induction false} ShortValue(bits: seq<bool>, width: nat)
    requires |bits| <= width
    ensures ValueOf(bits) == ValueOf(bits) % Pow2(width)
  {
    PaddedValue(width - |bits|, bits);
    assert ValueOf(Zeros(width - |bits|) + bits) < Pow2(width);
    DivisionUnique(ValueOf(bits), Pow2(width), 0, ValueOf(bits));
  }

  function Suffix(src: string, width: nat): (t: string)
    ensures |t| <= width
  {
    src[(if |src| < width then 0 else |src| - width)..]
  }

  lemma {:induction false} SuffixSpells(src: string, width: nat)
    ensures ValueOf(Zeros(width - |Suffix(src, width)|) + DigitBits(Suffix(src, width)))
         == ValueOf(DigitBits(src)) % Pow2(width)
  {
    var digits, t := DigitBits(src), Suffix(src, width);
    PaddedValue(width - |t|, DigitBits(t));
    assert DigitBits(t) == digits[|src| - |t|..];
    hide ValueOf, Pow2;
    if |src| < width {
      ShortValue(digits, width);
    } else {
      SuffixValue(digits, width);
    }
  }

  /** Exactly `width` bits again: the last digits of the text, zero-padded on the left. */
  method AppendDigits(src: string, width: nat, before: seq<bool>) returns (out: seq<bool>)
    ensures |out| == |before| + width && out[..|before|] == before
    ensures ValueOf(out[|before|..]) == ValueOf(DigitBits(src)) % Pow2(width)
  {
    SuffixSpells(src, width);
    out := before;
    var suffix := Suffix(src, width);
    ghost var padded := Zeros(width - |suffix|) + DigitBits(suffix);
    hide ValueOf, Pow2, Suffix;
    if width == 0 {
      assert out[|before|..] == padded;
      return;
    }
    for pad := |suffix| to width
      invariant out == before + Zeros(pad - |suffix|)
    {
      out := out + [false];
      assert Zeros(pad - |suffix|) + [false] == Zeros(pad + 1 - |suffix|);
    }
    out := out + DigitBits(suffix);
    assert out == before + padded;
    assert out[|before|..] == padded;
  }

  // ----- reading channels

  /** `len` bits from `start`, with zeros where the bits run out. */
  function Window(bits: seq<bool>, start: nat, len: nat): (w: seq<bool>)
    ensures |w| == len
    ensures forall k :: 0 <= k < len ==> w[k] == (start + k < |bits| && bits[start + k])
  {
    seq(len, k requires 0 <= k < len => start + k < |bits| && bits[start + k])
  }

  /** A 16-bit accumulator keeps the low 16 bits of the number spelled. */
  const WORD: nat := 0x1_0000

  lemma ShiftInWraps(v: nat, bit: nat)
    requires bit <= 1
    ensures (2 * v + bit) % WORD == (2 * (v % WORD) % WORD) + bit
  {
    var q, r := v / WORD, v % WORD;
    var carry := if 2 * r < WORD then 0 else 1;
    assert 2 * r == WORD * carry + (2 * r - WORD * carry);
    DivisionUnique(2 * r, WORD, carry, 2 * r - WORD * carry);
    DivisionUnique(2 * v + bit, WORD, 2 * q + carry, 2 * r - WORD * carry + bit);
  }

  method BitsToU16(bits: seq<bool>) returns (value: nat)
    ensures value == ValueOf(bits) % WORD
  {
    value := 0;
    for i := 0 to |bits|
      invariant value == ValueOf(bits[..i]) % WORD
    {
      ShiftInWraps(ValueOf(bits[..i]), BitOf(bits[i]));
      assert bits[..i + 1][..i] == bits[..i];
      value := value * 2 % WORD + BitOf(bits[i]);
    }
    assert bits[..|bits|] == bits;
  }

  method BitsToU16Padded(bits: seq<bool>, start: nat, len: nat) returns (value: nat)
    ensures value == ValueOf(Window(bits, start, len)) % WORD
  {
    value := 0;
    for offset := 0 to len
      invariant value == ValueOf(Window(bits, start, offset)) % WORD
    {
      var bit := start + offset < |bits| && bits[start + offset];
      ShiftInWraps(ValueOf(Window(bits, start, offset)), BitOf(bit));
      assert Window(bits, start, offset + 1)[..offset] == Window(bits, start, offset);
      value := value * 2 % WORD + BitOf(bit);
    }
  }

  // ----- scaling

  function ScaleToU8(value: nat, bits: nat): nat
    requires bits < 16
  {
    if bits == 0 then 0
    else
      MaxPositive(bits);
      value * 255 / (Pow2(bits) - 1) % 256
  }

  lemma {:induction false} MaxPositive(bits: nat)
    requires bits > 0
    ensures Pow2(bits) > 1
  {
    assert Pow2(bits) == 2 * Pow2(bits - 1);
  }

  lemma {:induction false} QuotientAtLeast(x: nat, m: nat, q: nat)
    requires m > 0 && m * q <= x
    ensures x / m >= q
  {
    var d := q - x / m;
    assert x == m * (x / m) + x % m;
    assert m * q == m * (x / m) + m * d;
    if d > 0 { MulAtLeast(m, d); }
  }

  lemma QuotientAtMost(x: nat, m: nat, q: nat)
    requires m > 0 && x <= m * q
    ensures x / m <= q
  {
    var d := x / m - q;
    assert x == m * (x / m) + x % m;
    assert m * (x / m) == m * q + m * d;
    if d > 0 { MulAtLeast(m, d); }
  }

  /** No channel value is ever cut off by the conversion to a byte. */
  lemma {:induction false} ScaleFits(value: nat, bits: nat)
    requires 0 < bits < 16 && value < Pow2(bits)
    ensures value * 255 / (Pow2(bits) - 1) <= 255
    ensures ScaleToU8(value, bits) == value * 255 / (Pow2(bits) - 1)
  {
    MaxPositive(bits);
    ByteQuotient(value, Pow2(bits) - 1);
    hide Pow2;
  }

  lemma ByteQuotient(v: nat, m: nat)
    requires m > 0 && v <= m
    ensures v * 255 / m <= 255 && v * 255 / m % 256 == v * 255 / m
  {
    QuotientAtMost(v * 255, m, 255);
  }

  /** The scaled value is the exact one rounded down; a channel without bits is 0. */
  lemma {:induction false} ScaleExact(value: nat, bits: nat)
    requires bits < 16 && value < Pow2(bits)
    ensures bits == 0 ==> ScaleToU8(value, bits) == 0
    ensures bits > 0 ==> var max, q := Pow2(bits) - 1, ScaleToU8(value, bits); q * max <= value * 255 < (q + 1) * max
  {
    if bits > 0 {
      MaxPositive(bits);
      ScaleFits(value, bits);
      QuotientBounds(value * 255, Pow2(bits) - 1);
      hide Pow2, ScaleToU8;
    }
  }

  lemma QuotientBounds(x: nat, m: nat)
    requires m > 0
    ensures x / m * m <= x < (x / m + 1) * m
  {
    assert x == m * (x / m) + x % m;
    assert (x / m + 1) * m == m * (x / m) + m;
  }

  lemma {:induction false} ScaleEnds(bits: nat)
    requires 0 < bits < 16
    ensures ScaleToU8(0, bits) == 0 && ScaleToU8(Pow2(bits) - 1, bits) == 255
  {
    MaxPositive(bits);
    ScaleFits(0, bits);
    var max := Pow2(bits) - 1;
    QuotientAtMost(max * 255, max, 255);
    QuotientAtLeast(max * 255, max, 255);
  }

  lemma {:induction false} ScaleIncreases(bits: nat, v: nat, w: nat)
    requires 0 < bits <= 8 && v < w < Pow2(bits)
    ensures ScaleToU8(v, bits) < ScaleToU8(w, bits)
  {
    MaxPositive(bits);
    ScaleFits(v, bits);
    ScaleFits(w, bits);
    Pow2Monotone(bits, 8);
    assert Pow2(8) == 256 by { assert Pow2(4) == 16; }
    hide Pow2, ScaleToU8;
    StrictQuotient(v * 255, w * 255, Pow2(bits) - 1);
  }

  lemma StrictQuotient(x: nat, y: nat, m: nat)
    requires m > 0 && x + m <= y
    ensures x / m < y / m
  {
    var q := x / m;
    assert m * q <= x;
    assert m * (q + 1) == m * q + m;
    QuotientAtLeast(y, m, q + 1);
  }

  ghost predicate Distinguishes(bits: nat)
    requires bits < 16
  {
    forall v: nat, w: nat :: v < w < Pow2(bits) ==> ScaleToU8(v, bits) < ScaleToU8(w, bits)
  }

  /** Scaling keeps channel values apart exactly up to eight bits. */
  lemma {:induction false} ScaleDistinguishesExactly(bits: nat)
    requires 0 < bits < 16
    ensures Distinguishes(bits) <==> bits <= 8
  {
    if bits <= 8 {
      forall v: nat, w: nat | v < w < Pow2(bits)
        ensures ScaleToU8(v, bits) < ScaleToU8(w, bits)
      {
        ScaleIncreases(bits, v, w);
      }
    } else {
      FirstTwoCollide(bits);
      assert 0 < 1 < Pow2(bits) && ScaleToU8(0, bits) == ScaleToU8(1, bits);
    }
  }

  lemma {:induction false} FirstTwoCollide(bits: nat)
    requires 8 < bits < 16
    ensures 1 < Pow2(bits) && ScaleToU8(0, bits) == ScaleToU8(1, bits)
  {
    Pow2Monotone(9, bits);
    assert Pow2(9) == 512 by { assert Pow2(5) == 32; }
    ScaleEnds(bits);
    SmallQuotient(255, Pow2(bits) - 1);
    hide Pow2;
  }

  lemma SmallQuotient(x: nat, m: nat)
    requires x < m
    ensures x / m == 0
  {
  }

  // ----- decoding

  datatype Color = Rgb(red: nat, green: nat, blue: nat)

  function Channel(bits: seq<bool>, start: nat, len: nat): nat
    requires len < 16
  {
    ScaleToU8(ValueOf(Window(bits, start, len)), len)
  }

  function GrayPixel(bits: seq<bool>, start: nat, depth: nat): Color
    requires depth < 16
  {
    var gray := Channel(bits, start, depth);
    Rgb(gray, gray, gray)
  }

  function RgbPixel(bits: seq<bool>, start: nat, r: nat, g: nat, b: nat): Color
    requires r < 16 && g < 16 && b < 16
  {
    Rgb(Channel(bits, start, r), Channel(bits, start + r, g), Channel(bits, start + r + g, b))
  }

  function AtLeastOne(n: nat): (m: nat)
    ensures m > 0 && (n > 0 ==> m == n) && (n == 0 ==> m == 1)
  {
    if n == 0 then 1 else n
  }

  /** Where group `k` starts. */
  function Offset(k: nat, step: nat): nat { k * step }

  /** Enough pixels to use every bit, and not one more. */
  ghost predicate Covers(pixels: nat, step: nat, bits: nat)
  {
    bits <= Offset(pixels, step) && (pixels > 0 ==> Offset(pixels - 1, step) < bits)
  }

  lemma {:induction false} ChannelValue(bits: seq<bool>, start: nat, len: nat)
    requires len < 16
    ensures ValueOf(Window(bits, start, len)) % WORD == ValueOf(Window(bits, start, len))
  {
    Pow2Monotone(len, 16);
    assert Pow2(16) == WORD by { assert Pow2(8) == 256 by { assert Pow2(4) == 16; } assert Pow2(12) == 4096; }
    DivisionUnique(ValueOf(Window(bits, start, len)), WORD, 0, ValueOf(Window(bits, start, len)));
  }

  function FullGroups(len: nat, step: nat): nat
    requires step > 0
  {
    len / step
  }

  predicate HasTail(len: nat, step: nat)
    requires step > 0
  {
    len % step != 0
  }

  /** A group that starts before the last full one ends lies inside the bits. */
  lemma GroupInside(k: nat, full: nat, step: nat, len: nat)
    requires step > 0 && full == FullGroups(len, step) && Offset(k, step) < Offset(full, step)
    ensures k < full && Offset(k + 1, step) == Offset(k, step) + step <= len
  {
    assert len == step * full + len % step;
    assert (k + 1) * step == k * step + step;
    var d := full - k - 1;
    assert full * step == (k + 1) * step + d * step;
    assert d * step == -(step * -d);
    assert d >= 0 ==> d * step >= 0;
    if d < 0 { MulAtLeast(step, -d); }
  }

  lemma AllGroups(k: nat, full: nat, step: nat)
    requires step > 0 && k <= full && Offset(k, step) >= Offset(full, step)
    ensures k == full
  {
    assert full * step == k * step + (full - k) * step;
    if k < full { MulAtLeast(step, full - k); }
  }

  lemma PixelsCover(len: nat, step: nat, full: nat)
    requires step > 0 && full == FullGroups(len, step)
    ensures Covers(if HasTail(len, step) then full + 1 else full, step, len)
  {
    var r := len % step;
    assert len == step * full + r;
    assert (full + 1) * step == step * full + step;
    assert (full - 1) * step == step * full - step;
  }

  /** One channel of a full pixel; with no channel at all the pixel still takes one bit. */
  method ReadChannel(bits: seq<bool>, start: nat, end: nat, len: nat) returns (c: nat)
    requires len < 16 && start <= end <= |bits|
    requires len > 0 ==> end == start + len
    ensures c == Channel(bits, start, len)
  {
    var value := BitsToU16(bits[start..end]);
    if len > 0 {
      assert bits[start..end] == Window(bits, start, len);
      ChannelValue(bits, start, len);
    }
    c := ScaleToU8(value, len);
  }

  method ReadChannelPadded(bits: seq<bool>, start: nat, len: nat) returns (c: nat)
    requires len < 16
    ensures c == Channel(bits, start, len)
  {
    var value := BitsToU16Padded(bits, start, len);
    ChannelValue(bits, start, len);
    c := ScaleToU8(value, len);
  }

  method DecodeGrayscale(bits: seq<bool>, grayscaleBits: nat) returns (out: seq<Color>)
    requires grayscaleBits < 16
    ensures Covers(|out|, AtLeastOne(grayscaleBits), |bits|)
    ensures forall k :: 0 <= k < |out| ==>
      out[k] == GrayPixel(bits, Offset(k, AtLeastOne(grayscaleBits)), AtLeastOne(grayscaleBits))
    ensures GraysBack(bits, out, grayscaleBits)
  {
    hide GraysBack;
    var step := AtLeastOne(grayscaleBits);
    var full := FullGroups(|bits|, step);
    var hasTail := HasTail(|bits|, step);
    out := [];
    assert Offset(0, step) == 0;
    hide Channel, Covers, Offset, FullGroups, HasTail;
    var start := 0;
    while start < Offset(full, step)
      invariant start == Offset(|out|, step) && |out| <= full
      invariant forall k :: 0 <= k < |out| ==> out[k] == GrayPixel(bits, Offset(k, step), step)
    {
      GroupInside(|out|, full, step, |bits|);
      var gray := ReadChannel(bits, start, start + step, step);
      out := out + [Rgb(gray, gray, gray)];
      start := start + step;
    }
    AllGroups(|out|, full, step);
    PixelsCover(|bits|, step, full);
    if hasTail {
      start := Offset(full, step);
      var gray := ReadChannelPadded(bits, start, step);
      out := out + [Rgb(gray, gray, gray)];
    }
    hide GrayPixel;
    GraysComeBack(bits, out, grayscaleBits);
  }

  ghost predicate RgbPixels(bits: seq<bool>, out: seq<Color>, step: nat, r: nat, g: nat, b: nat)
    requires r < 16 && g < 16 && b < 16
  {
    forall k :: 0 <= k < |out| ==> out[k] == RgbPixel(bits, Offset(k, step), r, g, b)
  }

  lemma OneMorePixel(bits: seq<bool>, out: seq<Color>, color: Color, step: nat, r: nat, g: nat, b: nat)
    requires r < 16 && g < 16 && b < 16
    requires RgbPixels(bits, out, step, r, g, b)
    requires color == RgbPixel(bits, Offset(|out|, step), r, g, b)
    ensures RgbPixels(bits, out + [color], step, r, g, b)
  {
    hide RgbPixel, Offset;
  }

  /** The three channels of a full pixel. */
  method ReadPixel(bits: seq<bool>, start: nat, end: nat, r: nat, g: nat, b: nat) returns (color: Color)
    requires r < 16 && g < 16 && b < 16
    requires start + AtLeastOne(r + g + b) == end <= |bits|
    ensures color == RgbPixel(bits, start, r, g, b)
  {
    var red := ReadChannel(bits, start, start + r, r);
    var green := ReadChannel(bits, start + r, start + r + g, g);
    var blue := ReadChannel(bits, start + r + g, end, b);
    color := Rgb(red, green, blue);
    hide Channel;
  }

  method ReadPixelPadded(bits: seq<bool>, start: nat, r: nat, g: nat, b: nat) returns (color: Color)
    requires r < 16 && g < 16 && b < 16
    ensures color == RgbPixel(bits, start, r, g, b)
  {
    var red := ReadChannelPadded(bits, start, r);
    var green := ReadChannelPadded(bits, start + r, g);
    var blue := ReadChannelPadded(bits, start + r + g, b);
    color := Rgb(red, green, blue);
    hide Channel;
  }

  method DecodeRgb(bits: seq<bool>, rBits: nat, gBits: nat, bBits: nat) returns (out: seq<Color>)
    requires rBits < 16 && gBits < 16 && bBits < 16
    ensures Covers(|out|, AtLeastOne(rBits + gBits + bBits), |bits|)
    ensures RgbPixels(bits, out, AtLeastOne(rBits + gBits + bBits), rBits, gBits, bBits)
    ensures ColorsBack(bits, out, rBits, gBits, bBits)
  {
    var step := AtLeastOne(rBits + gBits + bBits);
    var full := FullGroups(|bits|, step);
    var hasTail := HasTail(|bits|, step);
    out := [];
    assert Offset(0, step) == 0;
    assert step == AtLeastOne(rBits + gBits + bBits);
    assert RgbPixels(bits, out, step, rBits, gBits, bBits);
    hide RgbPixel, RgbPixels, Covers, Offset, FullGroups, HasTail, AtLeastOne, ColorsBack;
    var start := 0;
    while start < Offset(full, step)
      invariant start == Offset(|out|, step) && |out| <= full
      invariant RgbPixels(bits, out, step, rBits, gBits, bBits)
    {
      GroupInside(|out|, full, step, |bits|);
      var color := ReadPixel(bits, start, start + step, rBits, gBits, bBits);
      OneMorePixel(bits, out, color, step, rBits, gBits, bBits);
      out := out + [color];
      start := start + step;
    }
    AllGroups(|out|, full, step);
    PixelsCover(|bits|, step, full);
    if hasTail {
      start := Offset(full, step);
      var color := ReadPixelPadded(bits, start, rBits, gBits, bBits);
      OneMorePixel(bits, out, color, step, rBits, gBits, bBits);
      out := out + [color];
    }
    ColorsComeBack(bits, out, rBits, gBits, bBits);
  }

  // ----- packing, then decoding

  /** Words of equal width, one after the other. */
  function Pack(values: seq<nat>, width: nat): (bits: seq<bool>)
    ensures |bits| == Offset(|values|, width)
  {
    if values == [] then []
    else
      NextOffset(|values| - 1, width);
      Pack(values[..|values| - 1], width) + LowBits(values[|values| - 1], width)
  }

  lemma NextOffset(k: nat, width: nat)
    ensures Offset(0, width) == 0 && Offset(k + 1, width) == Offset(k, width) + width
  {
  }

  lemma {:induction false} WordsApart(k: nat, n: nat, width: nat)
    requires k < n
    ensures Offset(k, width) + width <= Offset(n, width)
    decreases n
  {
    NextOffset(n - 1, width);
    hide Offset;
    if k < n - 1 { WordsApart(k, n - 1, width); }
  }

  lemma WindowOfLeft(left: seq<bool>, right: seq<bool>, start: nat, len: nat)
    requires start + len <= |left|
    ensures Window(left + right, start, len) == Window(left, start, len)
  {
  }

  lemma WindowOfRight(left: seq<bool>, right: seq<bool>)
    ensures Window(left + right, |left|, |right|) == right
  {
  }

  lemma {:induction false} PackedWord(values: seq<nat>, width: nat, k: nat)
    requires k < |values|
    ensures Window(Pack(values, width), Offset(k, width), width) == LowBits(values[k], width)
    decreases |values|
  {
    var n := |values| - 1;
    var front, last := Pack(values[..n], width), LowBits(values[n], width);
    assert Pack(values, width) == front + last;
    hide *;
    if k < n {
      PackedWord(values[..n], width, k);
      WordsApart(k, n, width);
      WindowOfLeft(front, last, Offset(k, width), width);
    } else {
      WindowOfRight(front, last);
    }
  }

  /** Packing one word per pixel and decoding gives back each word's scaled low bits. */
  lemma {:induction false} DecodePacked(values: seq<nat>, depth: nat, k: nat)
    requires 0 < depth < 16 && k < |values|
    ensures Covers(|values|, depth, |Pack(values, depth)|)
    ensures Channel(Pack(values, depth), Offset(k, depth), depth) == ScaleToU8(values[k] % Pow2(depth), depth)
  {
    PackedWord(values, depth, k);
    LowBitsValue(values[k], depth);
  }

  /** As many pixels as words were packed, if less than one of them is cut off. */
  lemma {:induction false} CoversWords(pixels: nat, step: nat, words: nat, bits: nat)
    requires step > 0 && Covers(pixels, step, bits) && bits <= Offset(words, step) < bits + step
    ensures pixels == words
  {
    if pixels < words { WordsApart(pixels, words, step); }
    if words < pixels - 1 { WordsApart(words, pixels - 1, step); }
    hide Pow2;
  }

  /** Bits behind the end read as zeros. */
  lemma {:induction false} PaddedChannel(bits: seq<bool>, pad: nat, start: nat, len: nat)
    requires len < 16
    ensures Channel(bits + Zeros(pad), start, len) == Channel(bits, start, len)
  {
    hide ScaleToU8, ValueOf;
    assert Window(bits + Zeros(pad), start, len) == Window(bits, start, len);
  }

  /** If the bits, with zeros behind them, are packed words, pixel `k` is the gray of word `k`. */
  ghost predicate GraysBack(bits: seq<bool>, out: seq<Color>, depth: nat)
    requires depth < 16
  {
    forall values: seq<nat>, pad: nat, k: nat ::
      pad < depth && bits + Zeros(pad) == Pack(values, depth) && k < |values| ==>
        |out| == |values| && GrayIs(out[k], values[k], depth)
  }

  ghost predicate GrayIs(color: Color, value: nat, depth: nat)
    requires depth < 16
  {
    color.red == color.green == color.blue == ScaleToU8(value % Pow2(depth), depth)
  }

  lemma {:induction false} GraysComeBack(bits: seq<bool>, out: seq<Color>, depth: nat)
    requires depth < 16 && Covers(|out|, AtLeastOne(depth), |bits|)
    requires forall k :: 0 <= k < |out| ==>
      out[k] == GrayPixel(bits, Offset(k, AtLeastOne(depth)), AtLeastOne(depth))
    ensures GraysBack(bits, out, depth)
  {
    forall values: seq<nat>, pad: nat, k: nat |
        pad < depth && bits + Zeros(pad) == Pack(values, depth) && k < |values|
      ensures |out| == |values| && GrayIs(out[k], values[k], depth)
    {
      CoversWords(|out|, depth, |values|, |bits|);
      assert out[k] == GrayPixel(bits, Offset(k, depth), depth);
      PaddedChannel(bits, pad, Offset(k, depth), depth);
      DecodePacked(values, depth, k);
      hide Pack, Channel, ScaleToU8, Offset, Covers;
    }
  }

  // ----- packing colors, then decoding

  /** Red, green and blue words of the given widths, color after color. */
  function PackColors(words: seq<(nat, nat, nat)>, r: nat, g: nat, b: nat): (bits: seq<bool>)
    ensures |bits| == Offset(|words|, r + g + b)
  {
    if words == [] then []
    else
      var (red, green, blue) := words[|words| - 1];
      NextOffset(|words| - 1, r + g + b);
      PackColors(words[..|words| - 1], r, g, b) + (LowBits(red, r) + LowBits(green, g) + LowBits(blue, b))
  }

  lemma WindowOfThree(left: seq<bool>, x: seq<bool>, y: seq<bool>, z: seq<bool>)
    ensures Window(left + (x + y + z), |left|, |x|) == x
    ensures Window(left + (x + y + z), |left| + |x|, |y|) == y
    ensures Window(left + (x + y + z), |left| + |x| + |y|, |z|) == z
  {
  }

  lemma {:induction false} PackedColor(words: seq<(nat, nat, nat)>, r: nat, g: nat, b: nat, k: nat)
    requires k < |words|
    ensures var bits, start := PackColors(words, r, g, b), Offset(k, r + g + b);
      && Window(bits, start, r) == LowBits(words[k].0, r)
      && Window(bits, start + r, g) == LowBits(words[k].1, g)
      && Window(bits, start + r + g, b) == LowBits(words[k].2, b)
    decreases |words|
  {
    var n := |words| - 1;
    var front, last := PackColors(words[..n], r, g, b),
      LowBits(words[n].0, r) + LowBits(words[n].1, g) + LowBits(words[n].2, b);
    assert PackColors(words, r, g, b) == front + last;
    hide *;
    if k < n {
      PackedColor(words[..n], r, g, b, k);
      WordsApart(k, n, r + g + b);
      WindowOfLeft(front, last, Offset(k, r + g + b), r);
      WindowOfLeft(front, last, Offset(k, r + g + b) + r, g);
      WindowOfLeft(front, last, Offset(k, r + g + b) + r + g, b);
    } else {
      WindowOfThree(front, LowBits(words[n].0, r), LowBits(words[n].1, g), LowBits(words[n].2, b));
    }
  }

  /** If the bits, with zeros behind them, are packed colors, pixel `k` has color `k`, channel by channel. */
  ghost predicate ColorsBack(bits: seq<bool>, out: seq<Color>, r: nat, g: nat, b: nat)
    requires r < 16 && g < 16 && b < 16
  {
    forall words: seq<(nat, nat, nat)>, pad: nat, k: nat ::
      pad < r + g + b && bits + Zeros(pad) == PackColors(words, r, g, b) && k < |words| ==>
        |out| == |words| && ColorIs(out[k], words[k], r, g, b)
  }

  ghost predicate ColorIs(color: Color, word: (nat, nat, nat), r: nat, g: nat, b: nat)
    requires r < 16 && g < 16 && b < 16
  {
    && color.red == ScaleToU8(word.0 % Pow2(r), r)
    && color.green == ScaleToU8(word.1 % Pow2(g), g)
    && color.blue == ScaleToU8(word.2 % Pow2(b), b)
  }

  lemma {:induction false} ColorBack(words: seq<(nat, nat, nat)>, out: seq<Color>, r: nat, g: nat, b: nat, k: nat)
    requires r < 16 && g < 16 && b < 16 && k < |words| && k < |out|
    requires RgbPixels(PackColors(words, r, g, b), out, r + g + b, r, g, b)
    ensures ColorIs(out[k], words[k], r, g, b)
  {
    hide *;
    var bits, start := PackColors(words, r, g, b), Offset(k, r + g + b);
    PackedColor(words, r, g, b, k);
    ChannelBack(bits, start, words[k].0, r);
    ChannelBack(bits, start + r, words[k].1, g);
    ChannelBack(bits, start + r + g, words[k].2, b);
    PixelAt(bits, out, r, g, b, k);
    ColorFrom(out[k], words[k], r, g, b);
  }

  lemma ChannelBack(bits: seq<bool>, start: nat, word: nat, len: nat)
    requires len < 16 && Window(bits, start, len) == LowBits(word, len)
    ensures Channel(bits, start, len) == ScaleToU8(word % Pow2(len), len)
  {
    LowBitsValue(word, len);
    hide ScaleToU8, ValueOf, LowBits, Window, Pow2;
  }

  lemma PixelAt(bits: seq<bool>, out: seq<Color>, r: nat, g: nat, b: nat, k: nat)
    requires r < 16 && g < 16 && b < 16 && k < |out| && RgbPixels(bits, out, r + g + b, r, g, b)
    ensures var start := Offset(k, r + g + b);
      out[k] == Rgb(Channel(bits, start, r), Channel(bits, start + r, g), Channel(bits, start + r + g, b))
  {
    hide Channel, Offset;
  }

  lemma ColorFrom(color: Color, word: (nat, nat, nat), r: nat, g: nat, b: nat)
    requires r < 16 && g < 16 && b < 16
    requires color == Rgb(ScaleToU8(word.0 % Pow2(r), r), ScaleToU8(word.1 % Pow2(g), g),
        ScaleToU8(word.2 % Pow2(b), b))
    ensures ColorIs(color, word, r, g, b)
  {
    hide ScaleToU8, Pow2;
  }

  lemma PaddedPixel(bits: seq<bool>, pad: nat, start: nat, r: nat, g: nat, b: nat)
    requires r < 16 && g < 16 && b < 16
    ensures RgbPixel(bits + Zeros(pad), start, r, g, b) == RgbPixel(bits, start, r, g, b)
  {
    hide Channel, Zeros;
    PaddedChannel(bits, pad, start, r);
    PaddedChannel(bits, pad, start + r, g);
    PaddedChannel(bits, pad, start + r + g, b);
  }

  lemma {:induction false} PaddedPixels(bits: seq<bool>, pad: nat, out: seq<Color>, step: nat, r: nat, g: nat, b: nat)
    requires r < 16 && g < 16 && b < 16 && RgbPixels(bits, out, step, r, g, b)
    ensures RgbPixels(bits + Zeros(pad), out, step, r, g, b)
  {
    forall k | 0 <= k < |out|
      ensures out[k] == RgbPixel(bits + Zeros(pad), Offset(k, step), r, g, b)
    {
      hide RgbPixel, Offset, Zeros;
      PaddedPixel(bits, pad, Offset(k, step), r, g, b);
    }
  }

  /** Packing colors and decoding gives back each channel's scaled low bits, in their places. */
  lemma {:induction false} ColorsComeBack(bits: seq<bool>, out: seq<Color>, r: nat, g: nat, b: nat)
    requires r < 16 && g < 16 && b < 16 && Covers(|out|, AtLeastOne(r + g + b), |bits|)
    requires RgbPixels(bits, out, AtLeastOne(r + g + b), r, g, b)
    ensures ColorsBack(bits, out, r, g, b)
  {
    forall words: seq<(nat, nat, nat)>, pad: nat, k: nat |
        pad < r + g + b && bits + Zeros(pad) == PackColors(words, r, g, b) && k < |words|
      ensures |out| == |words| && ColorIs(out[k], words[k], r, g, b)
    {
      hide RgbPixels, PackColors, ColorIs, Covers, Offset, AtLeastOne;
      CoversWords(|out|, r + g + b, |words|, |bits|);
      PaddedPixels(bits, pad, out, r + g + b, r, g, b);
      ColorBack(words, out, r, g, b, k);
    }
  }
}
