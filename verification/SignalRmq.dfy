/**
 Range minimum and maximum over the samples of an analog signal: summaries of blocks of samples, a
 sparse table over the blocks, and binary search on the time stamps.
 */
module SignalRmq {
  import opened Options
  import opened Powers

  // ----- samples

  /** A 64-bit float: an exact finite number, or one of the bit patterns that are not. */
  datatype Value = Finite(v: real) | NonFinite(bits: nat)

  const NAN_UNDEF: Value := NonFinite(0x7FF8_0000_0000_0000)
  const INFINITY: Value := NonFinite(0x7FF0_0000_0000_0000)
  const NEG_INFINITY: Value := NonFinite(0xFFF0_0000_0000_0000)

  /** A minimum or maximum; the infinities are the results for no finite sample at all. */
  datatype Bound = NegInfinity | At(v: real) | PosInfinity

  predicate Below(a: Bound, b: Bound) {
    a == b || a.NegInfinity? || b.PosInfinity? || (a.At? && b.At? && a.v <= b.v)
  }

  function Least(a: Bound, b: Bound): Bound { if Below(a, b) then a else b }

  function Greatest(a: Bound, b: Bound): Bound { if Below(a, b) then b else a }

  datatype MinMax = MinMax(min: Bound, max: Bound, hasNonFinite: bool)

  function Single(value: Value): MinMax {
    match value
    case Finite(v) => MinMax(At(v), At(v), false)
    case NonFinite(_) => MinMax(PosInfinity, NegInfinity, true)
  }

  function Combine(a: MinMax, b: MinMax): MinMax {
    MinMax(Least(a.min, b.min), Greatest(a.max, b.max), a.hasNonFinite || b.hasNonFinite)
  }

  // ----- what a summary means

  /** `m` says exactly what can be said about the samples vs[lo..hi]. */
  ghost predicate Summarises(m: MinMax, vs: seq<Value>, lo: int, hi: int) {
    && 0 <= lo < hi <= |vs|
    && (m.hasNonFinite <==> exists i :: lo <= i < hi && vs[i].NonFinite?)
    && (forall i :: lo <= i < hi && vs[i].Finite? ==> Below(m.min, At(vs[i].v)) && Below(At(vs[i].v), m.max))
    && (m.min == PosInfinity || exists i :: lo <= i < hi && vs[i].Finite? && m.min == At(vs[i].v))
    && (m.max == NegInfinity || exists i :: lo <= i < hi && vs[i].Finite? && m.max == At(vs[i].v))
  }

  /** In numbers: the bounds are the least and the greatest finite sample, and infinite only where there is none. */
  lemma SummaryInNumbers(m: MinMax, vs: seq<Value>, lo: int, hi: int)
    requires Summarises(m, vs, lo, hi)
    ensures forall i :: lo <= i < hi && vs[i].Finite? ==>
        m.min.At? && m.max.At? && m.min.v <= vs[i].v <= m.max.v
    ensures m.min.At? ==> exists i :: lo <= i < hi && vs[i] == Finite(m.min.v)
    ensures m.max.At? ==> exists i :: lo <= i < hi && vs[i] == Finite(m.max.v)
    ensures (forall i :: lo <= i < hi ==> vs[i].NonFinite?) ==> m == MinMax(PosInfinity, NegInfinity, true)
    ensures (forall i :: lo <= i < hi ==> vs[i].Finite?) ==> !m.hasNonFinite
  {
    assert vs[lo].NonFinite? ==> m.hasNonFinite;
  }

  /** There is only one summary of a range. */
  lemma SummaryUnique(m: MinMax, n: MinMax, vs: seq<Value>, lo: int, hi: int)
    requires Summarises(m, vs, lo, hi) && Summarises(n, vs, lo, hi)
    ensures m == n
  {
  }

  /** Overlapping or adjacent ranges combine to the summary of their union: overlap is harmless. */
  lemma CombineUnion(a: MinMax, b: MinMax, vs: seq<Value>, lo: int, mid1: int, mid2: int, hi: int)
    requires lo <= mid1 <= mid2 && Summarises(a, vs, lo, mid2) && Summarises(b, vs, mid1, hi)
    ensures mid2 <= hi ==> Summarises(Combine(a, b), vs, lo, hi)
  {
  }

  lemma CombineIdempotent(a: MinMax)
    ensures Combine(a, a) == a
  {
  }

  // ----- scanning a slice

  function Fold(acc: MinMax, values: seq<Value>): MinMax
    decreases |values|
  {
    if values == [] then acc else Fold(Combine(acc, Single(values[0])), values[1..])
  }

  /** The linear scan; the first sample is combined with itself, which changes nothing. */
  function FromSlice(values: seq<Value>): MinMax
    requires values != []
  {
    Fold(Single(values[0]), values)
  }

  lemma SingleSummary(vs: seq<Value>, i: int)
    requires 0 <= i < |vs|
    ensures Summarises(Single(vs[i]), vs, i, i + 1)
  {
  }

  lemma {:induction false} FoldSummary(acc: MinMax, vs: seq<Value>, lo: int, mid: int, hi: int)
    requires Summarises(acc, vs, lo, mid) && mid <= hi <= |vs|
    ensures Summarises(Fold(acc, vs[mid..hi]), vs, lo, hi)
    decreases hi - mid
  {
    if mid < hi {
      SingleSummary(vs, mid);
      CombineUnion(acc, Single(vs[mid]), vs, lo, mid, mid, mid + 1);
      FoldSummary(Combine(acc, Single(vs[mid])), vs, lo, mid + 1, hi);
      assert vs[mid..hi][1..] == vs[mid + 1..hi];
    }
  }

  lemma {:induction false} FromSliceSummary(vs: seq<Value>, lo: int, hi: int)
    requires 0 <= lo < hi <= |vs|
    ensures Summarises(FromSlice(vs[lo..hi]), vs, lo, hi)
  {
    SingleSummary(vs, lo);
    var first := Single(vs[lo]);
    CombineIdempotent(first);
    FoldSummary(first, vs, lo, lo + 1, hi);
    assert vs[lo..hi][1..] == vs[lo + 1..hi];
  }

  // ----- powers of two

  /** Rust's `ilog2`, which panics for 0. */
  function ILog2(n: nat): (k: nat)
    requires n > 0
    ensures Pow2(k) <= n < 2 * Pow2(k)
  {
    if n == 1 then 0 else
      var k := ILog2(n / 2) + 1;
      assert Pow2(k) == 2 * Pow2(k - 1);
      k
  }

  lemma ILog2Monotone(m: nat, n: nat)
    requires 0 < m <= n
    ensures ILog2(m) <= ILog2(n)
  {
    if ILog2(m) > ILog2(n) { Pow2Monotone(ILog2(n) + 1, ILog2(m)); }
  }

  // ----- blocks

  function DivCeil(n: nat, d: nat): nat
    requires d > 0
  {
    (n + d - 1) / d
  }

  /** Position where block `b` starts, or the end of the samples. */
  function BlockStart(n: nat, blockSize: nat, b: nat): (p: nat)
    ensures p <= n
  {
    if b * blockSize < n then b * blockSize else n
  }

  lemma {:induction false} BlockStartMonotone(n: nat, blockSize: nat, a: nat, b: nat)
    requires a <= b
    ensures BlockStart(n, blockSize, a) <= BlockStart(n, blockSize, b)
  {
    assert a * blockSize <= b * blockSize;
  }

  lemma {:induction false} BlockNonEmpty(n: nat, blockSize: nat, b: nat)
    requires blockSize > 0 && b < DivCeil(n, blockSize)
    ensures b * blockSize < n && BlockStart(n, blockSize, b) < BlockStart(n, blockSize, b + 1)
  {
    var blocks := DivCeil(n, blockSize);
    assert blocks * blockSize <= n + blockSize - 1;
    assert b * blockSize <= (blocks - 1) * blockSize == blocks * blockSize - blockSize;
    assert (b + 1) * blockSize == b * blockSize + blockSize;
  }

  lemma {:induction false} LastBlockEnds(n: nat, blockSize: nat)
    requires blockSize > 0
    ensures BlockStart(n, blockSize, DivCeil(n, blockSize)) == n
  {
    var blocks := DivCeil(n, blockSize);
    assert n + blockSize - 1 < blocks * blockSize + blockSize;
  }

  // ----- the structure

  datatype Rmq = Rmq(timestamps: seq<nat>, values: seq<Value>, blockSize: nat, table: seq<seq<MinMax>>)

  function NumBlocks(r: Rmq): nat
    requires r.blockSize > 0
  {
    DivCeil(|r.values|, r.blockSize)
  }

  /** Entry (k, i) summarises blocks i to i + 2^k, as far as there are that many. */
  ghost predicate EntryOk(vs: seq<Value>, blockSize: nat, m: MinMax, k: nat, i: nat) {
    Summarises(m, vs, BlockStart(|vs|, blockSize, i), BlockStart(|vs|, blockSize, i + Pow2(k)))
  }

  ghost predicate LevelOk(vs: seq<Value>, blockSize: nat, level: seq<MinMax>, k: nat)
    requires blockSize > 0
  {
    && |level| == DivCeil(|vs|, blockSize)
    && forall i: nat :: i < |level| ==> EntryOk(vs, blockSize, level[i], k, i)
  }

  ghost predicate Increasing(ts: seq<nat>) {
    forall i, j :: 0 <= i < j < |ts| ==> ts[i] < ts[j]
  }

  ghost predicate Valid(r: Rmq) {
    && r.blockSize > 0
    && |r.values| == |r.timestamps| > 0
    && Increasing(r.timestamps)
    && NumBlocks(r) > 0
    && |r.table| == ILog2(NumBlocks(r)) + 1
    && forall k: nat :: k < |r.table| ==> LevelOk(r.values, r.blockSize, r.table[k], k)
  }

  /** Doubling: an entry and its neighbour one span on make the entry of the next level. */
  lemma {:induction false} Doubled(vs: seq<Value>, blockSize: nat, prev: seq<MinMax>, k: nat, i: nat)
    requires blockSize > 0 && LevelOk(vs, blockSize, prev, k) && i < |prev|
    ensures EntryOk(vs, blockSize,
                    if i + Pow2(k) < |prev| then Combine(prev[i], prev[i + Pow2(k)]) else prev[i], k + 1, i)
  {
    var n, j := |vs|, i + Pow2(k);
    assert Pow2(k + 1) == 2 * Pow2(k);
    assert EntryOk(vs, blockSize, prev[i], k, i);
    if j < |prev| {
      assert EntryOk(vs, blockSize, prev[j], k, j);
      CombineUnion(prev[i], prev[j], vs, BlockStart(n, blockSize, i), BlockStart(n, blockSize, j),
                   BlockStart(n, blockSize, j), BlockStart(n, blockSize, j + Pow2(k)));
      BlockStartMonotone(n, blockSize, j, j + Pow2(k));
      BlockStartMonotone(n, blockSize, i, j);
    } else {
      LastBlockEnds(n, blockSize);
      BlockStartMonotone(n, blockSize, |prev|, j);
      BlockStartMonotone(n, blockSize, |prev|, j + Pow2(k));
    }
  }

  /** Level k + 1 of the table from level k; an entry without a partner is kept as it is. */
  function DoubleLevel(prev: seq<MinMax>, span: nat): (next: seq<MinMax>)
    ensures |next| == |prev|
    ensures forall i :: 0 <= i < |prev| ==>
        next[i] == if i + span < |prev| then Combine(prev[i], prev[i + span]) else prev[i]
  {
    seq(|prev|, i requires 0 <= i < |prev| => if i + span < |prev| then Combine(prev[i], prev[i + span]) else prev[i])
  }

  lemma {:induction false} DoubleLevelAt(prev: seq<MinMax>, span: nat, i: nat)
    requires i < |prev|
    ensures DoubleLevel(prev, span)[i] == if i + span < |prev| then Combine(prev[i], prev[i + span]) else prev[i]
  {
  }

  lemma {:induction false} DoubledLevel(vs: seq<Value>, blockSize: nat, prev: seq<MinMax>, k: nat)
    requires blockSize > 0 && LevelOk(vs, blockSize, prev, k)
    ensures LevelOk(vs, blockSize, DoubleLevel(prev, Pow2(k)), k + 1)
  {
    var next, span := DoubleLevel(prev, Pow2(k)), Pow2(k);
    hide DoubleLevel, EntryOk, Combine, Pow2;
    forall i: nat | i < |prev|
      ensures EntryOk(vs, blockSize, next[i], k + 1, i)
    {
      Doubled(vs, blockSize, prev, k, i);
      DoubleLevelAt(prev, span, i);
    }
  }

  method BuildSparseTable(summaries: seq<MinMax>, ghost vs: seq<Value>, ghost blockSize: nat)
    returns (table: seq<seq<MinMax>>)
    requires blockSize > 0 && |summaries| > 0 && LevelOk(vs, blockSize, summaries, 0)
    ensures |table| == ILog2(|summaries|) + 1
    ensures forall k: nat :: k < |table| ==> LevelOk(vs, blockSize, table[k], k)
  {
    hide LevelOk;
    var numLevels := ILog2(|summaries|);
    table := [summaries];
    for level := 0 to numLevels
      invariant |table| == level + 1
      invariant forall k: nat :: k < |table| ==> LevelOk(vs, blockSize, table[k], k)
    {
      DoubledLevel(vs, blockSize, table[level], level);
      table := table + [DoubleLevel(table[level], Pow2(level))];
    }
  }

  method Build(signal: seq<(nat, Value)>, blockSize: nat) returns (r: Rmq)
    requires blockSize > 0 && signal != []
    requires forall i, j :: 0 <= i < j < |signal| ==> signal[i].0 < signal[j].0
    ensures Valid(r) && r.blockSize == blockSize
    ensures |r.values| == |signal| && forall i :: 0 <= i < |signal| ==> signal[i] == (r.timestamps[i], r.values[i])
  {
    var timestamps := seq(|signal|, i requires 0 <= i < |signal| => signal[i].0);
    var values := seq(|signal|, i requires 0 <= i < |signal| => signal[i].1);
    var n, numBlocks := |values|, DivCeil(|values|, blockSize);
    var summaries: seq<MinMax> := [];
    LastBlockEnds(n, blockSize);
    assert Pow2(0) == 1;
    for b := 0 to numBlocks
      invariant |summaries| == b
      invariant forall i: nat :: i < b ==> EntryOk(values, blockSize, summaries[i], 0, i)
    {
      BlockNonEmpty(n, blockSize, b);
      var start := b * blockSize;
      var end := if start + blockSize < n then start + blockSize else n;
      assert end == BlockStart(n, blockSize, b + 1) by { assert (b + 1) * blockSize == start + blockSize; }
      FromSliceSummary(values, start, end);
      summaries := summaries + [FromSlice(values[start..end])];
    }
    assert BlockStart(n, blockSize, 0) == 0;
    var table := BuildSparseTable(summaries, values, blockSize);
    r := Rmq(timestamps, values, blockSize, table);
  }

  // ----- queries by index

  function QueryBlocks(r: Rmq, first: nat, last: nat): MinMax
    requires Valid(r) && first <= last < NumBlocks(r)
  {
    if first == last then
      assert LevelOk(r.values, r.blockSize, r.table[0], 0);
      r.table[0][first]
    else
      var len := last - first + 1;
      var level := ILog2(len);
      var jump := Pow2(level);
      ILog2Monotone(len, NumBlocks(r));
      assert LevelOk(r.values, r.blockSize, r.table[level], level);
      Combine(r.table[level][first], r.table[level][last - jump + 1])
  }

  /** Two overlapping table entries cover the blocks exactly. */
  lemma {:induction false} QueryBlocksExact(r: Rmq, first: nat, last: nat)
    requires Valid(r) && first <= last < NumBlocks(r)
    ensures Summarises(QueryBlocks(r, first, last), r.values, BlockStart(|r.values|, r.blockSize, first),
        BlockStart(|r.values|, r.blockSize, last + 1))
  {
    if first == last { OneBlock(r, first); } else { SeveralBlocks(r, first, last, ILog2(last - first + 1)); }
  }

  lemma {:induction false} OneBlock(r: Rmq, b: nat)
    requires Valid(r) && b < NumBlocks(r)
    ensures Summarises(QueryBlocks(r, b, b), r.values, BlockStart(|r.values|, r.blockSize, b),
        BlockStart(|r.values|, r.blockSize, b + 1))
  {
    assert Pow2(0) == 1;
    assert LevelOk(r.values, r.blockSize, r.table[0], 0);
    assert EntryOk(r.values, r.blockSize, r.table[0][b], 0, b);
    hide BlockStart, Summarises;
  }

  lemma {:induction false} SeveralBlocks(r: Rmq, first: nat, last: nat, level: nat)
    requires Valid(r) && first < last < NumBlocks(r) && level == ILog2(last - first + 1)
    ensures Summarises(QueryBlocks(r, first, last), r.values, BlockStart(|r.values|, r.blockSize, first),
        BlockStart(|r.values|, r.blockSize, last + 1))
  {
    ILog2Monotone(last - first + 1, NumBlocks(r));
    assert LevelOk(r.values, r.blockSize, r.table[level], level);
    var second := last - Pow2(level) + 1;
    assert QueryBlocks(r, first, last) == Combine(r.table[level][first], r.table[level][second]);
    assert |r.table[level]| == NumBlocks(r) && first <= second <= first + Pow2(level);
    hide *;
    OverlappingEntries(r.values, r.blockSize, r.table[level], level, first, second);
  }

  lemma {:induction false} OverlappingEntries(vs: seq<Value>, blockSize: nat, level: seq<MinMax>, k: nat, i: nat,
                                              j: nat)
    requires blockSize > 0 && LevelOk(vs, blockSize, level, k) && i <= j <= i + Pow2(k) && j < |level|
    ensures Summarises(Combine(level[i], level[j]), vs, BlockStart(|vs|, blockSize, i),
        BlockStart(|vs|, blockSize, j + Pow2(k)))
  {
    var n := |vs|;
    assert EntryOk(vs, blockSize, level[i], k, i) && EntryOk(vs, blockSize, level[j], k, j);
    BlockStartMonotone(n, blockSize, i, j);
    BlockStartMonotone(n, blockSize, j, i + Pow2(k));
    BlockStartMonotone(n, blockSize, i + Pow2(k), j + Pow2(k));
    hide BlockStart;
    CombineUnion(level[i], level[j], vs, BlockStart(n, blockSize, i), BlockStart(n, blockSize, j),
                 BlockStart(n, blockSize, i + Pow2(k)), BlockStart(n, blockSize, j + Pow2(k)));
  }

  /** The block sample `i` belongs to. */
  function BlockOf(i: nat, size: nat): (b: nat)
    requires size > 0
    ensures b * size <= i < b * size + size
  {
    i / size
  }

  lemma MulMonotone(a: nat, b: nat, size: nat)
    requires a <= b
    ensures a * size <= b * size
  {
  }

  lemma MulNext(a: nat, size: nat)
    ensures (a + 1) * size == a * size + size
  {
  }

  lemma {:induction false} BlockExists(n: nat, size: nat, i: nat)
    requires size > 0 && i < n
    ensures BlockOf(i, size) < DivCeil(n, size)
  {
    hide BlockOf;
    var blocks := DivCeil(n, size);
    assert n + size - 1 < blocks * size + size;
    if blocks <= BlockOf(i, size) { MulMonotone(blocks, BlockOf(i, size), size); }
  }

  /** Samples of different blocks, and the ends of their blocks between them. */
  lemma {:induction false} DistinctBlocks(n: nat, size: nat, left: nat, right: nat)
    requires size > 0 && left <= right < n && BlockOf(left, size) != BlockOf(right, size)
    ensures BlockOf(left, size) < BlockOf(right, size) < DivCeil(n, size)
    ensures left < (BlockOf(left, size) + 1) * size <= BlockOf(right, size) * size <= right
    ensures BlockStart(n, size, BlockOf(left, size) + 1) == (BlockOf(left, size) + 1) * size
    ensures BlockStart(n, size, BlockOf(right, size)) == BlockOf(right, size) * size
  {
    hide BlockOf;
    var a, b := BlockOf(left, size), BlockOf(right, size);
    BlockExists(n, size, right);
    MulNext(a, size);
    MulNext(b, size);
    if a > b { MulMonotone(b + 1, a, size); }
    MulMonotone(a + 1, b, size);
  }

  function QueryIndexRange(r: Rmq, left: nat, right: nat): MinMax
    requires Valid(r) && left <= right < |r.values|
  {
    var leftBlock, rightBlock := BlockOf(left, r.blockSize), BlockOf(right, r.blockSize);
    if leftBlock == rightBlock then
      FromSlice(r.values[left..right + 1])
    else
      DistinctBlocks(|r.values|, r.blockSize, left, right);
      var leftEnd := (leftBlock + 1) * r.blockSize - 1;
      var head := FromSlice(r.values[left..(if leftEnd < right then leftEnd else right) + 1]);
      var rightStart := rightBlock * r.blockSize;
      var partial := Combine(head, FromSlice(r.values[rightStart..right + 1]));
      if leftBlock + 1 <= rightBlock - 1 then Combine(partial, QueryBlocks(r, leftBlock + 1, rightBlock - 1))
        else partial
  }

  /** A query by index is the linear scan of the range, whatever the block size. */
  lemma {:induction false} QueryIndexRangeExact(r: Rmq, left: nat, right: nat)
    requires Valid(r) && left <= right < |r.values|
    ensures Summarises(QueryIndexRange(r, left, right), r.values, left, right + 1)
    ensures QueryIndexRange(r, left, right) == FromSlice(r.values[left..right + 1])
  {
    FromSliceSummary(r.values, left, right + 1);
    if BlockOf(left, r.blockSize) != BlockOf(right, r.blockSize) { SplitQuery(r, left, right); }
    SummaryUnique(QueryIndexRange(r, left, right), FromSlice(r.values[left..right + 1]), r.values, left, right + 1);
  }

  lemma {:induction false} SplitQuery(r: Rmq, left: nat, right: nat)
    requires Valid(r) && left <= right < |r.values| && BlockOf(left, r.blockSize) != BlockOf(right, r.blockSize)
    ensures Summarises(QueryIndexRange(r, left, right), r.values, left, right + 1)
  {
    DistinctBlocks(|r.values|, r.blockSize, left, right);
    hide BlockOf, BlockStart, FromSlice, QueryBlocks, Summarises, QueryIndexRange;
    var a, b := BlockOf(left, r.blockSize), BlockOf(right, r.blockSize);
    var headEnd: nat, tailStart: nat := (a + 1) * r.blockSize, b * r.blockSize;
    Pieces(r, left, right, a, b, headEnd, tailStart);
    PiecesCombine(r, left, right, a, b, headEnd, tailStart);
  }

  lemma {:induction false} Pieces(r: Rmq, left: nat, right: nat, a: nat, b: nat, headEnd: nat, tailStart: nat)
    requires Valid(r) && left < headEnd <= tailStart <= right < |r.values| && a < b < NumBlocks(r)
    requires headEnd == BlockStart(|r.values|, r.blockSize, a + 1)
      && tailStart == BlockStart(|r.values|, r.blockSize, b)
    ensures Summarises(FromSlice(r.values[left..headEnd]), r.values, left, headEnd)
    ensures Summarises(FromSlice(r.values[tailStart..right + 1]), r.values, tailStart, right + 1)
    ensures a + 1 <= b - 1 ==> Summarises(QueryBlocks(r, a + 1, b - 1), r.values, headEnd, tailStart)
  {
    hide BlockStart, FromSlice, QueryBlocks, Summarises;
    FromSliceSummary(r.values, left, headEnd);
    FromSliceSummary(r.values, tailStart, right + 1);
    if a + 1 <= b - 1 { QueryBlocksExact(r, a + 1, b - 1); }
  }

  lemma {:induction false} PiecesCombine(r: Rmq, left: nat, right: nat, a: nat, b: nat, headEnd: nat, tailStart: nat)
    requires Valid(r) && left < headEnd <= tailStart <= right < |r.values|
    requires a == BlockOf(left, r.blockSize) < b == BlockOf(right, r.blockSize) < NumBlocks(r)
    requires headEnd == (a + 1) * r.blockSize && tailStart == b * r.blockSize
    requires Summarises(FromSlice(r.values[left..headEnd]), r.values, left, headEnd)
    requires Summarises(FromSlice(r.values[tailStart..right + 1]), r.values, tailStart, right + 1)
    requires a + 1 <= b - 1 ==> Summarises(QueryBlocks(r, a + 1, b - 1), r.values, headEnd, tailStart)
    ensures Summarises(QueryIndexRange(r, left, right), r.values, left, right + 1)
  {
    hide BlockOf, FromSlice, Combine, QueryBlocks, Summarises, LevelOk, ILog2, DivCeil, Valid;
    var head, tail := FromSlice(r.values[left..headEnd]), FromSlice(r.values[tailStart..right + 1]);
    if a + 1 <= b - 1 {
      CombineAround(head, QueryBlocks(r, a + 1, b - 1), tail, r.values, left, headEnd, tailStart, right + 1);
    } else {
      assert a + 1 == b;
      CombineUnion(head, tail, r.values, left, headEnd, headEnd, right + 1);
    }
  }

  /** The program combines head and tail before it adds the middle. */
  lemma {:induction false} CombineAround(head: MinMax, middle: MinMax, tail: MinMax, vs: seq<Value>, lo: int,
                                         mid1: int, mid2: int, hi: int)
    requires Summarises(head, vs, lo, mid1) && Summarises(middle, vs, mid1, mid2) && Summarises(tail, vs, mid2, hi)
    ensures Summarises(Combine(Combine(head, tail), middle), vs, lo, hi)
  {
    CombineUnion(head, middle, vs, lo, mid1, mid1, mid2);
    CombineUnion(Combine(head, middle), tail, vs, lo, mid2, mid2, hi);
    assert Combine(Combine(head, tail), middle) == Combine(Combine(head, middle), tail);
  }

  // ----- queries by time

  /** Result of a binary search: where the time is, or where it would have to be inserted. */
  datatype Search = Hit(idx: nat) | Miss(idx: nat)

  function LowerBound(ts: seq<nat>, t: nat): (i: nat)
    ensures i <= |ts|
    ensures forall k :: 0 <= k < i ==> ts[k] < t
    ensures i < |ts| ==> ts[i] >= t
  {
    if ts == [] || ts[0] >= t then 0 else 1 + LowerBound(ts[1..], t)
  }

  function BinarySearch(ts: seq<nat>, t: nat): (s: Search)
    requires Increasing(ts)
    ensures s.Hit? ==> s.idx < |ts| && ts[s.idx] == t
    ensures s.Miss? ==>
              && s.idx <= |ts| && (forall k :: 0 <= k < s.idx ==> ts[k] < t)
              && forall k :: s.idx <= k < |ts| ==> ts[k] > t
  {
    var i := LowerBound(ts, t);
    if i < |ts| && ts[i] == t then Hit(i) else Miss(i)
  }

  /** First and last index of the samples in a closed time range; an empty range has first > last. */
  function IndexRange(ts: seq<nat>, start: nat, end: nat): (int, int)
    requires Increasing(ts)
  {
    var found := BinarySearch(ts, end);
    (BinarySearch(ts, start).idx, if found.Hit? then found.idx else found.idx - 1)
  }

  function QueryTimeRange(r: Rmq, start: nat, end: nat): Option<MinMax>
    requires Valid(r)
  {
    if start > end then None
    else
      var (left, right) := IndexRange(r.timestamps, start, end);
      if right < 0 || left > right || left >= |r.values| then None else Some(QueryIndexRange(r, left, right))
  }

  lemma {:induction false} IndexRangeExact(ts: seq<nat>, start: nat, end: nat, i: nat)
    requires Increasing(ts) && i < |ts|
    ensures var (left, right) := IndexRange(ts, start, end);
            left >= 0 && right < |ts| && (start <= ts[i] <= end <==> left <= i <= right)
  {
    var from, to := BinarySearch(ts, start), BinarySearch(ts, end);
    if from.Hit? && i < from.idx { assert ts[i] < ts[from.idx]; }
    if from.Hit? && i > from.idx { assert ts[from.idx] < ts[i]; }
    if to.Hit? && i > to.idx { assert ts[to.idx] < ts[i]; }
    if to.Hit? && i < to.idx { assert ts[i] < ts[to.idx]; }
  }

  /** No answer exactly when there is no sample in the range ... */
  lemma {:induction false} QueryTimeRangeNone(r: Rmq, start: nat, end: nat)
    requires Valid(r)
    ensures QueryTimeRange(r, start, end) == None <==>
        forall i: nat :: i < |r.timestamps| ==> !(start <= r.timestamps[i] <= end)
  {
    var (left, right) := IndexRange(r.timestamps, start, end);
    forall i: nat | i < |r.timestamps|
      ensures start <= r.timestamps[i] <= end <==> left <= i <= right
    {
      IndexRangeExact(r.timestamps, start, end, i);
    }
    IndexRangeExact(r.timestamps, start, end, 0);
    hide QueryIndexRange, BinarySearch, IndexRange;
    if start <= end && 0 <= left <= right < |r.timestamps| {
      assert start <= r.timestamps[left] <= end;
    }
  }

  /** ... and an answer summarises exactly the samples in the range. */
  lemma {:induction false} QueryTimeRangeExact(r: Rmq, start: nat, end: nat) returns (left: nat, right: nat)
    requires Valid(r) && QueryTimeRange(r, start, end).Some?
    ensures left <= right < |r.values|
    ensures forall i: nat :: i < |r.timestamps| ==> (start <= r.timestamps[i] <= end <==> left <= i <= right)
    ensures Summarises(QueryTimeRange(r, start, end).value, r.values, left, right + 1)
  {
    left, right := IndexRange(r.timestamps, start, end).0, IndexRange(r.timestamps, start, end).1;
    forall i: nat | i < |r.timestamps|
      ensures start <= r.timestamps[i] <= end <==> left <= i <= right
    {
      IndexRangeExact(r.timestamps, start, end, i);
    }
    IndexRangeExact(r.timestamps, start, end, 0);
    hide QueryIndexRange, BinarySearch, IndexRange, Summarises, FromSlice;
    QueryIndexRangeExact(r, left, right);
  }

  /** The sample held at a time, and the time of the next one. */
  datatype AtTime = AtTime(current: Option<(nat, Value)>, next: Option<nat>)

  function TimestampAt(r: Rmq, i: nat): Option<nat> {
    if i < |r.timestamps| then Some(r.timestamps[i]) else None
  }

  function QueryAtTime(r: Rmq, time: nat): AtTime
    requires Valid(r)
  {
    match BinarySearch(r.timestamps, time)
    case Hit(i) => AtTime(Some((r.timestamps[i], r.values[i])), TimestampAt(r, i + 1))
    case Miss(0) => AtTime(None, TimestampAt(r, 0))
    case Miss(i) => AtTime(Some((r.timestamps[i - 1], r.values[i - 1])), TimestampAt(r, i))
  }

  /** How many samples are not later than `time`. */
  ghost predicate SplitsAt(r: Rmq, time: nat, n: nat) {
    && n <= |r.timestamps| == |r.values|
    && (forall i :: 0 <= i < n ==> r.timestamps[i] <= time)
    && (forall i :: n <= i < |r.timestamps| ==> r.timestamps[i] > time)
  }

  /** The latest sample not after `time`, and the first one after it. */
  lemma {:induction false} QueryAtTimeExact(r: Rmq, time: nat) returns (n: nat)
    requires Valid(r)
    ensures SplitsAt(r, time, n)
    ensures QueryAtTime(r, time).current == if n == 0 then None else Some((r.timestamps[n - 1], r.values[n - 1]))
    ensures QueryAtTime(r, time).next == if n == |r.timestamps| then None else Some(r.timestamps[n])
  {
    var found := BinarySearch(r.timestamps, time);
    n := if found.Hit? then found.idx + 1 else found.idx;
  }

  // ----- the cache in front of the structure

  function ToFloat(b: Bound): Value {
    match b
    case NegInfinity => NEG_INFINITY
    case At(v) => Finite(v)
    case PosInfinity => INFINITY
  }

  /** A range with a non-finite sample reports the "undefined" NaN as its maximum. */
  function CacheTimeRange(r: Rmq, start: nat, end: nat): Option<(Value, Value)>
    requires Valid(r)
  {
    match QueryTimeRange(r, start, end)
    case None => None
    case Some(m) => Some((ToFloat(m.min), if m.hasNonFinite then NAN_UNDEF else ToFloat(m.max)))
  }
}
