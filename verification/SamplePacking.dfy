/** Laying out one sample of many signals in 32-bit words, and taking it apart again. */
module SamplePacking {
  import opened CxxrtlClient
  import opened CxxrtlFetches
  import opened CxxrtlProtocol
  import opened CxxrtlPromises

  const BASE: nat := 0x1_0000_0000

  /** Words that a signal of a given width takes; a width of 0 is not allowed for. */
  function Size(width: nat): (n: nat)
    requires width > 0
    ensures n > 0 && 32 * (n - 1) < width <= 32 * n
  {
    1 + (width - 1) / 32
  }

  ghost predicate Known(signals: seq<Var>, widths: map<Var, nat>) {
    forall k :: 0 <= k < |signals| ==> signals[k] in widths && widths[signals[k]] > 0
  }

  // ----- one signal

  function Power(n: nat): (p: nat)
    ensures p > 0
  {
    if n == 0 then 1 else BASE * Power(n - 1)
  }

  /** Least significant word first. */
  function ToWords(v: nat, n: nat): (words: seq<nat>)
    ensures |words| == n
  {
    if n == 0 then [] else [v % BASE] + ToWords(v / BASE, n - 1)
  }

  function FromWords(words: seq<nat>): nat {
    if words == [] then 0 else words[0] + BASE * FromWords(words[1..])
  }

  lemma {:induction false} WordsRoundTrip(v: nat, n: nat)
    requires v < Power(n)
    ensures FromWords(ToWords(v, n)) == v
    decreases n
  {
    if n > 0 {
      assert v / BASE < Power(n - 1);
      WordsRoundTrip(v / BASE, n - 1);
      assert ToWords(v, n)[1..] == ToWords(v / BASE, n - 1);
    }
  }

  /** The first word is the least significant one, and each later one weighs 2^32 times the one before. */
  lemma LowWordFirst(words: seq<nat>)
    ensures FromWords([]) == 0
    ensures words != [] ==> FromWords(words) == words[0] + 0x1_0000_0000 * FromWords(words[1..])
  {
  }

  // ----- a whole sample

  /** Where signal number `k` begins. */
  function Offset(signals: seq<Var>, widths: map<Var, nat>, k: nat): nat
    requires Known(signals, widths) && k <= |signals|
  {
    if k == 0 then 0 else Offset(signals, widths, k - 1) + Size(widths[signals[k - 1]])
  }

  /** Signals lie one behind the other in the order of the list, each with as many words as its width needs. */
  lemma OffsetSteps(signals: seq<Var>, widths: map<Var, nat>, k: nat)
    requires Known(signals, widths) && k < |signals|
    ensures Offset(signals, widths, 0) == 0
    ensures var words := Offset(signals, widths, k + 1) - Offset(signals, widths, k);
      32 * (words - 1) < widths[signals[k]] <= 32 * words
  {
  }

  /** The server's layout: the signals one after the other. */
  function Packed(signals: seq<Var>, widths: map<Var, nat>, values: Var -> nat, k: nat): (words: seq<nat>)
    requires Known(signals, widths) && k <= |signals|
    ensures |words| == Offset(signals, widths, k)
  {
    if k == 0 then []
    else Packed(signals, widths, values, k - 1) + ToWords(values(signals[k - 1]), Size(widths[signals[k - 1]]))
  }

  /** The client first works out all ranges in one pass, then slices them. */
  method Ranges(signals: seq<Var>, widths: map<Var, nat>) returns (ranges: seq<(nat, nat)>)
    requires Known(signals, widths)
    ensures |ranges| == |signals|
    ensures forall k :: 0 <= k < |signals| ==>
      ranges[k] == (Offset(signals, widths, k), Offset(signals, widths, k + 1))
  {
    ranges := [];
    var offset := 0;
    for k := 0 to |signals|
      invariant offset == Offset(signals, widths, k) && |ranges| == k
      invariant forall j :: 0 <= j < k ==> ranges[j] == (Offset(signals, widths, j), Offset(signals, widths, j + 1))
    {
      var size := Size(widths[signals[k]]);
      ranges := ranges + [(offset, offset + size)];
      offset := offset + size;
    }
  }

  lemma {:induction false} OffsetsAscend(signals: seq<Var>, widths: map<Var, nat>, j: nat, k: nat)
    requires Known(signals, widths) && j <= k <= |signals|
    ensures Offset(signals, widths, j) <= Offset(signals, widths, k)
    decreases k
  {
    if j < k { OffsetsAscend(signals, widths, j, k - 1); }
  }

  /** The words of signal number `k` in a full sample. */
  function Slice(words: seq<nat>, signals: seq<Var>, widths: map<Var, nat>, k: nat): seq<nat>
    requires Known(signals, widths) && k < |signals| && |words| == Offset(signals, widths, |signals|)
  {
    OffsetsAscend(signals, widths, k, k + 1);
    OffsetsAscend(signals, widths, k + 1, |signals|);
    words[Offset(signals, widths, k)..Offset(signals, widths, k + 1)]
  }

  lemma {:induction false} SliceIs(words: seq<nat>, signals: seq<Var>, widths: map<Var, nat>, k: nat)
    requires Known(signals, widths) && k < |signals| && |words| == Offset(signals, widths, |signals|)
    ensures Offset(signals, widths, k) <= Offset(signals, widths, k + 1) <= |words|
    ensures Slice(words, signals, widths, k) == words[Offset(signals, widths, k)..Offset(signals, widths, k + 1)]
  {
    OffsetsAscend(signals, widths, k, k + 1);
    OffsetsAscend(signals, widths, k + 1, |signals|);
  }

  lemma SliceOfLeft(left: seq<nat>, right: seq<nat>, from: nat, to: nat)
    requires from <= to <= |left|
    ensures (left + right)[from..to] == left[from..to]
  {
  }

  lemma SliceOfRight(left: seq<nat>, right: seq<nat>)
    ensures (left + right)[|left|..|left| + |right|] == right
  {
  }

  /** Later signals do not move earlier ones. */
  lemma {:induction false} PackedSlice(signals: seq<Var>, widths: map<Var, nat>, values: Var -> nat, j: nat, k: nat)
    requires Known(signals, widths) && j < k <= |signals|
    ensures Offset(signals, widths, j) <= Offset(signals, widths, j + 1) <= Offset(signals, widths, k)
    ensures Packed(signals, widths, values, k)[Offset(signals, widths, j)..Offset(signals, widths, j + 1)]
         == ToWords(values(signals[j]), Size(widths[signals[j]]))
    decreases k
  {
    hide Size, ToWords;
    OffsetsAscend(signals, widths, j, j + 1);
    OffsetsAscend(signals, widths, j + 1, k);
    var words, last := Packed(signals, widths, values, k - 1),
      ToWords(values(signals[k - 1]), Size(widths[signals[k - 1]]));
    assert Packed(signals, widths, values, k) == words + last;
    assert Offset(signals, widths, k) == Offset(signals, widths, k - 1) + |last|;
    hide Packed, Offset;
    if j < k - 1 {
      PackedSlice(signals, widths, values, j, k - 1);
      SliceOfLeft(words, last, Offset(signals, widths, j), Offset(signals, widths, j + 1));
    } else {
      SliceOfRight(words, last);
    }
  }

  /** The first `n` signals, and no others, have the values their slices spell. */
  ghost predicate Reads(decoded: map<Var, nat>, words: seq<nat>, signals: seq<Var>, widths: map<Var, nat>, n: nat)
    requires Known(signals, widths) && n <= |signals| && |words| == Offset(signals, widths, |signals|)
  {
    && (forall v :: v in decoded <==> v in signals[..n])
    && (forall k :: 0 <= k < n ==>
      signals[k] in decoded && decoded[signals[k]] == FromWords(Slice(words, signals, widths, k)))
  }

  lemma {:induction false} ReadsNext(decoded: map<Var, nat>, words: seq<nat>, signals: seq<Var>, widths: map<Var, nat>,
                                     n: nat)
    requires Known(signals, widths) && NoRepeat(signals) && n < |signals|
      && |words| == Offset(signals, widths, |signals|)
    requires Reads(decoded, words, signals, widths, n)
    ensures Reads(decoded[signals[n] := FromWords(Slice(words, signals, widths, n))], words, signals, widths, n + 1)
  {
    hide Offset, Slice, FromWords;
    assert signals[..n + 1] == signals[..n] + [signals[n]];
  }

  /** What the client stores for one sample: a value per signal. */
  method DecodeSample(signals: seq<Var>, widths: map<Var, nat>, words: seq<nat>) returns (decoded: map<Var, nat>)
    requires Known(signals, widths) && NoRepeat(signals)
    requires |words| == Offset(signals, widths, |signals|)
    ensures Reads(decoded, words, signals, widths, |signals|)
  {
    var ranges := Ranges(signals, widths);
    decoded := map[];
    assert Reads(decoded, words, signals, widths, 0);
    hide *;
    for k := 0 to |signals|
      invariant Reads(decoded, words, signals, widths, k)
    {
      ReadsNext(decoded, words, signals, widths, k);
      SliceIs(words, signals, widths, k);
      var (from, to) := ranges[k];
      decoded := decoded[signals[k] := FromWords(words[from..to])];
    }
  }

  /** The client reads, for every signal, the value that the server packed for it. */
  lemma {:induction false} SampleRoundTrip(signals: seq<Var>, widths: map<Var, nat>, values: Var -> nat, k: nat)
    requires Known(signals, widths) && k < |signals|
    requires values(signals[k]) < Power(Size(widths[signals[k]]))
    ensures FromWords(Slice(Packed(signals, widths, values, |signals|), signals, widths, k)) == values(signals[k])
  {
    PackedSlice(signals, widths, values, k, |signals|);
    WordsRoundTrip(values(signals[k]), Size(widths[signals[k]]));
  }

  /** In every run, the lists that samples are decoded with name no signal twice, as `DecodeSample` needs. */
  lemma {:induction false} ListsClean(steps: seq<Step>, n: nat)
    requires Legal(Start(), steps) && n < |Run(Start(), steps).client.populated|
    ensures NoRepeat(Run(Start(), steps).client.populated[n].signals)
  {
    RunKept(Start(), steps, ScopesSlot);
    hide Run, Legal, Consistent, Accounted, NoRepeat, Indexed, Queued, OneFetchEach;
  }

  lemma {:induction false} ReadsOne(decoded: map<Var, nat>, words: seq<nat>, signals: seq<Var>, widths: map<Var, nat>,
                                    k: nat)
    requires Known(signals, widths) && |words| == Offset(signals, widths, |signals|) && k < |signals|
    requires Reads(decoded, words, signals, widths, |signals|)
    ensures signals[k] in decoded && decoded[signals[k]] == FromWords(Slice(words, signals, widths, k))
  {
    hide Slice, FromWords, Offset;
  }

  /**
   In every run: if the server, referring to the list it was last asked for, packed the values of its
   signals into row `j` of an interval response, then what `DecodeSample` makes of that row has for
   every signal exactly the value that was packed.
   */
  lemma {:induction false} ValuesArrive(steps: seq<Step>, n: nat, j: nat, values: Var -> nat, decoded: map<Var, nat>,
                                        k: nat)
    requires Legal(Start(), steps) && n < |Run(Start(), steps).client.populated|
    requires var d := Run(Start(), steps).client.populated[n];
      && d.asked == d.packed && j < |d.rows| && k < |d.signals|
      && Known(d.packed, d.info)
      && (forall i :: 0 <= i < |d.packed| ==> values(d.packed[i]) < Power(Size(d.info[d.packed[i]])))
      && d.rows[j] == Packed(d.packed, d.info, values, |d.packed|)
      && Known(d.signals, d.info) && |d.rows[j]| == Offset(d.signals, d.info, |d.signals|)
      && Reads(decoded, d.rows[j], d.signals, d.info, |d.signals|)
    ensures var d := Run(Start(), steps).client.populated[n];
      NoRepeat(d.signals) && d.signals[k] in decoded && decoded[d.signals[k]] == values(d.signals[k])
  {
    var d := Run(Start(), steps).client.populated[n];
    ListsClean(steps, n);
    DecodedAsPackedExactly(steps, n);
    hide Run, Legal, NoRepeat, Reads, Slice, FromWords, Offset;
    assert d.signals == d.packed;
    SampleRoundTrip(d.packed, d.info, values, k);
    ReadsOne(decoded, d.rows[j], d.signals, d.info, k);
  }
}
