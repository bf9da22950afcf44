/** The regions of a decoder lane: words and pixels walked together. */
module LaneCommands {
  import opened Options
  import opened PixelTime

  /** A decoded word covers the times from `start` up to but not including `end`. */
  datatype Word<+T> = Word(start: nat, end: nat, text: T)

  datatype Region<+T> = Region(pixel: int, inner: Option<T>)

  const MAX_TIME: nat := 0xFFFF_FFFF_FFFF_FFFF

  /** Word bounds are 64-bit, words follow each other without overlap. */
  ghost predicate Lane<T(!new)>(words: seq<Word<T>>) {
    && (forall i :: 0 <= i < |words| ==> words[i].start <= words[i].end <= MAX_TIME)
    && (forall i, j :: 0 <= i < j < |words| ==> words[i].end <= words[j].start)
  }

  ghost predicate Ascending(stamps: seq<Stamp>) {
    forall i, j :: 0 <= i < j < |stamps| ==>
      stamps[i].pixel < stamps[j].pixel && stamps[i].time <= stamps[j].time
  }

  predicate Contains<T>(word: Word<T>, time: nat) {
    word.start <= time < word.end
  }

  /** The word that covers a time, found by looking at all of them. */
  function WordAt<T>(words: seq<Word<T>>, time: nat): (k: Option<nat>)
    ensures k.Some? ==> k.value < |words| && Contains(words[k.value], time)
    ensures k.None? ==> forall i :: 0 <= i < |words| ==> !Contains(words[i], time)
  {
    if words == [] then None
    else if Contains(words[|words| - 1], time) then Some(|words| - 1)
    else WordAt(words[..|words| - 1], time)
  }

  /** No other word covers the time. */
  lemma {:induction false} WordAtUnique<T(!new)>(words: seq<Word<T>>, time: nat, k: nat)
    requires Lane(words) && k < |words| && Contains(words[k], time)
    ensures WordAt(words, time) == Some(k)
  {
    var found := WordAt(words, time);
    assert Contains(words[k], time);
    assert found.Some? && Contains(words[found.value], time);
  }

  /** Cutting times off at 64 bits hides no word. */
  function Clamp(time: nat): nat {
    if time > MAX_TIME then MAX_TIME else time
  }

  lemma {:induction false} ClampHarmless<T(!new)>(words: seq<Word<T>>, time: nat)
    requires Lane(words)
    ensures WordAt(words, Clamp(time)) == WordAt(words, time)
  {
    if time > MAX_TIME {
      assert forall i :: 0 <= i < |words| ==> !Contains(words[i], time) && !Contains(words[i], MAX_TIME);
    }
  }

  function TextAt<T>(words: seq<Word<T>>, time: nat): Option<T> {
    match WordAt(words, time)
    case None => None
    case Some(k) => Some(words[k].text)
  }

  /** Whether a region starts at pixel number `i`: always at the first, later where the word differs. */
  predicate Starts<T>(words: seq<Word<T>>, stamps: seq<Stamp>, i: nat)
    requires i < |stamps|
  {
    i == 0 || WordAt(words, stamps[i].time) != WordAt(words, stamps[i - 1].time)
  }

  /** The regions of the first `n` pixels. */
  function Regions<T>(words: seq<Word<T>>, stamps: seq<Stamp>, n: nat): seq<Region<T>>
    requires n <= |stamps|
  {
    if n == 0 then []
    else
      Regions(words, stamps, n - 1)
      + if Starts(words, stamps, n - 1)
        then [Region(stamps[n - 1].pixel, TextAt(words, stamps[n - 1].time))]
        else []
  }

  /** An empty region at the last pixel gives the last block a right-hand edge. */
  function ClosingEdge<T>(stamps: seq<Stamp>): seq<Region<T>> {
    if stamps == [] then [] else [Region(stamps[|stamps| - 1].pixel, None)]
  }

  ghost predicate AllOver<T(!new)>(words: seq<Word<T>>, k: nat, time: nat)
    requires k <= |words|
  {
    forall i :: 0 <= i < k ==> words[i].end <= time
  }

  /** All words before the first one that ends after a time are over; that one decides. */
  lemma {:induction false} WalkFinds<T(!new)>(words: seq<Word<T>>, time: nat, k: nat)
    requires Lane(words) && k <= |words|
    requires AllOver(words, k, time)
    requires k < |words| ==> time < words[k].end
    ensures WordAt(words, time) == if k < |words| && words[k].start <= time then Some(k) else None
  {
    if k < |words| && words[k].start <= time {
      WordAtUnique(words, time, k);
    } else {
      forall i | 0 <= i < |words|
        ensures !Contains(words[i], time)
      {
        if i > k { assert words[k].end <= words[i].start; }
      }
    }
  }

  lemma {:induction false} NextRegions<T>(words: seq<Word<T>>, stamps: seq<Stamp>, n: nat)
    requires 0 < n <= |stamps|
    ensures Regions(words, stamps, n) ==
      if Starts(words, stamps, n - 1)
      then Regions(words, stamps, n - 1) + [Region(stamps[n - 1].pixel, TextAt(words, stamps[n - 1].time))]
      else Regions(words, stamps, n - 1)
  {
  }

  /** Skip the words that are over by a time. */
  method Advance<T(!new)>(words: seq<Word<T>>, from: nat, time: nat) returns (wordIdx: nat)
    requires from <= |words| && AllOver(words, from, time)
    ensures wordIdx <= |words| && AllOver(words, wordIdx, time)
    ensures wordIdx < |words| ==> time < words[wordIdx].end
  {
    wordIdx := from;
    while wordIdx < |words| && words[wordIdx].end <= time
      invariant wordIdx <= |words| && AllOver(words, wordIdx, time)
    {
      wordIdx := wordIdx + 1;
    }
  }

  /** The word at a time, once those that are over have been skipped. */
  method WordHere<T(!new)>(words: seq<Word<T>>, wordIdx: nat, time: nat) returns (here: Option<nat>, value: Option<T>)
    requires Lane(words) && wordIdx <= |words| && AllOver(words, wordIdx, time)
    requires wordIdx < |words| ==> time < words[wordIdx].end
    ensures here == WordAt(words, time) && value == TextAt(words, time)
  {
    WalkFinds(words, time, wordIdx);
    value := if wordIdx < |words| && words[wordIdx].start <= time then Some(words[wordIdx].text) else None;
    here := if value.Some? then Some(wordIdx) else None;
    hide WordAt, Lane, AllOver;
  }

  /** Where the walk stands before pixel number `i`. */
  ghost predicate WalkedTo<T(!new)>(words: seq<Word<T>>, stamps: seq<Stamp>, i: nat, wordIdx: nat,
                                    prevWord: Option<nat>, regions: seq<Region<T>>)
    requires i <= |stamps|
  {
    && wordIdx <= |words|
    && (if i == 0 then wordIdx == 0 else AllOver(words, wordIdx, Clamp(stamps[i - 1].time)))
    && regions == Regions(words, stamps, i)
    && prevWord == (if i == 0 then None else WordAt(words, stamps[i - 1].time))
    && (regions == [] <==> i == 0)
  }

  lemma {:induction false} WalkStart<T(!new)>(words: seq<Word<T>>, stamps: seq<Stamp>)
    ensures WalkedTo(words, stamps, 0, 0, None, [])
  {
  }

  lemma {:induction false} WalkStep<T(!new)>(words: seq<Word<T>>, stamps: seq<Stamp>, i: nat, wordIdx: nat,
                                             wordIdx': nat, prevWord: Option<nat>, regions: seq<Region<T>>)
    requires Lane(words) && i < |stamps| && WalkedTo(words, stamps, i, wordIdx, prevWord, regions)
    requires wordIdx' <= |words| && AllOver(words, wordIdx', Clamp(stamps[i].time))
    ensures var here, value := WordAt(words, Clamp(stamps[i].time)), TextAt(words, Clamp(stamps[i].time));
      if here != prevWord || regions == []
      then WalkedTo(words, stamps, i + 1, wordIdx', here, regions + [Region(stamps[i].pixel, value)])
      else WalkedTo(words, stamps, i + 1, wordIdx', prevWord, regions)
  {
    ClampHarmless(words, stamps[i].time);
    NextRegions(words, stamps, i + 1);
    hide Regions, WordAt, AllOver, Lane;
  }

  lemma {:induction false} WalkOver<T(!new)>(words: seq<Word<T>>, stamps: seq<Stamp>, i: nat, wordIdx: nat,
                                             prevWord: Option<nat>, regions: seq<Region<T>>)
    requires Ascending(stamps) && i < |stamps| && WalkedTo(words, stamps, i, wordIdx, prevWord, regions)
    ensures wordIdx <= |words| && AllOver(words, wordIdx, Clamp(stamps[i].time))
  {
    hide Regions, WordAt;
    assert i > 0 ==> stamps[i - 1].time <= stamps[i].time;
  }

  /** The walk, linear in words plus pixels. */
  method LaneDrawCommands<T(!new)>(words: seq<Word<T>>, stamps: seq<Stamp>) returns (regions: seq<Region<T>>)
    requires Lane(words) && Ascending(stamps)
    ensures regions == Regions(words, stamps, |stamps|) + ClosingEdge(stamps)
    ensures Complete(words, stamps, regions)
  {
    hide Complete, ClosingEdge;
    hide Regions, WordAt, TextAt, Lane, AllOver, Ascending, WalkedTo;
    regions := [];
    var wordIdx: nat := 0;
    var prevWord: Option<nat> := None;
    WalkStart(words, stamps);
    for i := 0 to |stamps|
      invariant WalkedTo(words, stamps, i, wordIdx, prevWord, regions)
    {
      var pixel, time := stamps[i].pixel, Clamp(stamps[i].time);
      ghost var from := wordIdx;
      WalkOver(words, stamps, i, wordIdx, prevWord, regions);
      wordIdx := Advance(words, wordIdx, time);
      var here, value := WordHere(words, wordIdx, time);
      WalkStep(words, stamps, i, from, wordIdx, prevWord, regions);
      if here != prevWord || regions == [] {
        regions := regions + [Region(pixel, value)];
        prevWord := here;
      }
    }
    WalkEnd(words, stamps, wordIdx, prevWord, regions);
    if stamps != [] {
      regions := regions + [Region(stamps[|stamps| - 1].pixel, None)];
    }
    ClosingEdgeIs<T>(stamps);
    LaneIsComplete(words, stamps, regions);
  }

  lemma ClosingEdgeIs<T>(stamps: seq<Stamp>)
    ensures ClosingEdge<T>(stamps) == if stamps == [] then [] else [Region(stamps[|stamps| - 1].pixel, None)]
  {
  }

  lemma {:induction false} WalkEnd<T(!new)>(words: seq<Word<T>>, stamps: seq<Stamp>, wordIdx: nat,
                                            prevWord: Option<nat>, regions: seq<Region<T>>)
    requires WalkedTo(words, stamps, |stamps|, wordIdx, prevWord, regions)
    ensures regions == Regions(words, stamps, |stamps|)
  {
  }

  // ----- what the regions mean

  /** The text on display at a pixel: that of the last region starting not right of it. */
  function ShownAt<T>(regions: seq<Region<T>>, pixel: int): Option<Region<T>> {
    if regions == [] then None
    else if regions[|regions| - 1].pixel <= pixel then Some(regions[|regions| - 1])
    else ShownAt(regions[..|regions| - 1], pixel)
  }

  lemma {:induction false} LaterRegionHidden<T>(regions: seq<Region<T>>, region: Region<T>, pixel: int)
    requires pixel < region.pixel
    ensures ShownAt(regions + [region], pixel) == ShownAt(regions, pixel)
  {
    assert (regions + [region])[..|regions|] == regions;
  }

  lemma {:induction false} LastRegion<T(!new)>(words: seq<Word<T>>, stamps: seq<Stamp>, n: nat)
    requires Ascending(stamps) && 0 < n <= |stamps|
    ensures var regions := Regions(words, stamps, n);
      regions != [] && regions[|regions| - 1].pixel <= stamps[n - 1].pixel
      && regions[|regions| - 1].inner == TextAt(words, stamps[n - 1].time)
  {
    if n > 1 { LastRegion(words, stamps, n - 1); }
  }

  /** Every pixel before the closing edge shows the text of the word that covers its time, or a gap. */
  lemma {:induction false} EveryPixelShown<T(!new)>(words: seq<Word<T>>, stamps: seq<Stamp>, n: nat, i: nat)
    requires Ascending(stamps) && i < n <= |stamps|
    ensures var shown := ShownAt(Regions(words, stamps, n), stamps[i].pixel);
      shown.Some? && shown.value.inner == TextAt(words, stamps[i].time)
    decreases n
  {
    NextRegions(words, stamps, n);
    if i == n - 1 {
      LastRegion(words, stamps, n);
    } else {
      EveryPixelShown(words, stamps, n - 1, i);
      if Starts(words, stamps, n - 1) {
        LaterRegionHidden(Regions(words, stamps, n - 1),
                          Region(stamps[n - 1].pixel, TextAt(words, stamps[n - 1].time)), stamps[i].pixel);
      }
    }
  }

  ghost predicate StartsAt<T(!new)>(regions: seq<Region<T>>, pixel: int) {
    exists k :: 0 <= k < |regions| && regions[k].pixel == pixel
  }

  lemma {:induction false} StartsAtAppend<T(!new)>(regions: seq<Region<T>>, region: Region<T>, pixel: int)
    ensures StartsAt(regions + [region], pixel) <==> StartsAt(regions, pixel) || region.pixel == pixel
  {
    var all := regions + [region];
    if StartsAt(regions, pixel) {
      var k :| 0 <= k < |regions| && regions[k].pixel == pixel;
      assert all[k].pixel == pixel;
    }
    assert all[|regions|] == region;
  }

  /** A region starts at a pixel exactly if it is the first one or another word, or a gap, begins there. */
  lemma {:induction false} RegionPerWord<T(!new)>(words: seq<Word<T>>, stamps: seq<Stamp>, n: nat, i: nat)
    requires Ascending(stamps) && i < |stamps| && n <= |stamps|
    ensures StartsAt(Regions(words, stamps, n), stamps[i].pixel) <==> i < n && Starts(words, stamps, i)
    decreases n
  {
    if n > 0 {
      NextRegions(words, stamps, n);
      RegionPerWord(words, stamps, n - 1, i);
      if Starts(words, stamps, n - 1) {
        StartsAtAppend(Regions(words, stamps, n - 1),
                       Region(stamps[n - 1].pixel, TextAt(words, stamps[n - 1].time)), stamps[i].pixel);
      }
    }
  }

  /** Two words in neighbouring pixels stay two blocks, even if their texts are the same. */
  lemma {:induction false} EqualTextsStayApart<T(!new)>(words: seq<Word<T>>, stamps: seq<Stamp>, i: nat, j: nat, k: nat)
    requires Lane(words) && Ascending(stamps) && 0 < i < |stamps|
    requires j < k < |words| && words[j].text == words[k].text
    requires Contains(words[j], stamps[i - 1].time) && Contains(words[k], stamps[i].time)
    ensures StartsAt(Regions(words, stamps, |stamps|), stamps[i].pixel)
  {
    WordAtUnique(words, stamps[i - 1].time, j);
    WordAtUnique(words, stamps[i].time, k);
    RegionPerWord(words, stamps, |stamps|, i);
  }

  /** Pixel `i` displays the text of the word that covers its time, or a gap if none does. */
  ghost predicate ShowsWord<T(!new)>(words: seq<Word<T>>, stamp: Stamp, regions: seq<Region<T>>) {
    var shown := ShownAt(regions, stamp.pixel);
    && shown.Some?
    && (forall k :: 0 <= k < |words| && words[k].start <= stamp.time < words[k].end ==>
          shown.value.inner == Some(words[k].text))
    && ((forall k :: 0 <= k < |words| ==> !(words[k].start <= stamp.time < words[k].end)) ==> shown.value.inner == None)
  }

  /** The same word covers both times, or none covers either. */
  ghost predicate SameWord<T(!new)>(words: seq<Word<T>>, a: nat, b: nat) {
    forall k :: 0 <= k < |words| ==> (words[k].start <= a < words[k].end <==> words[k].start <= b < words[k].end)
  }

  lemma {:induction false} ShowsWordHere<T(!new)>(words: seq<Word<T>>, stamp: Stamp, regions: seq<Region<T>>)
    requires Lane(words) && ShownAt(regions, stamp.pixel).Some?
    requires ShownAt(regions, stamp.pixel).value.inner == TextAt(words, stamp.time)
    ensures ShowsWord(words, stamp, regions)
  {
    forall k | 0 <= k < |words| && words[k].start <= stamp.time < words[k].end
      ensures WordAt(words, stamp.time) == Some(k)
    {
      WordAtUnique(words, stamp.time, k);
    }
    var found := WordAt(words, stamp.time);
    assert found.Some? ==> Contains(words[found.value], stamp.time);
    hide ShownAt, WordAt, Lane;
  }

  lemma {:induction false} SameWordIs<T(!new)>(words: seq<Word<T>>, a: nat, b: nat)
    requires Lane(words)
    ensures WordAt(words, a) == WordAt(words, b) <==> SameWord(words, a, b)
  {
    forall k | 0 <= k < |words|
      ensures Contains(words[k], a) <==> WordAt(words, a) == Some(k)
      ensures Contains(words[k], b) <==> WordAt(words, b) == Some(k)
    {
      if Contains(words[k], a) { WordAtUnique(words, a, k); }
      if Contains(words[k], b) { WordAtUnique(words, b, k); }
    }
    hide WordAt, Lane;
  }

  /** No two of the first `n` regions at the same pixel, and none out of order. */
  ghost predicate InOrder<T(!new)>(regions: seq<Region<T>>, n: int) {
    forall j, k :: 0 <= j < k < n && k < |regions| ==> regions[j].pixel < regions[k].pixel
  }

  lemma {:induction false} RegionsInOrder<T(!new)>(words: seq<Word<T>>, stamps: seq<Stamp>, n: nat)
    requires Ascending(stamps) && n <= |stamps|
    ensures InOrder(Regions(words, stamps, n), |Regions(words, stamps, n)|)
    ensures forall k :: 0 <= k < |Regions(words, stamps, n)| ==>
      exists i :: 0 <= i < n && Regions(words, stamps, n)[k].pixel == stamps[i].pixel
  {
    if n > 0 {
      RegionsInOrder(words, stamps, n - 1);
      NextRegions(words, stamps, n);
      var before := Regions(words, stamps, n - 1);
      forall k | 0 <= k < |before|
        ensures before[k].pixel < stamps[n - 1].pixel
      {
        var i :| 0 <= i < n - 1 && before[k].pixel == stamps[i].pixel;
      }
      hide Regions, Starts, TextAt;
    }
  }

  /**
   The promise of the walk about the list it returns: every pixel before the last shows the word that
   covers its time, a region starts where the word changes and nowhere else, and the last pixel is a gap.
   */
  ghost predicate Complete<T(!new)>(words: seq<Word<T>>, stamps: seq<Stamp>, regions: seq<Region<T>>) {
    && (stamps == [] ==> regions == [])
    && InOrder(regions, |regions| - 1)
    && (forall i :: 0 <= i < |stamps| - 1 ==> ShowsWord(words, stamps[i], regions))
    && (forall i, j :: 0 <= j && i == j + 1 && i < |stamps| - 1 ==>
          (StartsAt(regions, stamps[i].pixel) <==> !SameWord(words, stamps[j].time, stamps[i].time)))
    && (stamps != [] ==>
          ShownAt(regions, stamps[|stamps| - 1].pixel) == Some(Region(stamps[|stamps| - 1].pixel, None)))
  }

  lemma {:induction false} CompleteAt<T(!new)>(words: seq<Word<T>>, stamps: seq<Stamp>, regions: seq<Region<T>>, i: nat)
    requires Lane(words) && Ascending(stamps) && i < |stamps| - 1
    requires regions == Regions(words, stamps, |stamps|) + [Region(stamps[|stamps| - 1].pixel, None)]
    ensures ShowsWord(words, stamps[i], regions)
    ensures i > 0 ==> (StartsAt(regions, stamps[i].pixel) <==> !SameWord(words, stamps[i - 1].time, stamps[i].time))
  {
    var n := |stamps|;
    var drawn, edge := Regions(words, stamps, n), Region(stamps[n - 1].pixel, None);
    assert stamps[i].pixel < stamps[n - 1].pixel;
    EveryPixelShown(words, stamps, n, i);
    LaterRegionHidden(drawn, edge, stamps[i].pixel);
    RegionPerWord(words, stamps, n, i);
    StartsAtAppend(drawn, edge, stamps[i].pixel);
    hide Regions, ShownAt, StartsAt, TextAt, ShowsWord, WordAt, SameWord, Lane, Ascending;
    ShowsWordHere(words, stamps[i], regions);
    if i > 0 {
      SameWordIs(words, stamps[i].time, stamps[i - 1].time);
      SameWordTurn(words, stamps[i].time, stamps[i - 1].time);
    }
  }

  lemma SameWordTurn<T(!new)>(words: seq<Word<T>>, a: nat, b: nat)
    ensures SameWord(words, a, b) <==> SameWord(words, b, a)
  {
  }

  lemma {:induction false} OrderWithEdge<T(!new)>(drawn: seq<Region<T>>, edge: Region<T>)
    requires InOrder(drawn, |drawn|)
    ensures InOrder(drawn + [edge], |drawn|)
    ensures ShownAt(drawn + [edge], edge.pixel) == Some(edge)
  {
  }

  lemma {:induction false} LaneIsComplete<T(!new)>(words: seq<Word<T>>, stamps: seq<Stamp>, regions: seq<Region<T>>)
    requires Lane(words) && Ascending(stamps)
    requires regions == Regions(words, stamps, |stamps|) + ClosingEdge(stamps)
    ensures Complete(words, stamps, regions)
  {
    ClosingEdgeIs<T>(stamps);
    RegionsInOrder(words, stamps, |stamps|);
    assert stamps == [] ==> regions == [];
    hide Regions, ShownAt, StartsAt, Starts, ShowsWord, SameWord, Lane, Ascending, ClosingEdge, InOrder;
    if stamps != [] {
      var drawn, edge := Regions(words, stamps, |stamps|), Region(stamps[|stamps| - 1].pixel, None);
      OrderWithEdge(drawn, edge);
      assert |regions| == |drawn| + 1;
      forall i | 0 <= i < |stamps| - 1
        ensures ShowsWord(words, stamps[i], regions)
        ensures i > 0 ==> (StartsAt(regions, stamps[i].pixel) <==> !SameWord(words, stamps[i - 1].time, stamps[i].time))
      {
        CompleteAt(words, stamps, regions, i);
      }
    } else {
      NoRegions<T>();
    }
  }

  lemma NoRegions<T(!new)>()
    ensures InOrder<T>([], -1)
  {
  }
}
