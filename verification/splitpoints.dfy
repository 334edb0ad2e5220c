/** Chapter resolution and split alignment (trackscalpel/splitpoints.py).

    The playlist decoder is not part of this model: its output arrives
    here as decoded records. Play-item times and mark time stamps are in
    ticks of 1/45000 s, each local to its own play item's clip. */
module SplitPoints {
  import opened Basics
  import Rounding

  /** Tick resolution of the playlist format, in ticks per second. */
  const PRECISION: nat := 45000

  /** Mark type of a chapter mark; every other type is ignored. */
  const CHAPTER_MARK: int := 1

  datatype PlayItem = PlayItem(inTime: int, outTime: int)

  /** `itemRef` is the play item the time stamp is local to; the decoder
      reads it as an unsigned field. */
  datatype PlayMark = PlayMark(itemRef: nat, markType: int, timeStamp: int)

  /** What the resolver hands back: chapter ticks on one absolute axis,
      and the resolution they are measured in. */
  datatype Chapters = Chapters(ticks: seq<int>, precision: nat)

  function Duration(item: PlayItem): int {
    item.outTime - item.inTime
  }

  /** Total length in ticks of the given play items, back to back. */
  function Elapsed(items: seq<PlayItem>): int {
    if items == [] then 0 else Elapsed(items[..|items| - 1]) + Duration(items[|items| - 1])
  }

  /** The offset each play item's local clock needs to land on the
      absolute axis: what has elapsed before the item, minus its own
      INTime. */
  function InTimeMods(items: seq<PlayItem>): (mods: seq<int>)
    ensures |mods| == |items|
  {
    seq(|items|, i requires 0 <= i < |items| => Elapsed(items[..i]) - items[i].inTime)
  }

  /** Absolute start tick of play item i. */
  function StartOf(items: seq<PlayItem>, i: nat): int
    requires i < |items|
  {
    items[i].inTime + InTimeMods(items)[i]
  }

  predicate IsChapter(m: PlayMark) {
    m.markType == CHAPTER_MARK
  }

  /** The chapter marks, in mark order. */
  function ChapterMarks(marks: seq<PlayMark>): (r: seq<PlayMark>)
    ensures |r| <= |marks|
    ensures forall k :: 0 <= k < |r| ==> IsChapter(r[k])
  {
    if marks == [] then []
    else if IsChapter(marks[0]) then [marks[0]] + ChapterMarks(marks[1..])
    else ChapterMarks(marks[1..])
  }

  /** The chapter comprehension: one pass over the marks that keeps the
      chapter marks and places each on the absolute axis through the
      offset of the item it refers to. A chapter mark naming a missing
      item fails; a non-chapter mark is never looked at. */
  function ResolveMarks(mods: seq<int>, marks: seq<PlayMark>): (r: Result<seq<int>>)
    ensures r.Ok? <==> forall m :: m in marks && IsChapter(m) ==> m.itemRef < |mods|
    ensures r.Ok? ==> |r.value| == |ChapterMarks(marks)|
    ensures r.Ok? ==> forall k :: 0 <= k < |r.value| ==>
      && ChapterMarks(marks)[k].itemRef < |mods|
      && r.value[k] == ChapterMarks(marks)[k].timeStamp + mods[ChapterMarks(marks)[k].itemRef]
    ensures r.Err? ==> r.error == MarkRefOutOfRange
  {
    if marks == [] then Ok([])
    else
      var rest := ResolveMarks(mods, marks[1..]);
      assert marks == [marks[0]] + marks[1..];
      if !IsChapter(marks[0]) then rest
      else
        if marks[0].itemRef >= |mods| then Err(MarkRefOutOfRange)
        else if rest.Err? then rest
        else Ok([marks[0].timeStamp + mods[marks[0].itemRef]] + rest.value)
  }

  /** `read_chapters` over decoded records: walk the play items with a
      running duration, storing each item's offset, then resolve the
      chapter marks against those offsets. */
  method ReadChapters(items: seq<PlayItem>, marks: seq<PlayMark>) returns (r: Result<Chapters>)
    ensures r.Ok? <==> ResolveMarks(InTimeMods(items), marks).Ok?
    ensures r.Ok? ==> r.value == Chapters(ResolveMarks(InTimeMods(items), marks).value, PRECISION)
    ensures r.Err? ==> r.error == MarkRefOutOfRange
  {
    var mods := new int[|items|];
    var duration := 0;
    for i := 0 to |items|
      invariant duration == Elapsed(items[..i])
      invariant forall j :: 0 <= j < i ==> mods[j] == InTimeMods(items)[j]
    {
      mods[i] := duration - items[i].inTime;
      assert items[..i + 1][..i] == items[..i];
      duration := duration + Duration(items[i]);
    }
    assert mods[..] == InTimeMods(items);
    var chapters := ResolveMarks(mods[..], marks);
    if chapters.Err? {
      return Err(chapters.error);
    }
    return Ok(Chapters(chapters.value, PRECISION));
  }

  lemma ElapsedStep(items: seq<PlayItem>, i: nat)
    requires i < |items|
    ensures Elapsed(items[..i + 1]) == Elapsed(items[..i]) + Duration(items[i])
  {
    assert items[..i + 1][..i] == items[..i];
  }

  /** The first play item's INTime lands on absolute tick 0, whatever
      that INTime is. */
  lemma FirstItemStartsAtZero(items: seq<PlayItem>)
    requires |items| > 0
    ensures StartOf(items, 0) == 0
  {
    assert items[..0] == [];
  }

  /** Play items follow each other without gap or overlap on the
      absolute axis: each starts where the previous one ends. */
  lemma ItemsContiguous(items: seq<PlayItem>, i: nat)
    requires i + 1 < |items|
    ensures StartOf(items, i + 1) == items[i].outTime + InTimeMods(items)[i]
  {
    ElapsedStep(items, i);
  }

  /** The last item ends at the total duration of the playlist. */
  lemma LastItemEndsAtTotal(items: seq<PlayItem>)
    requires |items| > 0
    ensures items[|items| - 1].outTime + InTimeMods(items)[|items| - 1] == Elapsed(items)
  {
    assert items[..|items|] == items;
    ElapsedStep(items, |items| - 1);
  }

  /** When no play item runs backwards, the items' absolute start ticks
      never decrease. */
  lemma {:induction false} StartsNonDecreasing(items: seq<PlayItem>, i: nat, j: nat)
    requires i <= j < |items|
    requires forall k :: 0 <= k < |items| ==> items[k].inTime <= items[k].outTime
    ensures StartOf(items, i) <= StartOf(items, j)
    decreases j - i
  {
    if i < j {
      StartsNonDecreasing(items, i, j - 1);
      ElapsedStep(items, j - 1);
    }
  }

  /** A mark is kept exactly when it is a chapter mark. */
  lemma {:induction false} ChapterMarksMembers(marks: seq<PlayMark>)
    ensures forall m :: m in ChapterMarks(marks) <==> m in marks && IsChapter(m)
  {
    if marks != [] {
      ChapterMarksMembers(marks[1..]);
      assert marks == [marks[0]] + marks[1..];
    }
  }

  /** Chapter marks keep their relative order: filtering a concatenation
      is concatenating the filtered parts. */
  lemma {:induction false} ChapterMarksAppend(a: seq<PlayMark>, b: seq<PlayMark>)
    ensures ChapterMarks(a + b) == ChapterMarks(a) + ChapterMarks(b)
  {
    if a != [] {
      assert (a + b)[1..] == a[1..] + b;
      ChapterMarksAppend(a[1..], b);
    } else {
      assert a + b == b;
    }
  }

  /** Marks of other types neither add chapters nor cause failures: the
      resolver gives the same answer on the chapter marks alone. */
  lemma OnlyChapterMarksMatter(mods: seq<int>, marks: seq<PlayMark>)
    ensures ResolveMarks(mods, marks) == ResolveMarks(mods, ChapterMarks(marks))
  {
    ChapterMarksIdempotent(marks);
    SameChaptersSameResult(mods, marks, ChapterMarks(marks));
  }

  /** The resolver's answer depends on the chapter marks alone. */
  lemma SameChaptersSameResult(mods: seq<int>, a: seq<PlayMark>, b: seq<PlayMark>)
    requires ChapterMarks(a) == ChapterMarks(b)
    ensures ResolveMarks(mods, a) == ResolveMarks(mods, b)
  {
    var ra, rb := ResolveMarks(mods, a), ResolveMarks(mods, b);
    assert ra.Ok? <==> rb.Ok? by {
      ChapterMarksMembers(a);
      ChapterMarksMembers(b);
    }
    if ra.Ok? {
      assert |ra.value| == |rb.value|;
      forall k | 0 <= k < |ra.value|
        ensures ra.value[k] == rb.value[k]
      {
      }
      assert ra.value == rb.value;
    } else {
      assert ra == Err(MarkRefOutOfRange) == rb;
    }
  }

  /** Filtering twice keeps what filtering once keeps. */
  lemma {:induction false} ChapterMarksIdempotent(marks: seq<PlayMark>)
    ensures ChapterMarks(ChapterMarks(marks)) == ChapterMarks(marks)
  {
    if marks != [] {
      ChapterMarksIdempotent(marks[1..]);
      if IsChapter(marks[0]) {
        var chapters := [marks[0]] + ChapterMarks(marks[1..]);
        assert chapters[1..] == ChapterMarks(marks[1..]);
      }
    }
  }

  /** The resolver does not sort: marks given out of order come back out
      of order. */
  lemma ChaptersNotSorted()
    ensures ResolveMarks([0], [PlayMark(0, 1, 90000), PlayMark(0, 1, 45000)]) == Ok([90000, 45000])
  {
    var late, early := PlayMark(0, 1, 90000), PlayMark(0, 1, 45000);
    assert [late, early][1..] == [early];
    assert [early][1..] == [];
    assert [45000] + [] == [45000];
    assert [90000] + [45000] == [90000, 45000];
  }

  /** `align_splits`: each chapter tick becomes a whole number of blocks of
      `samplerate // align` samples; the number of blocks is the quotient
      tick * align / precision under the chosen rounder. */
  function AlignSplits(chapters: seq<int>, precision: nat, samplerate: int, align: int,
                       mode: Rounding.Mode): (splits: seq<int>)
    requires precision > 0 && align != 0
    ensures |splits| == |chapters|
    ensures forall i :: 0 <= i < |splits| ==>
      splits[i] == Rounding.Round(mode, chapters[i] * align, precision) * BlockSize(samplerate, align)
  {
    seq(|chapters|, i requires 0 <= i < |chapters| =>
      Rounding.Round(mode, chapters[i] * align, precision) * BlockSize(samplerate, align))
  }

  /** Python's floor division `samplerate // align`. */
  function BlockSize(samplerate: int, align: int): (b: int)
    requires align != 0
    ensures b * align <= samplerate < b * align + align || b * align + align < samplerate <= b * align
  {
    if align > 0 then Rounding.Floor(samplerate, align)
    else Rounding.Floor(-samplerate, -align)
  }

  lemma MultipleMod(k: int, b: int)
    requires b != 0
    ensures (k * b) % b == 0
  {
    var q, r := (k * b) / b, (k * b) % b;
    assert k * b == b * q + r;
    assert b * (k - q) == r;
    if k - q > 0 {
      if b > 0 { Rounding.MulLe(1, k - q, b); } else { Rounding.MulLe(1, k - q, -b); }
    } else if k - q < 0 {
      if b > 0 { Rounding.MulLe(1, q - k, b); } else { Rounding.MulLe(1, q - k, -b); }
    }
  }

  /** Every split point is an exact multiple of the block size, whichever
      rounder is used. */
  lemma SplitsAligned(chapters: seq<int>, precision: nat, samplerate: int, align: int,
                      mode: Rounding.Mode, i: nat)
    requires precision > 0 && align != 0 && BlockSize(samplerate, align) != 0
    requires i < |chapters|
    ensures AlignSplits(chapters, precision, samplerate, align, mode)[i] % BlockSize(samplerate, align) == 0
  {
    MultipleMod(Rounding.Round(mode, chapters[i] * align, precision), BlockSize(samplerate, align));
  }

  lemma MulMonotone(a: int, b: int, c: int)
    requires a <= b && c >= 0
    ensures a * c <= b * c
  {
    if c > 0 {
      Rounding.MulLe(a, b, c);
    }
  }

  /** The block size has the sign of the alignment: a negative alignment
      flips both the block count and the block size. */
  lemma BlockSizeSign(samplerate: nat, align: int)
    requires align != 0
    ensures align > 0 ==> BlockSize(samplerate, align) >= 0
    ensures align < 0 ==> BlockSize(samplerate, align) <= 0
  {
    var b := BlockSize(samplerate, align);
    if align > 0 && b < 0 {
      Rounding.MulLe(b + 1, 0, align);
    } else if align < 0 && b > 0 {
      Rounding.MulLe(1, b, -align);
    }
  }

  /** With a fixed rounder, chapters in order give split points in order,
      for either sign of the alignment: a negative one turns the block
      count and the block size both negative, and the two flips cancel. */
  lemma SplitsSorted(chapters: seq<int>, precision: nat, samplerate: nat, align: int,
                     mode: Rounding.Mode)
    requires precision > 0 && align != 0 && Sorted(chapters)
    ensures Sorted(AlignSplits(chapters, precision, samplerate, align, mode))
  {
    var splits := AlignSplits(chapters, precision, samplerate, align, mode);
    forall i, j | 0 <= i <= j < |splits| ensures splits[i] <= splits[j] {
      SplitMonotone(chapters[i], chapters[j], precision, samplerate, align, mode);
    }
  }

  /** One chapter no later than another gives a split point no later
      than the other's. */
  lemma SplitMonotone(c1: int, c2: int, precision: nat, samplerate: nat, align: int, mode: Rounding.Mode)
    requires precision > 0 && align != 0 && c1 <= c2
    ensures Rounding.Round(mode, c1 * align, precision) * BlockSize(samplerate, align)
         <= Rounding.Round(mode, c2 * align, precision) * BlockSize(samplerate, align)
  {
    var b := BlockSize(samplerate, align);
    BlockSizeSign(samplerate, align);
    var r1, r2 := Rounding.Round(mode, c1 * align, precision), Rounding.Round(mode, c2 * align, precision);
    if align > 0 {
      BlockCountMonotone(c1, c2, precision, align, mode);
      MulMonotone(r1, r2, b);
    } else {
      BlockCountAntitone(c1, c2, precision, align, mode);
      MulAntitone(r2, r1, b);
    }
  }

  /** With a positive alignment a later chapter never has fewer blocks. */
  lemma BlockCountMonotone(c1: int, c2: int, precision: nat, align: int, mode: Rounding.Mode)
    requires precision > 0 && align > 0 && c1 <= c2
    ensures Rounding.Round(mode, c1 * align, precision) <= Rounding.Round(mode, c2 * align, precision)
  {
    MulMonotone(c1, c2, align);
    Rounding.RoundMonotone(mode, c1 * align, c2 * align, precision);
  }

  /** With a negative alignment a later chapter never has more blocks. */
  lemma BlockCountAntitone(c1: int, c2: int, precision: nat, align: int, mode: Rounding.Mode)
    requires precision > 0 && align < 0 && c1 <= c2
    ensures Rounding.Round(mode, c2 * align, precision) <= Rounding.Round(mode, c1 * align, precision)
  {
    MulAntitone(c1, c2, align);
    Rounding.RoundMonotone(mode, c2 * align, c1 * align, precision);
  }

  lemma MulAntitone(a: int, b: int, c: int)
    requires a <= b && c <= 0
    ensures b * c <= a * c
  {
    MulMonotone(a, b, -c);
  }

  /** For non-negative chapter ticks, rounding down never gives a later
      split than rounding to nearest, nor that one a later split than
      rounding up. */
  lemma SplitModesOrdered(chapters: seq<int>, precision: nat, samplerate: nat, align: int, i: nat)
    requires precision > 0 && align > 0 && i < |chapters| && chapters[i] >= 0
    ensures AlignSplits(chapters, precision, samplerate, align, Rounding.Down)[i]
         <= AlignSplits(chapters, precision, samplerate, align, Rounding.Nearest)[i]
         <= AlignSplits(chapters, precision, samplerate, align, Rounding.Up)[i]
  {
    var n := chapters[i] * align;
    assert n >= 0 by { MulMonotone(0, chapters[i], align); }
    Rounding.ModesOrdered(n, precision);
    var b := BlockSize(samplerate, align);
    BlockSizeSign(samplerate, align);
    MulMonotone(Rounding.Round(Rounding.Down, n, precision), Rounding.Round(Rounding.Nearest, n, precision), b);
    MulMonotone(Rounding.Round(Rounding.Nearest, n, precision), Rounding.Round(Rounding.Up, n, precision), b);
  }

  /** With a negative alignment, which the divisibility check accepts,
      the block count of a non-negative chapter is rounded on a
      non-positive quotient and then multiplied by a non-positive block
      size: `up` gives the same split as `down`, and `nearest` a split at
      or after it. */
  lemma SplitModesNegativeAlign(chapters: seq<int>, precision: nat, samplerate: nat, align: int, i: nat)
    requires precision > 0 && align < 0 && i < |chapters| && chapters[i] >= 0
    ensures AlignSplits(chapters, precision, samplerate, align, Rounding.Down)[i]
         == AlignSplits(chapters, precision, samplerate, align, Rounding.Up)[i]
    ensures AlignSplits(chapters, precision, samplerate, align, Rounding.Up)[i]
         <= AlignSplits(chapters, precision, samplerate, align, Rounding.Nearest)[i]
  {
    var n := chapters[i] * align;
    assert n <= 0 by { MulMonotone(0, chapters[i], -align); }
    if n == 0 {
      Rounding.ExactQuotient(Rounding.Down, 0, precision);
      Rounding.ExactQuotient(Rounding.Up, 0, precision);
    }
    var b := BlockSize(samplerate, align);
    BlockSizeSign(samplerate, align);
    MulMonotone(Rounding.Round(Rounding.Nearest, n, precision), Rounding.Round(Rounding.Up, n, precision), -b);
  }

  /** `-a -75` at 44100 Hz: blocks of -588 samples. Chapters at 1 s and
      2 s still give split points in order, 44100 and 88200. Half a
      second is -37.5 blocks: `up` and `down` give -37, so sample 21756,
      while `nearest` gives -38, so the later sample 22344. */
  lemma NegativeAlignExample()
    ensures BlockSize(44100, -75) == -588
    ensures AlignSplits([45000, 90000], PRECISION, 44100, -75, Rounding.Down) == [44100, 88200]
    ensures AlignSplits([22500], PRECISION, 44100, -75, Rounding.Up) == [21756]
    ensures AlignSplits([22500], PRECISION, 44100, -75, Rounding.Down) == [21756]
    ensures AlignSplits([22500], PRECISION, 44100, -75, Rounding.Nearest) == [22344]
  {
    assert Rounding.Round(Rounding.Down, 45000 * -75, PRECISION) == -75;
    assert Rounding.Round(Rounding.Down, 90000 * -75, PRECISION) == -150;
    assert Rounding.Round(Rounding.Up, 22500 * -75, PRECISION) == -37;
    assert Rounding.Round(Rounding.Down, 22500 * -75, PRECISION) == -37;
    assert Rounding.Round(Rounding.Nearest, 22500 * -75, PRECISION) == -38;
  }

  /** CD alignment at 44100 Hz: blocks of 588 samples; half a second
      (22500 ticks) is 37.5 blocks, rounded down to 37, so sample 21756. */
  lemma CdAlignmentExample()
    ensures BlockSize(44100, 75) == 588
    ensures AlignSplits([22500], PRECISION, 44100, 75, Rounding.Down) == [21756]
  {
    assert Rounding.Round(Rounding.Down, 22500 * 75, PRECISION) == 37;
  }

  /** With the default alignment (the sample rate itself), a chapter a
      whole number of seconds in lands exactly on that second's first
      sample, under every rounder. */
  lemma WholeSecondsExact(seconds: seq<int>, precision: nat, samplerate: int, mode: Rounding.Mode)
    requires precision > 0 && samplerate > 0
    ensures var chapters := seq(|seconds|, i requires 0 <= i < |seconds| => seconds[i] * precision);
            var splits := AlignSplits(chapters, precision, samplerate, samplerate, mode);
            forall i :: 0 <= i < |seconds| ==> splits[i] == seconds[i] * samplerate
  {
    var chapters := seq(|seconds|, i requires 0 <= i < |seconds| => seconds[i] * precision);
    var splits := AlignSplits(chapters, precision, samplerate, samplerate, mode);
    Rounding.FloorUnique(samplerate, samplerate, 1);
    assert BlockSize(samplerate, samplerate) == 1;
    forall i | 0 <= i < |seconds|
      ensures splits[i] == seconds[i] * samplerate
    {
      var k := seconds[i] * samplerate;
      assert chapters[i] * samplerate == k * precision;
      Rounding.ExactQuotient(mode, k, precision);
    }
  }
}
