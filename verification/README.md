# trackscalpel in Dafny

trackscalpel cuts one long audio file into tracks at the chapter marks of a
Blu-ray playlist (MPLS). This project models the core of that pipeline and
proves properties about it:

- **Chapter resolution.** `read_chapters` walks the decoded play items with
  a running duration. It stores each item's offset (`INTimeMod`) and places
  every chapter mark (mark type 1) on one absolute axis of 1/45000 s ticks.
- **Split alignment.** `align_splits` turns each tick into a whole number
  of blocks of `samplerate // align` samples. The number of blocks is the
  quotient `tick * align / precision` under the chosen rounder: `int`,
  `round` or `ceil`.
- **The packaged command's core** (`main` in trackscalpel/trackscalpel.py):
  - the alignment check;
  - dropping split points past the end of the input, with one warning
    each, then appending the end;
  - track lengths as consecutive differences;
  - the seek to the first split point;
  - the track loop, which either skips an output that exists (seeking
    past the track) or copies the track in reads of at most 16384 frames.
- **The original stand-alone script** (trackscalpel.py at the top of the
  repository). It resolves and aligns the same way, but pads the split
  list differently and does not seek past a skipped track.

## Modules

Modules follow the program's structure:

- `Basics`: errors, `Result`, `Option`, sortedness and sums.
- `Rounding`: the three rounders on an exact quotient `n / d`.
- `SplitPoints`: trackscalpel/splitpoints.py.
- `Audio`: the input file as a frame count plus a read cursor, and the
  chunked copy loop.
- `TrackNames`: the output names `01.wav`, `02.wav`, ….
- `TrackScalpel`: the packaged `main`.
- `LegacyScript`: the old script.

## Modelling choices

- **Play items and marks.** These arrive as decoded records:
  - `PlayItem(inTime, outTime)`;
  - `PlayMark(itemRef, markType, timeStamp)`. `itemRef` is a `nat`
    because the playlist format stores it unsigned.
- **Per-item offsets.** The source writes them into each play item's
  dictionary in place. `ReadChapters` writes them into an array indexed
  like the items, with a loop proved against `InTimeMods`.
- **Rounding.** The float quotient `x * align / precision` is the exact
  rational `(x * align) / precision`:
  - `int` is truncation toward zero (`Trunc`). For a negative quotient
    this rounds up, not down.
  - `round` is round-half-to-even (`HalfEven`).
  - `ceil` is `Ceil`.
  - `samplerate // align` is Python's floor division for both signs
    (`BlockSize`).
- **The alignment check.** `(samplerate / align).is_integer()` is modelled
  as exact divisibility. A zero alignment, which raises
  `ZeroDivisionError`, is the `ZeroAlignment` error.
- **The input file.** `Audio.SoundFile` is a class with a constant
  `length` and a mutable cursor `pos`. `Seek`, `SeekBy` and `Read` change
  only the cursor. A read near the end of the file returns fewer frames,
  and a read outside the file returns none.
- **Writing a track.** This is recorded as the list of chunks read for it:
  each chunk is a start frame and a frame count. A track's run through
  the loop is an `Action`: `Skipped(name)` or `Written(name, chunks)`.
- **The track loop.** `Extraction` is its specification function. It is
  parameterised by a `Loop` (buffer size, and whether skipping seeks), so
  the package loop (`TrackScalpel.LOOP`: 16384, seeks) and the script's
  loop (`LegacyScript.LOOP`: 4096, no seek) share one definition.
  `ExtractTracks` in each module is proved against it.
- **Existing outputs.** These are a set of names relative to the output
  directory.

## Model

| member | source | states |
|---|---|---|
| SplitPoints.ReadChapters | trackscalpel/splitpoints.py:4-24 | The play-item loop stores, for each item, the duration elapsed before it minus its own INTime. The result succeeds exactly when every chapter mark resolves. It then carries the resolved chapter ticks and resolution 45000; otherwise it is the out-of-range-reference error. |
| SplitPoints.ResolveMarks | trackscalpel/splitpoints.py:20-22 | Succeeds iff every chapter mark refers to an existing play item, so other marks are never looked at. Gives one tick per chapter mark, in mark order: the mark's time stamp plus the offset of the item it refers to. The only failure is the out-of-range reference. |
| SplitPoints.FirstItemStartsAtZero | trackscalpel/splitpoints.py:10-12 | The first play item's INTime lands on absolute tick 0, whatever that INTime is. |
| SplitPoints.ItemsContiguous | trackscalpel/splitpoints.py:11-13 | Each play item starts on the absolute axis exactly where the previous one ends. |
| SplitPoints.LastItemEndsAtTotal | trackscalpel/splitpoints.py:11-13 | The last play item ends at the sum of all item durations, which is the accumulator's final value. |
| SplitPoints.StartsNonDecreasing | trackscalpel/splitpoints.py:10-13 | When no item has OUTTime before INTime, absolute item starts never decrease. |
| SplitPoints.ChapterMarks | trackscalpel/splitpoints.py:22 | The filter keeps at most as many marks as it is given, and every mark it keeps is a chapter mark. |
| SplitPoints.ChapterMarksMembers | trackscalpel/splitpoints.py:22 | A mark is kept iff it is among the marks and has mark type 1. |
| SplitPoints.ChapterMarksAppend | trackscalpel/splitpoints.py:20-22 | The filter preserves mark order: filtering a concatenation concatenates the filtered parts. |
| SplitPoints.ChapterMarksIdempotent | trackscalpel/splitpoints.py:22 | Filtering chapter marks again changes nothing. |
| SplitPoints.SameChaptersSameResult | trackscalpel/splitpoints.py:20-22 | Two mark lists with the same chapter marks resolve to the same result, success or failure. |
| SplitPoints.OnlyChapterMarksMatter | trackscalpel/splitpoints.py:20-22 | Resolving all marks gives the same result as resolving the chapter marks alone. |
| SplitPoints.ChaptersNotSorted | trackscalpel/splitpoints.py:20-22 | The resolver does not sort: chapters given at 2 s then 1 s come back in that order. |
| SplitPoints.BlockSize | trackscalpel/splitpoints.py:27 | `samplerate // align` is the floor of the quotient, for either sign of align. |
| SplitPoints.BlockSizeSign | trackscalpel/splitpoints.py:27 | For a sample rate that is not negative, the block size has the sign of the alignment. |
| SplitPoints.AlignSplits | trackscalpel/splitpoints.py:26-28 | One split point per chapter, in chapter order. Split point i is chapter i's tick times the alignment over the precision, rounded by the chosen rounder, times the block size. What this gives is proved in SplitsAligned, SplitsSorted, SplitModesOrdered and WholeSecondsExact. |
| SplitPoints.SplitsAligned | trackscalpel/splitpoints.py:27-28 | Every split point is an exact multiple of the block size, under every rounder. |
| SplitPoints.SplitsSorted | trackscalpel/splitpoints.py:28 | With a fixed rounder, chapters in order give split points in order, for either sign of the alignment. A negative alignment makes both the block count and the block size negative, and the two cancel. |
| SplitPoints.SplitMonotone | trackscalpel/splitpoints.py:28 | For any non-zero alignment and any rounder, a chapter no later than another gives a split point no later than the other's. |
| SplitPoints.BlockCountMonotone | trackscalpel/splitpoints.py:28 | With a positive alignment, a later chapter never gets fewer blocks. |
| SplitPoints.BlockCountAntitone | trackscalpel/splitpoints.py:28 | With a negative alignment, a later chapter never gets more blocks. |
| SplitPoints.SplitModesOrdered | trackscalpel/splitpoints.py:28 | For a non-negative chapter tick and a positive alignment, the split under `int` ≤ the split under `round` ≤ the split under `ceil`. |
| SplitPoints.SplitModesNegativeAlign | trackscalpel/splitpoints.py:27-28 | For a non-negative chapter tick and a negative alignment, `int` and `ceil` give the same split, and `round` gives a split at or after it. |
| SplitPoints.NegativeAlignExample | trackscalpel/splitpoints.py:27-28 | At 44100 Hz with alignment −75, blocks are −588 samples. Chapters at 1 s and 2 s give 44100 and 88200, still in order. Half a second gives 21756 under `int` and `ceil`, but 22344 under `round`. |
| SplitPoints.CdAlignmentExample | trackscalpel/splitpoints.py:27-28 | At 44100 Hz with alignment 75, blocks are 588 samples, and tick 22500 rounded down gives 37 blocks, sample 21756. |
| SplitPoints.WholeSecondsExact | trackscalpel/splitpoints.py:27-28 | With the alignment equal to the sample rate, a chapter a whole number of seconds in lands on that second's first sample under every rounder. For example, ticks [0, 45000, 135000] at 48000 Hz give [0, 48000, 144000]. |
| Rounding.Floor | trackscalpel/splitpoints.py:27 | Floor division: the result r satisfies r·d ≤ n < r·d + d. |
| Rounding.Ceil | trackscalpel/trackscalpel.py:28 | `ceil`: the result r satisfies r·d − d < n ≤ r·d. |
| Rounding.Trunc | trackscalpel/trackscalpel.py:28 | `int`: the floor for a non-negative quotient, the ceiling for a negative one. |
| Rounding.HalfEven | trackscalpel/trackscalpel.py:28 | `round` gives the floor or the next integer. |
| Rounding.HalfEvenNearest | trackscalpel/trackscalpel.py:28 | `round` is within half a unit of the quotient, and on an exact tie it is even. |
| Rounding.Round | trackscalpel/trackscalpel.py:28 | Every rounder lies between the floor and the ceiling of the quotient. |
| Rounding.FloorUnique | trackscalpel/splitpoints.py:27 | The floor is the only integer q with q·d ≤ n < q·d + d. |
| Rounding.CeilUnique | trackscalpel/trackscalpel.py:28 | The ceiling is the only integer q with q·d − d < n ≤ q·d. |
| Rounding.CeilIsFloorOrNext | trackscalpel/trackscalpel.py:28 | The ceiling equals the floor when d divides n, and is one more otherwise. |
| Rounding.ExactQuotient | trackscalpel/trackscalpel.py:28 | An exact quotient is left unchanged by every rounder. |
| Rounding.ModesOrdered | trackscalpel/trackscalpel.py:28 | For a non-negative quotient, `int` ≤ `round` ≤ `ceil`. |
| Rounding.DownRoundsNegativeUp | trackscalpel/trackscalpel.py:28 | For a negative quotient that is not whole, `int` agrees with `ceil` and is one above the floor. |
| Rounding.FloorMonotone | trackscalpel/splitpoints.py:27 | Floor division never reorders two numerators. |
| Rounding.CeilMonotone | trackscalpel/trackscalpel.py:28 | `ceil` never reorders two quotients. |
| Rounding.TruncMonotone | trackscalpel/trackscalpel.py:28 | `int` never reorders two quotients, including across zero. |
| Rounding.HalfEvenMonotone | trackscalpel/trackscalpel.py:28 | `round` never reorders two quotients. |
| Rounding.RoundMonotone | trackscalpel/trackscalpel.py:28 | A fixed rounder never reorders two quotients. |
| TrackScalpel.ResolveAlign | trackscalpel/trackscalpel.py:54-58 | No alignment means the sample rate. A given alignment is accepted iff it divides the sample rate, and is then used as given. Zero is its own error; any other rejected value is the not-a-divisor error. |
| TrackScalpel.CdAlignment | trackscalpel/trackscalpel.py:26-27 | `--cd` is alignment 75. It is accepted at 44100 Hz and 48000 Hz, with blocks of 588 and 640 samples, and rejected at 32000 Hz as not a divisor. |
| TrackScalpel.AcceptedAlignDividesRate | trackscalpel/trackscalpel.py:54-58 | An accepted alignment is non-zero, and block size times alignment is exactly the sample rate. |
| TrackScalpel.KeptLength | trackscalpel/trackscalpel.py:64-67 | The drop loop stops at a prefix that is empty or ends at or before the end of the input. Everything after that prefix lies past the end. |
| TrackScalpel.ClampSplits | trackscalpel/trackscalpel.py:64-69 | The in-place pop loop and append give `Clamp` of the input. The warnings name tracks len(splits), len(splits) − 1, …, one per dropped split point. |
| TrackScalpel.Clamp | trackscalpel/trackscalpel.py:64-69 | Whatever the split points, even none at all, the final list is non-empty and ends exactly at the input's frame count. |
| TrackScalpel.ClampDropsOnlyTrailingOutOfRange | trackscalpel/trackscalpel.py:64-69 | Only trailing split points past the end are dropped, and the kept prefix is unchanged. The end is appended iff the list emptied or its last kept point is before the end. |
| TrackScalpel.ClampSorted | trackscalpel/trackscalpel.py:61-69 | Split points in order stay in order, and every final split point is at most the frame count. |
| TrackScalpel.ClampIdempotent | trackscalpel/trackscalpel.py:64-69 | Clamping an already clamped list changes nothing. |
| TrackScalpel.ThirdChapterPastEndExample | trackscalpel/trackscalpel.py:64-70 | Splits [0, 48000, 144000] on 100000 frames become [0, 48000, 100000], with one warning, for track 3, and 2 tracks. |
| TrackScalpel.TrackLengths | trackscalpel/trackscalpel.py:70 | One length per consecutive pair of split points, none for an empty list: length k is splits[k+1] − splits[k]. |
| TrackScalpel.LengthsTelescope | trackscalpel/trackscalpel.py:70 | The track lengths (consecutive differences) add up to the last split point minus the first. |
| TrackScalpel.ExtractTrack | trackscalpel/trackscalpel.py:93-112 | One pass of the loop body gives the action and the new cursor that `TrackStep` prescribes. That is a skip with a seek by the track length when the output exists and overwriting is off, and the chunked copy otherwise. |
| TrackScalpel.ExtractTracks | trackscalpel/trackscalpel.py:92-112 | The loop's log of actions and the final cursor are exactly those of `Extraction` from the entry cursor. |
| TrackScalpel.ExtractNext | trackscalpel/trackscalpel.py:93-112 | One pass of the loop body: the run from this track is this track's action followed by the run from the new cursor. |
| TrackScalpel.OneTrack | trackscalpel/trackscalpel.py:94-112 | A track that starts reading at its own split point and can be cut in place is done right, and leaves the cursor on the next split point. It is skipped by a seeking loop, whatever its length, or written with exactly its frames from inside the file. |
| TrackScalpel.TracksFrom | trackscalpel/trackscalpel.py:92-112 | The cursor invariant: from any track on, each track starts reading at its own split point, all are done right, and the cursor ends on the last split point. The condition is that every track can be cut in place: a skipped track needs a loop that seeks past it, and a written track must lie inside the file with a length that is not negative. |
| TrackScalpel.SortedInPlace | trackscalpel/trackscalpel.py:92-112 | Split points in order and inside the input can all be cut in place, provided the loop seeks on skips or nothing is skipped. |
| TrackScalpel.TracksReadFromTheirSplits | trackscalpel/trackscalpel.py:73-112 | After the seek to splits[0], every track starts reading at its own split point, provided each written track lies inside the input with a length that is not negative. Skipped tracks may have any length. There is one action per track. Track k is skipped iff its output name exists and overwrite is off. That name is `TrackName(k, extension)`: k + 1 padded with '0' to two digits, then the extension. Otherwise it receives exactly frames [splits[k], splits[k+1]) in reads of at most 16384 frames. The cursor ends at the last split point. |
| TrackScalpel.UnsortedSplitsMisread | trackscalpel/trackscalpel.py:64-112 | Split points out of order pass unchanged: [200, 50] on 300 frames clamp to [200, 50, 300]. Track 1 has a negative length and is written empty with the cursor left at 200. Track 2 then receives frames 200–299, not its own frames 50–299. |
| TrackScalpel.NegativeLengthCopiesNothing | trackscalpel/trackscalpel.py:109 | A track of length zero or less that is not skipped is written with no audio, and the cursor does not move. |
| TrackScalpel.UnsortedSkippedTrackSeeksBack | trackscalpel/trackscalpel.py:94-98 | The same split points [200, 50, 300] with `01.wav` present: the seek by −150 takes the cursor back to 50, and track 2 receives exactly its own frames. |
| TrackScalpel.SplitTracks | trackscalpel/trackscalpel.py:39-112 | The command fails with the chapter error first, then the alignment error. Otherwise it succeeds with the clamped split points, their warnings, and the log and final cursor of the track loop started at splits[0]. |
| TrackScalpel.NonNegativeSplits | trackscalpel/splitpoints.py:28 | Non-negative chapters with any non-zero alignment give non-negative split points. |
| TrackScalpel.ZeroSplit | trackscalpel/splitpoints.py:28 | A chapter at tick 0 lands on sample 0 under every rounder and every alignment. |
| TrackScalpel.SortedChaptersCutExactly | trackscalpel/trackscalpel.py:61-112 | End to end: for chapters in order and not negative, with any non-zero alignment, every track is cut exactly between its split points. The last split point and the final cursor are the end of the input. |
| Audio.Available | trackscalpel/trackscalpel.py:111 | A read never returns more than asked for. Inside the file it returns all of it, and whatever it returns lies inside the file. |
| Audio.SoundFile.Open | trackscalpel/trackscalpel.py:47 | A newly opened input has its frame count and its cursor on frame 0. |
| Audio.SoundFile.Seek | trackscalpel/trackscalpel.py:74 | An absolute seek puts the cursor on the given frame. |
| Audio.SoundFile.SeekBy | trackscalpel/trackscalpel.py:97 | A relative seek moves the cursor by the given offset. |
| Audio.SoundFile.Read | trackscalpel/trackscalpel.py:111 | A read returns the frames available at the cursor and moves the cursor past them. |
| Audio.CopyTrack | trackscalpel/trackscalpel.py:109-112 | The `while length > 0` loop reads exactly the chunks `CopyChunks` prescribes, and moves the cursor by the frames copied. |
| Audio.CopyInsideFile | trackscalpel/trackscalpel.py:109-112 | For a track inside the file, the chunks are contiguous from the track's first frame and add up to its length. Each is non-empty and at most the buffer size. |
| Audio.CopyClipped | trackscalpel/trackscalpel.py:109-112 | For a track that runs past the end of the file, the copy stops at the end: the cursor ends at min(start + length, file length). |
| Audio.CopyNothing | trackscalpel/trackscalpel.py:109 | A track of length zero or less reads nothing. |
| Audio.CopyReadCount | trackscalpel/trackscalpel.py:109-112 | The copy loop makes exactly ceil(length / buffer size) reads. |
| TrackNames.Decimal | trackscalpel/trackscalpel.py:93 | The decimal form of n is non-empty, made of digits only, and spells n. |
| TrackNames.LeadingZero | trackscalpel/trackscalpel.py:93 | A leading '0' does not change the number a digit string spells. |
| TrackNames.Ordinal | trackscalpel/trackscalpel.py:93 | `0>2` padding: the result is the decimal form of n, preceded by '0's up to a width of two. It is two characters long for n < 10 and as long as the decimal form otherwise. |
| TrackNames.OrdinalValue | trackscalpel/trackscalpel.py:93 | The padded ordinal still spells n. |
| TrackNames.TrackName | trackscalpel/trackscalpel.py:93 | The name is at least two characters longer than the extension, and ends with it. |
| TrackNames.TrackNameSpells | trackscalpel/trackscalpel.py:93 | In front of the extension stands exactly the padded ordinal of track + 1, which spells the 1-based track number. |
| TrackNames.DecimalShape | trackscalpel/trackscalpel.py:93 | A decimal form is one digit long iff the number is below 10, and a positive number's first digit is not '0'. |
| TrackNames.DecimalInjective | trackscalpel/trackscalpel.py:93 | Different numbers have different decimal forms. |
| TrackNames.OrdinalInjective | trackscalpel/trackscalpel.py:93 | Zero padding keeps different numbers apart. |
| TrackNames.TrackNamesDistinct | trackscalpel/trackscalpel.py:93 | Different tracks get different output names. |
| TrackNames.FirstNameExample | trackscalpel/trackscalpel.py:93 | Track index 0 with `.flac` is named `01.flac`. |
| TrackNames.TwoTrackNames | trackscalpel/trackscalpel.py:93 | Track indexes 0 and 1 with `.wav` are named `01.wav` and `02.wav`. |
| TrackNames.TwoDigitNameExample | trackscalpel/trackscalpel.py:93 | Track index 11 is named `12.wav`. |
| TrackNames.ThreeDigitNameExample | trackscalpel/trackscalpel.py:93 | The width is a minimum: track index 99 is named `100.wav`. |
| LegacyScript.PadSplits | trackscalpel.py:84-85 | An empty list fails, and only an empty list: any other list succeeds. The list is then kept as a prefix, and the end is appended iff the last split point is before it; an appended element is the end itself. So the last element is at or past the end. |
| LegacyScript.PaddingAgreesInRange | trackscalpel.py:84-85 | For a non-empty list that does not pass the end, the script's padding equals the package's clamp. |
| LegacyScript.ExtractTrack | trackscalpel.py:97-110 | One pass of the loop body: skip with the cursor left where it is, or the chunked copy in reads of at most 4096 frames. |
| LegacyScript.ExtractTracks | trackscalpel.py:96-110 | The loop's log and final cursor are exactly those of `Extraction` for the script's loop. |
| LegacyScript.ExtractNext | trackscalpel.py:97-110 | One pass of the script's loop body: the run from this track is this track's action followed by the run from the new cursor. |
| LegacyScript.SplitTracks | trackscalpel.py:54-110 | Fails on the chapter error, then the alignment error, then on an empty chapter list. Otherwise it succeeds with the padded split points, no warnings, and the track loop's log and cursor from splits[0]. |
| LegacyScript.CutsExactlyWithoutSkips | trackscalpel.py:96-110 | When no output is skipped, split points in order and inside the input are cut exactly, in reads of at most 4096 frames. |
| LegacyScript.SkipMisreadsNextTrack | trackscalpel.py:98-100 | With splits [0, 100, 200] and `01.wav` existing, the script skips track 1 and writes `02.wav` from frames 0–99. That is not track 2. |
| LegacyScript.SeekReadsNextTrack | trackscalpel/trackscalpel.py:94-98 | On the same input the package writes `02.wav` from frames 100–199. |
| LegacyScript.EmptyTrackPastEnd | trackscalpel.py:84-86 | With 0 < frames < first < second, the script keeps all three split points. Track 1 gets only `frames` of its `first` frames, and track 2 is written with no audio. |
| LegacyScript.ClampedPastEnd | trackscalpel/trackscalpel.py:64-69 | On the same split points the package drops both points past the end with warnings for tracks 3 and 2, leaving [0, frames]. |

## Left out

- MPLS decoding (the `MPLS` subpackage, imported at trackscalpel/splitpoints.py:2) is not part of this model, nor are the stream seeks between its decode steps. Play items and marks arrive as decoded records.
- Argument parsing is reduced to a `Config` record: optional alignment, rounding mode and output target. `--cd` is the constant `CD_ALIGN` (75).
- Verbose chapter and progress printing is left out; it is float formatting and output only. The drop loop's warnings are kept as the list of track numbers they name, not as text.
- Sound file I/O is left out beyond the frame count and the cursor: formats, subtypes, the buffer `dtype` choice, channels and sample values, and opening and writing output files. A written track is the list of chunks read for it.
- Seeking outside the file raises in the sound file library, for instance for a negative first split point. Here the cursor may go anywhere, and reads outside the file return nothing.
- Filesystem effects are left out: `os.makedirs`, the output directory prefix of `os.path.join`, and `os.path.splitext`. Existing outputs are a set of bare names, and the extension is a parameter.
- Float division is modelled as exact rational arithmetic. This covers the rounders' quotient and the alignment check's `is_integer`. Float rounding of very large tick values is not modelled.
- Integer width is left out: numpy's 64-bit track lengths are unbounded integers here.
- SplitPoints.AlignSplits requires a positive precision. `read_chapters` always returns 45000.
- SplitPoints.SplitModesOrdered: stated for a positive alignment only. A negative alignment that divides the sample rate is accepted by the divisibility test at trackscalpel/trackscalpel.py:56, and then `ceil` rounds the block count toward zero: `int` and `ceil` agree and `round` can give the later split. `SplitModesNegativeAlign` states this case.
- TrackScalpel.TracksReadFromTheirSplits: stated for inputs where every written track lies inside the input with a length that is not negative, because otherwise it does not hold. Neither `read_chapters` nor `main` sorts, so chapters out of order reach the track loop. A skipped track is harmless even then, because the seek is relative: `UnsortedSkippedTrackSeeksBack`. A written track of negative length copies nothing and leaves the cursor where it is, so the next track is read from the wrong place: `UnsortedSplitsMisread`. `SortedChaptersCutExactly` shows that chapters in order and not negative give split points for which the condition holds.

## Findings

| source | as written | input that shows it | evidently intended | confidence | as-written member | corrected member |
|---|---|---|---|---|---|---|
| trackscalpel.py:98-100 | A skipped track is not seeked past. The next written track starts reading where the skipped one began. | Splits [0, 100, 200], 200 frames, `01.wav` exists, no overwrite: `02.wav` receives frames 0–99, the audio of track 1. | Seek past the skipped track so that track k always starts at splits[k]. The package does this at trackscalpel/trackscalpel.py:97. | high; not executed | LegacyScript.SkipMisreadsNextTrack | TrackScalpel.TracksReadFromTheirSplits |
| trackscalpel.py:84-85 | Split points past the end of the input are kept. Tracks that start after the end are cut short or written empty. | 100000 frames, split points [0, 120000, 144000]: track 1 is cut short at 100000 frames and track 2 is an empty file. | Drop split points past the end, with a warning, before appending the end. The package does this at trackscalpel/trackscalpel.py:64-69. | high; not executed | LegacyScript.EmptyTrackPastEnd | TrackScalpel.ClampSplits |
