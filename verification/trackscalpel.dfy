/** The packaged command (trackscalpel/trackscalpel.py, `main`): check
    the alignment against the sample rate, turn chapters into split
    points, keep the split points inside the file, and cut one track per
    pair of consecutive split points, skipping outputs that already exist. */
module TrackScalpel {
  import opened Basics
  import Rounding
  import opened SplitPoints
  import opened Audio
  import opened TrackNames

  /** Frames per read in the copy loop. */
  const BUFFER_SIZE: nat := 16384

  /** `--cd`: align to Audio CD sectors, 75 per second. */
  const CD_ALIGN: int := 75

  /** Which outputs already exist (names inside the output directory),
      whether they may be replaced, and the extension new names get. */
  datatype Target = Target(existing: set<string>, overwrite: bool, extension: string)

  /** The parsed command line, as far as the core uses it. */
  datatype Config = Config(align: Option<int>, mode: Rounding.Mode, target: Target)

  /** What happened to one track. */
  datatype Action = Skipped(name: string) | Written(name: string, chunks: seq<Chunk>)

  /** Everything a run produces: the final split points, the track
      numbers warned about as starting after the end of the input, what
      was done per track, and where the input's cursor ended. */
  datatype Run = Run(splits: seq<int>, warned: seq<nat>, log: seq<Action>, cursor: int)

  /** The alignment a run uses: the sample rate when none is given;
      otherwise the given one, which must divide the sample rate. */
  function ResolveAlign(samplerate: nat, align: Option<int>): (r: Result<int>)
    requires samplerate > 0
    ensures align.None? ==> r == Ok(samplerate)
    ensures align.Some? && align.value == 0 ==> r == Err(ZeroAlignment)
    ensures align.Some? && align.value != 0 ==>
      (r.Ok? <==> samplerate % align.value == 0) && (r.Ok? ==> r.value == align.value)
    ensures r.Err? ==> r.error == ZeroAlignment || r.error == AlignNotDivisor
    ensures align.Some? && align.value != 0 && r.Err? ==> r.error == AlignNotDivisor
  {
    match align
    case None => Ok(samplerate)
    case Some(a) =>
      if a == 0 then Err(ZeroAlignment)
      else if samplerate % a != 0 then Err(AlignNotDivisor)
      else Ok(a)
  }

  /** An accepted alignment splits a second into whole blocks: block size
      times alignment is the sample rate. */
  lemma AcceptedAlignDividesRate(samplerate: nat, align: Option<int>)
    requires samplerate > 0 && ResolveAlign(samplerate, align).Ok?
    ensures ResolveAlign(samplerate, align).value != 0
    ensures var a := ResolveAlign(samplerate, align).value;
            BlockSize(samplerate, a) * a == samplerate
  {
    var a := ResolveAlign(samplerate, align).value;
    var b := BlockSize(samplerate, a);
    var q := samplerate / a;
    assert samplerate == a * q;
    if a > 0 {
      Rounding.FloorUnique(samplerate, a, q);
    } else {
      assert (-a) * q == -(samplerate as int);
      Rounding.FloorUnique(-(samplerate as int), -a, q);
    }
  }

  /** `--cd` on common sample rates: 75 divides 44100 and 48000, giving
      sectors of 588 and 640 samples; a 32000 Hz input is rejected. */
  lemma CdAlignment()
    ensures ResolveAlign(44100, Some(CD_ALIGN)) == Ok(CD_ALIGN) && BlockSize(44100, CD_ALIGN) == 588
    ensures ResolveAlign(48000, Some(CD_ALIGN)) == Ok(CD_ALIGN) && BlockSize(48000, CD_ALIGN) == 640
    ensures ResolveAlign(32000, Some(CD_ALIGN)) == Err(AlignNotDivisor)
  {
  }

  /** How many leading split points the drop loop keeps: it pops while the
      last one is past `total`. */
  function KeptLength(splits: seq<int>, total: nat): (n: nat)
    ensures n <= |splits|
    ensures n == 0 || splits[n - 1] <= total
    ensures forall i :: n <= i < |splits| ==> splits[i] > total
  {
    if splits == [] || splits[|splits| - 1] <= total then |splits|
    else KeptLength(splits[..|splits| - 1], total)
  }

  /** The end-of-file policy: drop trailing split points past the end,
      then add the end itself unless the last one is already there.
      Whatever the input, even an empty one, the result ends exactly at
      the end of the file. */
  function Clamp(splits: seq<int>, total: nat): (r: seq<int>)
    ensures |r| >= 1 && r[|r| - 1] == total
  {
    var n := KeptLength(splits, total);
    if n == 0 || splits[n - 1] < total then splits[..n] + [total] else splits[..n]
  }

  /** Track numbers `from`, `from - 1`, ..., `to + 1`. */
  function Countdown(from: nat, to: nat): (r: seq<nat>)
    ensures |r| == if from <= to then 0 else from - to
    decreases from
  {
    if from <= to then [] else [from] + Countdown(from - 1, to)
  }

  /** The drop loop and the append that follows it, on the list in place.
      One warning per dropped split point, naming the track it would
      have started. */
  method ClampSplits(splits: seq<int>, total: nat) returns (r: seq<int>, warned: seq<nat>)
    ensures r == Clamp(splits, total)
    ensures warned == Countdown(|splits|, KeptLength(splits, total))
  {
    var kept := KeptLength(splits, total);
    r, warned := splits, [];
    while |r| > 0 && r[|r| - 1] > total
      invariant |r| <= |splits| && r == splits[..|r|]
      invariant KeptLength(r, total) == kept
      invariant warned == Countdown(|splits|, |r|)
    {
      CountdownExtend(|splits|, |r| - 1);
      warned := warned + [|r|];
      r := r[..|r| - 1];
    }
    assert r == splits[..kept];
    if |r| == 0 || r[|r| - 1] < total {
      r := r + [total];
    }
  }

  /** Counting down one step further adds one number at the end. */
  lemma {:induction false} CountdownExtend(from: nat, to: nat)
    requires from > to
    ensures Countdown(from, to) == Countdown(from, to + 1) + [to + 1]
    decreases from
  {
    if from > to + 1 {
      CountdownExtend(from - 1, to);
    }
  }

  /** Only trailing split points past the end are dropped; those before
      them stay as they are; the end is appended exactly when the list
      has emptied or still stops short of it. */
  lemma ClampDropsOnlyTrailingOutOfRange(splits: seq<int>, total: nat)
    ensures var n := KeptLength(splits, total);
            && Clamp(splits, total)[..n] == splits[..n]
            && (forall i :: n <= i < |splits| ==> splits[i] > total)
            && (|Clamp(splits, total)| == n + 1 <==> n == 0 || splits[n - 1] < total)
            && |Clamp(splits, total)| <= n + 1
  {
    var n := KeptLength(splits, total);
    assert (splits[..n] + [total])[..n] == splits[..n];
  }

  /** Split points in order stay in order, and all lie inside the file. */
  lemma ClampSorted(splits: seq<int>, total: nat)
    requires Sorted(splits)
    ensures Sorted(Clamp(splits, total))
    ensures forall i :: 0 <= i < |Clamp(splits, total)| ==> Clamp(splits, total)[i] <= total
  {
    var n := KeptLength(splits, total);
    assert forall i :: 0 <= i < n ==> splits[i] <= splits[n - 1];
  }

  /** Clamping a clamped list changes nothing. */
  lemma ClampIdempotent(splits: seq<int>, total: nat)
    ensures Clamp(Clamp(splits, total), total) == Clamp(splits, total)
  {
    var r := Clamp(splits, total);
    assert KeptLength(r, total) == |r|;
    assert r[..|r|] == r;
  }

  /** Three chapters, the third past the end of a 100000-frame input: it
      is dropped with one warning and the end takes its place, leaving
      two tracks. */
  lemma ThirdChapterPastEndExample()
    ensures Clamp([0, 48000, 144000], 100000) == [0, 48000, 100000]
    ensures Countdown(3, KeptLength([0, 48000, 144000], 100000)) == [3]
    ensures |TrackLengths(Clamp([0, 48000, 144000], 100000))| == 2
  {
    var s := [0, 48000, 144000];
    assert s[..2] == [0, 48000];
    assert KeptLength(s, 100000) == 2;
    assert Countdown(2, 2) == [];
  }

  /** `numpy.diff`: consecutive differences, one per track. */
  function TrackLengths(splits: seq<int>): (lengths: seq<int>)
    ensures |lengths| == if splits == [] then 0 else |splits| - 1
    ensures forall k :: 0 <= k < |lengths| ==> lengths[k] == splits[k + 1] - splits[k]
  {
    if splits == [] then [] else seq(|splits| - 1, k requires 0 <= k < |splits| - 1 => splits[k + 1] - splits[k])
  }

  /** Track lengths add up to the distance from the first split point to
      the last. */
  lemma {:induction false} LengthsTelescope(splits: seq<int>)
    requires |splits| >= 1
    ensures Sum(TrackLengths(splits)) == splits[|splits| - 1] - splits[0]
  {
    if |splits| > 1 {
      var front := splits[..|splits| - 1];
      LengthsTelescope(front);
      var all, init := TrackLengths(splits), TrackLengths(front);
      forall k | 0 <= k < |init|
        ensures all[k] == init[k]
      {
      }
      assert all[..|all| - 1] == init;
    }
  }

  predicate Skips(target: Target, name: string) {
    !target.overwrite && name in target.existing
  }

  /** The two versions of the track loop differ in the copy buffer and in
      whether skipping an existing output seeks past the track. */
  type BufferSize = n: nat | n > 0 witness 1

  datatype Loop = Loop(bufferSize: BufferSize, seeksOnSkip: bool)

  /** This program's loop: reads of up to 16384 frames, and a skipped
      track is seeked past. */
  const LOOP: Loop := Loop(BUFFER_SIZE, true)

  /** One pass of the track loop body with the input's cursor at `pos`:
      a skipped track moves the cursor past itself (when the loop seeks
      on skips), a written one moves it by what its copy loop read.
      Gives the action and the new cursor. */
  function TrackStep(loop: Loop, frames: nat, length: int, name: string, pos: int, target: Target): (Action, int) {
    if Skips(target, name) then (Skipped(name), if loop.seeksOnSkip then pos + length else pos)
    else
      var chunks := CopyChunks(frames, pos, length, loop.bufferSize);
      (Written(name, chunks), pos + Copied(chunks))
  }

  /** The track loop from track index `track` on, with the cursor at
      `pos`: the actions taken and the final cursor. */
  function Extraction(loop: Loop, frames: nat, lengths: seq<int>, track: nat, pos: int, target: Target): (seq<Action>, int)
    requires track <= |lengths|
    decreases |lengths| - track
  {
    if track == |lengths| then ([], pos)
    else
      var step := TrackStep(loop, frames, lengths[track], TrackName(track, target.extension), pos, target);
      var next := Extraction(loop, frames, lengths, track + 1, step.1, target);
      ([step.0] + next.0, next.1)
  }

  /** `for track, length in enumerate(lengths)`: skip an output that
      exists (seeking past the track), or write it chunk by chunk. */
  method ExtractTracks(infile: SoundFile, lengths: seq<int>, target: Target) returns (log: seq<Action>)
    modifies infile
    ensures log == Extraction(LOOP, infile.length, lengths, 0, old(infile.pos), target).0
    ensures infile.pos == Extraction(LOOP, infile.length, lengths, 0, old(infile.pos), target).1
  {
    log := [];
    ghost var whole := Extraction(LOOP, infile.length, lengths, 0, infile.pos, target);
    ghost var rest := whole;
    for track := 0 to |lengths|
      invariant rest == Extraction(LOOP, infile.length, lengths, track, infile.pos, target)
      invariant log + rest.0 == whole.0 && rest.1 == whole.1
    {
      var action := ExtractNext(infile, lengths, track, target, log);
      log := log + [action];
      rest := Extraction(LOOP, infile.length, lengths, track + 1, infile.pos, target);
    }
  }

  /** One pass of the loop body, against the whole run: the log so far
      followed by the run from this track is the log with this track's
      action followed by the run from the next one. */
  method ExtractNext(infile: SoundFile, lengths: seq<int>, track: nat, target: Target, ghost log: seq<Action>)
    returns (action: Action)
    requires track < |lengths|
    modifies infile
    ensures log + Extraction(LOOP, infile.length, lengths, track, old(infile.pos), target).0
            == log + [action] + Extraction(LOOP, infile.length, lengths, track + 1, infile.pos, target).0
    ensures Extraction(LOOP, infile.length, lengths, track, old(infile.pos), target).1
            == Extraction(LOOP, infile.length, lengths, track + 1, infile.pos, target).1
  {
    ghost var pos := infile.pos;
    action := ExtractTrack(infile, lengths[track], track, target);
    ExtractionAdvance(LOOP, infile.length, lengths, track, pos, target, log, action, infile.pos);
  }

  /** One pass of the track loop body: skip an existing output by seeking
      past the track, or copy the track into it. */
  method ExtractTrack(infile: SoundFile, length: int, track: nat, target: Target)
    returns (action: Action)
    modifies infile
    ensures (action, infile.pos)
            == TrackStep(LOOP, infile.length, length, TrackName(track, target.extension), old(infile.pos), target)
  {
    var outname := TrackName(track, target.extension);
    ghost var pos := infile.pos;
    if !target.overwrite && outname in target.existing {
      infile.SeekBy(length);
      action := Skipped(outname);
      SkipStep(LOOP, infile.length, length, outname, pos, target);
    } else {
      var chunks := CopyTrack(infile, length, BUFFER_SIZE);
      action := Written(outname, chunks);
      CopyStep(LOOP, infile.length, length, outname, pos, target);
    }
  }

  /** The two branches of the loop body. */
  lemma SkipStep(loop: Loop, frames: nat, length: int, name: string, pos: int, target: Target)
    requires Skips(target, name)
    ensures TrackStep(loop, frames, length, name, pos, target)
            == (Skipped(name), if loop.seeksOnSkip then pos + length else pos)
  {
  }

  lemma CopyStep(loop: Loop, frames: nat, length: int, name: string, pos: int, target: Target)
    requires !Skips(target, name)
    ensures var chunks := CopyChunks(frames, pos, length, loop.bufferSize);
            TrackStep(loop, frames, length, name, pos, target) == (Written(name, chunks), pos + Copied(chunks))
  {
  }

  /** The track loop's invariant survives one pass: the log so far
      followed by the run from the cursor stays the whole run. */
  lemma ExtractionAdvance(loop: Loop, frames: nat, lengths: seq<int>, track: nat, pos: int, target: Target,
                          log: seq<Action>, action: Action, next: int)
    requires track < |lengths|
    requires (action, next) == TrackStep(loop, frames, lengths[track], TrackName(track, target.extension), pos, target)
    ensures log + Extraction(loop, frames, lengths, track, pos, target).0
            == log + [action] + Extraction(loop, frames, lengths, track + 1, next, target).0
    ensures Extraction(loop, frames, lengths, track, pos, target).1 == Extraction(loop, frames, lengths, track + 1, next, target).1
  {
    ExtractionCons(loop, frames, lengths, track, lengths[track], pos, target);
    var rest := Extraction(loop, frames, lengths, track + 1, next, target).0;
    assert log + ([action] + rest) == log + [action] + rest;
  }

  /** What track k must come out as: skipped when its output exists and
      may not be replaced; otherwise written under its name with exactly
      the frames between its split points, in reads of at most
      `bufferSize` frames. */
  predicate TrackDone(a: Action, k: nat, splits: seq<int>, target: Target, bufferSize: nat)
    requires k + 1 < |splits|
  {
    var name := TrackName(k, target.extension);
    if Skips(target, name) then a == Skipped(name)
    else a.Written? && a.name == name && ReadsRange(a.chunks, splits[k], splits[k + 1], bufferSize)
  }

  /** The actions are done right for consecutive tracks from `track` on:
      the first as track `track`, the rest as the tracks after it. */
  predicate AllDone(actions: seq<Action>, track: nat, splits: seq<int>, target: Target, bufferSize: nat)
    requires track + |actions| < |splits|
    decreases |actions|
  {
    || actions == []
    || (TrackDone(actions[0], track, splits, target, bufferSize) && AllDone(actions[1..], track + 1, splits, target, bufferSize))
  }

  /** No track from `track` on is skipped. */
  predicate NothingSkipped(splits: seq<int>, track: nat, target: Target) {
    forall k :: track <= k < |splits| - 1 ==> !Skips(target, TrackName(k, target.extension))
  }

  /** Track k can be cut where it stands: if it is skipped, the loop
      seeks past it, and that by its length lands on the next split point
      whatever the length's sign; if it is written, it lies inside the
      file and its length is not negative. */
  predicate InPlace(loop: Loop, frames: nat, splits: seq<int>, k: nat, target: Target)
    requires k + 1 < |splits|
  {
    if Skips(target, TrackName(k, target.extension)) then loop.seeksOnSkip
    else 0 <= splits[k] <= splits[k + 1] <= frames
  }

  /** Every track from `track` on can be cut where it stands. */
  predicate AllInPlace(loop: Loop, frames: nat, splits: seq<int>, track: nat, target: Target) {
    forall k :: track <= k && k + 1 < |splits| ==> InPlace(loop, frames, splits, k, target)
  }

  /** Split points in order and inside the file can all be cut where they
      stand, provided the loop seeks past skipped tracks or none is
      skipped. */
  lemma SortedInPlace(loop: Loop, frames: nat, splits: seq<int>, target: Target)
    requires Sorted(splits) && 0 < |splits| && 0 <= splits[0] && splits[|splits| - 1] <= frames
    requires loop.seeksOnSkip || NothingSkipped(splits, 0, target)
    ensures AllInPlace(loop, frames, splits, 0, target)
  {
    forall k | 0 <= k && k + 1 < |splits| ensures InPlace(loop, frames, splits, k, target) {
      assert 0 <= splits[0] <= splits[k] <= splits[k + 1] <= splits[|splits| - 1];
    }
  }

  /** One track read from its own split point is done right and leaves
      the cursor on the next split point, provided it can be cut where it
      stands: the run from that track is its action in front of the run
      from the next split point. */
  lemma OneTrack(loop: Loop, frames: nat, splits: seq<int>, track: nat, target: Target) returns (head: Action)
    requires track + 1 < |splits| && InPlace(loop, frames, splits, track, target)
    ensures TrackDone(head, track, splits, target, loop.bufferSize)
    ensures Extraction(loop, frames, TrackLengths(splits), track, splits[track], target).0
            == [head] + Extraction(loop, frames, TrackLengths(splits), track + 1, splits[track + 1], target).0
    ensures Extraction(loop, frames, TrackLengths(splits), track, splits[track], target).1
            == Extraction(loop, frames, TrackLengths(splits), track + 1, splits[track + 1], target).1
  {
    var name := TrackName(track, target.extension);
    var lengths := TrackLengths(splits);
    var length := splits[track + 1] - splits[track];
    var step := TrackStep(loop, frames, length, name, splits[track], target);
    if !Skips(target, name) {
      CopyInsideFile(frames, splits[track], length, loop.bufferSize);
    }
    assert step.1 == splits[track + 1];
    ExtractionCons(loop, frames, lengths, track, length, splits[track], target);
    head := step.0;
  }

  /** One unfolding of the track loop: the first track's action in front
      of the run from where its step leaves the cursor. */
  lemma ExtractionCons(loop: Loop, frames: nat, lengths: seq<int>, track: nat, length: int, pos: int, target: Target)
    requires track < |lengths| && lengths[track] == length
    ensures var step := TrackStep(loop, frames, length, TrackName(track, target.extension), pos, target);
            var rest := Extraction(loop, frames, lengths, track + 1, step.1, target);
            && Extraction(loop, frames, lengths, track, pos, target).0 == [step.0] + rest.0
            && Extraction(loop, frames, lengths, track, pos, target).1 == rest.1
  {
  }

  /** The cursor invariant, from track `track` on: when that track starts
      reading at its own split point, every later one does too, and the
      cursor finishes on the last split point, provided every track can
      be cut where it stands. */
  lemma {:induction false} TracksFrom(loop: Loop, frames: nat, splits: seq<int>, track: nat, target: Target)
    requires track < |splits| && AllInPlace(loop, frames, splits, track, target)
    ensures var run := Extraction(loop, frames, TrackLengths(splits), track, splits[track], target);
            && |run.0| == |splits| - 1 - track
            && run.1 == splits[|splits| - 1]
            && AllDone(run.0, track, splits, target, loop.bufferSize)
    decreases |splits| - track
  {
    if track + 1 < |splits| {
      TracksFrom(loop, frames, splits, track + 1, target);
      assert InPlace(loop, frames, splits, track, target);
      var head := OneTrack(loop, frames, splits, track, target);
      PrependDone(head, Extraction(loop, frames, TrackLengths(splits), track + 1, splits[track + 1], target).0,
                  track, splits, target, loop.bufferSize);
    }
  }

  /** A track done right in front of tracks done right. */
  lemma PrependDone(head: Action, rest: seq<Action>, track: nat, splits: seq<int>, target: Target, bufferSize: nat)
    requires track + 1 + |rest| < |splits|
    requires TrackDone(head, track, splits, target, bufferSize)
    requires AllDone(rest, track + 1, splits, target, bufferSize)
    ensures AllDone([head] + rest, track, splits, target, bufferSize)
  {
    assert ([head] + rest)[1..] == rest;
  }

  /** Track k always starts reading at its split point k: when every
      written track lies inside the file with a length that is not
      negative (skipped tracks may have any length, since the seek past
      them is relative), there is one action per track, and each track is
      skipped exactly when its output exists and may not be replaced, and
      otherwise receives exactly the frames [splits[k], splits[k + 1]),
      in reads of at most BUFFER_SIZE frames. The cursor ends at the last
      split point. */
  lemma TracksReadFromTheirSplits(frames: nat, splits: seq<int>, target: Target)
    requires 0 < |splits| && AllInPlace(LOOP, frames, splits, 0, target)
    ensures var run := Extraction(LOOP, frames, TrackLengths(splits), 0, splits[0], target);
            && |run.0| == |splits| - 1
            && run.1 == splits[|splits| - 1]
            && AllDone(run.0, 0, splits, target, BUFFER_SIZE)
  {
    TracksFrom(LOOP, frames, splits, 0, target);
  }

  /** Split points out of order, which the resolver lets through since
      it never sorts: [200, 50] on 300 frames. The first track's length
      is negative, so its copy loop reads nothing and the cursor stays at
      200; the second track then receives frames [200, 300) instead of
      [50, 300). */
  lemma UnsortedSplitsMisread()
    ensures Clamp([200, 50], 300) == [200, 50, 300]
    ensures var target := Target({}, false, ".wav");
            var run := Extraction(LOOP, 300, TrackLengths([200, 50, 300]), 0, 200, target);
            && |run.0| == 2
            && run.0[0] == Written("01.wav", [])
            && run.0[1] == Written("02.wav", [Chunk(200, 100)])
            && run.1 == 300
            && !TrackDone(run.0[1], 1, [200, 50, 300], target, BUFFER_SIZE)
  {
    assert KeptLength([200, 50], 300) == 2;
    assert [200, 50][..2] + [300] == [200, 50, 300];
    UnsortedRun();
  }

  /** The same split points with `01.wav` already there: the first track
      is skipped, the relative seek by -150 takes the cursor back to 50,
      and the second track receives its own frames [50, 300). */
  lemma UnsortedSkippedTrackSeeksBack()
    ensures var target := Target({"01.wav"}, false, ".wav");
            var run := Extraction(LOOP, 300, TrackLengths([200, 50, 300]), 0, 200, target);
            && |run.0| == 2
            && run.0[0] == Skipped("01.wav")
            && TrackDone(run.0[1], 1, [200, 50, 300], target, BUFFER_SIZE)
            && run.1 == 300
  {
    var target := Target({"01.wav"}, false, ".wav");
    var splits := [200, 50, 300];
    UnsortedSkippedInPlace();
    TracksReadFromTheirSplits(300, splits, target);
    TwoTrackNames();
  }

  /** Both tracks of `UnsortedSkippedTrackSeeksBack` can be cut where
      they stand: the first is skipped by a seeking loop, the second lies
      inside the file. */
  lemma UnsortedSkippedInPlace()
    ensures AllInPlace(LOOP, 300, [200, 50, 300], 0, Target({"01.wav"}, false, ".wav"))
  {
    var target := Target({"01.wav"}, false, ".wav");
    TwoTrackNames();
    assert InPlace(LOOP, 300, [200, 50, 300], 0, target) && InPlace(LOOP, 300, [200, 50, 300], 1, target);
  }

  /** The track loop on the lengths of `UnsortedSplitsMisread`. */
  lemma UnsortedRun()
    ensures var run := Extraction(LOOP, 300, [-150, 250], 0, 200, Target({}, false, ".wav"));
            && |run.0| == 2
            && run.0[0] == Written("01.wav", [])
            && run.0[1] == Written("02.wav", [Chunk(200, 100)])
            && run.1 == 300
  {
    var target := Target({}, false, ".wav");
    var lengths := [-150, 250];
    var first := Written("01.wav", []);
    var second := Written("02.wav", [Chunk(200, 100)]);
    var rest := Extraction(LOOP, 300, lengths, 1, 200, target);
    assert rest == ([second], 300) by {
      TwoTrackNames();
      UnsortedSecondTrack();
      ExtractionCons(LOOP, 300, lengths, 1, 250, 200, target);
      assert [second] + [] == [second];
    }
    assert Extraction(LOOP, 300, lengths, 0, 200, target) == ([first] + rest.0, rest.1) by {
      TwoTrackNames();
      NegativeLengthCopiesNothing(LOOP, 300, -150, "01.wav", 200, target);
      ExtractionCons(LOOP, 300, lengths, 0, -150, 200, target);
    }
  }

  /** The second track of `UnsortedSplitsMisread`: 250 frames asked for
      at frame 200 of 300, of which 100 are there. */
  lemma UnsortedSecondTrack()
    ensures TrackStep(LOOP, 300, 250, "02.wav", 200, Target({}, false, ".wav"))
         == (Written("02.wav", [Chunk(200, 100)]), 300)
  {
    assert [Chunk(200, 100)][..0] == [];
    assert Copied([Chunk(200, 100)]) == 100;
    assert CopyChunks(300, 200, 250, BUFFER_SIZE) == [Chunk(200, 100)];
  }

  /** A track whose length is zero or negative: `while length > 0` never
      runs, so its output is created empty and the cursor stays put. */
  lemma NegativeLengthCopiesNothing(loop: Loop, frames: nat, length: int, name: string, pos: int, target: Target)
    requires length <= 0 && !Skips(target, name)
    ensures TrackStep(loop, frames, length, name, pos, target) == (Written(name, []), pos)
  {
    CopyNothing(frames, pos, length, loop.bufferSize);
  }

  /** The command after option parsing: resolve chapters, check the
      alignment, compute and clamp the split points, move the cursor to
      the first one, and run the track loop. */
  method SplitTracks(items: seq<PlayItem>, marks: seq<PlayMark>, frames: nat, samplerate: nat,
                     config: Config) returns (r: Result<Run>)
    requires samplerate > 0
    ensures var chapters := ResolveMarks(InTimeMods(items), marks);
            var align := ResolveAlign(samplerate, config.align);
            if chapters.Err? then r == Err(chapters.error)
            else if align.Err? then r == Err(align.error)
            else
              var splits := Clamp(AlignSplits(chapters.value, PRECISION, samplerate, align.value, config.mode), frames);
              var run := Extraction(LOOP, frames, TrackLengths(splits), 0, splits[0], config.target);
              && r.Ok?
              && r.value.splits == splits
              && r.value.warned == Countdown(|chapters.value|, KeptLength(AlignSplits(chapters.value, PRECISION, samplerate, align.value, config.mode), frames))
              && r.value.log == run.0
              && r.value.cursor == run.1
  {
    var chapters := ReadChapters(items, marks);
    if chapters.Err? {
      return Err(chapters.error);
    }
    var infile := new SoundFile.Open(frames);
    var align := ResolveAlign(samplerate, config.align);
    if align.Err? {
      return Err(align.error);
    }
    var computed := AlignSplits(chapters.value.ticks, chapters.value.precision, samplerate, align.value, config.mode);
    var splits, warned := ClampSplits(computed, frames);
    var lengths := TrackLengths(splits);
    if splits[0] != 0 {
      infile.Seek(splits[0]);
    }
    var log := ExtractTracks(infile, lengths, config.target);
    return Ok(Run(splits, warned, log, infile.pos));
  }

  lemma NonNegativeSplits(chapters: seq<int>, samplerate: nat, align: int, mode: Rounding.Mode)
    requires align != 0 && forall i :: 0 <= i < |chapters| ==> chapters[i] >= 0
    ensures forall i :: 0 <= i < |chapters| ==> AlignSplits(chapters, PRECISION, samplerate, align, mode)[i] >= 0
  {
    forall i | 0 <= i < |chapters|
      ensures AlignSplits(chapters, PRECISION, samplerate, align, mode)[i] >= 0
    {
      SplitMonotone(0, chapters[i], PRECISION, samplerate, align, mode);
      ZeroSplit(samplerate, align, mode);
    }
  }

  /** A chapter at tick 0 is split at sample 0 under every rounder. */
  lemma ZeroSplit(samplerate: nat, align: int, mode: Rounding.Mode)
    requires align != 0
    ensures Rounding.Round(mode, 0 * align, PRECISION) * BlockSize(samplerate, align) == 0
  {
    Rounding.ExactQuotient(mode, 0, PRECISION);
    assert 0 * align == 0 * PRECISION == 0;
  }

  /** End to end: chapters in order and not before the start, with any
      non-zero alignment, give tracks that each receive exactly the frames
      between their split points, and together reach the end of the input. */
  lemma SortedChaptersCutExactly(chapters: seq<int>, frames: nat, samplerate: nat, align: int,
                                 mode: Rounding.Mode, target: Target)
    requires align != 0 && Sorted(chapters)
    requires forall i :: 0 <= i < |chapters| ==> chapters[i] >= 0
    ensures var splits := Clamp(AlignSplits(chapters, PRECISION, samplerate, align, mode), frames);
            var run := Extraction(LOOP, frames, TrackLengths(splits), 0, splits[0], target);
            && splits[|splits| - 1] == frames
            && |run.0| == |splits| - 1
            && run.1 == frames
            && AllDone(run.0, 0, splits, target, BUFFER_SIZE)
  {
    var computed := AlignSplits(chapters, PRECISION, samplerate, align, mode);
    SplitsSorted(chapters, PRECISION, samplerate, align, mode);
    NonNegativeSplits(chapters, samplerate, align, mode);
    ClampSorted(computed, frames);
    var splits := Clamp(computed, frames);
    var n := KeptLength(computed, frames);
    assert splits[0] >= 0 by {
      if n > 0 { assert splits[0] == computed[0]; }
    }
    SortedInPlace(LOOP, frames, splits, target);
    TracksReadFromTheirSplits(frames, splits, target);
  }
}
