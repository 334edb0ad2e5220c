/** The original stand-alone script (trackscalpel.py at the top of the
    repository), which the package replaced. It reads chapters and aligns
    split points as the package does, but differs in three places: an
    empty chapter list stops it (`splits[-1]`), it never drops a split
    point past the end of the input, and a track it skips is not seeked
    past, so the cursor stays where the skipped track began. */
module LegacyScript {
  import opened Basics
  import Rounding
  import opened SplitPoints
  import opened Audio
  import opened TrackNames
  import TrackScalpel

  /** Frames per read in the copy loop. */
  const BUFFER_SIZE: nat := 4096

  /** This script's track loop: reads of up to 4096 frames, and no seek
      when a track is skipped. */
  const LOOP: TrackScalpel.Loop := TrackScalpel.Loop(BUFFER_SIZE, false)

  /** `if splits[-1] < len(infile): splits.append(len(infile))`: the end of
      the input becomes a final split point only when the last one stops
      short of it; an empty list fails on `splits[-1]`. */
  function PadSplits(splits: seq<int>, total: nat): (r: Result<seq<int>>)
    ensures splits == [] <==> r == Err(NoSplits)
    ensures splits != [] ==> r.Ok?
    ensures r.Ok? ==> 1 <= |splits| <= |r.value| && r.value[..|splits|] == splits
    ensures r.Ok? ==> (|r.value| == |splits| + 1 <==> splits[|splits| - 1] < total)
    ensures r.Ok? ==> |r.value| <= |splits| + 1
    ensures r.Ok? ==> r.value[|r.value| - 1] >= total
    ensures r.Ok? && |r.value| == |splits| + 1 ==> r.value[|splits|] == total
  {
    if splits == [] then Err(NoSplits)
    else if splits[|splits| - 1] < total then Ok(splits + [total])
    else Ok(splits)
  }

  /** For split points that are there and do not pass the end of the
      input, the script's padding and the package's clamping agree. */
  lemma PaddingAgreesInRange(splits: seq<int>, total: nat)
    requires |splits| > 0 && splits[|splits| - 1] <= total
    ensures PadSplits(splits, total) == Ok(TrackScalpel.Clamp(splits, total))
  {
    assert TrackScalpel.KeptLength(splits, total) == |splits|;
    assert splits[..|splits|] == splits;
  }

  /** `for track, length in enumerate(lengths)`: an output that exists is
      skipped with `continue`, leaving the cursor where it is; otherwise
      the track is written chunk by chunk. */
  method ExtractTracks(infile: SoundFile, lengths: seq<int>, target: TrackScalpel.Target)
    returns (log: seq<TrackScalpel.Action>)
    modifies infile
    ensures log == TrackScalpel.Extraction(LOOP, infile.length, lengths, 0, old(infile.pos), target).0
    ensures infile.pos == TrackScalpel.Extraction(LOOP, infile.length, lengths, 0, old(infile.pos), target).1
  {
    log := [];
    ghost var whole := TrackScalpel.Extraction(LOOP, infile.length, lengths, 0, infile.pos, target);
    ghost var rest := whole;
    for track := 0 to |lengths|
      invariant rest == TrackScalpel.Extraction(LOOP, infile.length, lengths, track, infile.pos, target)
      invariant log + rest.0 == whole.0 && rest.1 == whole.1
    {
      var action := ExtractNext(infile, lengths, track, target, log);
      log := log + [action];
      rest := TrackScalpel.Extraction(LOOP, infile.length, lengths, track + 1, infile.pos, target);
    }
  }

  /** One pass of the loop body, against the whole run: the log so far
      followed by the run from this track is the log with this track's
      action followed by the run from the next one. */
  method ExtractNext(infile: SoundFile, lengths: seq<int>, track: nat, target: TrackScalpel.Target,
                     ghost log: seq<TrackScalpel.Action>)
    returns (action: TrackScalpel.Action)
    requires track < |lengths|
    modifies infile
    ensures log + TrackScalpel.Extraction(LOOP, infile.length, lengths, track, old(infile.pos), target).0
            == log + [action] + TrackScalpel.Extraction(LOOP, infile.length, lengths, track + 1, infile.pos, target).0
    ensures TrackScalpel.Extraction(LOOP, infile.length, lengths, track, old(infile.pos), target).1
            == TrackScalpel.Extraction(LOOP, infile.length, lengths, track + 1, infile.pos, target).1
  {
    ghost var pos := infile.pos;
    action := ExtractTrack(infile, lengths[track], track, target);
    TrackScalpel.ExtractionAdvance(LOOP, infile.length, lengths, track, pos, target, log, action, infile.pos);
  }

  /** One pass of the track loop body: skip an existing output without
      moving the cursor, or copy the track into it. */
  method ExtractTrack(infile: SoundFile, length: int, track: nat, target: TrackScalpel.Target)
    returns (action: TrackScalpel.Action)
    modifies infile
    ensures (action, infile.pos)
            == TrackScalpel.TrackStep(LOOP, infile.length, length, TrackName(track, target.extension), old(infile.pos), target)
  {
    var outname := TrackName(track, target.extension);
    ghost var pos := infile.pos;
    if !target.overwrite && outname in target.existing {
      action := TrackScalpel.Skipped(outname);
      TrackScalpel.SkipStep(LOOP, infile.length, length, outname, pos, target);
    } else {
      var chunks := CopyTrack(infile, length, BUFFER_SIZE);
      action := TrackScalpel.Written(outname, chunks);
      TrackScalpel.CopyStep(LOOP, infile.length, length, outname, pos, target);
    }
  }

  /** The script after option parsing: chapters, the alignment check,
      split points, padding, the seek to the first split point and the
      track loop. It never warns, so `warned` stays empty. */
  method SplitTracks(items: seq<PlayItem>, marks: seq<PlayMark>, frames: nat, samplerate: nat,
                     config: TrackScalpel.Config) returns (r: Result<TrackScalpel.Run>)
    requires samplerate > 0
    ensures var chapters := ResolveMarks(InTimeMods(items), marks);
            var align := TrackScalpel.ResolveAlign(samplerate, config.align);
            if chapters.Err? then r == Err(chapters.error)
            else if align.Err? then r == Err(align.error)
            else if chapters.value == [] then r == Err(NoSplits)
            else
              var splits := PadSplits(AlignSplits(chapters.value, PRECISION, samplerate, align.value, config.mode), frames).value;
              var run := TrackScalpel.Extraction(LOOP, frames, TrackScalpel.TrackLengths(splits), 0, splits[0], config.target);
              r == Ok(TrackScalpel.Run(splits, [], run.0, run.1))
  {
    var chapters := ReadChapters(items, marks);
    if chapters.Err? {
      return Err(chapters.error);
    }
    var infile := new SoundFile.Open(frames);
    var align := TrackScalpel.ResolveAlign(samplerate, config.align);
    if align.Err? {
      return Err(align.error);
    }
    var computed := AlignSplits(chapters.value.ticks, chapters.value.precision, samplerate, align.value, config.mode);
    var padded := PadSplits(computed, frames);
    if padded.Err? {
      return Err(padded.error);
    }
    var splits := padded.value;
    var lengths := TrackScalpel.TrackLengths(splits);
    if splits[0] != 0 {
      infile.Seek(splits[0]);
    }
    var log := ExtractTracks(infile, lengths, config.target);
    return Ok(TrackScalpel.Run(splits, [], log, infile.pos));
  }

  /** Where no output is skipped, the missing seek does not matter: split
      points in order and inside the input are cut exactly, as by the
      package, in reads of at most 4096 frames. */
  lemma CutsExactlyWithoutSkips(frames: nat, splits: seq<int>, target: TrackScalpel.Target)
    requires Sorted(splits) && 0 < |splits| && 0 <= splits[0] && splits[|splits| - 1] <= frames
    requires TrackScalpel.NothingSkipped(splits, 0, target)
    ensures var run := TrackScalpel.Extraction(LOOP, frames, TrackScalpel.TrackLengths(splits), 0, splits[0], target);
            && |run.0| == |splits| - 1
            && run.1 == splits[|splits| - 1]
            && TrackScalpel.AllDone(run.0, 0, splits, target, BUFFER_SIZE)
  {
    TrackScalpel.SortedInPlace(LOOP, frames, splits, target);
    TrackScalpel.TracksFrom(LOOP, frames, splits, 0, target);
  }

  /** Two 100-frame tracks, the first already written: the script writes
      the second track from frame 0, the audio of the first. */
  lemma SkipMisreadsNextTrack()
    ensures var target := TrackScalpel.Target({"01.wav"}, false, ".wav");
            var script := TrackScalpel.Extraction(LOOP, 200, TrackScalpel.TrackLengths([0, 100, 200]), 0, 0, target);
            && script.0 == [TrackScalpel.Skipped("01.wav"), TrackScalpel.Written("02.wav", [Chunk(0, 100)])]
            && !TrackScalpel.TrackDone(script.0[1], 1, [0, 100, 200], target, BUFFER_SIZE)
  {
    var target := TrackScalpel.Target({"01.wav"}, false, ".wav");
    var lengths := TrackScalpel.TrackLengths([0, 100, 200]);
    assert lengths == [100, 100];
    TwoTrackNames();
    var last := TrackScalpel.Extraction(LOOP, 200, lengths, 2, 100, target);
    assert last == ([], 100);
    var second := TrackScalpel.Extraction(LOOP, 200, lengths, 1, 0, target);
    assert "02.wav"[1] != "01.wav"[1];
    assert !TrackScalpel.Skips(target, "02.wav");
    assert [Chunk(0, 100)][..0] == [];
    assert Copied([Chunk(0, 100)]) == 100;
    assert CopyChunks(200, 0, 100, BUFFER_SIZE) == [Chunk(0, 100)];
    assert TrackScalpel.TrackStep(LOOP, 200, 100, "02.wav", 0, target)
        == (TrackScalpel.Written("02.wav", [Chunk(0, 100)]), 100);
    var written := TrackScalpel.Written("02.wav", [Chunk(0, 100)]);
    assert second == ([written] + last.0, last.1);
    assert [written] + [] == [written];
  }

  /** The package on the same input writes frames 100 to 200 as the second
      track. */
  lemma SeekReadsNextTrack()
    ensures var target := TrackScalpel.Target({"01.wav"}, false, ".wav");
            var package := TrackScalpel.Extraction(TrackScalpel.LOOP, 200, TrackScalpel.TrackLengths([0, 100, 200]), 0, 0, target);
            package.0 == [TrackScalpel.Skipped("01.wav"), TrackScalpel.Written("02.wav", [Chunk(100, 100)])]
  {
    var target := TrackScalpel.Target({"01.wav"}, false, ".wav");
    var lengths := TrackScalpel.TrackLengths([0, 100, 200]);
    assert lengths == [100, 100];
    TwoTrackNames();
    var last := TrackScalpel.Extraction(TrackScalpel.LOOP, 200, lengths, 2, 200, target);
    assert last == ([], 200);
    var second := TrackScalpel.Extraction(TrackScalpel.LOOP, 200, lengths, 1, 100, target);
    assert "02.wav"[1] != "01.wav"[1];
    assert !TrackScalpel.Skips(target, "02.wav");
    assert [Chunk(100, 100)][..0] == [];
    assert Copied([Chunk(100, 100)]) == 100;
    assert CopyChunks(200, 100, 100, TrackScalpel.BUFFER_SIZE) == [Chunk(100, 100)];
    assert TrackScalpel.TrackStep(TrackScalpel.LOOP, 200, 100, "02.wav", 100, target)
        == (TrackScalpel.Written("02.wav", [Chunk(100, 100)]), 200);
    var written := TrackScalpel.Written("02.wav", [Chunk(100, 100)]);
    assert second == ([written] + last.0, last.1);
    assert [written] + [] == [written];
  }

  /** Split points 0 < `frames` < `first` < `second` on an input of
      `frames` frames (for instance 120000 and 144000 on 100000 frames):
      the script keeps all three split points, so its first track is cut
      short at the end of the input and its second track, which lies
      wholly past the end, is written with no audio at all. */
  lemma EmptyTrackPastEnd(frames: nat, first: int, second: int, target: TrackScalpel.Target)
    requires 0 < frames < first < second && target.existing == {}
    ensures PadSplits([0, first, second], frames) == Ok([0, first, second])
    ensures var run := TrackScalpel.Extraction(LOOP, frames, TrackScalpel.TrackLengths([0, first, second]), 0, 0, target);
            && |run.0| == 2
            && run.0[0].Written? && Copied(run.0[0].chunks) == frames < first
            && run.0[1].Written? && Copied(run.0[1].chunks) == 0 < second - first
  {
    assert TrackScalpel.TrackLengths([0, first, second]) == [first, second - first];
    PastEndCopied(frames, first, second - first, target);
  }

  /** What the two tracks of `PastEndRun` receive: the first the whole
      input, the second nothing. */
  lemma PastEndCopied(frames: nat, a: int, b: int, target: TrackScalpel.Target)
    requires 0 < frames < a && b >= 0 && target.existing == {}
    ensures var run := TrackScalpel.Extraction(LOOP, frames, [a, b], 0, 0, target);
            && |run.0| == 2
            && run.0[0].Written? && Copied(run.0[0].chunks) == frames
            && run.0[1].Written? && Copied(run.0[1].chunks) == 0
  {
    PastEndRun(frames, a, b, target);
    CopyClipped(frames, 0, a, BUFFER_SIZE);
    CopyClipped(frames, frames, b, BUFFER_SIZE);
  }

  /** The script's loop on two tracks when the first runs past the end
      of the input: each is written with what its copy loop reads, and
      the second starts reading at the end. */
  lemma PastEndRun(frames: nat, a: int, b: int, target: TrackScalpel.Target)
    requires 0 < frames < a && target.existing == {}
    ensures var run := TrackScalpel.Extraction(LOOP, frames, [a, b], 0, 0, target);
            && |run.0| == 2
            && run.0[0] == TrackScalpel.Written(TrackName(0, target.extension), CopyChunks(frames, 0, a, BUFFER_SIZE))
            && run.0[1] == TrackScalpel.Written(TrackName(1, target.extension), CopyChunks(frames, frames, b, BUFFER_SIZE))
  {
    var lengths := [a, b];
    var written0 := TrackScalpel.Written(TrackName(0, target.extension), CopyChunks(frames, 0, a, BUFFER_SIZE));
    var written1 := TrackScalpel.Written(TrackName(1, target.extension), CopyChunks(frames, frames, b, BUFFER_SIZE));
    var rest := TrackScalpel.Extraction(LOOP, frames, lengths, 1, frames, target);
    assert rest.0 == [written1] by {
      TrackScalpel.ExtractionCons(LOOP, frames, lengths, 1, b, frames, target);
      assert [written1] + [] == [written1];
    }
    assert |[written0] + rest.0| == 2;
    assert TrackScalpel.TrackStep(LOOP, frames, a, TrackName(0, target.extension), 0, target) == (written0, frames) by {
      CopyClipped(frames, 0, a, BUFFER_SIZE);
    }
    TrackScalpel.ExtractionCons(LOOP, frames, lengths, 0, a, 0, target);
  }

  /** The package on the same split points: both past the end are dropped
      with a warning each, and the input becomes a single track holding
      all of it. */
  lemma ClampedPastEnd(frames: nat, first: int, second: int)
    requires 0 < frames < first < second
    ensures TrackScalpel.Clamp([0, first, second], frames) == [0, frames]
    ensures TrackScalpel.Countdown(3, TrackScalpel.KeptLength([0, first, second], frames)) == [3, 2]
  {
    var s := [0, first, second];
    assert s[..2] == [0, first] && s[..2][..1] == [0];
    assert TrackScalpel.KeptLength([0], frames) == 1;
    assert TrackScalpel.KeptLength([0, first], frames) == 1;
    assert TrackScalpel.KeptLength(s, frames) == 1;
    assert s[..1] == [0];
    assert TrackScalpel.Countdown(1, 1) == [];
  }

}
