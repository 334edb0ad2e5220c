/** The input sound file as the extraction loop sees it: a number of
    frames and one read cursor, moved by seeks and by reads. A read near
    the end of the file returns fewer frames than asked for, as the sound
    file library does. Sample contents, channels and formats are not part
    of this model; a copied chunk is identified by the frames it read. */
module Audio {
  import opened Basics
  import Rounding

  /** `frames` frames read from the input starting at frame `start`, and
      written to the output. */
  datatype Chunk = Chunk(start: int, frames: nat)

  /** How many frames a read of `n` frames at `pos` returns. */
  function Available(length: nat, pos: int, n: nat): (got: nat)
    ensures got <= n
    ensures 0 <= pos && pos + n <= length ==> got == n
    ensures got > 0 ==> 0 <= pos && pos + got <= length
  {
    if pos < 0 || pos >= length then 0 else Min(n, length - pos)
  }

  class SoundFile {
    /** `len(infile)`: the number of frames in the file. */
    const length: nat
    /** The read cursor, a frame index. */
    var pos: int

    /** A freshly opened file reads from its first frame. */
    constructor Open(length: nat)
      ensures this.length == length && pos == 0
    {
      this.length := length;
      pos := 0;
    }

    /** `seek(offset, SEEK_SET)`. */
    method Seek(offset: int)
      modifies this
      ensures pos == offset
    {
      pos := offset;
    }

    /** `seek(delta, SEEK_CUR)`. */
    method SeekBy(delta: int)
      modifies this
      ensures pos == old(pos) + delta
    {
      pos := pos + delta;
    }

    /** `read(n)`: returns the frames read, as a chunk, and moves the
        cursor past them. */
    method Read(n: nat) returns (c: Chunk)
      modifies this
      ensures c == Chunk(old(pos), Available(length, old(pos), n))
      ensures pos == old(pos) + c.frames
    {
      c := Chunk(pos, Available(length, pos, n));
      pos := pos + c.frames;
    }
  }

  /** Total frames copied. */
  function Copied(chunks: seq<Chunk>): nat {
    if chunks == [] then 0 else Copied(chunks[..|chunks| - 1]) + chunks[|chunks| - 1].frames
  }

  /** The chunks read one after the other from `start` on, with no gap
      and no overlap. */
  predicate Contiguous(chunks: seq<Chunk>, start: int) {
    chunks == [] || (chunks[0].start == start && Contiguous(chunks[1..], start + chunks[0].frames))
  }

  /** The chunks are exactly the frames [from, to), in order, each at most
      `bufferSize` frames long and none empty. */
  predicate ReadsRange(chunks: seq<Chunk>, from: int, to: int, bufferSize: nat) {
    && Contiguous(chunks, from)
    && Copied(chunks) == to - from
    && forall i :: 0 <= i < |chunks| ==> 0 < chunks[i].frames <= bufferSize
  }

  /** What the copy loop reads for one track of `remaining` frames from
      cursor `pos`: chunks of `min(bufferSize, remaining)` until nothing
      remains. */
  function CopyChunks(length: nat, pos: int, remaining: int, bufferSize: nat): seq<Chunk>
    requires bufferSize > 0
    decreases remaining
  {
    if remaining <= 0 then []
    else
      var size := Min(bufferSize, remaining);
      var got := Available(length, pos, size);
      [Chunk(pos, got)] + CopyChunks(length, pos + got, remaining - size, bufferSize)
  }

  /** `while length > 0: rdsize = min(buffersize, length); write(read(rdsize));
      length -= rdsize` */
  method CopyTrack(infile: SoundFile, length: int, bufferSize: nat) returns (chunks: seq<Chunk>)
    requires bufferSize > 0
    modifies infile
    ensures chunks == CopyChunks(infile.length, old(infile.pos), length, bufferSize)
    ensures infile.pos == old(infile.pos) + Copied(chunks)
  {
    chunks := [];
    var remaining := length;
    while remaining > 0
      invariant chunks + CopyChunks(infile.length, infile.pos, remaining, bufferSize)
             == CopyChunks(infile.length, old(infile.pos), length, bufferSize)
      invariant infile.pos == old(infile.pos) + Copied(chunks)
    {
      var size := Min(bufferSize, remaining);
      var c := infile.Read(size);
      assert (chunks + [c])[..|chunks|] == chunks;
      chunks := chunks + [c];
      remaining := remaining - size;
    }
  }

  lemma {:induction false} CopiedPrepend(c: Chunk, rest: seq<Chunk>)
    ensures Copied([c] + rest) == c.frames + Copied(rest)
    decreases |rest|
  {
    if rest == [] {
      assert [c] + rest == [c];
      assert [c][..0] == [];
    } else {
      var all := [c] + rest;
      assert all[..|all| - 1] == [c] + rest[..|rest| - 1];
      CopiedPrepend(c, rest[..|rest| - 1]);
    }
  }

  /** A track lying inside the file is copied exactly: contiguous chunks
      from its first frame, adding up to its length, each no larger than
      the buffer; and the cursor ends on the track's last frame + 1. */
  lemma {:induction false} CopyInsideFile(length: nat, pos: int, remaining: int, bufferSize: nat)
    requires bufferSize > 0 && 0 <= pos && remaining >= 0 && pos + remaining <= length
    ensures ReadsRange(CopyChunks(length, pos, remaining, bufferSize), pos, pos + remaining, bufferSize)
    decreases remaining
  {
    if remaining > 0 {
      var size := Min(bufferSize, remaining);
      var rest := CopyChunks(length, pos + size, remaining - size, bufferSize);
      CopyInsideFile(length, pos + size, remaining - size, bufferSize);
      CopiedPrepend(Chunk(pos, size), rest);
      assert ([Chunk(pos, size)] + rest)[1..] == rest;
    }
  }

  /** A track that runs past the end of the file is cut short there: the
      copy loop still makes all its reads, but from the end of the file on
      each of them returns nothing. */
  lemma {:induction false} CopyClipped(length: nat, pos: int, remaining: int, bufferSize: nat)
    requires bufferSize > 0 && 0 <= pos <= length && remaining >= 0
    ensures pos + Copied(CopyChunks(length, pos, remaining, bufferSize)) == Min(pos + remaining, length)
    decreases remaining
  {
    if remaining > 0 {
      var size := Min(bufferSize, remaining);
      var got := Available(length, pos, size);
      var rest := CopyChunks(length, pos + got, remaining - size, bufferSize);
      CopyClipped(length, pos + got, remaining - size, bufferSize);
      CopiedPrepend(Chunk(pos, got), rest);
    }
  }

  /** A track of length zero or less reads nothing. */
  lemma CopyNothing(length: nat, pos: int, remaining: int, bufferSize: nat)
    requires bufferSize > 0 && remaining <= 0
    ensures CopyChunks(length, pos, remaining, bufferSize) == []
  {
  }

  /** The loop makes ceil(remaining / bufferSize) reads. */
  lemma {:induction false} CopyReadCount(length: nat, pos: int, remaining: nat, bufferSize: nat)
    requires bufferSize > 0
    ensures |CopyChunks(length, pos, remaining, bufferSize)| == Rounding.Ceil(remaining, bufferSize)
    decreases remaining
  {
    var b := bufferSize;
    if remaining > b {
      var got := Available(length, pos, b);
      CopyReadCount(length, pos + got, remaining - b, b);
      var q := Rounding.Ceil(remaining - b, b);
      assert (q + 1) * b == q * b + b;
      assert (q + 1) * b - b < remaining <= (q + 1) * b;
      Rounding.CeilUnique(remaining, b, q + 1);
    } else if remaining > 0 {
      var got := Available(length, pos, remaining);
      assert CopyChunks(length, pos + got, 0, b) == [];
      Rounding.CeilUnique(remaining, b, 1);
    } else {
      Rounding.CeilUnique(remaining, b, 0);
    }
  }
}
