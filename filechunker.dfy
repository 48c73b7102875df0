/** FileChunker.PartIterator of src/main/java/cat/altimiras/glacier/backupper/FileChunker.java:
    an iterator over the parts of a file, each carrying its offset, its bytes
    and the tree hash of its 1 MiB sub-blocks. */
module FileChunker {
  import opened Wrappers
  import opened Seqs
  import opened Ranges
  import opened TreeHash
  import opened Hash

  /** One part of the file: where it starts, its bytes and their tree hash. */
  datatype Chunk = Chunk(start: int, content: Bytes, checksum: Bytes)

  /** Java's `long` division, which truncates toward zero. */
  function JavaDiv(a: nat, b: int): (q: int)
    requires b != 0
    ensures b > 0 ==> 0 <= q * b <= a < (q + 1) * b
    ensures b < 0 ==> q <= 0 && 0 <= q * b <= a < (1 - q) * -b
  {
    if b > 0 then DivBounds(a, b); a / b else DivBounds(a, -b); -(a / -b)
  }

  /** The part of `file` covering `s`. */
  function ChunkAt(sha: Bytes -> Bytes, file: Bytes, s: Span): (c: Chunk)
    requires s.start + s.len <= |file| && s.len > 0
    ensures c.start == s.start && |c.content| == s.len
  {
    var content := file[s.start..s.start + s.len];
    CeilDivBounds(|content|, ONE_MB);
    Chunk(s.start, content, Combine(sha, BlockDigests(sha, content)))
  }

  /** The parts an iterator standing at `from` still yields. */
  function ChunksFrom(sha: Bytes -> Bytes, file: Bytes, from: nat, partSize: int): (r: seq<Chunk>)
    requires partSize > 0
  {
    var spans := Spans(from, |file|, partSize);
    SpansPartition(from, |file|, partSize);
    seq(|spans|, k requires 0 <= k < |spans| => ChunkAt(sha, file, spans[k]))
  }

  /** All parts of `file`, in order. */
  function Chunks(sha: Bytes -> Bytes, file: Bytes, partSize: int): seq<Chunk>
    requires partSize > 0
  {
    ChunksFrom(sha, file, 0, partSize)
  }

  /** The bytes of each part. */
  function Contents(chunks: seq<Chunk>): (r: seq<Bytes>)
    ensures |r| == |chunks|
  {
    seq(|chunks|, k requires 0 <= k < |chunks| => chunks[k].content)
  }

  /** Standing at `from`, the next part is [from, from + min(|file| - from,
      partSize)) and the rest follow it. */
  lemma ChunksFromStep(sha: Bytes -> Bytes, file: Bytes, from: nat, partSize: int)
    requires partSize > 0 && from < |file|
    ensures var len := Min(|file| - from, partSize);
      ChunksFrom(sha, file, from, partSize)
        == [ChunkAt(sha, file, Span(from, len))] + ChunksFrom(sha, file, from + len, partSize)
  {
    var len := Min(|file| - from, partSize);
    var a := ChunksFrom(sha, file, from, partSize);
    var b := [ChunkAt(sha, file, Span(from, len))] + ChunksFrom(sha, file, from + len, partSize);
    assert Spans(from, |file|, partSize) == [Span(from, len)] + Spans(from + len, |file|, partSize);
    assert |a| == |b|;
    forall k | 0 <= k < |a|
      ensures a[k] == b[k]
    {
    }
  }

  /** At the end of the file nothing is left. */
  lemma ChunksFromEnd(sha: Bytes -> Bytes, file: Bytes, partSize: int)
    requires partSize > 0
    ensures ChunksFrom(sha, file, |file|, partSize) == []
  {
  }

  /** Part k covers range k of the file's cut into partSize-wide ranges. */
  lemma ChunkOfSpan(sha: Bytes -> Bytes, file: Bytes, partSize: int, k: nat)
    requires partSize > 0 && k < |Chunks(sha, file, partSize)|
    ensures var s := Spans(0, |file|, partSize)[k];
      var c := Chunks(sha, file, partSize)[k];
      && c.start == s.start && |c.content| == s.len
      && s.start + s.len <= |file| && 0 < s.len <= partSize
      && c.content == file[s.start..s.start + s.len]
      && c.checksum == Combine(sha, BlockDigests(sha, c.content))
  {
    SpansAt(0, |file|, partSize, k);
  }

  /** The parts' contents put together give the file back. */
  lemma ChunksConcat(sha: Bytes -> Bytes, file: Bytes, partSize: int)
    requires partSize > 0
    ensures Concat(Contents(Chunks(sha, file, partSize))) == file
  {
    var r := Chunks(sha, file, partSize);
    var spans := Spans(0, |file|, partSize);
    SpansPartition(0, |file|, partSize);
    assert Contents(r) == Slices(file, spans);
    SlicesConcat(file, 0, partSize);
  }

  /** Every part lies inside the file, is non-empty and at most partSize
      long, holds the file's bytes at its offset, and carries the tree hash
      of its 1 MiB sub-block digests. */
  lemma ChunksInside(sha: Bytes -> Bytes, file: Bytes, partSize: int)
    requires partSize > 0
    ensures var r := Chunks(sha, file, partSize);
      forall k :: 0 <= k < |r| ==>
        && 0 <= r[k].start && 0 < |r[k].content| <= partSize
        && r[k].start + |r[k].content| <= |file|
        && r[k].content == file[r[k].start..r[k].start + |r[k].content|]
        && r[k].checksum == Combine(sha, BlockDigests(sha, r[k].content))
  {
    var r := Chunks(sha, file, partSize);
    forall k | 0 <= k < |r|
      ensures && 0 <= r[k].start && 0 < |r[k].content| <= partSize
              && r[k].start + |r[k].content| <= |file|
              && r[k].content == file[r[k].start..r[k].start + |r[k].content|]
              && r[k].checksum == Combine(sha, BlockDigests(sha, r[k].content))
    {
      ChunkOfSpan(sha, file, partSize, k);
    }
  }

  /** Each part but the last is exactly partSize long, and the next one
      starts where it ends. */
  lemma ChunksContiguous(sha: Bytes -> Bytes, file: Bytes, partSize: int)
    requires partSize > 0
    ensures var r := Chunks(sha, file, partSize);
      forall k :: 0 <= k < |r| - 1 ==>
        |r[k].content| == partSize && r[k + 1].start == r[k].start + |r[k].content|
  {
    var r := Chunks(sha, file, partSize);
    SpansPartition(0, |file|, partSize);
    forall k | 0 <= k < |r| - 1
      ensures |r[k].content| == partSize && r[k + 1].start == r[k].start + |r[k].content|
    {
      ChunkOfSpan(sha, file, partSize, k);
      ChunkOfSpan(sha, file, partSize, k + 1);
    }
  }

  /** There are ceil(|file| / partSize) parts; the first starts at 0 and the
      last ends at |file|. */
  lemma ChunksEnds(sha: Bytes -> Bytes, file: Bytes, partSize: int)
    requires partSize > 0
    ensures var r := Chunks(sha, file, partSize);
      && |r| == CeilDiv(|file|, partSize)
      && (|r| > 0 ==> r[0].start == 0 && r[|r| - 1].start + |r[|r| - 1].content| == |file|)
  {
    var r := Chunks(sha, file, partSize);
    SpansCount(0, |file|, partSize);
    SpansPartition(0, |file|, partSize);
    if |r| > 0 {
      ChunkOfSpan(sha, file, partSize, 0);
      ChunkOfSpan(sha, file, partSize, |r| - 1);
    }
  }

  /** The parts cut the file into a contiguous partition of [0, |file|):
      ceil(|file| / partSize) parts, the first at 0, each starting where the
      previous one ends, all but the last exactly partSize long, the last
      ending at |file|, and their contents put together giving the file
      back. */
  lemma ChunksPartitionFile(sha: Bytes -> Bytes, file: Bytes, partSize: int)
    requires partSize > 0
    ensures var r := Chunks(sha, file, partSize);
      && |r| == CeilDiv(|file|, partSize)
      && (|r| > 0 ==> r[0].start == 0 && r[|r| - 1].start + |r[|r| - 1].content| == |file|)
      && (forall k :: 0 <= k < |r| - 1 ==>
            |r[k].content| == partSize && r[k + 1].start == r[k].start + |r[k].content|)
      && Concat(Contents(r)) == file
  {
    ChunksEnds(sha, file, partSize);
    ChunksContiguous(sha, file, partSize);
    ChunksConcat(sha, file, partSize);
  }

  /** The iterator over the parts of one file. */
  class PartIterator {
    const sha: Bytes -> Bytes
    const file: Bytes
    const size: int
    const partSize: int
    var currentPos: int

    /** `size` is the file's length, fixed at construction, and the position
        never leaves [0, size]. */
    ghost predicate Valid()
      reads this
    {
      size == |file| && 0 <= currentPos <= size
    }

    constructor(sha: Bytes -> Bytes, file: Bytes, partSize: int)
      ensures Valid()
      ensures this.sha == sha && this.file == file && this.partSize == partSize
      ensures currentPos == 0
    {
      this.sha := sha;
      this.file := file;
      this.partSize := partSize;
      this.size := |file|;
      this.currentPos := 0;
    }

    /** getExpectedChunks: the truncating quotient size / partSize, which is
        the number of parts rounded down, not up; a zero part size throws. */
    function ExpectedChunks(): (r: Result<int>)
      requires size >= 0
      ensures r.Failure? <==> partSize == 0
      ensures r.Failure? ==> r.error == Arithmetic
      ensures partSize > 0 ==> 0 <= r.value * partSize <= size < (r.value + 1) * partSize
    {
      if partSize == 0 then Failure(Arithmetic) else Success(JavaDiv(size, partSize))
    }

    /** hasNext: the position has not reached the end of the file. */
    predicate HasNext()
      reads this
    {
      currentPos < size
    }

    /** next: reads min(size - currentPos, partSize) bytes at currentPos,
        digests them 1 MiB at a time and tree-hashes the digests. When that
        length is not positive (nothing left, or a negative part size) an
        exception is caught and null comes back, with the position unchanged;
        otherwise the position advances by the part's length. */
    method Next() returns (c: Option<Chunk>)
      requires Valid()
      modifies this
      ensures Valid()
      ensures var toRead := Min(size - old(currentPos), partSize);
        if toRead > 0 then
          && c == Some(ChunkAt(sha, file, Span(old(currentPos), toRead)))
          && currentPos == old(currentPos) + toRead
        else c.None? && currentPos == old(currentPos)
    {
      var pending := size - currentPos;
      var toRead := Min(pending, partSize);
      if toRead < 0 {
        return None;
      }
      c := ReadPart(sha, file, currentPos, toRead);
      if c.Some? {
        currentPos := currentPos + toRead;
      }
    }
  }

  /** The body of next once the length is known: reads `len` bytes at `pos`,
      digests them 1 MiB at a time and tree-hashes the digests; an empty
      read has no digest to start the tree from and fails. */
  method ReadPart(sha: Bytes -> Bytes, file: Bytes, pos: nat, len: nat) returns (c: Option<Chunk>)
    requires pos + len <= |file|
    ensures len > 0 ==> c == Some(ChunkAt(sha, file, Span(pos, len)))
    ensures len == 0 ==> c == None
  {
    var content := file[pos..pos + len];
    PartDigestsCount(sha, content);
    var checksums := SubBlockDigests(sha, content);
    var h := TreeHashOf(sha, checksums);
    if h.Failure? {
      return None;
    }
    PartChunk(sha, file, pos, len);
    c := Some(Chunk(pos, content, h.value));
  }

  /** A part has sub-block digests exactly when it is not empty. */
  lemma PartDigestsCount(sha: Bytes -> Bytes, content: Bytes)
    ensures |BlockDigests(sha, content)| > 0 <==> |content| > 0
  {
    if |content| > 0 {
      CeilDivBounds(|content|, ONE_MB);
    }
  }

  /** The chunk of a non-empty part carries the list tree hash of its
      sub-block digests. */
  lemma PartChunk(sha: Bytes -> Bytes, file: Bytes, pos: nat, len: nat)
    requires pos + len <= |file| && len > 0
    ensures ChunkAt(sha, file, Span(pos, len))
      == Chunk(pos, file[pos..pos + len], ListTreeHash(sha, BlockDigests(sha, file[pos..pos + len])))
  {
    PartDigestsCount(sha, file[pos..pos + len]);
    ListTreeHashIsCombine(sha, BlockDigests(sha, file[pos..pos + len]));
  }

  /** hasNext holds exactly when some part is still to come. */
  lemma HasNextIffChunksRemain(it: PartIterator)
    requires it.Valid() && it.partSize > 0
    ensures it.HasNext() <==> |ChunksFrom(it.sha, it.file, it.currentPos, it.partSize)| > 0
  {
    SpansCount(it.currentPos, |it.file|, it.partSize);
    if it.currentPos < it.size {
      CeilDivBounds(it.size - it.currentPos, it.partSize);
    }
  }

  /** The checksum loop of next: one digest per sub-block of at most 1 MiB. */
  method SubBlockDigests(sha: Bytes -> Bytes, content: Bytes) returns (checksums: seq<Bytes>)
    ensures checksums == BlockDigests(sha, content)
  {
    checksums := [];
    if |content| == 0 {
      return;
    }
    ghost var digests := BlockDigests(sha, content);
    var processed := 0;
    while processed < |content|
      invariant |checksums| <= |digests| && processed == Min(|content|, |checksums| * ONE_MB)
      invariant checksums == digests[..|checksums|]
      decreases |content| - processed
    {
      BlockDigestNext(sha, content, |checksums|);
      var batch := Min(|content| - processed, ONE_MB);
      var d := sha(content[processed..processed + batch]);
      PrefixStep(digests, |checksums|);
      checksums := checksums + [d];
      processed := processed + batch;
    }
    BlockEnd(|content|, |checksums|);
  }


  /** getExpectedChunks undercounts by one whenever the last part is short:
      the upload progress total getExpectedChunks() + 1 is exact only then. */
  lemma ExpectedChunksVsChunks(sha: Bytes -> Bytes, file: Bytes, partSize: int)
    requires partSize > 0
    ensures var n := |Chunks(sha, file, partSize)|;
      JavaDiv(|file|, partSize) == if |file| % partSize == 0 then n else n - 1
  {
    ChunksPartitionFile(sha, file, partSize);
  }

  /** A file of 10 bytes cut into parts of 4: getExpectedChunks says 2, the
      iterator yields 3. */
  lemma ExpectedChunksExample(sha: Bytes -> Bytes, file: Bytes)
    requires |file| == 10
    ensures JavaDiv(|file|, 4) == 2
    ensures |Chunks(sha, file, 4)| == 3
  {
    ChunksPartitionFile(sha, file, 4);
    assert CeilDiv(10, 4) == 3;
  }

  /** The count getExpectedChunks evidently means, as its Math.ceil shows:
      size / partSize rounded up. */
  function IntendedExpectedChunks(size: nat, partSize: int): (r: nat)
    requires partSize > 0
    ensures size > 0 ==> (r - 1) * partSize < size <= r * partSize
    ensures size == 0 ==> r == 0
  {
    if size > 0 then CeilDivBounds(size, partSize); CeilDiv(size, partSize) else 0
  }

  /** Rounded up, the expected count is exactly the number of parts. */
  lemma IntendedExpectedChunksExact(sha: Bytes -> Bytes, file: Bytes, partSize: int)
    requires partSize > 0
    ensures IntendedExpectedChunks(|file|, partSize) == |Chunks(sha, file, partSize)|
  {
    ChunksEnds(sha, file, partSize);
  }
}
