/** The Amazon S3 Glacier SHA-256 tree hash, over arrays, as
    src/main/java/cat/altimiras/glacier/backupper/TreeHash.java computes it.
    SHA-256 itself is the parameter `sha`: any function from byte strings to
    byte strings. */
module TreeHash {
  import opened Wrappers
  import opened Seqs
  import opened Ranges

  /** The width of the blocks whose digests are the leaves of the tree. */
  const ONE_MB: nat := 1024 * 1024

  /** One level of the tree built from the level below: entry j digests the
      pair (2j, 2j+1), and an odd last entry is carried up as it is. */
  function NextLevel(sha: Bytes -> Bytes, prev: seq<Bytes>): (r: seq<Bytes>)
    ensures |r| == |prev| / 2 + |prev| % 2
    ensures |prev| > 1 ==> 0 < |r| < |prev|
  {
    seq(|prev| / 2 + |prev| % 2, j requires 0 <= j < |prev| / 2 + |prev| % 2 => Node(sha, prev, j))
  }

  /** Entry j of the next level: the digest of the pair (2j, 2j+1), or the
      odd last entry itself. */
  function Node(sha: Bytes -> Bytes, prev: seq<Bytes>, j: nat): Bytes
    requires 2 * j < |prev|
  {
    if |prev| - 2 * j > 1 then sha(prev[2 * j] + prev[2 * j + 1]) else prev[2 * j]
  }

  /** The root of the tree over `hashes`: levels are built until one digest is left. */
  function Combine(sha: Bytes -> Bytes, hashes: seq<Bytes>): Bytes
    requires |hashes| > 0
    decreases |hashes|
  {
    if |hashes| == 1 then hashes[0] else Combine(sha, NextLevel(sha, hashes))
  }

  /** The digest of each consecutive `ONE_MB` block of `data`, the last
      block possibly shorter. */
  function BlockDigests(sha: Bytes -> Bytes, data: Bytes): (r: seq<Bytes>)
    ensures |r| == CeilDiv(|data|, ONE_MB)
  {
    if |data| == 0 then []
    else
      CeilDivBounds(|data|, ONE_MB);
      seq(CeilDiv(|data|, ONE_MB), k requires 0 <= k < CeilDiv(|data|, ONE_MB) =>
        sha(data[k * ONE_MB..Min(|data|, (k + 1) * ONE_MB)]))
  }

  /** The blocks digested are the pieces of `data` cut every `ONE_MB` bytes,
      which put back together give `data`: every byte is digested once, in
      order. */
  lemma BlockDigestsOfPieces(sha: Bytes -> Bytes, data: Bytes)
    ensures var pieces := Pieces(data, ONE_MB);
      && Concat(pieces) == data
      && forall k :: 0 <= k < |pieces| ==> BlockDigests(sha, data)[k] == sha(pieces[k])
  {
    PiecesConcat(data, ONE_MB);
    var pieces := Pieces(data, ONE_MB);
    forall k | 0 <= k < |pieces|
      ensures BlockDigests(sha, data)[k] == sha(pieces[k])
    {
      BlockDigestAt(sha, data, k);
    }
  }

  lemma BlockDigestAt(sha: Bytes -> Bytes, data: Bytes, k: nat)
    requires k < CeilDiv(|data|, ONE_MB)
    ensures BlockDigests(sha, data)[k] == sha(Pieces(data, ONE_MB)[k])
  {
    PiecesAt(data, ONE_MB, k);
  }

  /** The leaves of a file's tree: one digest per 1 MiB block, or the digest
      of nothing for an empty file. */
  function FileLeaves(sha: Bytes -> Bytes, file: Bytes): (r: seq<Bytes>)
    ensures |r| > 0
    ensures |file| == 0 ==> r == [sha([])]
    ensures |file| > 0 ==> |r| == CeilDiv(|file|, ONE_MB)
  {
    if |file| == 0 then [sha([])] else BlockDigests(sha, file)
  }

  /** The tree hash of a whole file. */
  function FileTreeHash(sha: Bytes -> Bytes, file: Bytes): Bytes
  {
    Combine(sha, FileLeaves(sha, file))
  }

  /** A single digest is its own tree hash. */
  lemma CombineSingleton(sha: Bytes -> Bytes, h: Bytes)
    ensures Combine(sha, [h]) == h
  {
  }

  /** Two leaves: the digest of their concatenation, left first. */
  lemma CombinePair(sha: Bytes -> Bytes, a: Bytes, b: Bytes)
    ensures Combine(sha, [a, b]) == sha(a + b)
  {
    assert NextLevel(sha, [a, b]) == [sha(a + b)];
  }

  /** Three leaves: the odd third leaf joins only at the second level. */
  lemma CombineThree(sha: Bytes -> Bytes, a: Bytes, b: Bytes, c: Bytes)
    ensures Combine(sha, [a, b, c]) == sha(sha(a + b) + c)
  {
    assert NextLevel(sha, [a, b, c]) == [sha(a + b), c];
    CombinePair(sha, sha(a + b), c);
  }

  /** Five leaves: the fifth leaf is carried up two levels unchanged. */
  lemma CombineFive(sha: Bytes -> Bytes, a: Bytes, b: Bytes, c: Bytes, d: Bytes, e: Bytes)
    ensures Combine(sha, [a, b, c, d, e]) == sha(sha(sha(a + b) + sha(c + d)) + e)
  {
    var ab, cd := sha(a + b), sha(c + d);
    assert NextLevel(sha, [a, b, c, d, e]) == [ab, cd, e];
    CombineThree(sha, ab, cd, e);
  }

  /** The tree hash of leaves 2j, 2j+1 put side by side is the tree hash of
      their level: Combine is built level by level. */
  lemma {:induction false} CombineLevel(sha: Bytes -> Bytes, hashes: seq<Bytes>)
    requires |hashes| > 1
    ensures Combine(sha, hashes) == Combine(sha, NextLevel(sha, hashes))
  {
  }

  /** One pass of the level loop of computeSHA256TreeHash(byte[][]): fills a
      new array of ceil(n/2) entries by index, two entries of `prev` at a time. */
  method ComputeLevel(sha: Bytes -> Bytes, prev: array<Bytes>) returns (curr: array<Bytes>)
    ensures fresh(curr)
    ensures curr[..] == NextLevel(sha, prev[..])
  {
    var len := prev.Length / 2;
    if prev.Length % 2 != 0 {
      len := len + 1;
    }
    curr := new Bytes[len];
    ghost var p := prev[..];
    ghost var level := NextLevel(sha, p);
    assert len == |level|;
    var i, j := 0, 0;
    while i < prev.Length
      invariant i == 2 * j && j <= len
      invariant forall k :: 0 <= k < j ==> curr[k] == level[k]
    {
      NextLevelAt(sha, p, j);
      if prev.Length - i > 1 {
        curr[j] := sha(prev[i] + prev[i + 1]);
      } else {
        curr[j] := prev[i];
      }
      i, j := i + 2, j + 1;
    }
    HalfUp(prev.Length, j);
    assert curr[..] == level;
  }

  /** Node j of the next level: the digest of pair j, or the odd last node. */
  lemma NextLevelAt(sha: Bytes -> Bytes, prev: seq<Bytes>, j: nat)
    requires 2 * j < |prev|
    ensures j < |NextLevel(sha, prev)|
    ensures NextLevel(sha, prev)[j] == if |prev| - 2 * j > 1 then sha(prev[2 * j] + prev[2 * j + 1]) else prev[2 * j]
  {
    HalfUp(|prev|, j);
    assert NextLevel(sha, prev)[j] == Node(sha, prev, j);
  }

  /** j pairs start before n exactly when j is below ceil(n / 2). */
  lemma HalfUp(n: nat, j: nat)
    ensures 2 * j < n <==> j < n / 2 + n % 2
  {
  }

  /** computeSHA256TreeHash(byte[][]): levels are built until at most one
      digest is left. The result is the root of the tree over the given
      digests; an empty array fails on `prevLvlHashes[0]`. */
  method ComputeSHA256TreeHash(sha: Bytes -> Bytes, chunkHashes: array<Bytes>) returns (r: Result<Bytes>)
    ensures chunkHashes.Length == 0 ==> r == Failure(IndexOutOfBounds)
    ensures chunkHashes.Length > 0 ==> r == Success(Combine(sha, chunkHashes[..]))
  {
    var prev := chunkHashes;
    while prev.Length > 1
      invariant chunkHashes.Length == 0 ==> prev.Length == 0
      invariant chunkHashes.Length > 0 ==> prev.Length > 0 && Combine(sha, prev[..]) == Combine(sha, chunkHashes[..])
      decreases prev.Length
    {
      var curr := ComputeLevel(sha, prev);
      CombineLevel(sha, prev[..]);
      prev := curr;
    }
    if prev.Length == 0 {
      return Failure(IndexOutOfBounds);
    }
    assert prev[..] == [prev[0]];
    return Success(prev[0]);
  }

  /** getChunkSHA256Hashes: one digest per 1 MiB block of the file, the last
      block possibly shorter, each digested on its own; an empty file gives
      the single digest of nothing. */
  method GetChunkSHA256Hashes(sha: Bytes -> Bytes, file: Bytes) returns (r: array<Bytes>)
    ensures r[..] == FileLeaves(sha, file)
  {
    var numChunks := |file| / ONE_MB;
    if |file| % ONE_MB > 0 {
      numChunks := numChunks + 1;
    }
    if numChunks == 0 {
      r := new Bytes[1];
      r[0] := sha([]);
      assert |file| == 0;
      return;
    }
    r := new Bytes[numChunks];
    ReadBlocks(sha, file, r);
  }

  /** The read loop of getChunkSHA256Hashes: slot `idx` receives the digest
      of the `idx`-th read of at most 1 MiB. */
  method ReadBlocks(sha: Bytes -> Bytes, file: Bytes, r: array<Bytes>)
    requires |file| > 0 && r.Length == CeilDiv(|file|, ONE_MB)
    modifies r
    ensures r[..] == BlockDigests(sha, file)
  {
    ghost var digests := BlockDigests(sha, file);
    var pos, idx := 0, 0;
    while pos < |file|
      invariant idx <= r.Length && pos == Min(|file|, idx * ONE_MB)
      invariant r[..idx] == digests[..idx]
      decreases |file| - pos
    {
      BlockStep(|file|, idx);
      var n := Min(|file| - pos, ONE_MB);
      r[idx] := sha(file[pos..pos + n]);
      assert r[idx] == digests[idx];
      pos, idx := pos + n, idx + 1;
    }
    BlockEnd(|file|, idx);
    assert r[..] == r[..idx];
  }

  /** The read at block `idx` starts at idx MiB and ends where block idx + 1
      would start, or at the end of the file. */
  lemma BlockStep(n: nat, idx: nat)
    requires idx * ONE_MB < n
    ensures idx < CeilDiv(n, ONE_MB)
    ensures idx * ONE_MB + Min(n - idx * ONE_MB, ONE_MB) == Min(n, (idx + 1) * ONE_MB)
  {
    CeilDivBounds(n, ONE_MB);
    assert (idx + 1) * ONE_MB == idx * ONE_MB + ONE_MB;
  }

  /** The digest of the block that starts at idx MiB. */
  lemma BlockDigestNext(sha: Bytes -> Bytes, data: Bytes, idx: nat)
    requires idx * ONE_MB < |data|
    ensures idx < |BlockDigests(sha, data)|
    ensures BlockDigests(sha, data)[idx]
      == sha(data[idx * ONE_MB..idx * ONE_MB + Min(|data| - idx * ONE_MB, ONE_MB)])
  {
    BlockStep(|data|, idx);
    BlockDigestAtIndex(sha, data, idx);
  }

  /** Digest `idx` is the digest of the idx-th 1 MiB block. */
  lemma BlockDigestAtIndex(sha: Bytes -> Bytes, data: Bytes, idx: nat)
    requires idx < |BlockDigests(sha, data)|
    ensures BlockDigests(sha, data)[idx] == sha(data[idx * ONE_MB..Min(|data|, (idx + 1) * ONE_MB)])
  {
  }

  /** Reading stops after exactly ceil(n / 1 MiB) blocks. */
  lemma BlockEnd(n: nat, idx: nat)
    requires n > 0 && idx <= CeilDiv(n, ONE_MB) && Min(n, idx * ONE_MB) >= n
    ensures idx == CeilDiv(n, ONE_MB)
  {
    CeilDivBounds(n, ONE_MB);
  }

  /** computeSHA256TreeHash(File): the tree over the file's 1 MiB block digests. */
  method ComputeSHA256TreeHashOfFile(sha: Bytes -> Bytes, file: Bytes) returns (r: Bytes)
    ensures r == FileTreeHash(sha, file)
  {
    var hashes := GetChunkSHA256Hashes(sha, file);
    var h := ComputeSHA256TreeHash(sha, hashes);
    r := h.value;
  }
}
