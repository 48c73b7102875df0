/** The list-based tree hash of src/main/java/cat/altimiras/glacier/backupper/Hash.java,
    which returns the root as hex text, and its buffered SHA-256 feed. */
module Hash {
  import opened Wrappers
  import opened Ranges
  import opened TreeHash
  import opened Hex

  /** Size of the read buffer of computeSHA256Hash. */
  const BUFFER_SIZE: nat := 16384

  /** The digests of the pairs (2i, 2i+1), i < n/2, first element first. */
  function Pairs(sha: Bytes -> Bytes, hashes: seq<Bytes>): (r: seq<Bytes>)
    ensures |r| == |hashes| / 2
  {
    seq(|hashes| / 2, i requires 0 <= i < |hashes| / 2 => sha(hashes[2 * i] + hashes[2 * i + 1]))
  }

  /** The list calculateTreeHash builds from one level: the pair digests,
      then the odd last element appended as it is. */
  function ListLevel(sha: Bytes -> Bytes, hashes: seq<Bytes>): (r: seq<Bytes>)
    ensures |r| == |hashes| / 2 + |hashes| % 2
  {
    Pairs(sha, hashes) + (if |hashes| % 2 == 1 then [hashes[|hashes| - 1]] else [])
  }

  /** The list algorithm builds the same level as the array algorithm. */
  lemma ListLevelIsNextLevel(sha: Bytes -> Bytes, hashes: seq<Bytes>)
    ensures ListLevel(sha, hashes) == NextLevel(sha, hashes)
  {
    var a, b := ListLevel(sha, hashes), NextLevel(sha, hashes);
    forall j | 0 <= j < |a|
      ensures a[j] == b[j]
    {
      if j < |hashes| / 2 {
        assert a[j] == Pairs(sha, hashes)[j];
      }
    }
  }

  /** The root calculateTreeHash reaches by repeating ListLevel. */
  function ListTreeHash(sha: Bytes -> Bytes, hashes: seq<Bytes>): Bytes
    requires |hashes| > 0
    decreases |hashes|
  {
    if |hashes| == 1 then hashes[0] else ListTreeHash(sha, ListLevel(sha, hashes))
  }

  /** Both implementations compute the same tree hash. */
  lemma {:induction false} ListTreeHashIsCombine(sha: Bytes -> Bytes, hashes: seq<Bytes>)
    requires |hashes| > 0
    ensures ListTreeHash(sha, hashes) == Combine(sha, hashes)
    decreases |hashes|
  {
    if |hashes| > 1 {
      ListLevelIsNextLevel(sha, hashes);
      ListTreeHashIsCombine(sha, ListLevel(sha, hashes));
    }
  }

  /** computeSHA256Hash: `data` goes through the digest in reads of at most
      16 KiB; every byte is fed exactly once and in order, so the result is
      the digest of `data`. */
  method ComputeSHA256Hash(sha: Bytes -> Bytes, data: Bytes) returns (r: Bytes)
    ensures r == sha(data)
  {
    var fed: Bytes := [];
    var pos := 0;
    while pos < |data|
      invariant pos <= |data| && fed == data[..pos]
      decreases |data| - pos
    {
      var n := Min(|data| - pos, BUFFER_SIZE);
      fed := fed + data[pos..pos + n];
      pos := pos + n;
    }
    assert fed == data;
    r := sha(fed);
  }

  /** The level loop of calculateTreeHash, before the hex encoding: it works
      on its own copy of `checksums`, and an empty list fails at
      `hashes.get(0)`. */
  method TreeHashOf(sha: Bytes -> Bytes, checksums: seq<Bytes>) returns (r: Result<Bytes>)
    ensures |checksums| == 0 ==> r == Failure(IndexOutOfBounds)
    ensures |checksums| > 0 ==> r == Success(ListTreeHash(sha, checksums))
  {
    var hashes := checksums;
    while |hashes| > 1
      invariant |checksums| == 0 <==> |hashes| == 0
      invariant |hashes| > 0 ==> ListTreeHash(sha, hashes) == ListTreeHash(sha, checksums)
      decreases |hashes|
    {
      hashes := HashLevel(sha, hashes);
    }
    if |hashes| == 0 {
      return Failure(IndexOutOfBounds);
    }
    return Success(hashes[0]);
  }

  /** One pass of calculateTreeHash's outer loop: the digest of each
      adjacent pair, then the odd last element carried over. */
  method HashLevel(sha: Bytes -> Bytes, hashes: seq<Bytes>) returns (treeHashes: seq<Bytes>)
    ensures treeHashes == ListLevel(sha, hashes)
  {
    treeHashes := [];
    var i := 0;
    while i < |hashes| / 2
      invariant i <= |hashes| / 2 && treeHashes == Pairs(sha, hashes)[..i]
    {
      var d := ComputeSHA256Hash(sha, hashes[2 * i] + hashes[2 * i + 1]);
      assert Pairs(sha, hashes)[..i + 1] == Pairs(sha, hashes)[..i] + [d];
      treeHashes := treeHashes + [d];
      i := i + 1;
    }
    assert treeHashes == Pairs(sha, hashes);
    if |hashes| % 2 == 1 {
      treeHashes := treeHashes + [hashes[|hashes| - 1]];
    }
  }

  /** calculateTreeHash: the hex text of the tree hash of `checksums`, the
      same root TreeHash.ComputeSHA256TreeHash computes over an array of
      those digests. */
  method CalculateTreeHash(sha: Bytes -> Bytes, checksums: seq<Bytes>) returns (r: Result<string>)
    ensures |checksums| == 0 ==> r == Failure(IndexOutOfBounds)
    ensures |checksums| > 0 ==> r == Success(ToHex(Combine(sha, checksums)))
  {
    var h := TreeHashOf(sha, checksums);
    if h.Failure? {
      return Failure(h.error);
    }
    ListTreeHashIsCombine(sha, checksums);
    return Success(ToHex(h.value));
  }
}
