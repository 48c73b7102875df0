/** The transfer logic of src/main/java/cat/altimiras/glacier/backupper/GlacierManager.java.
    The Glacier service is a value of `Glacier`: the responses its calls give
    to each request. Each operation returns the requests it sent, in order,
    next to its result. */
module GlacierManager {
  import opened Wrappers
  import opened Seqs
  import opened Ranges
  import opened TreeHash
  import opened Hash
  import opened Hex
  import opened FileChunker
  import opened Records

  /** The part size used when none is given: 16 MiB. */
  const DEFAULT_CHUNK_SIZE: int := 1024 * 1024 * 16

  /** The buffer appendToFile copies through: 1 MiB. */
  const COPY_BUFFER_SIZE: nat := 1024 * 1024

  /** An inclusive byte range `first-last`. */
  datatype ByteRange = ByteRange(first: int, last: int)

  /** The status codes a retrieval job reports. */
  datatype StatusCode = InProgress | Succeeded | Failed

  datatype JobDescription = JobDescription(statusCode: StatusCode, archiveSizeInBytes: int)

  /** The requests the client sends, with the fields the code sets. */
  datatype Request =
    | InitiateMultipartUpload(vault: string, partSize: int, description: string)
    | UploadMultipartPart(uploadId: string, vault: string, range: ByteRange, checksum: string, body: Bytes)
    | CompleteMultipartUpload(uploadId: string, vault: string, archiveSize: int, checksum: string)
    | InitiateJob(vault: string, archiveId: string, jobType: string, tier: string)
    | DescribeJob(vault: string, jobId: string)
    | GetJobOutput(vault: string, jobId: string, range: ByteRange)
    | DeleteArchive(vault: string, archiveId: string)

  /** The responses of one regional client; None stands for a
      ResourceNotFoundException. The upload calls and the job output always
      answer, and a repeated request gets the same answer. */
  datatype Glacier = Glacier(
    uploadId: Request -> string,
    archiveId: Request -> string,
    jobId: Request -> Option<string>,
    describe: Request -> Option<JobDescription>,
    output: Request -> Bytes)

  /** A result and the requests sent to obtain it. */
  datatype Exchange<T> = Exchange(result: Result<T>, sent: seq<Request>)

  /** A download: its result, the requests sent, and the target file's
      bytes afterwards. */
  datatype Transfer = Transfer(result: Result<()>, sent: seq<Request>, output: Bytes)

  /** chunkSize: 0 selects the 16 MiB default; any other value is kept. The
      part size used is therefore never 0. */
  function ChunkSize(chunkSize: int): (r: int)
    ensures r != 0
    ensures chunkSize != 0 ==> r == chunkSize
    ensures chunkSize == 0 ==> r == DEFAULT_CHUNK_SIZE
  {
    if chunkSize == 0 then DEFAULT_CHUNK_SIZE else chunkSize
  }

  // ---------------------------------------------------------------- upload

  /** The part request for chunk `c`: the inclusive range start-(start+len-1)
      and the hex text of the chunk's tree hash. */
  function PartRequest(uploadId: string, vault: string, c: Chunk): Request
  {
    UploadMultipartPart(uploadId, vault, ByteRange(c.start, c.start + |c.content| - 1), ToHex(c.checksum), c.content)
  }

  function PartRequests(uploadId: string, vault: string, chunks: seq<Chunk>): (r: seq<Request>)
    ensures |r| == |chunks|
  {
    seq(|chunks|, k requires 0 <= k < |chunks| => PartRequest(uploadId, vault, chunks[k]))
  }

  function Checksums(chunks: seq<Chunk>): (r: seq<Bytes>)
    ensures |r| == |chunks|
  {
    seq(|chunks|, k requires 0 <= k < |chunks| => chunks[k].checksum)
  }

  lemma ChunkListsAppend(uploadId: string, vault: string, chunks: seq<Chunk>, c: Chunk)
    ensures Checksums(chunks + [c]) == Checksums(chunks) + [c.checksum]
    ensures PartRequests(uploadId, vault, chunks + [c]) == PartRequests(uploadId, vault, chunks) + [PartRequest(uploadId, vault, c)]
  {
    assert Checksums(chunks + [c]) == Checksums(chunks) + [c.checksum];
    assert PartRequests(uploadId, vault, chunks + [c]) == PartRequests(uploadId, vault, chunks) + [PartRequest(uploadId, vault, c)];
  }

  /** What upload does: one initiate request, one part request per chunk in
      file order, then the completion request carrying the file length and
      the hex tree hash of the part checksums. An empty file has no parts,
      and the tree hash of no checksums fails; a negative part size makes
      the first next() return null. */
  function UploadSpec(sha: Bytes -> Bytes, clients: string -> Glacier, name: string, file: Bytes,
                      region: string, vault: string, chunkSize: int): Exchange<string>
  {
    var cs := ChunkSize(chunkSize);
    var g := clients(region);
    var init := InitiateMultipartUpload(vault, cs, name);
    var uploadId := g.uploadId(init);
    if |file| == 0 then Exchange(Failure(IndexOutOfBounds), [init])
    else if cs < 0 then Exchange(Failure(NullPointer), [init])
    else
      var chunks := Chunks(sha, file, cs);
      ChunksEnds(sha, file, cs);
      CeilDivBounds(|file|, cs);
      var complete := CompleteMultipartUpload(uploadId, vault, |file|, ToHex(Combine(sha, Checksums(chunks))));
      Exchange(Success(g.archiveId(complete)), [init] + PartRequests(uploadId, vault, chunks) + [complete])
  }

  /** The chunk loop of upload: one part request per chunk, in file order,
      and the chunk checksums collected in the same order. The loop stops
      with `ok` false when next() returns null, which happens exactly when
      the part size is negative and the file is not empty. */
  method SendParts(sha: Bytes -> Bytes, uploadId: string, vault: string, file: Bytes, cs: int)
    returns (ok: bool, parts: seq<Request>, partChecksums: seq<Bytes>)
    requires cs != 0
    ensures ok <==> cs > 0 || |file| == 0
    ensures ok && cs > 0 ==> parts == PartRequests(uploadId, vault, Chunks(sha, file, cs))
    ensures ok && cs > 0 ==> partChecksums == Checksums(Chunks(sha, file, cs))
    ensures cs < 0 ==> parts == [] && partChecksums == []
  {
    parts, partChecksums := [], [];
    var it := new PartIterator(sha, file, cs);
    ghost var done: seq<Chunk> := [];
    while it.HasNext()
      invariant fresh(it) && it.Valid()
      invariant it.sha == sha && it.file == file && it.partSize == cs
      invariant cs < 0 ==> it.currentPos == 0 && parts == [] && partChecksums == []
      invariant cs > 0 ==> PartsSent(sha, uploadId, vault, file, cs, it.currentPos, done, parts, partChecksums)
      decreases |file| - it.currentPos
    {
      ghost var pos := it.currentPos;
      var chunk := it.Next();
      if chunk.None? {
        return false, parts, partChecksums;
      }
      var c := chunk.value;
      SendPartsStep(sha, uploadId, vault, file, cs, pos, done, parts, partChecksums, c);
      partChecksums := partChecksums + [c.checksum];
      parts := parts + [PartRequest(uploadId, vault, c)];
      done := done + [c];
    }
    if cs > 0 {
      ChunksFromEnd(sha, file, cs);
    }
    return true, parts, partChecksums;
  }

  /** The loop invariant of the chunk loop once the part size is positive:
      the chunks sent so far and the chunks from `pos` on make up the file's
      chunks, and the requests and checksums are those of the chunks sent. */
  ghost predicate PartsSent(sha: Bytes -> Bytes, uploadId: string, vault: string, file: Bytes, cs: int,
                            pos: nat, done: seq<Chunk>, parts: seq<Request>, partChecksums: seq<Bytes>)
    requires cs > 0
  {
    && Chunks(sha, file, cs) == done + ChunksFrom(sha, file, pos, cs)
    && partChecksums == Checksums(done)
    && parts == PartRequests(uploadId, vault, done)
  }

  lemma SendPartsStep(sha: Bytes -> Bytes, uploadId: string, vault: string, file: Bytes, cs: int,
                      pos: nat, done: seq<Chunk>, parts: seq<Request>, partChecksums: seq<Bytes>, c: Chunk)
    requires cs > 0 && pos < |file|
    requires c == ChunkAt(sha, file, Span(pos, Min(|file| - pos, cs)))
    requires PartsSent(sha, uploadId, vault, file, cs, pos, done, parts, partChecksums)
    ensures PartsSent(sha, uploadId, vault, file, cs, pos + Min(|file| - pos, cs), done + [c],
                      parts + [PartRequest(uploadId, vault, c)], partChecksums + [c.checksum])
  {
    var rest := ChunksFrom(sha, file, pos + Min(|file| - pos, cs), cs);
    ChunksFromStep(sha, file, pos, cs);
    assert ChunksFrom(sha, file, pos, cs) == [c] + rest;
    assert done + ([c] + rest) == (done + [c]) + rest;
    ChunkListsAppend(uploadId, vault, done, c);
  }

  /** upload: initiate, send the parts, complete with the tree hash of the
      part checksums. */
  method Upload(sha: Bytes -> Bytes, clients: string -> Glacier, name: string, file: Bytes,
                region: string, vault: string, chunkSize: int) returns (e: Exchange<string>)
    ensures e == UploadSpec(sha, clients, name, file, region, vault, chunkSize)
  {
    var cs := ChunkSize(chunkSize);
    var g := clients(region);
    var init := InitiateMultipartUpload(vault, cs, name);
    var uploadId := g.uploadId(init);
    var ok, parts, partChecksums := SendParts(sha, uploadId, vault, file, cs);
    if !ok {
      return Exchange(Failure(NullPointer), [init] + parts);
    }
    if |file| > 0 {
      ChunksEnds(sha, file, cs);
      CeilDivBounds(|file|, cs);
    }
    var treeHash := CalculateTreeHash(sha, partChecksums);
    if treeHash.Failure? {
      return Exchange(Failure(treeHash.error), [init] + parts);
    }
    var complete := CompleteMultipartUpload(uploadId, vault, |file|, treeHash.value);
    return Exchange(Success(g.archiveId(complete)), [init] + parts + [complete]);
  }

  /** The bodies of a list of part requests. */
  function PartBodies(parts: seq<Request>): (r: seq<Bytes>)
    requires forall k :: 0 <= k < |parts| ==> parts[k].UploadMultipartPart?
    ensures |r| == |parts|
  {
    seq(|parts|, k requires 0 <= k < |parts| => parts[k].body)
  }

  /** A successful upload sends one initiate request first, then one part
      request per chunk, then one completion request; no other request
      initiates an upload. The part bodies are the chunks' contents in file
      order, so put together they give the file back; the completion
      carries the file length and the hex tree hash of the part checksums
      in chunk order. */
  lemma UploadShape(sha: Bytes -> Bytes, clients: string -> Glacier, name: string, file: Bytes,
                    region: string, vault: string, chunkSize: int)
    requires |file| > 0 && ChunkSize(chunkSize) > 0
    ensures var cs := ChunkSize(chunkSize);
      var e := UploadSpec(sha, clients, name, file, region, vault, chunkSize);
      var chunks := Chunks(sha, file, cs);
      var n := |e.sent|;
      && e.result.Success?
      && n == CeilDiv(|file|, cs) + 2
      && e.sent[0] == InitiateMultipartUpload(vault, cs, name)
      && (forall k :: 0 < k < n ==> !e.sent[k].InitiateMultipartUpload?)
      && (forall k :: 0 < k < n - 1 ==> e.sent[k].UploadMultipartPart?)
      && PartBodies(e.sent[1..n - 1]) == Contents(chunks)
      && Concat(PartBodies(e.sent[1..n - 1])) == file
      && e.sent[n - 1].CompleteMultipartUpload?
      && e.sent[n - 1].archiveSize == |file|
      && e.sent[n - 1].checksum == ToHex(Combine(sha, Checksums(chunks)))
  {
    var cs := ChunkSize(chunkSize);
    var chunks := Chunks(sha, file, cs);
    ChunksEnds(sha, file, cs);
    CeilDivBounds(|file|, cs);
    ChunksConcat(sha, file, cs);
    var init := InitiateMultipartUpload(vault, cs, name);
    var uploadId := clients(region).uploadId(init);
    var complete := CompleteMultipartUpload(uploadId, vault, |file|, ToHex(Combine(sha, Checksums(chunks))));
    var e := UploadSpec(sha, clients, name, file, region, vault, chunkSize);
    assert e == Exchange(Success(clients(region).archiveId(complete)), [init] + PartRequests(uploadId, vault, chunks) + [complete]);
    SentShape(init, uploadId, vault, chunks, complete);
  }

  /** The request list of a successful upload, for any chunk list. */
  lemma SentShape(init: Request, uploadId: string, vault: string, chunks: seq<Chunk>, complete: Request)
    requires init.InitiateMultipartUpload? && complete.CompleteMultipartUpload?
    ensures var sent := [init] + PartRequests(uploadId, vault, chunks) + [complete];
      && |sent| == |chunks| + 2 && sent[0] == init && sent[|sent| - 1] == complete
      && sent[1..|sent| - 1] == PartRequests(uploadId, vault, chunks)
      && (forall k :: 0 < k < |sent| ==> !sent[k].InitiateMultipartUpload?)
      && (forall k :: 0 < k < |sent| - 1 ==> sent[k].UploadMultipartPart?)
      && PartBodies(PartRequests(uploadId, vault, chunks)) == Contents(chunks)
  {
    var sent := [init] + PartRequests(uploadId, vault, chunks) + [complete];
    assert sent[1..|sent| - 1] == PartRequests(uploadId, vault, chunks);
  }

  /** The part ranges are inclusive and cover [0, |file| - 1] without gap or
      overlap: the first starts at 0, each starts one past the previous
      one's end, the last ends at |file| - 1; each part's body is the
      file's bytes in its range, at most the part size long, and its
      checksum is the hex tree hash of that body's 1 MiB blocks. */
  lemma UploadRanges(sha: Bytes -> Bytes, clients: string -> Glacier, name: string, file: Bytes,
                     region: string, vault: string, chunkSize: int)
    requires |file| > 0 && ChunkSize(chunkSize) > 0
    ensures var cs := ChunkSize(chunkSize);
      var e := UploadSpec(sha, clients, name, file, region, vault, chunkSize);
      PartsCoverFile(file, cs, e.sent[1..|e.sent| - 1]) && PartsCarryTreeHash(sha, e.sent[1..|e.sent| - 1])
  {
    var cs := ChunkSize(chunkSize);
    var e := UploadSpec(sha, clients, name, file, region, vault, chunkSize);
    var uploadId := clients(region).uploadId(e.sent[0]);
    ChunksEnds(sha, file, cs);
    CeilDivBounds(|file|, cs);
    assert e.sent[1..|e.sent| - 1] == PartRequests(uploadId, vault, Chunks(sha, file, cs));
    PartRequestsCoverFile(sha, file, cs, uploadId, vault);
  }

  /** Part requests whose inclusive ranges cover [0, |file| - 1] in order
      without gap or overlap, each carrying the file's bytes in its range,
      at most `cs` of them. */
  ghost predicate PartsCoverFile(file: Bytes, cs: int, parts: seq<Request>)
  {
    && |parts| > 0
    && (forall k :: 0 <= k < |parts| ==> parts[k].UploadMultipartPart?)
    && parts[0].range.first == 0
    && parts[|parts| - 1].range.last == |file| - 1
    && (forall k :: 0 <= k < |parts| - 1 ==> parts[k + 1].range.first == parts[k].range.last + 1)
    && (forall k :: 0 <= k < |parts| ==>
          && 0 <= parts[k].range.first <= parts[k].range.last < |file|
          && parts[k].range.last - parts[k].range.first < cs
          && parts[k].body == file[parts[k].range.first..parts[k].range.last + 1])
  }

  /** Part requests each carrying the hex tree hash of its body's 1 MiB
      blocks. */
  ghost predicate PartsCarryTreeHash(sha: Bytes -> Bytes, parts: seq<Request>)
  {
    forall k :: 0 <= k < |parts| ==>
      && parts[k].UploadMultipartPart? && |parts[k].body| > 0
      && parts[k].checksum == ToHex(Combine(sha, BlockDigests(sha, parts[k].body)))
  }

  lemma PartRequestsCoverFile(sha: Bytes -> Bytes, file: Bytes, cs: int, uploadId: string, vault: string)
    requires |file| > 0 && cs > 0
    ensures PartsCoverFile(file, cs, PartRequests(uploadId, vault, Chunks(sha, file, cs)))
    ensures PartsCarryTreeHash(sha, PartRequests(uploadId, vault, Chunks(sha, file, cs)))
  {
    ChunksEnds(sha, file, cs);
    CeilDivBounds(|file|, cs);
    ChunksContiguous(sha, file, cs);
    ChunksInside(sha, file, cs);
    TilingPartsCoverFile(file, cs, uploadId, vault, Chunks(sha, file, cs));
    PartsTreeHashes(sha, uploadId, vault, Chunks(sha, file, cs));
  }

  /** The part requests of any chunk list that tiles the file cover it. */
  lemma TilingPartsCoverFile(file: Bytes, cs: int, uploadId: string, vault: string, chunks: seq<Chunk>)
    requires |chunks| > 0 && chunks[0].start == 0
    requires chunks[|chunks| - 1].start + |chunks[|chunks| - 1].content| == |file|
    requires forall k :: 0 <= k < |chunks| - 1 ==>
      |chunks[k].content| == cs && chunks[k + 1].start == chunks[k].start + |chunks[k].content|
    requires forall k :: 0 <= k < |chunks| ==>
        && 0 <= chunks[k].start && 0 < |chunks[k].content| <= cs
        && chunks[k].start + |chunks[k].content| <= |file|
        && chunks[k].content == file[chunks[k].start..chunks[k].start + |chunks[k].content|]
    ensures PartsCoverFile(file, cs, PartRequests(uploadId, vault, chunks))
  {
    var parts := PartRequests(uploadId, vault, chunks);
    forall k | 0 <= k < |parts|
      ensures parts[k].UploadMultipartPart?
      ensures 0 <= parts[k].range.first <= parts[k].range.last < |file|
      ensures parts[k].range.last - parts[k].range.first < cs
      ensures parts[k].body == file[parts[k].range.first..parts[k].range.last + 1]
    {
      PartRequestOf(uploadId, vault, chunks, k);
    }
    forall k | 0 <= k < |parts| - 1
      ensures parts[k + 1].range.first == parts[k].range.last + 1
    {
      PartRequestOf(uploadId, vault, chunks, k);
      PartRequestOf(uploadId, vault, chunks, k + 1);
    }
    PartRequestOf(uploadId, vault, chunks, 0);
    PartRequestOf(uploadId, vault, chunks, |chunks| - 1);
  }

  /** The part requests of chunks carrying their tree hash carry its hex. */
  lemma PartsTreeHashes(sha: Bytes -> Bytes, uploadId: string, vault: string, chunks: seq<Chunk>)
    requires forall k :: 0 <= k < |chunks| ==>
      |chunks[k].content| > 0 && chunks[k].checksum == Combine(sha, BlockDigests(sha, chunks[k].content))
    ensures PartsCarryTreeHash(sha, PartRequests(uploadId, vault, chunks))
  {
    var parts := PartRequests(uploadId, vault, chunks);
    forall k | 0 <= k < |parts|
      ensures parts[k].UploadMultipartPart? && |parts[k].body| > 0
      ensures parts[k].checksum == ToHex(Combine(sha, BlockDigests(sha, parts[k].body)))
    {
      PartRequestOf(uploadId, vault, chunks, k);
    }
  }

  lemma PartRequestOf(uploadId: string, vault: string, chunks: seq<Chunk>, k: nat)
    requires k < |chunks|
    ensures var p := PartRequests(uploadId, vault, chunks)[k];
      && p.UploadMultipartPart?
      && p.range == ByteRange(chunks[k].start, chunks[k].start + |chunks[k].content| - 1)
      && p.body == chunks[k].content
      && p.checksum == ToHex(chunks[k].checksum)
  {
  }

  // -------------------------------------------------------------- download

  /** The target file opened with RandomAccessFile in "rw" mode: its bytes
      and the write position. Opening keeps the existing bytes. */
  class OutputFile {
    var data: Bytes
    var pointer: nat

    ghost predicate Valid()
      reads this
    {
      pointer <= |data|
    }

    constructor Open(existing: Bytes)
      ensures Valid() && data == existing && pointer == 0
    {
      data := existing;
      pointer := 0;
    }

    /** write(buffer, 0, n): overwrites from the position, growing the file
        when the write runs past its end, and moves the position. */
    method Write(buf: Bytes)
      requires Valid()
      modifies this
      ensures Valid()
      ensures data == Overwrite(old(data), old(pointer), buf)
      ensures pointer == old(pointer) + |buf|
    {
      data := Overwrite(data, pointer, buf);
      pointer := pointer + |buf|;
    }
  }

  /** `d` with `buf` written at offset `p`: the bytes before `p` and after
      the written ones are kept. */
  function Overwrite(d: Bytes, p: nat, buf: Bytes): (r: Bytes)
    requires p <= |d|
    ensures |r| == if p + |buf| < |d| then |d| else p + |buf|
    ensures r[..p] == d[..p] && r[p..p + |buf|] == buf
    ensures p + |buf| < |d| ==> r[p + |buf|..] == d[p + |buf|..]
  {
    d[..p] + buf + (if p + |buf| < |d| then d[p + |buf|..] else [])
  }

  /** Two consecutive writes are one write of both buffers. */
  lemma OverwriteTwice(d: Bytes, p: nat, a: Bytes, b: Bytes)
    requires p <= |d|
    ensures Overwrite(Overwrite(d, p, a), p + |a|, b) == Overwrite(d, p, a + b)
  {
    var x := Overwrite(Overwrite(d, p, a), p + |a|, b);
    var y := Overwrite(d, p, a + b);
    assert |x| == |y|;
    forall i | 0 <= i < |x|
      ensures x[i] == y[i]
    {
      if i < p {
        assert x[i] == x[..p][i];
        assert y[i] == y[..p][i];
      } else if i < p + |a| {
        assert x[i] == Overwrite(d, p, a)[..p + |a|][i];
        assert Overwrite(d, p, a)[i] == Overwrite(d, p, a)[p..p + |a|][i - p];
        assert y[i] == y[p..p + |a| + |b|][i - p];
      } else if i < p + |a| + |b| {
        assert x[i] == x[p + |a|..p + |a| + |b|][i - p - |a|];
        assert y[i] == y[p..p + |a| + |b|][i - p];
      } else {
        assert x[i] == x[p + |a| + |b|..][i - p - |a| - |b|];
        assert y[i] == y[p + |a| + |b|..][i - p - |a| - |b|];
      }
    }
  }

  /** appendToFile: copies the response body to the file 1 MiB at a time;
      the file ends up with the whole body written at the position, which
      advances by its length. */
  method AppendToFile(output: OutputFile, input: Bytes)
    requires output.Valid()
    modifies output
    ensures output.Valid()
    ensures output.data == Overwrite(old(output.data), old(output.pointer), input)
    ensures output.pointer == old(output.pointer) + |input|
  {
    var pos := 0;
    while pos < |input|
      invariant pos <= |input| && output.Valid()
      invariant output.data == Overwrite(old(output.data), old(output.pointer), input[..pos])
      invariant output.pointer == old(output.pointer) + pos
      decreases |input| - pos
    {
      var n := Min(|input| - pos, COPY_BUFFER_SIZE);
      output.Write(input[pos..pos + n]);
      OverwriteTwice(old(output.data), old(output.pointer), input[..pos], input[pos..pos + n]);
      PrefixJoin(input, pos, pos + n);
      pos := pos + n;
    }
    assert input[..pos] == input;
  }

  /** The ranged fetch requests from `from` on: [pos, pos + min(size - pos,
      chunkSize) - 1] at each position. */
  function FetchesFrom(job: Job, from: nat, size: nat, chunkSize: int): (r: seq<Request>)
    requires chunkSize > 0
    ensures |r| == |Spans(from, size, chunkSize)|
  {
    var spans := Spans(from, size, chunkSize);
    seq(|spans|, k requires 0 <= k < |spans| =>
      GetJobOutput(job.vault, job.jobId, ByteRange(spans[k].start, spans[k].start + spans[k].len - 1)))
  }

  /** The bodies the service returns for `requests`. */
  function Bodies(g: Glacier, requests: seq<Request>): (r: seq<Bytes>)
    ensures |r| == |requests|
  {
    seq(|requests|, k requires 0 <= k < |requests| => g.output(requests[k]))
  }

  /** What download does: describe the job to learn the archive size, then
      fetch [0, size) in chunkSize steps and write the bodies one after
      another from the start of the target file. A job the service does not
      know fails before the file is opened. A negative chunk size makes the
      first range reversed; the model takes the service to refuse it, which
      is what ends the download loop in that case. */
  function DownloadSpec(clients: string -> Glacier, job: Job, existing: Bytes, chunkSize: int): (t: Transfer)
    ensures |t.sent| > 0 && t.sent[0] == DescribeJob(job.vault, job.jobId)
    ensures clients(job.region).describe(t.sent[0]).None? ==>
              t.result == Failure(ResourceNotFound) && t.sent == [t.sent[0]] && t.output == existing
    ensures clients(job.region).describe(t.sent[0]).Some? &&
            clients(job.region).describe(t.sent[0]).value.archiveSizeInBytes <= 0 ==>
              t.result.Success? && t.sent == [t.sent[0]] && t.output == existing
    ensures t.result.Failure? ==> t.output == existing
    ensures t.result == Failure(InvalidRange) <==>
              clients(job.region).describe(t.sent[0]).Some? &&
              clients(job.region).describe(t.sent[0]).value.archiveSizeInBytes > 0 && chunkSize < 0
  {
    var cs := ChunkSize(chunkSize);
    var g := clients(job.region);
    var describe := DescribeJob(job.vault, job.jobId);
    match g.describe(describe)
    case None => Transfer(Failure(ResourceNotFound), [describe], existing)
    case Some(d) =>
      if d.archiveSizeInBytes <= 0 then Transfer(Success(()), [describe], existing)
      else if cs < 0 then
        Transfer(Failure(InvalidRange), [describe, GetJobOutput(job.vault, job.jobId, ByteRange(0, cs - 1))], existing)
      else
        var fetches := FetchesFrom(job, 0, d.archiveSizeInBytes, cs);
        Transfer(Success(()), [describe] + fetches, Overwrite(existing, 0, Concat(Bodies(g, fetches))))
  }

  lemma FetchesFromStep(job: Job, from: nat, size: nat, chunkSize: int)
    requires chunkSize > 0 && from < size
    ensures var len := Min(size - from, chunkSize);
      FetchesFrom(job, from, size, chunkSize)
        == [GetJobOutput(job.vault, job.jobId, ByteRange(from, from + len - 1))] + FetchesFrom(job, from + len, size, chunkSize)
  {
    var len := Min(size - from, chunkSize);
    assert Spans(from, size, chunkSize) == [Span(from, len)] + Spans(from + len, size, chunkSize);
  }

  lemma BodiesAppend(g: Glacier, requests: seq<Request>, r: Request)
    ensures Bodies(g, requests + [r]) == Bodies(g, requests) + [g.output(r)]
  {
    assert Bodies(g, requests + [r]) == Bodies(g, requests) + [g.output(r)];
  }

  lemma FetchStep(job: Job, size: nat, cs: int, fetched: seq<Request>, pos: nat, request: Request)
    requires cs > 0 && pos < size
    requires request == GetJobOutput(job.vault, job.jobId, ByteRange(pos, pos + Min(size - pos, cs) - 1))
    requires FetchesFrom(job, 0, size, cs) == fetched + FetchesFrom(job, pos, size, cs)
    ensures FetchesFrom(job, 0, size, cs) == (fetched + [request]) + FetchesFrom(job, pos + Min(size - pos, cs), size, cs)
  {
    FetchesFromStep(job, pos, size, cs);
  }

  /** Nothing written leaves the file as it was. */
  lemma WriteNothing(g: Glacier, existing: Bytes)
    ensures Concat(Bodies(g, [])) == []
    ensures Overwrite(existing, 0, []) == existing
  {
    assert Bodies(g, []) == [];
    assert existing[..0] + [] + existing[0..] == existing;
  }

  lemma FetchesFromEnd(job: Job, size: nat, cs: int)
    requires cs > 0
    ensures FetchesFrom(job, size, size, cs) == []
  {
  }

  /** Writing the next body after the ones written so far leaves the file as
      writing all of them at once from offset 0. */
  lemma WriteStep(g: Glacier, existing: Bytes, fetched: seq<Request>, written: Bytes, request: Request)
    requires written == Concat(Bodies(g, fetched))
    ensures Concat(Bodies(g, fetched + [request])) == written + g.output(request)
    ensures Overwrite(Overwrite(existing, 0, written), |written|, g.output(request))
      == Overwrite(existing, 0, written + g.output(request))
  {
    BodiesAppend(g, fetched, request);
    ConcatAppend(Bodies(g, fetched), g.output(request));
    OverwriteTwice(existing, 0, written, g.output(request));
  }

  /** The ranged fetch loop of download: asks for the job output one range
      at a time and appends each body to the file. With a negative chunk size
      the first range is reversed; the model takes the service to refuse it
      and stops there, without a body. */
  method FetchAll(g: Glacier, job: Job, size: int, cs: int, output: OutputFile) returns (ok: bool, fetched: seq<Request>)
    requires size > 0 && cs != 0
    requires output.Valid() && output.pointer == 0
    modifies output
    ensures ok <==> cs > 0
    ensures cs > 0 ==> fetched == FetchesFrom(job, 0, size, cs)
    ensures cs > 0 ==> output.data == Overwrite(old(output.data), 0, Concat(Bodies(g, fetched)))
    ensures cs < 0 ==> fetched == [GetJobOutput(job.vault, job.jobId, ByteRange(0, cs - 1))]
    ensures cs < 0 ==> output.data == old(output.data)
  {
    var currentPos := 0;
    fetched := [];
    ghost var written: Bytes := [];
    WriteNothing(g, output.data);
    while currentPos < size
      invariant output.Valid() && 0 <= currentPos <= size
      invariant cs > 0 ==> FetchesFrom(job, 0, size, cs) == fetched + FetchesFrom(job, currentPos, size, cs)
      invariant cs < 0 ==> currentPos == 0 && fetched == [] && written == []
      invariant written == Concat(Bodies(g, fetched))
      invariant output.data == Overwrite(old(output.data), 0, written) && output.pointer == |written|
      decreases size - currentPos
    {
      var toRead := Min(size - currentPos, cs);
      var request := GetJobOutput(job.vault, job.jobId, ByteRange(currentPos, currentPos + toRead - 1));
      if toRead <= 0 {
        return false, [request];
      }
      FetchStep(job, size, cs, fetched, currentPos, request);
      var body := g.output(request);
      WriteStep(g, old(output.data), fetched, written, request);
      AppendToFile(output, body);
      fetched := fetched + [request];
      written := written + body;
      currentPos := currentPos + toRead;
    }
    if cs > 0 {
      FetchesFromEnd(job, size, cs);
    }
    return true, fetched;
  }

  /** download(job, file, chunkSize): describes the job to learn the archive
      size, then fetches it range by range into the file. */
  method Download(clients: string -> Glacier, job: Job, existing: Bytes, chunkSize: int) returns (t: Transfer)
    ensures t == DownloadSpec(clients, job, existing, chunkSize)
  {
    var cs := ChunkSize(chunkSize);
    var g := clients(job.region);
    var describe := DescribeJob(job.vault, job.jobId);
    var response := g.describe(describe);
    if response.None? {
      return Transfer(Failure(ResourceNotFound), [describe], existing);
    }
    var size := response.value.archiveSizeInBytes;
    var output := new OutputFile.Open(existing);
    if size <= 0 {
      return Transfer(Success(()), [describe], output.data);
    }
    var ok, fetched := FetchAll(g, job, size, cs, output);
    var result: Result<()> := if ok then Success(()) else Failure(InvalidRange);
    return Transfer(result, [describe] + fetched, output.data);
  }
  // ------------------------------------------------- download ranges

  /** What the ranged fetches of one download promise: requests for this
      job's output whose inclusive ranges start at 0, follow one another
      without gap or overlap, are each min(size - first, chunkSize) bytes
      wide, and end at the archive's last byte. */
  ghost predicate FetchesCover(job: Job, size: nat, cs: int, f: seq<Request>)
  {
    && |f| > 0
    && (forall k :: 0 <= k < |f| ==> f[k].GetJobOutput? && f[k].vault == job.vault && f[k].jobId == job.jobId)
    && f[0].range.first == 0
    && f[|f| - 1].range.last == size - 1
    && (forall k :: 0 <= k < |f| - 1 ==> f[k + 1].range.first == f[k].range.last + 1)
    && (forall k :: 0 <= k < |f| ==> f[k].range.last - f[k].range.first + 1 == Min(size - f[k].range.first, cs))
  }

  /** Every span is as wide as the reader's min(size - pos, step). */
  lemma SpansWidth(from: nat, size: nat, step: nat)
    requires step > 0
    ensures var r := Spans(from, size, step);
      forall k :: 0 <= k < |r| ==> r[k].len == Min(size - r[k].start, step)
  {
    var r := Spans(from, size, step);
    forall k | 0 <= k < |r|
      ensures r[k].len == Min(size - r[k].start, step)
    {
      SpansAt(from, size, step, k);
    }
  }

  /** Requests built from a tiling of [0, size) cover it. */
  lemma FetchTiling(job: Job, size: nat, cs: int, spans: seq<Span>, f: seq<Request>)
    requires cs > 0
    requires |spans| > 0 && spans[0].start == 0 && spans[|spans| - 1].End() == size
    requires forall k :: 0 <= k < |spans| - 1 ==> spans[k + 1].start == spans[k].End()
    requires forall k :: 0 <= k < |spans| ==> spans[k].len == Min(size - spans[k].start, cs)
    requires |f| == |spans|
    requires forall k :: 0 <= k < |f| ==>
      f[k] == GetJobOutput(job.vault, job.jobId, ByteRange(spans[k].start, spans[k].start + spans[k].len - 1))
    ensures FetchesCover(job, size, cs, f)
  {
  }

  /** The download loop's requests: ceil(size / chunkSize) ranges that start
      at 0, follow one another and cover [0, size) exactly. */
  lemma DownloadRanges(job: Job, size: nat, cs: int)
    requires cs > 0 && size > 0
    ensures |FetchesFrom(job, 0, size, cs)| == CeilDiv(size, cs)
    ensures FetchesCover(job, size, cs, FetchesFrom(job, 0, size, cs))
  {
    SpansCount(0, size, cs);
    SpansPartition(0, size, cs);
    SpansWidth(0, size, cs);
    FetchTiling(job, size, cs, Spans(0, size, cs), FetchesFrom(job, 0, size, cs));
  }

  /** A download of an archive the service describes with a positive size,
      with a chunk size that is not negative: the describe request, then
      the fetches tiling [0, size). The file then starts with the bodies in
      fetch order and keeps any older bytes past them. */
  lemma DownloadShape(clients: string -> Glacier, job: Job, existing: Bytes, chunkSize: int)
    requires clients(job.region).describe(DescribeJob(job.vault, job.jobId)).Some?
    requires clients(job.region).describe(DescribeJob(job.vault, job.jobId)).value.archiveSizeInBytes > 0
    requires chunkSize >= 0
    ensures var t := DownloadSpec(clients, job, existing, chunkSize);
      var size := clients(job.region).describe(DescribeJob(job.vault, job.jobId)).value.archiveSizeInBytes;
      var written := Concat(Bodies(clients(job.region), t.sent[1..]));
      && t.result.Success?
      && |t.sent| == CeilDiv(size, ChunkSize(chunkSize)) + 1
      && FetchesCover(job, size, ChunkSize(chunkSize), t.sent[1..])
      && t.output[..|written|] == written
      && (|written| < |existing| ==> t.output[|written|..] == existing[|written|..])
      && |t.output| == (if |written| < |existing| then |existing| else |written|)
  {
    var g := clients(job.region);
    var describe := DescribeJob(job.vault, job.jobId);
    var size := g.describe(describe).value.archiveSizeInBytes;
    var cs := ChunkSize(chunkSize);
    var fetches := FetchesFrom(job, 0, size, cs);
    assert DownloadSpec(clients, job, existing, chunkSize).sent[1..] == fetches;
    DownloadRanges(job, size, cs);
  }

  // ------------------------------------------- jobs, status and removal

  /** The retrieval tier: Standard when urgent, Bulk otherwise. */
  function Tier(urgent: bool): (r: string)
    ensures r == "Standard" <==> urgent
    ensures r == "Bulk" <==> !urgent
  {
    if urgent then "Standard" else "Bulk"
  }

  /** askToDownload(item, urgent): one archive-retrieval job request for the
      item's archive in its vault, at the tier urgent selects; its job id,
      or none when the service does not know the archive. */
  function AskToDownload(clients: string -> Glacier, item: Item, urgent: bool): (e: Exchange<Option<string>>)
    ensures e.result.Success? && |e.sent| == 1 && e.sent[0].InitiateJob?
    ensures e.sent[0].vault == item.vault && e.sent[0].archiveId == item.archiveId
    ensures e.sent[0].jobType == "archive-retrieval"
    ensures e.sent[0].tier == "Standard" <==> urgent
    ensures e.result.value.None? <==> clients(item.region).jobId(e.sent[0]).None?
  {
    var request := InitiateJob(item.vault, item.archiveId, "archive-retrieval", Tier(urgent));
    Exchange(Success(clients(item.region).jobId(request)), [request])
  }

  /** getJobStatus(job): one describe request; the job's status, or none
      when the service no longer knows the job. */
  function GetJobStatus(clients: string -> Glacier, job: Job): (e: Exchange<Option<StatusCode>>)
    ensures e.result.Success? && e.sent == [DescribeJob(job.vault, job.jobId)]
    ensures e.result.value.None? <==> clients(job.region).describe(e.sent[0]).None?
    ensures e.result.value.Some? ==> e.result.value.value == clients(job.region).describe(e.sent[0]).value.statusCode
  {
    var request := DescribeJob(job.vault, job.jobId);
    match clients(job.region).describe(request)
    case None => Exchange(Success(None), [request])
    case Some(d) => Exchange(Success(Some(d.statusCode)), [request])
  }

  /** isReadyDownload(job): the status mapped to "has succeeded"; none when
      the job is unknown. */
  function IsReadyDownload(clients: string -> Glacier, job: Job): (e: Exchange<Option<bool>>)
    ensures e.result.Success? && e.sent == [DescribeJob(job.vault, job.jobId)]
    ensures e.result.value.None? <==> GetJobStatus(clients, job).result.value.None?
    ensures e.result.value == Some(true) <==> GetJobStatus(clients, job).result.value == Some(Succeeded)
    ensures e.result.value == Some(false) <==>
              GetJobStatus(clients, job).result.value.Some? && GetJobStatus(clients, job).result.value != Some(Succeeded)
  {
    var status := GetJobStatus(clients, job);
    var ready := if status.result.value.None? then None else Some(status.result.value.value == Succeeded);
    Exchange(Success(ready), status.sent)
  }

  /** A job reported ready is one the service describes, so downloading it
      sends the same describe request and, since the service answers it the
      same way again, never fails with not-found. */
  lemma ReadyJobIsDescribed(clients: string -> Glacier, job: Job, existing: Bytes, chunkSize: int)
    requires IsReadyDownload(clients, job).result.value == Some(true)
    ensures DownloadSpec(clients, job, existing, chunkSize).sent[0] == IsReadyDownload(clients, job).sent[0]
    ensures DownloadSpec(clients, job, existing, chunkSize).result != Failure(ResourceNotFound)
  {
  }

  /** remove(item): one delete request for the item's archive in its vault;
      an archive the service does not know is ignored, so it never fails. */
  function Remove(clients: string -> Glacier, item: Item): (e: Exchange<()>)
    ensures e.result.Success?
    ensures e.sent == [DeleteArchive(item.vault, item.archiveId)]
  {
    Exchange(Success(()), [DeleteArchive(item.vault, item.archiveId)])
  }
}
