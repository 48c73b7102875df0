# GlacierBackupper in Dafny

GlacierBackupper is a command-line client that backs up files to Amazon S3
Glacier. This project models its core:

- **the tree hash** (Glacier's SHA-256 tree checksum), in both of its
  implementations:
  - the array version, level by level (`TreeHash`);
  - the list version, which returns hex (`Hash`).
- **the file chunker**: the iterator that cuts a file into parts, with a tree
  hash of each part's 1 MiB sub-blocks.
- **the transfer logic of `GlacierManager`**:
  - the multipart upload: part ranges, per-part checksums, and the final
    tree hash;
  - the ranged download into a file;
  - retrieval-job creation, job status, and archive removal.
- **the inventory**: the items and jobs lists, and the store that edits
  them in place and persists them.
- **the coordinator `GlacierBackupper`**: argument fallbacks, upload
  deduplication by name, job creation, download gating, and configuration.

SHA-256 is a parameter `sha: Bytes -> Bytes`, so every result holds for any
digest function.

The remote service is a value `Glacier`. It holds, for each kind of request,
the response the service gives. `None` stands for a
`ResourceNotFoundException`.

Each remote operation returns two things, so the model can state "exactly one
upload" or "nothing sent":

- its result, as a `Result` with the Java exception as error;
- the requests it sent, in order.

Files are byte sequences. The download target is a class with the file's
bytes and a write position. It is opened without truncation, as
`RandomAccessFile` in `"rw"` mode is.

Modules, one per source file:

| module | file | source file |
|---|---|---|
| `Wrappers` | `wrappers.dfy` | (shared types) |
| `Seqs` | `seqs.dfy` | (sequence helpers) |
| `Ranges` | `ranges.dfy` | (range arithmetic) |
| `TreeHash` | `treehash.dfy` | `TreeHash.java` |
| `Hex` | `hex.dfy` | (hex encoding) |
| `Hash` | `hash.dfy` | `Hash.java` |
| `FileChunker` | `filechunker.dfy` | `FileChunker.java` |
| `Records` | `records.dfy` | `Item.java`, `Job.java` |
| `Inventories` | `inventory.dfy` | `Inventory.java`, `InventoryManagerJson.java` |
| `GlacierManager` | `glaciermanager.dfy` | `GlacierManager.java` |
| `Backupper` | `backupper.dfy` | `GlacierBackupper.java` |

## Where the files do not line up, and what the model does

The source files come from different revisions, so some calls do not match
the callee.

- **Checksum type.**
  - Mismatch: `FileChunker.java:69` stores the `String` of
    `Hash.calculateTreeHash` into the `byte[]` checksum of a `Chunk`.
  - Model: a chunk carries the raw tree-hash digest, computed by
    `Hash.TreeHashOf`. `GlacierManager` hex-encodes it for the part
    request, as `GlacierManager.java:68` does.
  - Related: `Hash.calculateTreeHashStr`, called at `GlacierManager.java:87`,
    is taken to be `Hash.calculateTreeHash`.
- **askToDownload.**
  - Mismatch: `GlacierBackupper.java:49` calls `askToDownload(item)` and
    uses a `String`, but `GlacierManager.java:95` takes an `urgent` flag and
    returns an `Optional`.
  - Model: `CreateDownloadJob` takes `urgent`, and adds no job when the
    result is empty.
- **isReadyDownload.**
  - Mismatch: `GlacierBackupper.java:64` uses `isReadyDownload` as a
    boolean, but it returns `Optional<Boolean>`.
  - Model: the download runs only on `Some(true)`.
- **Settings.**
  - Mismatch: `GlacierBackupper` reads and writes the AWS key, the secret,
    the default region and the default vault on the inventory, but
    `Inventory.java` declares none of them.
  - Model: they are the `settings` field of the coordinator.
- **Item checksum.**
  - Mismatch: `InventoryManagerJson.java:73` reads an item checksum that
    `Item.java` does not declare.
  - Model: items carry an optional checksum. The five-argument constructor
    leaves it empty.
- **Job fields.**
  - `Job.getName` is the job's `fileName`.
  - `setLastStatus` (`InventoryManagerJson.java:51`) sets an optional
    timestamp field.
- **Retrieval tiers.** The code uses `"Standard"` when urgent and `"Bulk"`
  otherwise; the model follows the code.
- **Inventory calls.**
  - Mismatch: `GlacierBackupper.java:29,45,58` call `findItemByName` and
    `findJobByName` on the `Inventory`, and `GlacierBackupper.java:34,50`
    call `addItem` and `addJob` on it, but `Inventory.java:6-18` declares
    only `getItems` and `getJobs`. Those operations are the ones of
    `InventoryManagerJson`.
  - Model: the coordinator calls `InventoryManagerJson`. Its `AddItem` and
    `AddJob` store the inventory themselves, which takes the place of the
    coordinator's separate `inventoryManager.store(inventory)` right after
    (`GlacierBackupper.java:35,51`). Either way one snapshot is stored per
    added item or job.
- **Error conditions.** Each is modelled as the exception it raises:
  - an empty list or an empty file (`get(0)` on an empty list:
    IndexOutOfBounds);
  - a negative chunk size on upload (`next()` returns null, then a
    NullPointerException);
  - a negative chunk size on download: the first fetch asks for a reversed
    byte range, which the model takes the service to refuse (InvalidRange).
    See `GlacierManager.DownloadSpec` under "Left out".

## Model

| member | source | states |
|---|---|---|
| Seqs.FirstIndexIsFirst | src/main/java/cat/altimiras/glacier/backupper/InventoryManagerJson.java:62-69 | the index a scan stops at is the first match: no earlier element matches, and there is none exactly when no element matches |
| Seqs.FindFirst | src/main/java/cat/altimiras/glacier/backupper/InventoryManagerJson.java:80-87 | the first element satisfying the test, none iff no element satisfies it |
| Seqs.RemoveFirstAt | src/main/java/cat/altimiras/glacier/backupper/InventoryManagerJson.java:35-38 | `List.remove(Object)` drops exactly the first matching element and keeps the rest in order; the list is unchanged when nothing matches |
| Seqs.UpdateFirstAt | src/main/java/cat/altimiras/glacier/backupper/InventoryManagerJson.java:50-52 | only the first matching element is replaced by its updated copy; nothing changes when nothing matches |
| Seqs.ConcatAppend | src/main/java/cat/altimiras/glacier/backupper/GlacierManager.java:207-218 | concatenating one more buffer appends it to the concatenation |
| Ranges.CeilDivBounds | src/main/java/cat/altimiras/glacier/backupper/TreeHash.java:49-52 | the block count (quotient plus one for a remainder) is the least q with size <= q * step |
| Ranges.SpansCount | src/main/java/cat/altimiras/glacier/backupper/FileChunker.java:39-71 | reading min(size - pos, step) bytes at a time from `from` gives ceil((size - from) / step) ranges |
| Ranges.SpansAt | src/main/java/cat/altimiras/glacier/backupper/FileChunker.java:50-71 | the k-th range starts at from + k * step and is min(step, size - start) > 0 bytes long |
| Ranges.SpansPartition | src/main/java/cat/altimiras/glacier/backupper/FileChunker.java:39-71 | the ranges start at `from`, follow one another, are full except the last, and the last ends at `size`; none when from >= size |
| Ranges.SpansTotal | src/main/java/cat/altimiras/glacier/backupper/FileChunker.java:50-71 | the range lengths sum to size - from |
| Ranges.SlicesConcat | src/main/java/cat/altimiras/glacier/backupper/FileChunker.java:60-67 | the slices of `data` at the ranges from `from`, put together, give `data[from..]` |
| Ranges.PiecesConcat | src/main/java/cat/altimiras/glacier/backupper/TreeHash.java:63-72 | cutting data every `step` bytes and putting the pieces together gives the data back |
| Ranges.PiecesAt | src/main/java/cat/altimiras/glacier/backupper/TreeHash.java:68-71 | piece k is the bytes [k * step, min(size, (k + 1) * step)) |
| TreeHash.NextLevel | src/main/java/cat/altimiras/glacier/backupper/TreeHash.java:111-116 | a level of n digests has n / 2 + n % 2 entries, strictly fewer than n when n > 1 |
| TreeHash.NextLevelAt | src/main/java/cat/altimiras/glacier/backupper/TreeHash.java:119-132 | the entry for pair position j is the pair's digest when two digests remain, the lone digest otherwise |
| TreeHash.CombineSingleton | src/main/java/cat/altimiras/glacier/backupper/TreeHash.java:109-138 | a single digest is its own tree hash, since the level loop is not entered |
| TreeHash.CombinePair | src/main/java/cat/altimiras/glacier/backupper/TreeHash.java:119-128 | two digests hash to sha(a + b) |
| TreeHash.CombineThree | src/main/java/cat/altimiras/glacier/backupper/TreeHash.java:109-136 | three digests hash to sha(sha(a + b) + c): the odd one is carried a level up |
| TreeHash.CombineFive | src/main/java/cat/altimiras/glacier/backupper/TreeHash.java:109-136 | five digests hash to sha(sha(sha(a + b) + sha(c + d)) + e) |
| TreeHash.CombineLevel | src/main/java/cat/altimiras/glacier/backupper/TreeHash.java:109-136 | the tree hash of more than one digest is the tree hash of its next level |
| TreeHash.ComputeLevel | src/main/java/cat/altimiras/glacier/backupper/TreeHash.java:111-133 | the new array is a fresh array holding exactly the next level of `prev` |
| TreeHash.ComputeSHA256TreeHash | src/main/java/cat/altimiras/glacier/backupper/TreeHash.java:102-139 | an empty array fails with IndexOutOfBounds; otherwise the level loop ends with the tree hash of the digests |
| TreeHash.BlockDigests | src/main/java/cat/altimiras/glacier/backupper/TreeHash.java:49-52 | one digest per started MiB: ceil(length / 1 MiB) of them |
| TreeHash.BlockDigestsOfPieces | src/main/java/cat/altimiras/glacier/backupper/TreeHash.java:63-72 | digest k is the digest of the k-th 1 MiB piece, and the pieces put together are the data: every byte is digested once, in order |
| TreeHash.BlockDigestNext | src/main/java/cat/altimiras/glacier/backupper/TreeHash.java:68-71 | the digest read at block idx is of the min(remaining, 1 MiB) bytes at idx * 1 MiB |
| TreeHash.FileLeaves | src/main/java/cat/altimiras/glacier/backupper/TreeHash.java:49-56 | never empty: an empty file has the single digest of no bytes, any other file one digest per started MiB |
| TreeHash.ReadBlocks | src/main/java/cat/altimiras/glacier/backupper/TreeHash.java:58-74 | the read loop fills the array with the block digests, in order |
| TreeHash.GetChunkSHA256Hashes | src/main/java/cat/altimiras/glacier/backupper/TreeHash.java:44-85 | the returned array holds the file's leaves |
| TreeHash.ComputeSHA256TreeHashOfFile | src/main/java/cat/altimiras/glacier/backupper/TreeHash.java:28-33 | the file's tree hash is the tree hash of its per-MiB digests |
| Hex.ToHex | src/main/java/cat/altimiras/glacier/backupper/GlacierManager.java:68 | two lower-case hex digits per byte |
| Hex.FromHex | src/main/java/cat/altimiras/glacier/backupper/GlacierManager.java:68 | decoding succeeds exactly on even-length lower-case hex and halves its length (the inverse partner of `BinaryUtils.toHex`; the source has no decoder) |
| Hex.FromToHex | src/main/java/cat/altimiras/glacier/backupper/GlacierManager.java:68 | decoding the hex of a digest gives the digest back |
| Hex.ToFromHex | src/main/java/cat/altimiras/glacier/backupper/GlacierManager.java:87 | encoding a decoded hex text gives the text back: every lower-case hex text of even length is the checksum of some digest (a property of the encoder, stated through its inverse partner; the source has no decoder) |
| Hex.ToHexInjective | src/main/java/cat/altimiras/glacier/backupper/GlacierManager.java:87 | different digests have different hex texts |
| Hash.ListLevel | src/main/java/cat/altimiras/glacier/backupper/Hash.java:27-43 | a list level of n digests has n / 2 + n % 2 entries |
| Hash.ListLevelIsNextLevel | src/main/java/cat/altimiras/glacier/backupper/Hash.java:28-42 | the list level (pairs (2i, 2i + 1) for i < n / 2, then the odd last one) equals the array level |
| Hash.ListTreeHashIsCombine | src/main/java/cat/altimiras/glacier/backupper/Hash.java:26-44 | the list algorithm and the array algorithm compute the same tree hash |
| Hash.HashLevel | src/main/java/cat/altimiras/glacier/backupper/Hash.java:27-43 | one pass of the level loop builds exactly the list level |
| Hash.TreeHashOf | src/main/java/cat/altimiras/glacier/backupper/Hash.java:24-46 | an empty list fails with IndexOutOfBounds; otherwise the list algorithm's tree hash of the digests |
| Hash.CalculateTreeHash | src/main/java/cat/altimiras/glacier/backupper/Hash.java:15-47 | an empty list fails; otherwise the result is the hex of the array tree hash of the same digests |
| Hash.ComputeSHA256Hash | src/main/java/cat/altimiras/glacier/backupper/Hash.java:49-65 | every byte goes through the 16 KiB buffer loop exactly once, in order, so the result is the digest of the data |
| FileChunker.JavaDiv | src/main/java/cat/altimiras/glacier/backupper/FileChunker.java:35 | Java's truncating long division: the quotient rounded toward zero |
| FileChunker.ChunkAt | src/main/java/cat/altimiras/glacier/backupper/FileChunker.java:85-89 | a chunk starts where its range starts and holds as many bytes as the range is long |
| FileChunker.PartIterator.constructor | src/main/java/cat/altimiras/glacier/backupper/FileChunker.java:28-32 | the iterator holds the file and the part size, and starts at position 0 |
| FileChunker.PartIterator.ExpectedChunks | src/main/java/cat/altimiras/glacier/backupper/FileChunker.java:34-36 | the quotient size / partSize rounded down; a zero part size throws ArithmeticException |
| FileChunker.PartIterator.Next | src/main/java/cat/altimiras/glacier/backupper/FileChunker.java:44-76 | with toRead = min(size - currentPos, partSize) > 0: the chunk of toRead bytes at currentPos, and the position advances by toRead; otherwise null and the position is unchanged |
| FileChunker.ReadPart | src/main/java/cat/altimiras/glacier/backupper/FileChunker.java:46-72 | a non-empty range gives its chunk; an empty one fails, since its digest list is empty |
| FileChunker.SubBlockDigests | src/main/java/cat/altimiras/glacier/backupper/FileChunker.java:58-67 | the batch loop digests the part's consecutive 1 MiB sub-blocks, in order |
| FileChunker.PartChunk | src/main/java/cat/altimiras/glacier/backupper/FileChunker.java:69 | the chunk's checksum is the tree hash of its sub-block digests |
| FileChunker.PartDigestsCount | src/main/java/cat/altimiras/glacier/backupper/FileChunker.java:60-67 | a part has sub-block digests exactly when it has bytes |
| FileChunker.HasNextIffChunksRemain | src/main/java/cat/altimiras/glacier/backupper/FileChunker.java:39-41 | hasNext holds exactly when chunks remain from the current position |
| FileChunker.ChunksPartitionFile | src/main/java/cat/altimiras/glacier/backupper/FileChunker.java:39-71 | iterating to the end gives ceil(size / partSize) chunks: the first starts at 0, each starts where the previous ends, all but the last are partSize long, the last ends at the file's end, and their contents put together are the file |
| FileChunker.ChunksInside | src/main/java/cat/altimiras/glacier/backupper/FileChunker.java:50-69 | every chunk holds the file's bytes at its range, at most partSize of them, and the tree hash of their 1 MiB digests |
| FileChunker.ChunksConcat | src/main/java/cat/altimiras/glacier/backupper/FileChunker.java:44-72 | the chunk contents, in order, put together are the file |
| FileChunker.ExpectedChunksVsChunks | src/main/java/cat/altimiras/glacier/backupper/FileChunker.java:34-36 | getExpectedChunks equals the chunk count when partSize divides the size, and is one less otherwise |
| FileChunker.ExpectedChunksExample | src/main/java/cat/altimiras/glacier/backupper/FileChunker.java:35 | 10 bytes in parts of 4: getExpectedChunks says 2, the iterator yields 3 chunks |
| FileChunker.IntendedExpectedChunks | src/main/java/cat/altimiras/glacier/backupper/FileChunker.java:35 | the size divided by the part size and rounded up |
| FileChunker.IntendedExpectedChunksExact | src/main/java/cat/altimiras/glacier/backupper/FileChunker.java:34-36 | rounded up, the expected count is exactly the number of chunks the iterator yields |
| Records.NewItem | src/main/java/cat/altimiras/glacier/backupper/Item.java:16-23 | the constructor stores name, archiveId, size, vault and region as given, dates the item now, and sets no checksum |
| Records.NewJob | src/main/java/cat/altimiras/glacier/backupper/Job.java:15-22 | the constructor stores jobId, archiveId, file name, region and vault as given, and dates the job now |
| Records.ItemEqualsIsArchiveId | src/main/java/cat/altimiras/glacier/backupper/Item.java:49-55 | items are equal iff their archive ids are; equality is reflexive, symmetric and transitive; an item never equals null, a job or another class's object |
| Records.JobEqualsIsJobId | src/main/java/cat/altimiras/glacier/backupper/Job.java:48-54 | jobs are equal iff their job ids are; equality is reflexive, symmetric and transitive; a job never equals null, an item or another class's object |
| Records.CodeUnits | src/main/java/cat/altimiras/glacier/backupper/Item.java:59 | a character is one UTF-16 code unit below U+10000 and a high-low surrogate pair above, which decodes back to the character |
| Records.Utf16 | src/main/java/cat/altimiras/glacier/backupper/Item.java:59 | a Java String holds between one and two code units per character, each below 2^16 |
| Records.StringHash | src/main/java/cat/altimiras/glacier/backupper/Item.java:59 | `String.hashCode`, over the UTF-16 code units, as 32 bits: below 2^32 |
| Records.StringHashSupplementary | src/main/java/cat/altimiras/glacier/backupper/Item.java:59 | U+1F600 is hashed as its surrogate pair D83D DE00: 31 * 0xD83D + 0xDE00 = 1772899 |
| Records.ToInt32 | src/main/java/cat/altimiras/glacier/backupper/Item.java:59 | the signed int with the same 32 bits |
| Records.ItemHashConsistent | src/main/java/cat/altimiras/glacier/backupper/Item.java:57-60 | equal items have equal hash codes |
| Records.JobHashConsistent | src/main/java/cat/altimiras/glacier/backupper/Job.java:56-59 | equal jobs have equal hash codes |
| Records.ObjectsHashExamples | src/main/java/cat/altimiras/glacier/backupper/Item.java:59 | `Objects.hash("")` is 31 and `Objects.hash("a")` is 128 |
| Inventories.Inventory.constructor | src/main/java/cat/altimiras/glacier/backupper/Inventory.java:8-9 | a fresh inventory has no items and no jobs |
| Inventories.InventoryManagerJson.constructor | src/main/java/cat/altimiras/glacier/backupper/InventoryManagerJson.java:25-28 | the store holds the inventory it read and has written nothing |
| Inventories.InventoryManagerJson.Store | src/main/java/cat/altimiras/glacier/backupper/InventoryManagerJson.java:97-100 | one more snapshot of both lists as they are now |
| Inventories.InventoryManagerJson.AddItem | src/main/java/cat/altimiras/glacier/backupper/InventoryManagerJson.java:30-33 | the item is appended last, earlier items and all jobs are kept, and the result is stored |
| Inventories.InventoryManagerJson.RemoveItem | src/main/java/cat/altimiras/glacier/backupper/InventoryManagerJson.java:35-38 | only the first item with an equal archive id is removed (none if no match), the jobs are kept, and the result is stored |
| Inventories.InventoryManagerJson.AddJob | src/main/java/cat/altimiras/glacier/backupper/InventoryManagerJson.java:40-43 | the job is appended last, the items are kept, and the result is stored |
| Inventories.InventoryManagerJson.RemoveJob | src/main/java/cat/altimiras/glacier/backupper/InventoryManagerJson.java:45-48 | only the first job with an equal job id is removed (none if no match), the items are kept, and the result is stored |
| Inventories.InventoryManagerJson.MarkJobChecked | src/main/java/cat/altimiras/glacier/backupper/InventoryManagerJson.java:50-52 | only the first job with that name gets the new last-status time; nothing changes when there is none, and nothing is stored |
| Inventories.InventoryManagerJson.FindItemByName | src/main/java/cat/altimiras/glacier/backupper/InventoryManagerJson.java:62-69 | the first item with exactly that name, none iff no item has it |
| Inventories.InventoryManagerJson.FindItemByChecksum | src/main/java/cat/altimiras/glacier/backupper/InventoryManagerJson.java:71-78 | the first item with exactly that checksum, none iff every item has a different one; reaching an item without a checksum first is a NullPointerException |
| Inventories.InventoryManagerJson.FindJobByName | src/main/java/cat/altimiras/glacier/backupper/InventoryManagerJson.java:80-87 | the first job with exactly that name, none iff no job has it |
| GlacierManager.ChunkSize | src/main/java/cat/altimiras/glacier/backupper/GlacierManager.java:220-222 | 0 selects the 16 MiB default and any other size is kept, so the part size is never 0 |
| GlacierManager.ChunkListsAppend | src/main/java/cat/altimiras/glacier/backupper/GlacierManager.java:64-81 | each chunk adds its checksum and its part request at the end: both lists stay in chunk order |
| GlacierManager.SendParts | src/main/java/cat/altimiras/glacier/backupper/GlacierManager.java:59-81 | the upload loop sends one part request per chunk, and collects their checksums, in chunk order; a negative part size fails unless the file is empty, having sent no part |
| GlacierManager.Upload | src/main/java/cat/altimiras/glacier/backupper/GlacierManager.java:45-93 | the requests and result of upload are those of its specification `UploadSpec` |
| GlacierManager.UploadShape | src/main/java/cat/altimiras/glacier/backupper/GlacierManager.java:45-93 | a non-empty file is uploaded with one initiate request, then ceil(size / partSize) part requests whose bodies put together are the file, then one complete request declaring the file's length and the hex tree hash of the part checksums |
| GlacierManager.SentShape | src/main/java/cat/altimiras/glacier/backupper/GlacierManager.java:56-90 | initiate, the parts, then complete: no other initiate request, and every middle request is a part |
| GlacierManager.PartRequestOf | src/main/java/cat/altimiras/glacier/backupper/GlacierManager.java:71-78 | a part request carries the inclusive range start-(start + length - 1), the chunk's bytes and the hex of its checksum |
| GlacierManager.UploadRanges | src/main/java/cat/altimiras/glacier/backupper/GlacierManager.java:64-81 | the part ranges start at 0, each begins one past the previous end, the last ends at size - 1; each body is the file's bytes in its range and each checksum the hex tree hash of that body |
| GlacierManager.PartRequestsCoverFile | src/main/java/cat/altimiras/glacier/backupper/GlacierManager.java:64-81 | the part requests of the file's chunks cover the file in order and carry their bodies' tree hashes |
| GlacierManager.OutputFile.Open | src/main/java/cat/altimiras/glacier/backupper/GlacierManager.java:133 | opening in "rw" mode keeps the file's bytes, with the position at 0 |
| GlacierManager.OutputFile.Write | src/main/java/cat/altimiras/glacier/backupper/GlacierManager.java:215 | a write overwrites from the position, extends the file past its end, and moves the position |
| GlacierManager.Overwrite | src/main/java/cat/altimiras/glacier/backupper/GlacierManager.java:215 | bytes before the offset and past the written ones are kept, and the written ones are the buffer |
| GlacierManager.OverwriteTwice | src/main/java/cat/altimiras/glacier/backupper/GlacierManager.java:210-216 | two writes back to back are one write of both buffers |
| GlacierManager.AppendToFile | src/main/java/cat/altimiras/glacier/backupper/GlacierManager.java:207-218 | copying 1 MiB at a time writes the whole body at the position, which advances by its length |
| GlacierManager.DownloadSpec | src/main/java/cat/altimiras/glacier/backupper/GlacierManager.java:120-157 | the describe request is sent first; an unknown job fails with not-found and writes nothing; a failure never changes the file; an empty archive sends nothing more and leaves the file as it was; InvalidRange happens exactly for a non-empty archive and a negative chunk size |
| GlacierManager.FetchAll | src/main/java/cat/altimiras/glacier/backupper/GlacierManager.java:137-154 | the fetch loop sends the ranged requests walking [0, size) and leaves the file holding their bodies, one after another, from offset 0 |
| GlacierManager.Download | src/main/java/cat/altimiras/glacier/backupper/GlacierManager.java:120-157 | the requests, result and file of download are those of `DownloadSpec` |
| GlacierManager.DownloadRanges | src/main/java/cat/altimiras/glacier/backupper/GlacierManager.java:137-154 | ceil(size / chunkSize) fetches of this job's output: the first range starts at 0, each starts one past the previous end, each is min(size - pos, chunkSize) wide, and the last ends at size - 1 |
| GlacierManager.DownloadShape | src/main/java/cat/altimiras/glacier/backupper/GlacierManager.java:120-157 | for a non-empty archive: the describe request and then the fetches tiling [0, size); the file starts with the bodies in fetch order and keeps any older bytes past them |
| GlacierManager.Tier | src/main/java/cat/altimiras/glacier/backupper/GlacierManager.java:103 | "Standard" exactly when urgent, "Bulk" exactly when not |
| GlacierManager.AskToDownload | src/main/java/cat/altimiras/glacier/backupper/GlacierManager.java:95-117 | one archive-retrieval request for the item's archive in its vault, at the tier urgency selects; the job id, empty exactly when the service does not know the archive |
| GlacierManager.GetJobStatus | src/main/java/cat/altimiras/glacier/backupper/GlacierManager.java:160-176 | one describe request; empty exactly when the job is unknown, otherwise its status |
| GlacierManager.IsReadyDownload | src/main/java/cat/altimiras/glacier/backupper/GlacierManager.java:178-180 | empty iff the status is; true iff the status is SUCCEEDED; false iff known and not SUCCEEDED |
| GlacierManager.ReadyJobIsDescribed | src/main/java/cat/altimiras/glacier/backupper/GlacierManager.java:125-131 | a job reported ready is one the service describes, so downloading it sends the same describe request and never fails with not-found, for a service that answers the same describe request the same way both times |
| GlacierManager.Remove | src/main/java/cat/altimiras/glacier/backupper/GlacierManager.java:182-195 | one delete request for the item's archive in its vault; an unknown archive is ignored, so remove never fails |
| Backupper.Get | src/main/java/cat/altimiras/glacier/backupper/GlacierBackupper.java:89-96 | a value comes from a given (non-null, non-empty) option; otherwise IllegalArgumentException "<element> has not value" |
| Backupper.GetIsFirstGiven | src/main/java/cat/altimiras/glacier/backupper/GlacierBackupper.java:89-96 | get succeeds iff some option is given, and then returns the first given option, scanning left to right |
| Backupper.GetPair | src/main/java/cat/altimiras/glacier/backupper/GlacierBackupper.java:89-96 | with two options: the first when given, else the second when given, else the error |
| Backupper.ResolveCredentials | src/main/java/cat/altimiras/glacier/backupper/GlacierBackupper.java:16-17 | the key and the secret each come from the argument, or else from the settings; the key is resolved first, and the first one missing is the error |
| Backupper.GlacierBackupper.Open | src/main/java/cat/altimiras/glacier/backupper/GlacierBackupper.java:12-20 | the constructor fails exactly when the credentials cannot be resolved; otherwise it holds the store, the service and the resolved credentials |
| Backupper.UploadTarget | src/main/java/cat/altimiras/glacier/backupper/GlacierBackupper.java:25-27 | the name falls back to the file name, and the region and vault to the defaults; resolved in that order, the first one missing is the error |
| Backupper.GlacierBackupper.Upload | src/main/java/cat/altimiras/glacier/backupper/GlacierBackupper.java:22-40 | nothing is sent and the inventory is unchanged when a fallback fails or an item has the name; otherwise exactly the requests of one upload, and on success one item appended (with the archive id and the file's length), the inventory stored, and the name now found |
| Backupper.GlacierBackupper.CreateDownloadJob | src/main/java/cat/altimiras/glacier/backupper/GlacierBackupper.java:42-54 | an unknown name sends nothing and adds no job; a known one sends one job request and, given a job id, appends one job with the item's archive id, name, region and vault and stores |
| Backupper.GlacierBackupper.Download | src/main/java/cat/altimiras/glacier/backupper/GlacierBackupper.java:56-71 | no job: nothing sent; a job not ready: only the status request; a ready job: the status request followed by the download; the file changes only when the job exists and has succeeded |
| Backupper.Configured | src/main/java/cat/altimiras/glacier/backupper/GlacierBackupper.java:73-87 | each given setting is replaced, each other one kept |
| Backupper.GlacierBackupper.Configure | src/main/java/cat/altimiras/glacier/backupper/GlacierBackupper.java:73-87 | the settings become the configured ones; the inventory is not stored |
| Backupper.ConfiguredDefaultsUsed | src/main/java/cat/altimiras/glacier/backupper/GlacierBackupper.java:26-27 | after a region and a vault are configured, an upload that names neither goes to them |
| Backupper.ConfigureKeepsAndSettles | src/main/java/cat/altimiras/glacier/backupper/GlacierBackupper.java:73-87 | configure never clears a setting, and configuring twice with the same arguments equals configuring once |

## Left out

- SHA-256 (`MessageDigest`) is the parameter `sha`. `BinaryUtils.toHex` is
  the lower-case encoder `Hex.ToHex`.
- The AWS SDK:
  - The client builder (`getClient`, GlacierManager.java:197-202) and the
    credentials provider (GlacierManager.java:32-42) are out of scope.
  - The service is the value `Glacier`, one per region, chosen by
    `clients(region)`.
  - A ResourceNotFoundException is modelled only where `Glacier` can
    answer `None`:
    - `initiateJob` in askToDownload (GlacierManager.java:111);
    - `describeJob` in getJobStatus (GlacierManager.java:170) and in
      download (GlacierManager.java:130).
  - The other calls always answer. No exception of theirs is modelled:
    - `initiateMultipartUpload` (GlacierManager.java:56), for example for
      an unknown vault;
    - `uploadMultipartPart` (GlacierManager.java:78);
    - `completeMultipartUpload` (GlacierManager.java:90);
    - `getJobOutput` in the download loop (GlacierManager.java:146-150);
    - `deleteArchive` (GlacierManager.java:190), whose not-found is
      swallowed anyway.
  - Other service exceptions (throttling, access denied, invalid
    parameters) are not modelled either, with one exception: the service is
    taken to refuse the reversed range of a download with a negative chunk
    size (see `GlacierManager.DownloadSpec` below).
  - The service is a fixed function of the request, so it answers a
    repeated request the same way. Nothing changes on the service between
    two calls (see `GlacierManager.ReadyJobIsDescribed` below).
- File I/O:
  - Files are byte sequences.
  - Short reads are not modelled, so every read returns as many bytes as
    asked (up to the end).
  - Open, close and I/O failures are not modelled.
- Reading and writing the JSON inventory (`InventoryManager.java`, and
  `read`/`store` in InventoryManagerJson.java:89-100) is not part of this
  model. A store appends a snapshot of both lists.
- Logging, console messages and progress counters are not modelled. In
  particular, the download progress total `size / chunkSize + 1`
  (GlacierManager.java:135) is only logged.
- `Date` values are an opaque `Timestamp` passed in as `now`.
- Integer widths:
  - Lengths and positions are unbounded, so `long` and `int` overflow and
    the `(int)` casts in FileChunker.java:53,63 are not modelled.
  - Hash codes do model 32-bit wrap-around. Like `String.hashCode`, they
    run over UTF-16 code units.
- Aliasing:
  - `getItems`/`getJobs` hand out the live lists. This is modelled as the
    store assigning the inventory's two `seq` fields; other holders of the
    list are not modelled.
  - Items and jobs are values, since all their fields are final;
    `setLastStatus` replaces the job in the list.
- Cmd.java (command-line parsing) is not part of this model.
- `GlacierManager(key, secret)` with a null key or secret falls back to the
  profile credentials. The coordinator always passes resolved strings, so
  this branch is not modelled.
- GlacierManager.DownloadSpec: assumes that the service refuses the
  reversed range `0-(chunkSize - 1)` of the first fetch when the chunk size
  is negative, and then fails with InvalidRange without a body. `Glacier`
  cannot answer such a request. If the service did answer, `appendToFile`
  would write the body and `currentPos += toRead` would move backwards, so
  the loop at GlacierManager.java:138-154 would never end. That run is not
  modelled. A negative chunk size is reachable from the command line,
  where `c * 1024 * 1024` can overflow an `int`.
- GlacierManager.UploadShape: promises a successful upload for every
  non-empty file with a positive part size. This holds because the three
  upload calls cannot fail in the model. In the source, any of them can
  throw, and the exception escapes upload (GlacierManager.java:45-93).
- Backupper.GlacierBackupper.Upload: appends the item whenever
  `GlacierManager.Upload` succeeds. Like UploadShape, it does not model an
  upload that the service aborts with an exception in the middle of the
  parts.
- GlacierManager.FetchAll: rests on the same assumption as DownloadSpec.
  With a negative chunk size it stops after the first request and does not
  look at the service's answer.
- GlacierManager.Download: is proved equal to `DownloadSpec`, so it rests
  on the same assumption. So does Backupper.GlacierBackupper.Download,
  which calls it.
- GlacierManager.ReadyJobIsDescribed: the service is taken to answer
  download's `describeJob` (GlacierManager.java:130) as it answered the one
  in getJobStatus (GlacierManager.java:170). A job that expires or is
  purged between the two calls would make download throw
  ResourceNotFoundException. That case is not modelled.
- Backupper.GlacierBackupper.Upload: `Objects.requireNonNull(path)` is not
  modelled, because a file here always exists.
- Backupper.GlacierBackupper.Download: `Objects.requireNonNull(name)` is not
  modelled, because a name here is never null. The same holds for
  CreateDownloadJob.

## Findings

| source | as written | input that shows it | evidently intended | confidence | as-written member | corrected member |
|---|---|---|---|---|---|---|
| src/main/java/cat/altimiras/glacier/backupper/FileChunker.java:35 | `Math.ceil(size / partSize)` divides two integers first, so the ceiling is taken of an already truncated quotient: the count is rounded down | a 10-byte file in parts of 4: 2 expected, 3 chunks | the number of parts, size / partSize rounded up | not executed; the count only feeds progress messages | FileChunker.ExpectedChunksExample | FileChunker.IntendedExpectedChunksExact |
