/** The records of the inventory: Item (src/main/java/cat/altimiras/glacier/backupper/Item.java)
    and Job (src/main/java/cat/altimiras/glacier/backupper/Job.java), with
    Java's equals and hashCode. Both classes have only final fields, so they
    are values here. */
module Records {
  import opened Wrappers

  /** A java.util.Date, as an opaque instant. */
  type Timestamp = int

  /** An uploaded archive. `checksum` is None for items built by the
      five-argument constructor, which sets no checksum. */
  datatype Item = Item(
    name: string,
    checksum: Option<string>,
    archiveId: string,
    size: int,
    vault: string,
    region: string,
    uploadDate: Timestamp)

  /** A retrieval job; `name` is the file name of the archive it retrieves
      and `lastStatus` the last time its status was checked. */
  datatype Job = Job(
    jobId: string,
    archiveId: string,
    name: string,
    region: string,
    vault: string,
    creation: Timestamp,
    lastStatus: Option<Timestamp>)

  /** The five-argument Item constructor: stores its arguments as given,
      stamps the upload date with the current time and sets no checksum. */
  function NewItem(name: string, archiveId: string, size: int, vault: string, region: string, now: Timestamp): (i: Item)
    ensures i.name == name && i.archiveId == archiveId && i.size == size
    ensures i.vault == vault && i.region == region
    ensures i.uploadDate == now && i.checksum.None?
  {
    Item(name, None, archiveId, size, vault, region, now)
  }

  /** The Job constructor: stores its arguments as given, stamps the
      creation date with the current time; the status was never checked. */
  function NewJob(jobId: string, archiveId: string, fileName: string, region: string, vault: string, now: Timestamp): (j: Job)
    ensures j.jobId == jobId && j.archiveId == archiveId && j.name == fileName
    ensures j.region == region && j.vault == vault
    ensures j.creation == now && j.lastStatus.None?
  {
    Job(jobId, archiveId, fileName, region, vault, now, None)
  }

  /** The argument of equals(Object): null, an Item, a Job, or an object of
      any other class. */
  datatype JavaObject = Null | ItemRef(item: Item) | JobRef(job: Job) | Other

  /** Item.equals: another Item with the same archiveId. */
  function ItemEquals(a: Item, o: JavaObject): bool
  {
    match o
    case ItemRef(b) => a.archiveId == b.archiveId
    case _ => false
  }

  /** Job.equals: another Job with the same jobId. */
  function JobEquals(a: Job, o: JavaObject): bool
  {
    match o
    case JobRef(b) => a.jobId == b.jobId
    case _ => false
  }

  /** Two items are equal exactly when their archive ids are; every other
      field is ignored. Equality is reflexive, symmetric and transitive, and
      an item never equals null, a job or an object of another class. */
  lemma ItemEqualsIsArchiveId(a: Item, b: Item, c: Item)
    ensures ItemEquals(a, ItemRef(b)) <==> a.archiveId == b.archiveId
    ensures ItemEquals(a, ItemRef(a))
    ensures ItemEquals(a, ItemRef(b)) ==> ItemEquals(b, ItemRef(a))
    ensures ItemEquals(a, ItemRef(b)) && ItemEquals(b, ItemRef(c)) ==> ItemEquals(a, ItemRef(c))
    ensures !ItemEquals(a, Null) && !ItemEquals(a, Other)
    ensures forall j :: !ItemEquals(a, JobRef(j))
  {
  }

  /** Two jobs are equal exactly when their job ids are; every other field
      is ignored. Equality is reflexive, symmetric and transitive, and a job
      never equals null, an item or an object of another class. */
  lemma JobEqualsIsJobId(a: Job, b: Job, c: Job)
    ensures JobEquals(a, JobRef(b)) <==> a.jobId == b.jobId
    ensures JobEquals(a, JobRef(a))
    ensures JobEquals(a, JobRef(b)) ==> JobEquals(b, JobRef(a))
    ensures JobEquals(a, JobRef(b)) && JobEquals(b, JobRef(c)) ==> JobEquals(a, JobRef(c))
    ensures !JobEquals(a, Null) && !JobEquals(a, Other)
    ensures forall i :: !JobEquals(a, ItemRef(i))
  {
  }

  const TWO_TO_32: nat := 0x1_0000_0000
  const TWO_TO_31: nat := 0x8000_0000

  /** The UTF-16 code units of one character: itself below U+10000, a
      surrogate pair above, which decodes back to the character. */
  function CodeUnits(c: char): (u: seq<nat>)
    ensures 1 <= |u| <= 2 && forall k :: 0 <= k < |u| ==> u[k] < 0x1_0000
    ensures |u| == 1 <==> c as int < 0x1_0000
    ensures |u| == 1 ==> u[0] == c as int
    ensures |u| == 2 ==> 0xD800 <= u[0] < 0xDC00 <= u[1] < 0xE000 &&
                         0x1_0000 + (u[0] - 0xD800) * 0x400 + (u[1] - 0xDC00) == c as int
  {
    if c as int < 0x1_0000 then [c as int]
    else
      var v := c as int - 0x1_0000;
      [0xD800 + v / 0x400, 0xDC00 + v % 0x400]
  }

  /** The UTF-16 code units a Java String holds for `s`. */
  function Utf16(s: string): (u: seq<nat>)
    ensures |s| <= |u| <= 2 * |s|
    ensures forall k :: 0 <= k < |u| ==> u[k] < 0x1_0000
    decreases |s|
  {
    if |s| == 0 then [] else Utf16(s[..|s| - 1]) + CodeUnits(s[|s| - 1])
  }

  /** h = 31 * h + unit over the code units, wrapping around at 2^32. */
  function UnitsHash(u: seq<nat>): (h: nat)
    ensures h < TWO_TO_32
    decreases |u|
  {
    if |u| == 0 then 0 else (31 * UnitsHash(u[..|u| - 1]) + u[|u| - 1]) % TWO_TO_32
  }

  /** String.hashCode as an unsigned 32-bit value: it runs over the UTF-16
      code units, so a character above U+FFFF counts as two. */
  function StringHash(s: string): (h: nat)
    ensures h < TWO_TO_32
  {
    UnitsHash(Utf16(s))
  }

  /** The code units of a one-character string are those of the character. */
  lemma Utf16Single(c: char)
    ensures Utf16([c]) == CodeUnits(c)
  {
    assert [c][..0] == [];
  }

  /** The hash of one or two code units, before any wrap-around. */
  lemma UnitsHashShort(a: nat, b: nat)
    requires a < 0x1_0000 && b < 0x1_0000
    ensures UnitsHash([a]) == a
    ensures UnitsHash([a, b]) == 31 * a + b
  {
    assert [a][..0] == [];
    assert [a, b][..1] == [a];
  }

  /** The empty string hashes to 0. */
  lemma StringHashEmpty()
    ensures StringHash("") == 0
  {
    assert Utf16("") == [];
  }

  /** A character below U+10000 is one code unit, and hashes to itself. */
  lemma StringHashOneUnit(c: char)
    requires c as int < 0x1_0000
    ensures StringHash([c]) == c as int
  {
    Utf16Single(c);
    UnitsHashShort(c as int, 0);
  }

  /** U+1F600 is the surrogate pair D83D DE00, so its hash is
      31 * 0xD83D + 0xDE00 and not the code point 0x1F600. */
  lemma StringHashSupplementary()
    ensures Utf16("\U{1F600}") == [0xD83D, 0xDE00]
    ensures StringHash("\U{1F600}") == 1772899
  {
    Utf16Single('\U{1F600}');
    assert "\U{1F600}" == ['\U{1F600}'];
    UnitsHashShort(0xD83D, 0xDE00);
  }

  /** The signed Java int with the same 32 bits. */
  function ToInt32(x: nat): (r: int)
    requires x < TWO_TO_32
    ensures -(TWO_TO_31 as int) <= r < TWO_TO_31
    ensures (r - x) % TWO_TO_32 == 0
  {
    if x < TWO_TO_31 then x else x - TWO_TO_32
  }

  /** Objects.hash of one string: 31 * 1 + its hashCode, in int arithmetic. */
  function ObjectsHash(s: string): int
  {
    ToInt32((31 + StringHash(s)) % TWO_TO_32)
  }

  /** Item.hashCode depends on the archive id alone. */
  function ItemHashCode(i: Item): int
  {
    ObjectsHash(i.archiveId)
  }

  /** Job.hashCode depends on the job id alone. */
  function JobHashCode(j: Job): int
  {
    ObjectsHash(j.jobId)
  }

  /** Equal items have equal hash codes. */
  lemma ItemHashConsistent(a: Item, b: Item)
    requires ItemEquals(a, ItemRef(b))
    ensures ItemHashCode(a) == ItemHashCode(b)
  {
  }

  /** Equal jobs have equal hash codes. */
  lemma JobHashConsistent(a: Job, b: Job)
    requires JobEquals(a, JobRef(b))
    ensures JobHashCode(a) == JobHashCode(b)
  {
  }

  /** Two fixed points of the hash: Objects.hash("") is 31 and
      Objects.hash("a") is 31 + 97. */
  lemma ObjectsHashExamples()
    ensures ObjectsHash("") == 31
    ensures ObjectsHash("a") == 128
  {
    StringHashEmpty();
    StringHashOneUnit('a');
    assert "a" == ['a'];
  }
}
