/** The inventory (src/main/java/cat/altimiras/glacier/backupper/Inventory.java)
    and its JSON-backed store
    (src/main/java/cat/altimiras/glacier/backupper/InventoryManagerJson.java).
    The store edits the inventory's two lists in place through their live
    getters; writing the JSON file is recorded as a snapshot of both lists. */
module Inventories {
  import opened Wrappers
  import opened Seqs
  import opened Records

  /** What one store() writes: the two lists at that moment. */
  datatype Snapshot = Snapshot(items: seq<Item>, jobs: seq<Job>)

  /** The inventory: two separate mutable lists. */
  class Inventory {
    var items: seq<Item>
    var jobs: seq<Job>

    constructor()
      ensures items == [] && jobs == []
    {
      items := [];
      jobs := [];
    }
  }

  /** The argument of List.remove(Object) compared with each element: the
      element equals the argument when the argument's equals says so. */
  function SameItem(i: Item): Item -> bool
  {
    (x: Item) => ItemEquals(i, ItemRef(x))
  }

  function SameJob(j: Job): Job -> bool
  {
    (x: Job) => JobEquals(j, JobRef(x))
  }

  function ItemNamed(name: string): Item -> bool
  {
    (i: Item) => i.name == name
  }

  function JobNamed(name: string): Job -> bool
  {
    (j: Job) => j.name == name
  }

  /** The scan of findItemByChecksum stops at a match, or at an item with no
      checksum, where `getChecksum().equals` throws. */
  function ChecksumStop(checksum: string): Item -> bool
  {
    (i: Item) => i.checksum.None? || i.checksum.value == checksum
  }

  /** setLastStatus applied to the job found. */
  function CheckedAt(now: Timestamp): Job -> Job
  {
    (j: Job) => j.(lastStatus := Some(now))
  }

  class InventoryManagerJson {
    const inventory: Inventory
    /** Every snapshot written by store(), oldest first. */
    var stored: seq<Snapshot>

    /** The inventory read at construction is given; reading it from disk is
        not part of this model. */
    constructor(read: Inventory)
      ensures inventory == read && stored == []
    {
      inventory := read;
      stored := [];
    }

    /** store: persists both lists as they are now. */
    method Store()
      modifies this
      ensures stored == old(stored) + [Snapshot(inventory.items, inventory.jobs)]
    {
      stored := stored + [Snapshot(inventory.items, inventory.jobs)];
    }

    /** addItem: appends `i` as the last item, leaves the jobs alone, then
        persists. */
    method AddItem(i: Item)
      modifies inventory, this
      ensures inventory.items == old(inventory.items) + [i]
      ensures inventory.jobs == old(inventory.jobs)
      ensures stored == old(stored) + [Snapshot(inventory.items, inventory.jobs)]
    {
      inventory.items := inventory.items + [i];
      Store();
    }

    /** removeItem: drops the first item with `i`'s archiveId, if any, keeps
        every other item in order, leaves the jobs alone, then persists. */
    method RemoveItem(i: Item)
      modifies inventory, this
      ensures var k := FirstIndex(old(inventory.items), SameItem(i));
        && (k.None? ==> inventory.items == old(inventory.items))
        && (k.Some? ==> inventory.items == old(inventory.items)[..k.value] + old(inventory.items)[k.value + 1..])
      ensures inventory.jobs == old(inventory.jobs)
      ensures stored == old(stored) + [Snapshot(inventory.items, inventory.jobs)]
    {
      RemoveFirstAt(inventory.items, SameItem(i));
      inventory.items := RemoveFirst(inventory.items, SameItem(i));
      Store();
    }

    /** addJob: appends `j` as the last job, leaves the items alone, then
        persists. */
    method AddJob(j: Job)
      modifies inventory, this
      ensures inventory.jobs == old(inventory.jobs) + [j]
      ensures inventory.items == old(inventory.items)
      ensures stored == old(stored) + [Snapshot(inventory.items, inventory.jobs)]
    {
      inventory.jobs := inventory.jobs + [j];
      Store();
    }

    /** removeJob: drops the first job with `j`'s jobId, if any, keeps every
        other job in order, leaves the items alone, then persists. */
    method RemoveJob(j: Job)
      modifies inventory, this
      ensures var k := FirstIndex(old(inventory.jobs), SameJob(j));
        && (k.None? ==> inventory.jobs == old(inventory.jobs))
        && (k.Some? ==> inventory.jobs == old(inventory.jobs)[..k.value] + old(inventory.jobs)[k.value + 1..])
      ensures inventory.items == old(inventory.items)
      ensures stored == old(stored) + [Snapshot(inventory.items, inventory.jobs)]
    {
      RemoveFirstAt(inventory.jobs, SameJob(j));
      inventory.jobs := RemoveFirst(inventory.jobs, SameJob(j));
      Store();
    }

    /** markJobChecked: stamps `now` as the last status time of the first job
        with `job`'s name, if any; nothing else changes and nothing is
        persisted. */
    method MarkJobChecked(job: Job, now: Timestamp)
      modifies inventory
      ensures var k := FirstIndex(old(inventory.jobs), JobNamed(job.name));
        && (k.None? ==> inventory.jobs == old(inventory.jobs))
        && (k.Some? ==> inventory.jobs == old(inventory.jobs)[k.value := old(inventory.jobs)[k.value].(lastStatus := Some(now))])
      ensures inventory.items == old(inventory.items)
      ensures stored == old(stored)
    {
      UpdateFirstAt(inventory.jobs, JobNamed(job.name), CheckedAt(now));
      inventory.jobs := UpdateFirst(inventory.jobs, JobNamed(job.name), CheckedAt(now));
    }

    /** findItemByName: the first item with exactly that name; none iff no
        item has it. */
    function FindItemByName(name: string): (r: Option<Item>)
      reads inventory
      ensures var items := inventory.items;
        && (r.None? <==> forall k :: 0 <= k < |items| ==> items[k].name != name)
        && (r.Some? ==> exists k :: 0 <= k < |items| && items[k] == r.value && items[k].name == name &&
                                    forall j :: 0 <= j < k ==> items[j].name != name)
    {
      FindFirst(inventory.items, ItemNamed(name))
    }

    /** findItemByChecksum: the first item with exactly that checksum, or
        none when no item has it. Reaching an item without a checksum first
        throws a NullPointerException. */
    function FindItemByChecksum(checksum: string): (r: Result<Option<Item>>)
      reads inventory
      ensures var items := inventory.items;
        && (r == Success(None) <==>
              forall k :: 0 <= k < |items| ==> items[k].checksum.Some? && items[k].checksum.value != checksum)
        && (r.Success? && r.value.Some? ==>
              exists k :: 0 <= k < |items| && items[k] == r.value.value && items[k].checksum == Some(checksum) &&
                forall j :: 0 <= j < k ==> items[j].checksum.Some? && items[j].checksum.value != checksum)
        && (r.Failure? ==> r.error == NullPointer)
        && (r.Failure? ==>
              exists k :: 0 <= k < |items| && items[k].checksum.None? &&
                forall j :: 0 <= j < k ==> items[j].checksum.Some? && items[j].checksum.value != checksum)
    {
      var items := inventory.items;
      FirstIndexIsFirst(items, ChecksumStop(checksum));
      match FirstIndex(items, ChecksumStop(checksum))
      case None => Success(None)
      case Some(k) =>
        if items[k].checksum.None? then Failure(NullPointer) else Success(Some(items[k]))
    }

    /** findJobByName: the first job with exactly that name; none iff no job
        has it. */
    function FindJobByName(name: string): (r: Option<Job>)
      reads inventory
      ensures var jobs := inventory.jobs;
        && (r.None? <==> forall k :: 0 <= k < |jobs| ==> jobs[k].name != name)
        && (r.Some? ==> exists k :: 0 <= k < |jobs| && jobs[k] == r.value && jobs[k].name == name &&
                                    forall j :: 0 <= j < k ==> jobs[j].name != name)
    {
      FindFirst(inventory.jobs, JobNamed(name))
    }
  }
}
