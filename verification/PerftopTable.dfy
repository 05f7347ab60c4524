/** The hash table of HW4P2/perftop.c: buckets of entries, searched entry by entry. */
module PerftopTable {
  import opened RbTree
  import opened PerftopTrace

  /** `DECLARE_HASHTABLE(myhashtable, 10)`. */
  const BUCKETS: nat := 1024

  datatype Entry = Entry(tsc: Word, pid: int, node: RbNode?)

  class HashTable {
    /** The library's hash function, whatever it is. */
    const hash: int -> nat
    var buckets: seq<seq<Entry>>
    ghost var entries: map<int, Entry>

    function BucketOf(pid: int): (b: nat)
      ensures b < BUCKETS
    {
      hash(pid) % BUCKETS
    }

    /** Each bucket holds the entries that hash to it, and no pid is in the table twice. */
    ghost predicate Valid()
      reads this
    {
      && |buckets| == BUCKETS
      && (forall b, k :: 0 <= b < BUCKETS && 0 <= k < |buckets[b]| ==>
            && BucketOf(buckets[b][k].pid) == b
            && buckets[b][k].pid in entries && entries[buckets[b][k].pid] == buckets[b][k])
      && (forall b, j, k :: 0 <= b < BUCKETS && 0 <= j < k < |buckets[b]| ==>
            buckets[b][j].pid != buckets[b][k].pid)
      && (forall pid :: pid in entries ==> entries[pid].pid == pid && entries[pid] in buckets[BucketOf(pid)])
    }

    constructor (hash: int -> nat)
      ensures Valid() && entries == map[]
    {
      this.hash := hash;
      buckets := seq(BUCKETS, _ => []);
      entries := map[];
    }

    /** `hash_for_each_possible` with its break: the position in the bucket, or -1. */
    method Find(pid: int) returns (position: int)
      requires Valid()
      ensures -1 <= position < |buckets[BucketOf(pid)]|
      ensures position >= 0 <==> pid in entries
      ensures position >= 0 ==> buckets[BucketOf(pid)][position] == entries[pid]
    {
      var bucket := buckets[BucketOf(pid)];
      position := 0;
      while position < |bucket|
        invariant 0 <= position <= |bucket|
        invariant forall k :: 0 <= k < position ==> bucket[k].pid != pid
      {
        if bucket[position].pid == pid {
          return;
        }
        position := position + 1;
      }
      position := -1;
    }

    /** `hash_add` of an entry whose pid is not in the table. */
    method Add(entry: Entry)
      requires Valid() && entry.pid !in entries
      modifies this
      ensures Valid() && entries == old(entries)[entry.pid := entry]
      ensures buckets[BucketOf(entry.pid)] == [entry] + old(buckets)[BucketOf(entry.pid)]
    {
      var b := BucketOf(entry.pid);
      buckets := buckets[b := [entry] + buckets[b]];
      entries := entries[entry.pid := entry];
      assert entry == buckets[b][0];
      forall pid | pid in entries
        ensures entries[pid] in buckets[BucketOf(pid)]
      {
        if pid != entry.pid && BucketOf(pid) == b {
          var k :| 0 <= k < |old(buckets)[b]| && old(buckets)[b][k] == entries[pid];
          assert buckets[b][k + 1] == entries[pid];
        }
      }
    }

    /** Writes to the fields of the entry at a position. */
    method Put(position: nat, entry: Entry)
      requires Valid() && position < |buckets[BucketOf(entry.pid)]|
      requires buckets[BucketOf(entry.pid)][position].pid == entry.pid
      modifies this
      ensures Valid() && entries == old(entries)[entry.pid := entry]
    {
      var b := BucketOf(entry.pid);
      buckets := buckets[b := buckets[b][position := entry]];
      entries := entries[entry.pid := entry];
      forall pid | pid in entries
        ensures entries[pid] in buckets[BucketOf(pid)]
      {
        if pid == entry.pid {
          assert buckets[b][position] == entry;
        } else if BucketOf(pid) == b {
          var k :| 0 <= k < |old(buckets)[b]| && old(buckets)[b][k] == entries[pid];
          assert buckets[b][k] == entries[pid];
        }
      }
    }

    /** The entry of a pid; a new one that starts now if there is none. */
    method FindOrAdd(pid: int, now: Word) returns (position: nat, entry: Entry)
      requires Valid()
      modifies this
      ensures Valid()
      ensures entries == if pid in old(entries) then old(entries) else old(entries)[pid := Entry(now, pid, null)]
      ensures position < |buckets[BucketOf(pid)]| && buckets[BucketOf(pid)][position] == entries[pid]
      ensures entry == entries[pid]
    {
      var found := Find(pid);
      if found < 0 {
        Add(Entry(now, pid, null));
        position := 0;
      } else {
        position := found;
      }
      entry := buckets[BucketOf(pid)][position];
    }

    /** The start of a pid becomes `now`, in a new entry if there is none. */
    method Restart(pid: int, now: Word)
      requires Valid()
      modifies this
      ensures Valid()
      ensures entries == old(entries)[pid :=
        if pid in old(entries) then old(entries)[pid].(tsc := now) else Entry(now, pid, null)]
    {
      var position := Find(pid);
      if position < 0 {
        Add(Entry(now, pid, null));
      } else {
        Put(position, buckets[BucketOf(pid)][position].(tsc := now));
      }
    }
  }
}
