/** The client's write-back state (crates/teleport-daemon/src/sync_engine.rs):
    chunks modified locally and not yet uploaded, the set of inodes that have
    such chunks, and the locks the client holds. Time is the parameter `now`. */
module SyncEngine {
  import opened Ints
  import opened Wrappers
  import opened Types
  import opened Collections

  const DEFAULT_SYNC_INTERVAL_MS: nat := 1000
  /** At this many dirty chunks a flush is forced. */
  const MAX_DIRTY_CHUNKS: nat := 1000

  datatype DirtyChunk = DirtyChunk(
    data: seq<u8>, modifiedAt: nat, attempts: nat, lastError: Option<string>)

  datatype FileLock = FileLock(
    token: LockToken, lockType: LockType, acquiredAt: nat, expiresAt: nat)

  /** A lock is usable strictly before its expiry instant. */
  predicate IsValidAt(l: FileLock, now: nat) {
    now < l.expiresAt
  }

  /** `SyncStatus` without the never-set `last_sync`. */
  datatype SyncStatus = SyncStatus(
    pendingChunks: nat, dirtyFiles: nat, pendingBytes: nat, errorCount: nat)

  function DataLen(c: DirtyChunk): nat {
    |c.data|
  }

  function Attempts(c: DirtyChunk): nat {
    c.attempts
  }

  function EntryTime(e: (ChunkId, DirtyChunk)): int {
    e.1.modifiedAt
  }

  /** The inodes that own at least one of the chunks. */
  function InodesOf(chunks: set<ChunkId>): set<Inode> {
    set id | id in chunks :: id.inode
  }

  class SyncEngine {
    var dirtyChunks: map<ChunkId, DirtyChunk>
    var dirtyInodes: set<Inode>
    var locks: map<Inode, FileLock>

    /** The dirty-inode set is exactly the inodes of the dirty chunks. */
    ghost predicate Valid()
      reads this
    {
      dirtyInodes == InodesOf(dirtyChunks.Keys)
    }

    constructor ()
      ensures Valid()
      ensures dirtyChunks == map[] && dirtyInodes == {} && locks == map[]
    {
      dirtyChunks := map[];
      dirtyInodes := {};
      locks := map[];
    }

    /** `mark_dirty`: store the data as a fresh entry, replacing any older one. */
    method MarkDirty(id: ChunkId, data: seq<u8>, now: nat)
      requires Valid()
      modifies this
      ensures Valid()
      ensures dirtyChunks == old(dirtyChunks)[id := DirtyChunk(data, now, 0, None)]
      ensures dirtyInodes == old(dirtyInodes) + {id.inode}
      ensures locks == old(locks)
    {
      dirtyChunks := dirtyChunks[id := DirtyChunk(data, now, 0, None)];
      dirtyInodes := dirtyInodes + {id.inode};
    }

    function IsDirty(id: ChunkId): (r: bool)
      reads this
      ensures r <==> id in dirtyChunks
    {
      id in dirtyChunks
    }

    function HasDirtyChunks(inode: Inode): (r: bool)
      requires Valid()
      reads this
      ensures r <==> exists id :: id in dirtyChunks && id.inode == inode
    {
      inode in dirtyInodes
    }

    function GetDirtyChunk(id: ChunkId): (r: Option<seq<u8>>)
      reads this
      ensures r.Some? <==> id in dirtyChunks
      ensures r.Some? ==> r.value == dirtyChunks[id].data
    {
      if id in dirtyChunks then Some(dirtyChunks[id].data) else None
    }

    /** `get_dirty_chunks_for_inode`: the entries of that inode, in the
        (unspecified) order the map is visited. */
    method GetDirtyChunksForInode(inode: Inode) returns (r: seq<(ChunkId, DirtyChunk)>)
      ensures forall i :: 0 <= i < |r| ==>
                r[i].0 in dirtyChunks && r[i].0.inode == inode && r[i].1 == dirtyChunks[r[i].0]
      ensures forall id :: id in dirtyChunks && id.inode == inode ==> (id, dirtyChunks[id]) in r
    {
      r := [];
      var keys := dirtyChunks.Keys;
      while keys != {}
        invariant keys <= dirtyChunks.Keys
        invariant forall i :: 0 <= i < |r| ==>
                    r[i].0 in dirtyChunks && r[i].0.inode == inode && r[i].1 == dirtyChunks[r[i].0]
        invariant forall id :: id in dirtyChunks && id !in keys && id.inode == inode ==>
                    (id, dirtyChunks[id]) in r
        decreases |keys|
      {
        var id :| id in keys;
        if id.inode == inode {
          r := r + [(id, dirtyChunks[id])];
        }
        keys := keys - {id};
      }
    }

    /** `mark_synced`: drop the chunk; the inode leaves the dirty set only
        when none of its chunks remains. */
    method MarkSynced(id: ChunkId)
      requires Valid()
      modifies this
      ensures Valid()
      ensures dirtyChunks == old(dirtyChunks) - {id}
      ensures (exists other :: other in dirtyChunks && other.inode == id.inode) ==>
                dirtyInodes == old(dirtyInodes)
      ensures (forall other :: other in dirtyChunks ==> other.inode != id.inode) ==>
                dirtyInodes == old(dirtyInodes) - {id.inode}
      ensures locks == old(locks)
    {
      dirtyChunks := dirtyChunks - {id};
      var stillDirty := exists other | other in dirtyChunks :: other.inode == id.inode;
      if !stillDirty {
        dirtyInodes := dirtyInodes - {id.inode};
      } else {
        assert id.inode in old(dirtyInodes);
      }
    }

    /** `mark_sync_failed`: only an entry that is still dirty records the
        failure. */
    method MarkSyncFailed(id: ChunkId, error: string)
      requires Valid()
      modifies this
      ensures Valid()
      ensures id in old(dirtyChunks) ==>
                dirtyChunks == old(dirtyChunks)[id := old(dirtyChunks)[id].(
                  attempts := old(dirtyChunks)[id].attempts + 1, lastError := Some(error))]
      ensures id !in old(dirtyChunks) ==> dirtyChunks == old(dirtyChunks)
      ensures dirtyInodes == old(dirtyInodes) && locks == old(locks)
    {
      if id in dirtyChunks {
        var c := dirtyChunks[id];
        dirtyChunks := dirtyChunks[id := c.(attempts := c.attempts + 1, lastError := Some(error))];
      }
    }

    method StoreLock(inode: Inode, token: LockToken, lockType: LockType, ttl: nat, now: nat)
      requires Valid()
      modifies this
      ensures Valid()
      ensures locks == old(locks)[inode := FileLock(token, lockType, now, now + ttl)]
      ensures dirtyChunks == old(dirtyChunks) && dirtyInodes == old(dirtyInodes)
    {
      locks := locks[inode := FileLock(token, lockType, now, now + ttl)];
    }

    /** `get_lock`: the stored lock, unless it has expired. */
    function GetLock(inode: Inode, now: nat): (r: Option<FileLock>)
      reads this
      ensures r.Some? <==> inode in locks && IsValidAt(locks[inode], now)
      ensures r.Some? ==> r.value == locks[inode]
    {
      if inode in locks && IsValidAt(locks[inode], now) then Some(locks[inode]) else None
    }

    /** `has_lock`: an unexpired exclusive lock satisfies either requirement,
        a shared one only a shared requirement. */
    function HasLock(inode: Inode, required: LockType, now: nat): (r: bool)
      reads this
    {
      match GetLock(inode, now)
      case None => false
      case Some(l) =>
        match (l.lockType, required)
        case (Exclusive, _) => true
        case (Shared, Shared) => true
        case _ => false
    }

    lemma HasLockMeaning(inode: Inode, required: LockType, now: nat)
      ensures HasLock(inode, required, now) <==>
        inode in locks && now < locks[inode].expiresAt
        && (locks[inode].lockType == Exclusive || required == Shared)
      ensures HasLock(inode, Exclusive, now) ==> HasLock(inode, Shared, now)
    {
    }

    function GetLockToken(inode: Inode, now: nat): (r: Option<LockToken>)
      reads this
      ensures r.Some? <==> GetLock(inode, now).Some?
      ensures r.Some? ==> r.value == locks[inode].token
    {
      match GetLock(inode, now)
      case Some(l) => Some(l.token)
      case None => None
    }

    method RemoveLock(inode: Inode)
      requires Valid()
      modifies this
      ensures Valid()
      ensures locks == old(locks) - {inode}
      ensures dirtyChunks == old(dirtyChunks) && dirtyInodes == old(dirtyInodes)
    {
      locks := locks - {inode};
    }

    /** `clear_inode`: all of the inode's chunks and its lock go, nothing
        else changes. */
    method ClearInode(inode: Inode)
      requires Valid()
      modifies this
      ensures Valid()
      ensures dirtyChunks == map id | id in old(dirtyChunks) && id.inode != inode :: old(dirtyChunks)[id]
      ensures dirtyInodes == old(dirtyInodes) - {inode}
      ensures locks == old(locks) - {inode}
    {
      dirtyChunks := map id | id in dirtyChunks && id.inode != inode :: dirtyChunks[id];
      dirtyInodes := dirtyInodes - {inode};
      locks := locks - {inode};
    }

    /** `status`: chunk count, dirty-file count, and the sums of data
        lengths and of attempts over all dirty chunks. */
    method Status() returns (s: SyncStatus)
      requires Valid()
      ensures s.pendingChunks == |dirtyChunks| && s.dirtyFiles == |dirtyInodes|
      ensures s.pendingBytes == SumOver(dirtyChunks, DataLen)
      ensures s.errorCount == SumOver(dirtyChunks, Attempts)
    {
      var bytes := 0;
      var errors := 0;
      var rest := dirtyChunks;
      while |rest.Keys| > 0
        invariant bytes + SumOver(rest, DataLen) == SumOver(dirtyChunks, DataLen)
        invariant errors + SumOver(rest, Attempts) == SumOver(dirtyChunks, Attempts)
        decreases |rest.Keys|
      {
        var k :| k in rest.Keys;
        SumOverRemove(rest, DataLen, k);
        SumOverRemove(rest, Attempts, k);
        RemoveShrinks(rest, k);
        bytes := bytes + |rest[k].data|;
        errors := errors + rest[k].attempts;
        rest := rest - {k};
      }
      s := SyncStatus(|dirtyChunks|, |dirtyInodes|, bytes, errors);
    }

    function ShouldForceSync(): (r: bool)
      reads this
      ensures r <==> |dirtyChunks| >= MAX_DIRTY_CHUNKS
    {
      |dirtyChunks| >= MAX_DIRTY_CHUNKS
    }

    /** All entries of the map, each once, in the order the map is visited. */
    method Entries() returns (entries: seq<(ChunkId, DirtyChunk)>)
      ensures |entries| == |dirtyChunks|
      ensures forall i :: 0 <= i < |entries| ==>
                entries[i].0 in dirtyChunks && entries[i].1 == dirtyChunks[entries[i].0]
      ensures forall id :: id in dirtyChunks ==> (id, dirtyChunks[id]) in entries
      ensures forall i, j :: 0 <= i < j < |entries| ==> entries[i].0 != entries[j].0
    {
      entries := [];
      var keys := dirtyChunks.Keys;
      while keys != {}
        invariant keys <= dirtyChunks.Keys
        invariant |entries| + |keys| == |dirtyChunks.Keys|
        invariant forall i :: 0 <= i < |entries| ==>
                    entries[i].0 in dirtyChunks && entries[i].1 == dirtyChunks[entries[i].0]
        invariant forall id :: id in dirtyChunks && id !in keys ==> (id, dirtyChunks[id]) in entries
        invariant forall i :: 0 <= i < |entries| ==> entries[i].0 !in keys
        invariant forall i, j :: 0 <= i < j < |entries| ==> entries[i].0 != entries[j].0
        decreases |keys|
      {
        var id :| id in keys;
        entries := entries + [(id, dirtyChunks[id])];
        keys := keys - {id};
      }
    }

    /** `get_chunks_to_sync`: the entries sorted oldest first, cut to at most
        `maxCount`. Every chunk left out is at least as new as every chunk
        returned. */
    method GetChunksToSync(maxCount: nat) returns (r: seq<(ChunkId, DirtyChunk)>)
      ensures |r| == Min(maxCount, |dirtyChunks|)
      ensures SortedBy(EntryTime, r)
      ensures forall i :: 0 <= i < |r| ==> r[i].0 in dirtyChunks && r[i].1 == dirtyChunks[r[i].0]
      ensures forall id :: id in dirtyChunks && (forall i :: 0 <= i < |r| ==> r[i].0 != id) ==>
                forall i :: 0 <= i < |r| ==> r[i].1.modifiedAt <= dirtyChunks[id].modifiedAt
      ensures forall i, j :: 0 <= i < j < |r| ==> r[i].0 != r[j].0
    {
      var entries := Entries();
      var sorted := SortBy(EntryTime, entries);
      SortedEntries(entries, sorted);
      var n := Min(maxCount, |sorted|);
      r := sorted[..n];
      TakeOldest(sorted, n);
    }

    /** The first `n` entries of the sorted, complete and repeat-free list
        keep all of its properties, and nothing left out is older. */
    lemma TakeOldest(sorted: seq<(ChunkId, DirtyChunk)>, n: nat)
      requires n <= |sorted| && SortedBy(EntryTime, sorted)
      requires forall i :: 0 <= i < |sorted| ==>
                 sorted[i].0 in dirtyChunks && sorted[i].1 == dirtyChunks[sorted[i].0]
      requires forall id :: id in dirtyChunks ==> (id, dirtyChunks[id]) in sorted
      requires forall i, j :: 0 <= i < j < |sorted| ==> sorted[i].0 != sorted[j].0
      ensures SortedBy(EntryTime, sorted[..n])
      ensures forall i :: 0 <= i < n ==> sorted[..n][i].0 in dirtyChunks && sorted[..n][i].1 == dirtyChunks[sorted[..n][i].0]
      ensures forall id :: id in dirtyChunks && (forall i :: 0 <= i < n ==> sorted[..n][i].0 != id) ==>
                forall i :: 0 <= i < n ==> sorted[..n][i].1.modifiedAt <= dirtyChunks[id].modifiedAt
      ensures forall i, j :: 0 <= i < j < n ==> sorted[..n][i].0 != sorted[..n][j].0
    {
      var r := sorted[..n];
      assert forall i :: 0 <= i < n ==> r[i] == sorted[i];
      OldestFirst(sorted, n);
    }

    lemma SortedEntries(entries: seq<(ChunkId, DirtyChunk)>, sorted: seq<(ChunkId, DirtyChunk)>)
      requires forall i :: 0 <= i < |entries| ==>
                 entries[i].0 in dirtyChunks && entries[i].1 == dirtyChunks[entries[i].0]
      requires forall id :: id in dirtyChunks ==> (id, dirtyChunks[id]) in entries
      requires forall i, j :: 0 <= i < j < |entries| ==> entries[i].0 != entries[j].0
      requires multiset(sorted) == multiset(entries)
      ensures forall i :: 0 <= i < |sorted| ==>
                sorted[i].0 in dirtyChunks && sorted[i].1 == dirtyChunks[sorted[i].0]
      ensures forall id :: id in dirtyChunks ==> (id, dirtyChunks[id]) in sorted
      ensures forall i, j :: 0 <= i < j < |sorted| ==> sorted[i].0 != sorted[j].0
    {
      assert Distinct(entries);
      PermutationDistinct(sorted, entries);
      forall i | 0 <= i < |sorted|
        ensures sorted[i].0 in dirtyChunks && sorted[i].1 == dirtyChunks[sorted[i].0]
      {
        assert sorted[i] in multiset(entries);
      }
      forall id | id in dirtyChunks
        ensures (id, dirtyChunks[id]) in sorted
      {
        assert (id, dirtyChunks[id]) in multiset(entries);
      }
    }

    lemma OldestFirst(sorted: seq<(ChunkId, DirtyChunk)>, n: nat)
      requires n <= |sorted| && SortedBy(EntryTime, sorted)
      requires forall id :: id in dirtyChunks ==> (id, dirtyChunks[id]) in sorted
      ensures forall id :: id in dirtyChunks && (forall i :: 0 <= i < n ==> sorted[i].0 != id) ==>
                forall i :: 0 <= i < n ==> sorted[i].1.modifiedAt <= dirtyChunks[id].modifiedAt
    {
      forall id | id in dirtyChunks && (forall i :: 0 <= i < n ==> sorted[i].0 != id)
        ensures forall i :: 0 <= i < n ==> sorted[i].1.modifiedAt <= dirtyChunks[id].modifiedAt
      {
        var j :| 0 <= j < |sorted| && sorted[j] == (id, dirtyChunks[id]);
        assert j >= n;
        assert forall i :: 0 <= i < n ==> EntryTime(sorted[i]) <= EntryTime(sorted[j]);
      }
    }

    /** `get_expiring_locks`: the inodes whose lock expires before
        `now + within`. */
    method GetExpiringLocks(within: nat, now: nat) returns (r: seq<Inode>)
      ensures forall i :: 0 <= i < |r| ==> r[i] in locks && locks[r[i]].expiresAt < now + within
      ensures forall inode :: inode in locks && locks[inode].expiresAt < now + within ==> inode in r
    {
      var threshold := now + within;
      r := [];
      var keys := locks.Keys;
      while keys != {}
        invariant keys <= locks.Keys
        invariant forall i :: 0 <= i < |r| ==> r[i] in locks && locks[r[i]].expiresAt < threshold
        invariant forall inode :: inode in locks && inode !in keys && locks[inode].expiresAt < threshold ==> inode in r
        decreases |keys|
      {
        var inode :| inode in keys;
        if locks[inode].expiresAt < threshold {
          r := r + [inode];
        }
        keys := keys - {inode};
      }
    }

    /** `cleanup_expired_locks`: drops locks whose expiry lies strictly
        before `now`. */
    method CleanupExpiredLocks(now: nat)
      requires Valid()
      modifies this
      ensures Valid()
      ensures locks == map i | i in old(locks) && !(old(locks)[i].expiresAt < now) :: old(locks)[i]
      ensures dirtyChunks == old(dirtyChunks) && dirtyInodes == old(dirtyInodes)
    {
      var expired := set i | i in locks && locks[i].expiresAt < now;
      locks := locks - expired;
    }
  }
}
