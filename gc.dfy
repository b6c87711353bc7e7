// The disk-cache garbage collector: when the cache is above its high
// watermark, remove entries oldest access first until it is at or below
// its low watermark.

module Gc {
  import opened Ints
  import opened Wrappers
  import opened Types
  import opened Collections
  import opened DiskCache

  /** Ten GiB, the default cache budget. */
  const MAX_CACHE_BYTES: nat := 10 * 1024 * 1024 * 1024
  const GC_INTERVAL_SECS: nat := 60

  datatype GcStats = GcStats(bytesFreed: nat, bytesRemaining: nat)
  datatype CacheStats = CacheStats(currentBytes: nat, maxBytes: nat, entryCount: nat)

  type Entry = (ChunkId, DiskCacheEntry)

  /** What a run of the eviction loop leaves behind: the disk state, the
      loop's own `current_size`, how many entries it looked at, and its
      eviction counters. */
  datatype GcRun = GcRun(st: DiskState, cur: nat, processed: nat, evictedCount: nat, evictedBytes: nat)

  // One turn of the loop: `remove` the chunk, whose file cannot be deleted
  // when it is in `failing`; only `Ok(true)` counts as an eviction.

  function After(st: DiskState, c: ChunkId, failing: set<ChunkId>): DiskState {
    RemoveStep(st, c, c !in failing).0
  }

  function Hit(st: DiskState, c: ChunkId, failing: set<ChunkId>): bool {
    RemoveStep(st, c, c !in failing).1 == Ok(true)
  }

  /** `current_size.saturating_sub(entry.size)` after an eviction. */
  function CurAfter(cur: nat, hit: bool, size: nat): nat {
    if hit then SatSub(cur, size) else cur
  }

  /** The loop of `gc_to_target` over `entries`: stop once `cur <= target`,
      otherwise remove the next chunk and go on. */
  ghost function GcScan(st: DiskState, entries: seq<Entry>, cur: nat, target: nat, failing: set<ChunkId>): (r: GcRun)
    ensures r.processed <= |entries|
    decreases |entries|
  {
    if entries == [] || cur <= target then GcRun(st, cur, 0, 0, 0)
    else
      var c, size := entries[0].0, entries[0].1.size;
      var hit := Hit(st, c, failing);
      var rest := GcScan(After(st, c, failing), entries[1..], CurAfter(cur, hit, size), target, failing);
      GcRun(rest.st, rest.cur, rest.processed + 1,
            rest.evictedCount + (if hit then 1 else 0), rest.evictedBytes + (if hit then size else 0))
  }

  /** The chunks of a list of entries. */
  function KeysOf(entries: seq<Entry>): set<ChunkId> {
    set i | 0 <= i < |entries| :: entries[i].0
  }

  /** The scan stops as soon as `cur <= target`, and only then stops short
      of the end of the list. */
  lemma {:induction false} ScanStops(st: DiskState, entries: seq<Entry>, cur: nat, target: nat, failing: set<ChunkId>)
    ensures cur <= target ==> GcScan(st, entries, cur, target, failing) == GcRun(st, cur, 0, 0, 0)
    ensures var r := GcScan(st, entries, cur, target, failing);
      r.processed < |entries| ==> r.cur <= target
    ensures var r := GcScan(st, entries, cur, target, failing);
      r.processed > 0 ==> cur > target
    decreases |entries|
  {
    if entries != [] && cur > target {
      var c := entries[0].0;
      ScanStops(After(st, c, failing), entries[1..], CurAfter(cur, Hit(st, c, failing), entries[0].1.size), target, failing);
    }
  }

  /** The scan removes from the index exactly the chunks it looked at, a
      prefix of the list, and leaves every other entry as it was. */
  lemma {:induction false} ScanRemovesPrefix(st: DiskState, entries: seq<Entry>, cur: nat, target: nat,
                                             failing: set<ChunkId>)
    ensures var r := GcScan(st, entries, cur, target, failing);
      r.st.index == st.index - KeysOf(entries[..r.processed])
    decreases |entries|
  {
    if entries == [] || cur <= target {
      assert KeysOf(entries[..0]) == {};
    } else {
      var c := entries[0].0;
      var next, cur' := After(st, c, failing), CurAfter(cur, Hit(st, c, failing), entries[0].1.size);
      ScanRemovesPrefix(next, entries[1..], cur', target, failing);
      PrefixKeys(entries, GcScan(next, entries[1..], cur', target, failing).processed);
    }
  }

  lemma PrefixKeys(entries: seq<Entry>, n: nat)
    requires 0 < |entries| && n < |entries|
    ensures KeysOf(entries[..n + 1]) == {entries[0].0} + KeysOf(entries[1..][..n])
  {
    var a := entries[..n + 1];
    var b := entries[1..][..n];
    forall k | k in KeysOf(a) ensures k in {entries[0].0} + KeysOf(b) {
      var i :| 0 <= i < |a| && a[i].0 == k;
      if i > 0 {
        assert b[i - 1] == a[i];
      }
    }
    forall k | k in KeysOf(b) ensures k in KeysOf(a) {
      var i :| 0 <= i < |b| && b[i].0 == k;
      assert a[i + 1] == b[i];
    }
    assert a[0] == entries[0];
  }

  /** Every eviction lowers `cur` by that entry's size, saturating at 0, so
      the loop ends at the start size minus the evicted bytes. */
  lemma {:induction false} ScanTally(st: DiskState, entries: seq<Entry>, cur: nat, target: nat, failing: set<ChunkId>)
    ensures var r := GcScan(st, entries, cur, target, failing);
      r.cur == SatSub(cur, r.evictedBytes) && r.evictedCount <= r.processed
    decreases |entries|
  {
    if entries != [] && cur > target {
      var c := entries[0].0;
      ScanTally(After(st, c, failing), entries[1..], CurAfter(cur, Hit(st, c, failing), entries[0].1.size), target, failing);
    }
  }

  /** Every listed entry that is still indexed is the index's entry for its chunk. */
  predicate Agrees(entries: seq<Entry>, index: map<ChunkId, DiskCacheEntry>) {
    forall i :: 0 <= i < |entries| && entries[i].0 in index ==> entries[i].1 == index[entries[i].0]
  }

  lemma AgreesTail(entries: seq<Entry>, st: DiskState, c: ChunkId, failing: set<ChunkId>)
    requires Agrees(entries, st.index) && entries != []
    ensures Agrees(entries[1..], After(st, c, failing).index)
  {
    var t := entries[1..];
    forall i | 0 <= i < |t| && t[i].0 in After(st, c, failing).index
      ensures t[i].1 == After(st, c, failing).index[t[i].0]
    {
      assert t[i] == entries[i + 1];
    }
  }

  /** Started from the disk cache's own counter on a list of its entries,
      the loop's `cur` stays equal to the counter: a failed removal changes
      neither. */
  lemma {:induction false} ScanTracksTotal(st: DiskState, entries: seq<Entry>, target: nat, failing: set<ChunkId>)
    requires Agrees(entries, st.index)
    ensures GcScan(st, entries, st.totalBytes, target, failing).cur
         == GcScan(st, entries, st.totalBytes, target, failing).st.totalBytes
    decreases |entries|
  {
    if entries != [] && st.totalBytes > target {
      var c := entries[0].0;
      var next := After(st, c, failing);
      assert Hit(st, c, failing) ==> entries[0].1 == st.index[c];
      assert next.totalBytes == CurAfter(st.totalBytes, Hit(st, c, failing), entries[0].1.size);
      AgreesTail(entries, st, c, failing);
      ScanTracksTotal(next, entries[1..], target, failing);
    }
  }

  /** A scan never raises the disk cache's counter. */
  lemma {:induction false} ScanShrinks(st: DiskState, entries: seq<Entry>, cur: nat, target: nat, failing: set<ChunkId>)
    ensures GcScan(st, entries, cur, target, failing).st.totalBytes <= st.totalBytes
    decreases |entries|
  {
    if entries != [] && cur > target {
      var c := entries[0].0;
      ScanShrinks(After(st, c, failing), entries[1..], CurAfter(cur, Hit(st, c, failing), entries[0].1.size), target, failing);
    }
  }

  /** Oldest first: on a list sorted by access time that covers the index,
      every chunk the loop looked at was accessed no later than any chunk
      still indexed afterwards. */
  lemma ScanOldestFirst(st: DiskState, entries: seq<Entry>, cur: nat, target: nat, failing: set<ChunkId>)
    requires ListsByAge(entries, st.index)
    ensures var r := GcScan(st, entries, cur, target, failing);
      forall j, k :: 0 <= j < r.processed && k in r.st.index ==>
        entries[j].1.lastAccessed <= r.st.index[k].lastAccessed
  {
    var r := GcScan(st, entries, cur, target, failing);
    ScanRemovesPrefix(st, entries, cur, target, failing);
    forall j, k | 0 <= j < r.processed && k in r.st.index
      ensures entries[j].1.lastAccessed <= r.st.index[k].lastAccessed
    {
      var m :| 0 <= m < |entries| && entries[m] == (k, st.index[k]);
      assert k !in KeysOf(entries[..r.processed]);
      InPrefixKeys(entries, r.processed, m);
      assert AccessTime(entries[j]) <= AccessTime(entries[m]);
    }
  }

  /** A chunk listed before position `n` is among the first `n` keys. */
  lemma InPrefixKeys(entries: seq<Entry>, n: nat, m: nat)
    requires n <= |entries| && m < |entries|
    ensures m < n ==> entries[m].0 in KeysOf(entries[..n])
  {
    if m < n {
      assert entries[..n][m] == entries[m];
    }
  }

  /** The loop state after `i` entries, with the rest of the scan still to
      come, adds up to the whole scan. */
  ghost predicate Resumes(whole: GcRun, rest: GcRun, i: nat, count: nat, bytes: nat) {
    && rest.st == whole.st && rest.cur == whole.cur
    && i + rest.processed == whole.processed
    && count + rest.evictedCount == whole.evictedCount
    && bytes + rest.evictedBytes == whole.evictedBytes
  }

  /** One turn of the loop keeps Resumes. */
  lemma ResumesStep(run: GcRun, st: DiskState, entries: seq<Entry>, i: nat, cur: nat, target: nat,
                    failing: set<ChunkId>, count: nat, bytes: nat)
    requires i < |entries| && cur > target
    requires Resumes(run, GcScan(st, entries[i..], cur, target, failing), i, count, bytes)
    ensures var c, size := entries[i].0, entries[i].1.size;
      var hit := Hit(st, c, failing);
      Resumes(run, GcScan(After(st, c, failing), entries[i + 1..], CurAfter(cur, hit, size), target, failing),
              i + 1, count + (if hit then 1 else 0), bytes + (if hit then size else 0))
  {
    assert entries[i..][0] == entries[i] && entries[i..][1..] == entries[i + 1..];
  }

  class GarbageCollector {
    const disk: DiskCache
    const maxBytes: nat
    /** `max_bytes * high_watermark` and `max_bytes * low_watermark`, as integers. */
    const threshold: nat
    const target: nat

    /** `new`: the default budget; the watermark products are given. */
    constructor (disk: DiskCache, threshold: nat, target: nat)
      ensures this.disk == disk && maxBytes == MAX_CACHE_BYTES
      ensures this.threshold == threshold && this.target == target
    {
      this.disk := disk;
      maxBytes := MAX_CACHE_BYTES;
      this.threshold := threshold;
      this.target := target;
    }

    /** `with_config`. */
    constructor WithConfig(disk: DiskCache, maxBytes: nat, threshold: nat, target: nat)
      ensures this.disk == disk && this.maxBytes == maxBytes
      ensures this.threshold == threshold && this.target == target
    {
      this.disk := disk;
      this.maxBytes := maxBytes;
      this.threshold := threshold;
      this.target := target;
    }

    /** `gc_to_target`: `failing` are the chunks whose file cannot be
        deleted; `order` is the list the loop walked. */
    method GcToTarget(failing: set<ChunkId>) returns (ghost order: seq<Entry>, ghost run: GcRun)
      requires disk.Valid()
      modifies disk
      ensures disk.Valid()
      ensures ListsByAge(order, old(disk.index))
      ensures run == GcScan(old(disk.State()), order, old(disk.totalBytes), target, failing)
      ensures disk.State() == run.st
    {
      var cur: nat := disk.totalBytes;
      var entries := disk.EntriesByAccessTime();
      order := entries;
      run := GcScan(disk.State(), entries, cur, target, failing);
      var evictedCount: nat, evictedBytes: nat := 0, 0;
      var i: nat := 0;
      assert entries[0..] == entries;
      while i < |entries|
        invariant disk.Valid() && i <= |entries|
        invariant Resumes(run, GcScan(disk.State(), entries[i..], cur, target, failing), i, evictedCount, evictedBytes)
        decreases |entries| - i
      {
        if cur <= target {
          break;
        }
        var c, size := entries[i].0, entries[i].1.size;
        ghost var st := disk.State();
        ResumesStep(run, st, entries, i, cur, target, failing, evictedCount, evictedBytes);
        var r := disk.Remove(c, c !in failing);
        var hit := r == Ok(true);
        assert disk.State() == After(st, c, failing) && hit == Hit(st, c, failing);
        i := i + 1;
        evictedCount := evictedCount + (if hit then 1 else 0);
        evictedBytes := evictedBytes + (if hit then size else 0);
        cur := CurAfter(cur, hit, size);
      }
      if i < |entries| {
        ScanStops(disk.State(), entries[i..], cur, target, failing);
      } else {
        assert entries[i..] == [];
      }
    }

    /** `maybe_gc`: run the loop only above the high watermark. */
    method MaybeGc(failing: set<ChunkId>)
      requires disk.Valid()
      modifies disk
      ensures disk.Valid()
      ensures old(disk.totalBytes) <= threshold ==> disk.State() == old(disk.State())
      ensures old(disk.totalBytes) > threshold ==>
        exists order: seq<Entry> ::
          ListsByAge(order, old(disk.index))
          && disk.State() == GcScan(old(disk.State()), order, old(disk.totalBytes), target, failing).st
    {
      if disk.totalBytes > threshold {
        ghost var order, run := GcToTarget(failing);
      }
    }

    /** `force_gc`: the loop regardless of the watermark, reporting the
        bytes freed and the bytes left. */
    method ForceGc(failing: set<ChunkId>) returns (stats: GcStats)
      requires disk.Valid()
      modifies disk
      ensures disk.Valid()
      ensures stats == GcStats(SatSub(old(disk.totalBytes), disk.totalBytes), disk.totalBytes)
      ensures stats.bytesFreed + stats.bytesRemaining == old(disk.totalBytes)
    {
      var start := disk.totalBytes;
      ghost var st0 := disk.State();
      ghost var order, run := GcToTarget(failing);
      var end := disk.totalBytes;
      ScanShrinks(st0, order, start, target, failing);
      stats := GcStats(SatSub(start, end), end);
    }

    /** `stats` without the floating-point usage percentage. */
    method Stats() returns (s: CacheStats)
      ensures s == CacheStats(disk.totalBytes, maxBytes, |disk.index|)
    {
      s := CacheStats(disk.totalBytes, maxBytes, |disk.index|);
    }
  }
}
