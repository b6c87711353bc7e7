/** The content-addressed deduplication index of the daemon
    (crates/teleport-daemon/src/dedup_index.rs): a map from a chunk's
    content hash to where the chunk lies on disk, bounded by an LRU queue
    of hashes. */
module DedupIndex {
  import opened Ints
  import opened Wrappers
  import opened Collections

  /** A BLAKE3 digest. */
  type ContentHash = s: seq<u8> | |s| == 32 witness seq(32, _ => 0)

  datatype ChunkLocation = ChunkLocation(path: string, offset: u64, size: u32)

  type Index = map<ContentHash, ChunkLocation>

  const DEFAULT_MAX_ENTRIES: nat := 100000

  predicate NoDup<T(==)>(s: seq<T>) {
    forall i, j :: 0 <= i < j < |s| ==> s[i] != s[j]
  }

  /** `iter().position(|h| h == hash)`. */
  function FirstIndex<T(==)>(s: seq<T>, x: T): (i: nat)
    requires x in s
    ensures i < |s| && s[i] == x
    ensures forall j :: 0 <= j < i ==> s[j] != x
  {
    if s[0] == x then 0 else 1 + FirstIndex(s[1..], x)
  }

  /** `touch_lru`: drop the first occurrence of `h` and queue it at the
      back. */
  function TouchLru(s: seq<ContentHash>, h: ContentHash): (r: seq<ContentHash>)
    ensures |r| > 0 && r[|r| - 1] == h
    ensures h !in s ==> r == s + [h]
    ensures h in s ==> |r| == |s|
    ensures forall x :: x in r <==> x in s || x == h
  {
    if h in s then
      var i := FirstIndex(s, h);
      RemovedOthers(s, i);
      RemoveAt(s, i) + [h]
    else s + [h]
  }

  lemma RemovedOthers<T>(s: seq<T>, i: nat)
    requires i < |s|
    ensures forall x :: x in RemoveAt(s, i) ==> x in s
    ensures forall x :: x in s && x != s[i] ==> x in RemoveAt(s, i)
  {
    var r := RemoveAt(s, i);
    forall x | x in s && x != s[i]
      ensures x in r
    {
      var j :| 0 <= j < |s| && s[j] == x;
      if j < i { assert r[j] == x; } else { assert r[j - 1] == x; }
    }
  }

  /** `evict_lru`: pop the front of the queue and forget that hash. */
  function EvictStep(index: Index, lru: seq<ContentHash>): (r: (Index, seq<ContentHash>))
    ensures lru == [] ==> r == (index, lru)
    ensures lru != [] ==> r.1 == lru[1..] && r.0.Keys == index.Keys - {lru[0]}
    ensures forall k :: k in r.0 ==> k in index && r.0[k] == index[k]
  {
    if lru == [] then (index, lru) else (index - {lru[0]}, lru[1..])
  }

  /** `insert` as the source writes it: at capacity evict the front of the
      queue, then store the location and queue the hash, even when the
      hash is already present. */
  function InsertAsWritten(index: Index, lru: seq<ContentHash>, maxEntries: nat, h: ContentHash, loc: ChunkLocation): (r: (Index, seq<ContentHash>))
    ensures h in r.0 && r.0[h] == loc
    ensures |r.1| > 0 && r.1[|r.1| - 1] == h
  {
    var e := if |index| >= maxEntries then EvictStep(index, lru) else (index, lru);
    (e.0[h := loc], e.1 + [h])
  }

  /** `insert` as intended: a hash already present has its location
      replaced and is moved to the back of the queue, so the queue never
      holds a hash twice; a new hash evicts the front at capacity. */
  function InsertStep(index: Index, lru: seq<ContentHash>, maxEntries: nat, h: ContentHash, loc: ChunkLocation): (r: (Index, seq<ContentHash>))
    ensures h in r.0 && r.0[h] == loc
    ensures |r.1| > 0 && r.1[|r.1| - 1] == h
    ensures forall k :: k in r.0 && k != h ==> k in index && r.0[k] == index[k]
  {
    if h in index then (index[h := loc], TouchLru(lru, h))
    else InsertAsWritten(index, lru, maxEntries, h, loc)
  }

  /** Whether this insert evicts (and counts an eviction). */
  predicate InsertEvicts(index: Index, lru: seq<ContentHash>, maxEntries: nat, h: ContentHash) {
    h !in index && |index| >= maxEntries && lru != []
  }

  /** The queue lists each indexed hash exactly once and nothing else. */
  predicate Exact(index: Index, lru: seq<ContentHash>) {
    NoDup(lru) && (forall k :: k in lru ==> k in index) && (forall k :: k in index ==> k in lru)
  }

  lemma {:induction false} NoDupCard<T>(s: seq<T>)
    requires NoDup(s)
    ensures |set x | x in s| == |s|
  {
    if s != [] {
      NoDupCard(s[1..]);
      assert (set x | x in s) == (set x | x in s[1..]) + {s[0]};
      assert s[0] !in s[1..];
    }
  }

  /** Under `Exact`, the queue is as long as the index is large. */
  lemma ExactSize(index: Index, lru: seq<ContentHash>)
    requires Exact(index, lru)
    ensures |index| == |lru|
  {
    NoDupCard(lru);
    assert index.Keys == set x | x in lru;
  }

  lemma TouchKeepsNoDup(s: seq<ContentHash>, h: ContentHash)
    requires NoDup(s) && h in s
    ensures NoDup(TouchLru(s, h))
  {
    var i := FirstIndex(s, h);
    var t := RemoveAt(s, i);
    assert NoDup(t);
    assert h !in t;
  }

  /** A lookup hit keeps the queue exact. */
  lemma TouchKeepsExact(index: Index, lru: seq<ContentHash>, h: ContentHash)
    requires Exact(index, lru) && h in index
    ensures Exact(index, TouchLru(lru, h))
  {
    TouchKeepsNoDup(lru, h);
  }

  lemma EvictKeepsExact(index: Index, lru: seq<ContentHash>)
    requires Exact(index, lru)
    ensures Exact(EvictStep(index, lru).0, EvictStep(index, lru).1)
  {
    if lru != [] {
      assert forall k :: k in lru[1..] ==> k != lru[0];
    }
  }

  lemma AppendKeepsNoDup(s: seq<ContentHash>, h: ContentHash)
    requires NoDup(s) && h !in s
    ensures NoDup(s + [h])
  {
  }

  /** The intended insert keeps the queue exact. */
  lemma InsertKeepsExact(index: Index, lru: seq<ContentHash>, maxEntries: nat, h: ContentHash, loc: ChunkLocation)
    requires Exact(index, lru)
    ensures Exact(InsertStep(index, lru, maxEntries, h, loc).0, InsertStep(index, lru, maxEntries, h, loc).1)
  {
    if h in index {
      TouchKeepsExact(index, lru, h);
    } else {
      var e := if |index| >= maxEntries then EvictStep(index, lru) else (index, lru);
      EvictKeepsExact(index, lru);
      AppendKeepsNoDup(e.1, h);
    }
  }

  /** With an exact queue, the index never holds more than `max_entries`
      hashes (or one, for a zero capacity). */
  lemma InsertBounded(index: Index, lru: seq<ContentHash>, maxEntries: nat, h: ContentHash, loc: ChunkLocation)
    requires Exact(index, lru) && |index| <= Max(maxEntries, 1)
    ensures |InsertStep(index, lru, maxEntries, h, loc).0| <= Max(maxEntries, 1)
  {
    ExactSize(index, lru);
    if h !in index && |index| >= maxEntries && lru != [] {
      assert lru[0] in index;
      var e := EvictStep(index, lru);
      assert |e.0.Keys| == |index.Keys| - 1;
    }
  }

  /** An insert adds at most one entry, whatever the queue holds. */
  lemma InsertGrowsByOne(index: Index, lru: seq<ContentHash>, maxEntries: nat, h: ContentHash, loc: ChunkLocation)
    ensures |InsertStep(index, lru, maxEntries, h, loc).0| <= |index| + 1
  {
    if h !in index {
      var e := if |index| >= maxEntries then EvictStep(index, lru) else (index, lru);
      SubsetCard(e.0.Keys, index.Keys);
    }
  }

  /** At capacity a new hash evicts exactly the front of the queue. */
  lemma InsertAtCapacity(index: Index, lru: seq<ContentHash>, maxEntries: nat, h: ContentHash, loc: ChunkLocation)
    requires h !in index && |index| >= maxEntries && lru != []
    ensures var r := InsertStep(index, lru, maxEntries, h, loc);
      r.0.Keys == index.Keys - {lru[0]} + {h} && r.1 == lru[1..] + [h]
  {
  }

  /** Below capacity nothing is evicted. */
  lemma InsertBelowCapacity(index: Index, lru: seq<ContentHash>, maxEntries: nat, h: ContentHash, loc: ChunkLocation)
    requires |index| < maxEntries
    ensures InsertStep(index, lru, maxEntries, h, loc).0 == index[h := loc]
  {
  }

  /** As written, inserting one hash twice leaves it twice in the queue;
      after that, an eviction can pop a hash the index no longer holds and
      the index outgrows its capacity: with room for two, inserting
      `a, a, b, c, d` leaves three entries. */
  lemma AsWrittenOverflows(a: ContentHash, b: ContentHash, c: ContentHash, d: ContentHash, loc: ChunkLocation)
    requires a != b && a != c && a != d && b != c && b != d && c != d
    ensures var s1 := InsertAsWritten(map[], [], 2, a, loc);
      var s2 := InsertAsWritten(s1.0, s1.1, 2, a, loc);
      var s3 := InsertAsWritten(s2.0, s2.1, 2, b, loc);
      var s4 := InsertAsWritten(s3.0, s3.1, 2, c, loc);
      var s5 := InsertAsWritten(s4.0, s4.1, 2, d, loc);
      |s5.0| == 3
  {
    var s1 := InsertAsWritten(map[], [], 2, a, loc);
    assert s1.0 == map[a := loc] && s1.1 == [a];
    var s2 := InsertAsWritten(s1.0, s1.1, 2, a, loc);
    assert s2.0 == map[a := loc] && s2.1 == [a, a];
    var s3 := InsertAsWritten(s2.0, s2.1, 2, b, loc);
    assert s3.0 == map[a := loc, b := loc] && s3.1 == [a, a, b];
    AsWrittenPopsLive(s3.0, s3.1, b, c, loc);
    var s4 := InsertAsWritten(s3.0, s3.1, 2, c, loc);
    AsWrittenPopsStale(s4.0, s4.1, b, c, d, loc);
  }

  /** From `{a, b}` queued `a, a, b`, inserting `c` evicts `a` once. */
  lemma AsWrittenPopsLive(index: Index, lru: seq<ContentHash>, b: ContentHash, c: ContentHash, loc: ChunkLocation)
    requires |lru| == 3 && lru[0] == lru[1] && lru[2] == b && lru[0] != b && lru[0] != c && b != c
    requires index == map[lru[0] := loc, b := loc]
    ensures InsertAsWritten(index, lru, 2, c, loc).0 == map[b := loc, c := loc]
    ensures InsertAsWritten(index, lru, 2, c, loc).1 == [lru[0], b, c]
  {
    assert |index| == 2;
    assert index - {lru[0]} == map[b := loc];
  }

  /** From `{b, c}` queued with a stale hash in front, inserting `d` pops
      the stale hash, removes nothing and grows the index to three. */
  lemma AsWrittenPopsStale(index: Index, lru: seq<ContentHash>, b: ContentHash, c: ContentHash, d: ContentHash, loc: ChunkLocation)
    requires index == map[b := loc, c := loc] && |lru| > 0 && lru[0] !in index
    requires b != c && b != d && c != d
    ensures |InsertAsWritten(index, lru, 2, d, loc).0| == 3
  {
    assert |index| == 2;
    assert index - {lru[0]} == index;
    assert index[d := loc].Keys == {b, c, d};
  }

  /** `find_missing` over an index: the hashes it does not hold, in input
      order. */
  function Missing(index: Index, hashes: seq<ContentHash>): (r: seq<ContentHash>)
    ensures forall i :: 0 <= i < |r| ==> r[i] in hashes && r[i] !in index
    ensures forall h :: h in hashes && h !in index ==> h in r
    ensures forall h :: h in hashes && h in index ==> h !in r
  {
    Filter((h: ContentHash) => h !in index, hashes)
  }

  /** `find_missing` preserves input order: it distributes over
      concatenation. */
  lemma MissingAppend(index: Index, a: seq<ContentHash>, b: seq<ContentHash>)
    ensures Missing(index, a + b) == Missing(index, a) + Missing(index, b)
  {
    FilterAppend((h: ContentHash) => h !in index, a, b);
  }

  datatype DedupStatsSnapshot = DedupStatsSnapshot(
    hits: nat, misses: nat, insertions: nat, evictions: nat, bytesSaved: nat,
    currentEntries: nat, maxEntries: nat)

  class DedupIndex {
    var index: Index
    var lruOrder: seq<ContentHash>
    const maxEntries: nat
    var hits: nat
    var misses: nat
    var insertions: nat
    var evictions: nat
    var bytesSaved: nat

    ghost predicate Valid()
      reads this
    {
      Exact(index, lruOrder) && |index| <= Max(maxEntries, 1)
    }

    /** `new`. */
    constructor (maxEntries: nat)
      ensures this.maxEntries == maxEntries && index == map[] && lruOrder == []
      ensures hits == 0 && misses == 0 && insertions == 0 && evictions == 0 && bytesSaved == 0
      ensures Valid()
    {
      this.maxEntries := maxEntries;
      index, lruOrder := map[], [];
      hits, misses, insertions, evictions, bytesSaved := 0, 0, 0, 0, 0;
    }

    /** `lookup`: a hit counts, returns the location and marks the hash
        most recently used; a miss only counts. */
    method Lookup(h: ContentHash) returns (r: Option<ChunkLocation>)
      requires Valid()
      modifies this
      ensures Valid()
      ensures index == old(index)
      ensures insertions == old(insertions) && evictions == old(evictions) && bytesSaved == old(bytesSaved)
      ensures h in old(index) ==>
        r == Some(old(index)[h]) && lruOrder == TouchLru(old(lruOrder), h) && hits == old(hits) + 1 && misses == old(misses)
      ensures h !in old(index) ==>
        r == None && lruOrder == old(lruOrder) && hits == old(hits) && misses == old(misses) + 1
    {
      if h in index {
        hits := hits + 1;
        TouchKeepsExact(index, lruOrder, h);
        lruOrder := TouchLru(lruOrder, h);
        r := Some(index[h]);
      } else {
        misses := misses + 1;
        r := None;
      }
    }

    /** `contains`: reads the index only, so neither the queue nor the
        counters change. */
    predicate Contains(h: ContentHash)
      reads this
    {
      h in index
    }

    /** `evict_lru`. */
    method EvictLru()
      requires Valid()
      modifies this
      ensures Valid()
      ensures (index, lruOrder) == EvictStep(old(index), old(lruOrder))
      ensures evictions == old(evictions) + (if old(lruOrder) != [] then 1 else 0)
      ensures hits == old(hits) && misses == old(misses) && insertions == old(insertions) && bytesSaved == old(bytesSaved)
    {
      EvictKeepsExact(index, lruOrder);
      if lruOrder != [] {
        var h := lruOrder[0];
        lruOrder := lruOrder[1..];
        index := index - {h};
        evictions := evictions + 1;
      }
    }

    /** `insert`, with the re-insert handled as intended (see
        `InsertStep`). */
    method Insert(h: ContentHash, path: string, offset: u64, size: u32)
      requires Valid()
      modifies this
      ensures Valid()
      ensures (index, lruOrder) == InsertStep(old(index), old(lruOrder), maxEntries, h, ChunkLocation(path, offset, size))
      ensures Contains(h) && index[h] == ChunkLocation(path, offset, size)
      ensures insertions == old(insertions) + 1
      ensures evictions == old(evictions) + (if InsertEvicts(old(index), old(lruOrder), maxEntries, h) then 1 else 0)
      ensures hits == old(hits) && misses == old(misses) && bytesSaved == old(bytesSaved)
    {
      var loc := ChunkLocation(path, offset, size);
      InsertKeepsExact(index, lruOrder, maxEntries, h, loc);
      InsertBounded(index, lruOrder, maxEntries, h, loc);
      if h in index {
        TouchKeepsExact(index, lruOrder, h);
        index := index[h := loc];
        lruOrder := TouchLru(lruOrder, h);
      } else {
        if |index| >= maxEntries {
          EvictLru();
        }
        index := index[h := loc];
        lruOrder := lruOrder + [h];
      }
      insertions := insertions + 1;
    }

    /** `record_bytes_saved`. */
    method RecordBytesSaved(bytes: nat)
      modifies this
      ensures bytesSaved == old(bytesSaved) + bytes
      ensures index == old(index) && lruOrder == old(lruOrder)
      ensures hits == old(hits) && misses == old(misses) && insertions == old(insertions) && evictions == old(evictions)
    {
      bytesSaved := bytesSaved + bytes;
    }

    function Len(): nat
      reads this
    {
      |index|
    }

    predicate IsEmpty()
      reads this
    {
      |index| == 0
    }

    /** `clear`: empties the index and the queue; the counters stay. */
    method Clear()
      modifies this
      ensures Valid() && IsEmpty() && lruOrder == []
      ensures hits == old(hits) && misses == old(misses) && insertions == old(insertions)
      ensures evictions == old(evictions) && bytesSaved == old(bytesSaved)
    {
      index := map[];
      lruOrder := [];
    }

    /** `find_missing`. */
    function FindMissing(hashes: seq<ContentHash>): (r: seq<ContentHash>)
      reads this
      ensures forall h :: h in r <==> h in hashes && !Contains(h)
    {
      Missing(index, hashes)
    }

    /** `stats`: the counters and the entry count, which stays within the
        capacity. */
    method Stats() returns (r: DedupStatsSnapshot)
      requires Valid()
      ensures r == DedupStatsSnapshot(hits, misses, insertions, evictions, bytesSaved, |index|, maxEntries)
      ensures r.currentEntries <= Max(r.maxEntries, 1)
    {
      r := DedupStatsSnapshot(hits, misses, insertions, evictions, bytesSaved, |index|, maxEntries);
    }
  }
}
