/** The daemon's in-memory caches (crates/teleport-daemon/src/cache.rs):
    the TTL caches for attributes and directory listings, and the RAM chunk
    cache, an LRU cache bounded both in entries and in bytes. Clock readings
    are parameters (`now`, in whole time units). */
module Cache {
  import opened Ints
  import opened Wrappers
  import opened Types
  import opened Lru
  import opened Collections

  const DEFAULT_CHUNK_CACHE_ENTRIES: nat := 4000
  const DEFAULT_CHUNK_TTL_SECS: nat := 300

  /** An entry with its expiry instant; it is expired strictly after it. */
  datatype CacheEntry<T> = CacheEntry(data: T, expiresAt: nat) {
    predicate IsExpired(now: nat) {
      now > expiresAt
    }
  }

  type TtlMap<T> = map<Inode, CacheEntry<T>>

  /** `get`: the cached value unless it has expired. */
  function Lookup<T>(m: TtlMap<T>, key: Inode, now: nat): Option<T> {
    if key in m && !m[key].IsExpired(now) then Some(m[key].data) else None
  }

  /** `retain(|_, v| !v.is_expired())`. */
  function Unexpired<T>(m: TtlMap<T>, now: nat): (r: TtlMap<T>)
    ensures r.Keys <= m.Keys && |r| <= |m|
    ensures forall k :: k in r ==> r[k] == m[k] && !m[k].IsExpired(now)
    ensures forall k :: k in m && !m[k].IsExpired(now) ==> k in r
  {
    var r := map k | k in m && !m[k].IsExpired(now) :: m[k];
    assert |r.Keys| <= |m.Keys| by { SubsetCard(r.Keys, m.Keys); }
    r
  }

  /** The map `insert` leaves: at capacity it first drops the expired
      entries and, if still full, the entry `victim` (the first key the
      hash map yields, which the model leaves open); then it stores the new
      value with a fresh expiry. */
  function Admit<T>(m: TtlMap<T>, key: Inode, value: T, now: nat, ttl: nat, maxEntries: nat, victim: Inode): TtlMap<T>
  {
    var m1 := if |m| >= maxEntries then Unexpired(m, now) else m;
    var m2 := if |m1| >= maxEntries then m1 - {victim} else m1;
    m2[key := CacheEntry(value, now + ttl)]
  }

  /** A victim the second eviction step may pick: any key still present. */
  predicate IsVictim<T>(m: TtlMap<T>, now: nat, maxEntries: nat, victim: Inode) {
    var m1 := if |m| >= maxEntries then Unexpired(m, now) else m;
    |m1| >= maxEntries && |m1| > 0 ==> victim in m1
  }

  /** `insert` keeps at most `max(max_entries, 1)` entries, the new value is
      visible exactly until its expiry, and every other surviving entry is
      an unchanged entry of before (and unexpired, if eviction ran). */
  lemma AdmitMeaning<T>(m: TtlMap<T>, key: Inode, value: T, now: nat, ttl: nat, maxEntries: nat, victim: Inode, later: nat)
    requires |m| <= Max(maxEntries, 1)
    requires IsVictim(m, now, maxEntries, victim)
    ensures |Admit(m, key, value, now, ttl, maxEntries, victim)| <= Max(maxEntries, 1)
    ensures Lookup(Admit(m, key, value, now, ttl, maxEntries, victim), key, later) == (if later <= now + ttl then Some(value) else None)
    ensures forall k :: k in Admit(m, key, value, now, ttl, maxEntries, victim) && k != key ==>
              k in m && Admit(m, key, value, now, ttl, maxEntries, victim)[k] == m[k]
              && (|m| >= maxEntries ==> !m[k].IsExpired(now))
    ensures |m| < maxEntries ==> Admit(m, key, value, now, ttl, maxEntries, victim) == m[key := CacheEntry(value, now + ttl)]
  {
    var m1 := if |m| >= maxEntries then Unexpired(m, now) else m;
    var m2 := if |m1| >= maxEntries then m1 - {victim} else m1;
    if |m1| >= maxEntries && |m1| > 0 {
      assert m2.Keys == m1.Keys - {victim};
      assert |m2| == |m1| - 1;
    }
    assert |m2| <= Max(maxEntries, 1) - 1 || |m2| < maxEntries;
  }

  /** `AttrCache` and `DirCache`, which share their code: a hash map with a
      time to live and an entry budget. */
  class TtlCache<T> {
    var entries: TtlMap<T>
    const ttl: nat
    const maxEntries: nat

    ghost predicate Valid()
      reads this
    {
      |entries| <= Max(maxEntries, 1)
    }

    constructor (ttl: nat, maxEntries: nat)
      ensures Valid() && entries == map[]
      ensures this.ttl == ttl && this.maxEntries == maxEntries
    {
      this.ttl := ttl;
      this.maxEntries := maxEntries;
      entries := map[];
    }

    function Get(key: Inode, now: nat): Option<T>
      reads this
    {
      Lookup(entries, key, now)
    }

    method Insert(key: Inode, value: T, now: nat)
      requires Valid()
      modifies this
      ensures Valid()
      ensures exists victim :: IsVictim(old(entries), now, maxEntries, victim)
                && entries == Admit(old(entries), key, value, now, ttl, maxEntries, victim)
    {
      ghost var m := entries;
      if |entries| >= maxEntries {
        entries := Unexpired(entries, now);
      }
      ghost var m1 := entries;
      var victim := key;
      if |entries| >= maxEntries && |entries| > 0 {
        victim :| victim in entries;
        entries := entries - {victim};
      } else if |entries| >= maxEntries {
        assert entries == entries - {victim};
      }
      assert IsVictim(m, now, maxEntries, victim);
      entries := entries[key := CacheEntry(value, now + ttl)];
      assert entries == Admit(m, key, value, now, ttl, maxEntries, victim);
      AdmitMeaning(m, key, value, now, ttl, maxEntries, victim, now);
    }

    method Invalidate(key: Inode)
      requires Valid()
      modifies this
      ensures Valid() && entries == old(entries) - {key}
    {
      entries := entries - {key};
    }

    method InvalidateAll()
      modifies this
      ensures Valid() && entries == map[]
    {
      entries := map[];
    }
  }

  // ---------------------------------------------------------------- chunks

  type Chunks = Entries<ChunkId, seq<u8>>

  /** The bytes actually held by the resident chunks. */
  function ResidentBytes(s: Chunks): nat {
    if |s| == 0 then 0 else |s[0].1| + ResidentBytes(s[1..])
  }

  lemma {:induction false} ResidentAppend(a: Chunks, b: Chunks)
    ensures ResidentBytes(a + b) == ResidentBytes(a) + ResidentBytes(b)
    decreases |a|
  {
    if |a| > 0 {
      assert (a + b)[0] == a[0];
      assert (a + b)[1..] == a[1..] + b;
      ResidentAppend(a[1..], b);
    } else {
      assert a + b == b;
    }
  }

  /** Popping a chunk frees exactly its bytes. */
  lemma ResidentRemove(s: Chunks, k: ChunkId)
    ensures Contains(s, k) ==> ResidentBytes(Remove(s, k)) + |Peek(s, k).value| == ResidentBytes(s)
    ensures !Contains(s, k) ==> ResidentBytes(Remove(s, k)) == ResidentBytes(s)
  {
    match IndexOf(s, k)
    case Some(i) =>
      assert s == s[..i] + ([s[i]] + s[i + 1..]);
      ResidentAppend(s[..i], [s[i]] + s[i + 1..]);
      ResidentAppend([s[i]], s[i + 1..]);
      ResidentAppend(s[..i], s[i + 1..]);
    case None =>
  }

  /** Evicting from the least recently used end while the new chunk does
      not fit (the `while` loop of `insert_arc`). */
  function Evict(s: Chunks, cb: nat, len: nat, maxBytes: nat): (r: (Chunks, nat))
    ensures r.1 <= cb && |r.0| <= |s|
    ensures r.1 + len <= maxBytes || r.0 == []
    ensures r.0 == s[|s| - |r.0|..]
    decreases |s|
  {
    if cb + len > maxBytes && |s| > 0 then
      var r := Evict(s[1..], SatSub(cb, |s[0].1|), len, maxBytes);
      assert s[1..][|s| - 1 - |r.0|..] == s[|s| - |r.0|..];
      r
    else (s, cb)
  }

  lemma {:induction false} EvictAccounting(s: Chunks, cb: nat, len: nat, maxBytes: nat)
    ensures ResidentBytes(s) <= cb ==> ResidentBytes(Evict(s, cb, len, maxBytes).0) <= Evict(s, cb, len, maxBytes).1
    ensures ResidentBytes(s) == cb ==> ResidentBytes(Evict(s, cb, len, maxBytes).0) == Evict(s, cb, len, maxBytes).1
    decreases |s|
  {
    if cb + len > maxBytes && |s| > 0 {
      EvictAccounting(s[1..], SatSub(cb, |s[0].1|), len, maxBytes);
    }
  }

  lemma SuffixUnique(s: Chunks, j: nat)
    requires UniqueKeys(s) && j <= |s|
    ensures UniqueKeys(s[j..])
  {
    forall a, b | 0 <= a < b < |s[j..]| ensures s[j..][a].0 != s[j..][b].0 {
      assert s[j..][a] == s[j + a] && s[j..][b] == s[j + b];
    }
  }

  /** `pop(&chunk_id)` with the counter decremented (saturating). */
  function Unlink(s: Chunks, cb: nat, id: ChunkId): (r: (Chunks, nat))
    ensures r.0 == Remove(s, id) && r.1 <= cb
  {
    match IndexOf(s, id)
    case Some(i) => (Remove(s, id), SatSub(cb, |s[i].1|))
    case None => (s, cb)
  }

  lemma UnlinkAccounting(s: Chunks, cb: nat, id: ChunkId)
    ensures ResidentBytes(s) <= cb ==> ResidentBytes(Unlink(s, cb, id).0) <= Unlink(s, cb, id).1
    ensures ResidentBytes(s) == cb ==> ResidentBytes(Unlink(s, cb, id).0) == Unlink(s, cb, id).1
  {
    ResidentRemove(s, id);
  }

  /** The first two steps of `insert_arc`: evict for room, then pop any
      older copy of the chunk. */
  function Prepare(s: Chunks, cb: nat, len: nat, maxBytes: nat, id: ChunkId): (r: (Chunks, nat))
    ensures r.1 <= cb && |r.0| <= |s|
    ensures UniqueKeys(s) ==> UniqueKeys(r.0) && !Contains(r.0, id)
  {
    var e := Evict(s, cb, len, maxBytes);
    assert UniqueKeys(s) ==> UniqueKeys(e.0) by {
      if UniqueKeys(s) {
        SuffixUnique(s, |s| - |e.0|);
      }
    }
    Unlink(e.0, e.1, id)
  }

  lemma PrepareMeaning(s: Chunks, cb: nat, len: nat, maxBytes: nat, id: ChunkId)
    ensures var r := Prepare(s, cb, len, maxBytes, id);
      && (r.1 + len <= maxBytes || r.0 == [])
      && (ResidentBytes(s) <= cb ==> ResidentBytes(r.0) <= r.1)
      && (ResidentBytes(s) == cb ==> ResidentBytes(r.0) == r.1)
      && (forall x :: x in r.0 ==> x in s)
  {
    var e := Evict(s, cb, len, maxBytes);
    EvictAccounting(s, cb, len, maxBytes);
    UnlinkAccounting(e.0, e.1, id);
    var r := Unlink(e.0, e.1, id);
    forall x | x in r.0 ensures x in s {
      assert x in e.0;
      var j :| 0 <= j < |e.0| && e.0[j] == x;
      assert e.0[j] == s[|s| - |e.0| + j];
    }
  }

  /** The bytes of the entry that `put` of a new key pushes out. */
  function Dropped(s: Chunks, cap: nat): nat {
    if |s| == cap && |s| > 0 then |s[0].1| else 0
  }

  lemma PutResident(s: Chunks, cap: nat, id: ChunkId, data: seq<u8>)
    requires UniqueKeys(s) && 0 < cap && |s| <= cap && !Contains(s, id)
    ensures Dropped(s, cap) <= ResidentBytes(s)
    ensures ResidentBytes(Put(s, id, data, cap)) == ResidentBytes(s) - Dropped(s, cap) + |data|
    ensures forall i :: 0 <= i < |Put(s, id, data, cap)| - 1 ==> Put(s, id, data, cap)[i] in s
  {
    var r := Put(s, id, data, cap);
    if |s| == cap {
      assert r == s[1..] + [(id, data)];
      assert s == [s[0]] + s[1..];
      ResidentAppend([s[0]], s[1..]);
      ResidentAppend(s[1..], [(id, data)]);
      forall i | 0 <= i < |r| - 1 ensures r[i] in s {
        assert r[i] == s[i + 1];
      }
    } else {
      ResidentAppend(s, [(id, data)]);
      forall i | 0 <= i < |r| - 1 ensures r[i] in s {
        assert r[i] == s[i];
      }
    }
  }

  /** `insert_arc` as written: the final `put` may push out the least
      recently used entry when the cache holds `cap` entries, and the
      counter is not told. */
  function InsertAsWritten(s: Chunks, cb: nat, maxBytes: nat, cap: nat, id: ChunkId, data: seq<u8>): (Chunks, nat)
    requires UniqueKeys(s) && 0 < cap && |s| <= cap
  {
    var p := Prepare(s, cb, |data|, maxBytes, id);
    if p.1 + |data| <= maxBytes then (Put(p.0, id, data, cap), p.1 + |data|) else p
  }

  /** `insert_arc` with the entry that `put` pushes out subtracted too. */
  function InsertChunk(s: Chunks, cb: nat, maxBytes: nat, cap: nat, id: ChunkId, data: seq<u8>): (Chunks, nat)
    requires UniqueKeys(s) && 0 < cap && |s| <= cap
  {
    var p := Prepare(s, cb, |data|, maxBytes, id);
    if p.1 + |data| <= maxBytes then
      var d := Dropped(p.0, cap);
      (Put(p.0, id, data, cap), SatSub(p.1, d) + |data|)
    else p
  }

  lemma InsertChunkAdmits(s: Chunks, cb: nat, maxBytes: nat, cap: nat, id: ChunkId, data: seq<u8>)
    requires UniqueKeys(s) && 0 < cap && |s| <= cap
    requires Prepare(s, cb, |data|, maxBytes, id).1 + |data| <= maxBytes
    ensures var p := Prepare(s, cb, |data|, maxBytes, id);
      InsertChunk(s, cb, maxBytes, cap, id, data).0 == Put(p.0, id, data, cap)
      && InsertChunk(s, cb, maxBytes, cap, id, data).1 == SatSub(p.1, Dropped(p.0, cap)) + |data|
  {
  }

  lemma InsertChunkRefuses(s: Chunks, cb: nat, maxBytes: nat, cap: nat, id: ChunkId, data: seq<u8>)
    requires UniqueKeys(s) && 0 < cap && |s| <= cap
    requires Prepare(s, cb, |data|, maxBytes, id).1 + |data| > maxBytes
    ensures InsertChunk(s, cb, maxBytes, cap, id, data) == Prepare(s, cb, |data|, maxBytes, id)
  {
  }

  /** As written, `insert_arc` keeps the counter within the byte budget
      and above the bytes actually resident, never admits a chunk larger
      than the budget, and keeps the entry bound. */
  lemma AsWrittenBounds(s: Chunks, cb: nat, maxBytes: nat, cap: nat, id: ChunkId, data: seq<u8>)
    requires UniqueKeys(s) && 0 < cap && |s| <= cap
    requires cb <= maxBytes && ResidentBytes(s) <= cb
    ensures var r := InsertAsWritten(s, cb, maxBytes, cap, id, data);
      && UniqueKeys(r.0) && |r.0| <= cap && r.1 <= maxBytes && ResidentBytes(r.0) <= r.1
      && (|data| > maxBytes ==> !Contains(r.0, id))
  {
    var p := Prepare(s, cb, |data|, maxBytes, id);
    PrepareMeaning(s, cb, |data|, maxBytes, id);
    if p.1 + |data| <= maxBytes {
      PutResident(p.0, cap, id, data);
    }
  }

  const DRIFT_BUDGET: nat := 1024
  const HALF: seq<u8> := seq(512, _ => 0)
  const FULL: seq<u8> := seq(1024, _ => 0)

  lemma DriftFirst()
    ensures InsertAsWritten([], 0, DRIFT_BUDGET, 1, ChunkId(1, 0), HALF) == ([(ChunkId(1, 0), HALF)], 512)
  {
    assert Prepare([], 0, 512, DRIFT_BUDGET, ChunkId(1, 0)) == ([], 0);
    assert Put([], ChunkId(1, 0), HALF, 1) == [(ChunkId(1, 0), HALF)];
  }

  lemma SingletonLacks(x: (ChunkId, seq<u8>), k: ChunkId)
    requires x.0 != k
    ensures IndexOf([x], k) == None
  {
    assert [x][..0] == [];
  }

  lemma DriftSecondPrepare()
    ensures Prepare([(ChunkId(1, 0), HALF)], 512, 512, DRIFT_BUDGET, ChunkId(2, 0)) == ([(ChunkId(1, 0), HALF)], 512)
  {
    SingletonLacks((ChunkId(1, 0), HALF), ChunkId(2, 0));
  }

  lemma DriftSecondPut()
    ensures Put([(ChunkId(1, 0), HALF)], ChunkId(2, 0), HALF, 1) == [(ChunkId(2, 0), HALF)]
  {
    SingletonLacks((ChunkId(1, 0), HALF), ChunkId(2, 0));
    assert [(ChunkId(1, 0), HALF)][1..] == [];
  }

  lemma DriftSecond()
    ensures InsertAsWritten([(ChunkId(1, 0), HALF)], 512, DRIFT_BUDGET, 1, ChunkId(2, 0), HALF)
              == ([(ChunkId(2, 0), HALF)], 1024)
  {
    DriftSecondPrepare();
    DriftSecondPut();
  }

  lemma DriftThird()
    ensures ResidentBytes([(ChunkId(2, 0), HALF)]) == 512
    ensures InsertAsWritten([(ChunkId(2, 0), HALF)], 1024, DRIFT_BUDGET, 1, ChunkId(3, 0), FULL) == ([], 512)
  {
    var s2: Chunks := [(ChunkId(2, 0), HALF)];
    assert s2[1..] == [];
    assert Evict(s2, 1024, 1024, DRIFT_BUDGET) == ([], 512);
    assert Prepare(s2, 1024, 1024, DRIFT_BUDGET, ChunkId(3, 0)) == ([], 512);
  }

  /** With a 1024-byte budget (one entry), two 512-byte chunks leave the
      counter at 1024 while only 512 bytes are resident; a chunk of the
      full budget is then refused although it would fit the cache, which
      is left empty with the counter at 512. */
  lemma AsWrittenDrift()
    ensures var r1 := InsertAsWritten([], 0, DRIFT_BUDGET, 1, ChunkId(1, 0), HALF);
      var r2 := InsertAsWritten(r1.0, r1.1, DRIFT_BUDGET, 1, ChunkId(2, 0), HALF);
      && r2 == ([(ChunkId(2, 0), HALF)], 1024)
      && ResidentBytes(r2.0) == 512
      && InsertAsWritten(r2.0, r2.1, DRIFT_BUDGET, 1, ChunkId(3, 0), FULL) == ([], 512)
  {
    DriftFirst();
    DriftSecond();
    DriftThird();
  }

  lemma CorrectedSecond()
    ensures InsertChunk([(ChunkId(1, 0), HALF)], 512, DRIFT_BUDGET, 1, ChunkId(2, 0), HALF)
              == ([(ChunkId(2, 0), HALF)], 512)
  {
    DriftSecondPrepare();
    DriftSecondPut();
  }

  lemma CorrectedThird()
    ensures InsertChunk([(ChunkId(2, 0), HALF)], 512, DRIFT_BUDGET, 1, ChunkId(3, 0), FULL)
              == ([(ChunkId(3, 0), FULL)], 1024)
  {
    var s2: Chunks := [(ChunkId(2, 0), HALF)];
    assert s2[1..] == [];
    assert Evict(s2, 512, 1024, DRIFT_BUDGET) == ([], 0);
    assert Prepare(s2, 512, 1024, DRIFT_BUDGET, ChunkId(3, 0)) == ([], 0);
    assert |FULL| == 1024;
    assert Put([], ChunkId(3, 0), FULL, 1) == [(ChunkId(3, 0), FULL)];
  }

  /** The corrected insertion of the same sequence keeps the counter equal
      to the resident bytes and admits the full-budget chunk. */
  lemma CorrectedNoDrift()
    ensures var r1 := InsertChunk([], 0, DRIFT_BUDGET, 1, ChunkId(1, 0), HALF);
      var r2 := InsertChunk(r1.0, r1.1, DRIFT_BUDGET, 1, ChunkId(2, 0), HALF);
      && r2 == ([(ChunkId(2, 0), HALF)], 512)
      && ResidentBytes(r2.0) == 512
      && InsertChunk(r2.0, r2.1, DRIFT_BUDGET, 1, ChunkId(3, 0), FULL) == ([(ChunkId(3, 0), FULL)], 1024)
  {
    DriftFirst();
    assert InsertChunk([], 0, DRIFT_BUDGET, 1, ChunkId(1, 0), HALF) == ([(ChunkId(1, 0), HALF)], 512);
    CorrectedSecond();
    DriftThird();
    CorrectedThird();
  }

  /** With exact accounting, the corrected insertion keeps it exact and
      keeps both budgets. */
  lemma InsertChunkExact(s: Chunks, cb: nat, maxBytes: nat, cap: nat, id: ChunkId, data: seq<u8>)
    requires UniqueKeys(s) && 0 < cap && |s| <= cap
    requires cb <= maxBytes && ResidentBytes(s) == cb
    ensures var r := InsertChunk(s, cb, maxBytes, cap, id, data);
      UniqueKeys(r.0) && |r.0| <= cap && r.1 <= maxBytes && ResidentBytes(r.0) == r.1
  {
    var p := Prepare(s, cb, |data|, maxBytes, id);
    assert ResidentBytes(p.0) == p.1 by {
      PrepareMeaning(s, cb, |data|, maxBytes, id);
    }
    if p.1 + |data| <= maxBytes {
      InsertChunkAdmits(s, cb, maxBytes, cap, id, data);
      PutResident(p.0, cap, id, data);
    } else {
      InsertChunkRefuses(s, cb, maxBytes, cap, id, data);
    }
  }

  /** With exact accounting, a chunk that fits the byte budget becomes the
      most recently used entry and one that does not is never admitted. */
  lemma InsertChunkPlacement(s: Chunks, cb: nat, maxBytes: nat, cap: nat, id: ChunkId, data: seq<u8>)
    requires UniqueKeys(s) && 0 < cap && |s| <= cap
    requires ResidentBytes(s) == cb
    ensures var r := InsertChunk(s, cb, maxBytes, cap, id, data);
      && (|data| <= maxBytes ==> |r.0| > 0 && r.0[|r.0| - 1] == (id, data))
      && (|data| > maxBytes ==> !Contains(r.0, id))
  {
    var p := Prepare(s, cb, |data|, maxBytes, id);
    if |data| <= maxBytes {
      PreparedFits(s, cb, maxBytes, id, data);
      InsertChunkAdmits(s, cb, maxBytes, cap, id, data);
    } else {
      InsertChunkRefuses(s, cb, maxBytes, cap, id, data);
    }
  }

  /** With exact accounting, preparing for a chunk within the budget
      always makes room for it. */
  lemma PreparedFits(s: Chunks, cb: nat, maxBytes: nat, id: ChunkId, data: seq<u8>)
    requires ResidentBytes(s) == cb && |data| <= maxBytes
    ensures Prepare(s, cb, |data|, maxBytes, id).1 + |data| <= maxBytes
  {
    var p := Prepare(s, cb, |data|, maxBytes, id);
    PrepareMeaning(s, cb, |data|, maxBytes, id);
    if p.0 == [] {
      assert p.1 == ResidentBytes(p.0) == 0;
    }
  }

  /** Inserting never changes or invents an entry of another chunk. */
  lemma InsertChunkKeepsOthers(s: Chunks, cb: nat, maxBytes: nat, cap: nat, id: ChunkId, data: seq<u8>)
    requires UniqueKeys(s) && 0 < cap && |s| <= cap
    ensures var r := InsertChunk(s, cb, maxBytes, cap, id, data);
      forall i :: 0 <= i < |r.0| && r.0[i].0 != id ==> r.0[i] in s
  {
    var p := Prepare(s, cb, |data|, maxBytes, id);
    PrepareMeaning(s, cb, |data|, maxBytes, id);
    if p.1 + |data| <= maxBytes {
      InsertChunkAdmits(s, cb, maxBytes, cap, id, data);
      PutResident(p.0, cap, id, data);
      var r := Put(p.0, id, data, cap);
      forall i | 0 <= i < |r| && r[i].0 != id ensures r[i] in s {
        assert i != |r| - 1;
      }
    } else {
      InsertChunkRefuses(s, cb, maxBytes, cap, id, data);
    }
  }

  /** Re-inserting a resident chunk with data of the same length, when no
      eviction is needed, stores the new data and leaves the byte count
      unchanged. */
  lemma ReinsertSameSize(s: Chunks, cb: nat, maxBytes: nat, cap: nat, id: ChunkId, data: seq<u8>)
    requires UniqueKeys(s) && 0 < cap && |s| <= cap
    requires ResidentBytes(s) == cb && cb + |data| <= maxBytes
    requires Contains(s, id) && |Peek(s, id).value| == |data|
    ensures InsertChunk(s, cb, maxBytes, cap, id, data).1 == cb
    ensures Peek(InsertChunk(s, cb, maxBytes, cap, id, data).0, id) == Some(data)
  {
    assert Evict(s, cb, |data|, maxBytes) == (s, cb);
    ResidentRemove(s, id);
    var p := Prepare(s, cb, |data|, maxBytes, id);
    assert p == (Remove(s, id), cb - |data|);
    assert Dropped(p.0, cap) == 0;
    PutThenPeek(p.0, id, data, cap, id);
  }

  /** `get` moves the chunk to the most recently used end, which holds the
      same bytes. */
  lemma ResidentPromote(s: Chunks, k: ChunkId)
    requires UniqueKeys(s)
    ensures ResidentBytes(Promote(s, k)) == ResidentBytes(s)
  {
    ResidentRemove(s, k);
    if Contains(s, k) {
      ResidentAppend(Remove(s, k), [(k, Peek(s, k).value)]);
    }
  }

  /** The resident chunks of one inode. */
  function KeysOfInode(s: Chunks, inode: Inode): (r: seq<ChunkId>)
    ensures forall j :: 0 <= j < |r| ==> r[j].inode == inode
    ensures forall i :: 0 <= i < |s| && s[i].0.inode == inode ==> s[i].0 in r
    ensures forall j :: 0 <= j < |r| ==> Contains(s, r[j])
  {
    if |s| == 0 then []
    else
      var t := KeysOfInode(s[1..], inode);
      assert forall j :: 0 <= j < |t| ==> Contains(s, t[j]) by {
        forall j | 0 <= j < |t| ensures Contains(s, t[j]) {
          var i := IndexOf(s[1..], t[j]).value;
          assert s[i + 1].0 == t[j];
        }
      }
      if s[0].0.inode == inode then [s[0].0] + t else t
  }

  /** `invalidate_inode` leaves exactly the chunks of other inodes, in
      their order. */
  lemma DropInodeMeaning(s: Chunks, inode: Inode)
    ensures var ks := KeySet(KeysOfInode(s, inode));
      && (forall i :: 0 <= i < |DropKeys(s, ks)| ==> DropKeys(s, ks)[i] in s && DropKeys(s, ks)[i].0.inode != inode)
      && (forall i :: 0 <= i < |s| && s[i].0.inode != inode ==> s[i] in DropKeys(s, ks))
  {
    var keys := KeysOfInode(s, inode);
    var ks := KeySet(keys);
    var d := DropKeys(s, ks);
    forall i | 0 <= i < |d| ensures d[i] in s && d[i].0.inode != inode {
      var m :| 0 <= m < |s| && s[m] == d[i];
    }
    forall i | 0 <= i < |s| && s[i].0.inode != inode ensures s[i] in d {
      assert s[i].0 !in ks;
    }
  }

  /** The eviction loop of `insert_arc`: pop the least recently used
      entry while the new chunk does not fit and the cache is not empty. */
  method EvictLoop(s0: Chunks, c0: nat, len: nat, maxBytes: nat) returns (s: Chunks, c: nat)
    ensures (s, c) == Evict(s0, c0, len, maxBytes)
  {
    s, c := s0, c0;
    while c + len > maxBytes
      invariant Evict(s, c, len, maxBytes) == Evict(s0, c0, len, maxBytes)
      decreases |s|
    {
      if |s| == 0 {
        break;
      }
      var evicted := s[0];
      s := s[1..];
      c := SatSub(c, |evicted.1|);
    }
  }

  function KeySet(keys: seq<ChunkId>): set<ChunkId> {
    set j | 0 <= j < |keys| :: keys[j]
  }

  /** Pop every key of `keys` in turn, decrementing the counter by each
      popped entry's length. */
  method PopAll(s0: Chunks, c0: nat, keys: seq<ChunkId>) returns (s: Chunks, c: nat)
    requires UniqueKeys(s0) && ResidentBytes(s0) == c0
    ensures s == DropKeys(s0, KeySet(keys)) && c == ResidentBytes(s)
    ensures UniqueKeys(s) && |s| <= |s0| && c <= c0
  {
    s, c := s0, c0;
    DropNothing(s0);
    assert KeySet(keys[..0]) == {};
    var i := 0;
    while i < |keys|
      invariant 0 <= i <= |keys|
      invariant s == DropKeys(s0, KeySet(keys[..i]))
      invariant UniqueKeys(s) && c == ResidentBytes(s) && c <= c0
    {
      ghost var before := KeySet(keys[..i]);
      assert KeySet(keys[..i + 1]) == before + {keys[i]} by {
        assert forall j :: 0 <= j < i ==> keys[..i + 1][j] == keys[..i][j];
      }
      RemoveDropKeys(s0, before, keys[i]);
      DropKeysUnique(s0, before + {keys[i]});
      ResidentRemove(s, keys[i]);
      var p := Unlink(s, c, keys[i]);
      s, c := p.0, p.1;
      i := i + 1;
    }
    assert keys[..i] == keys;
  }

  class ChunkCache {
    var cache: Chunks
    var currentBytes: nat
    const maxBytes: nat
    const capacity: nat

    ghost predicate Valid()
      reads this
    {
      UniqueKeys(cache) && 0 < capacity && |cache| <= capacity
      && currentBytes <= maxBytes && ResidentBytes(cache) == currentBytes
    }

    /** `new`: one entry per full chunk of the byte budget, at least one. */
    constructor (maxBytes: nat)
      ensures Valid() && cache == [] && currentBytes == 0
      ensures this.maxBytes == maxBytes && capacity == Max(maxBytes / CHUNK_SIZE, 1)
    {
      this.maxBytes := maxBytes;
      capacity := Max(maxBytes / CHUNK_SIZE, 1);
      cache := [];
      currentBytes := 0;
    }

    /** `with_capacity`: a budget of `maxEntries` full chunks. */
    constructor WithCapacity(maxEntries: nat)
      ensures Valid() && cache == [] && currentBytes == 0
      ensures maxBytes == maxEntries * CHUNK_SIZE && capacity == Max(maxEntries, 1)
    {
      maxBytes := maxEntries * CHUNK_SIZE;
      capacity := Max(maxEntries, 1);
      cache := [];
      currentBytes := 0;
    }

    /** `get`: the data, promoting the chunk to most recently used. */
    method Get(id: ChunkId) returns (r: Option<seq<u8>>)
      requires Valid()
      modifies this
      ensures Valid()
      ensures r == Peek(old(cache), id) && cache == Promote(old(cache), id)
      ensures currentBytes == old(currentBytes)
    {
      r := Peek(cache, id);
      ResidentPromote(cache, id);
      cache := Promote(cache, id);
    }

    /** `peek` and `contains` leave the order alone. */
    function PeekChunk(id: ChunkId): Option<seq<u8>>
      reads this
    {
      Peek(cache, id)
    }

    predicate ContainsChunk(id: ChunkId)
      reads this
    {
      Contains(cache, id)
    }

    /** `insert_arc`, with the entry that `put` pushes out accounted for. */
    method Insert(id: ChunkId, data: seq<u8>)
      requires Valid()
      modifies this
      ensures Valid()
      ensures (cache, currentBytes) == InsertChunk(old(cache), old(currentBytes), maxBytes, capacity, id, data)
    {
      var len := |data|;
      var s, c := EvictLoop(cache, currentBytes, len, maxBytes);
      var p := Unlink(s, c, id);
      assert p == Prepare(cache, currentBytes, len, maxBytes, id);
      InsertChunkExact(cache, currentBytes, maxBytes, capacity, id, data);
      if p.1 + len <= maxBytes {
        cache, currentBytes := Put(p.0, id, data, capacity), SatSub(p.1, Dropped(p.0, capacity)) + len;
      } else {
        cache, currentBytes := p.0, p.1;
      }
    }

    /** `invalidate`. */
    method Invalidate(id: ChunkId)
      requires Valid()
      modifies this
      ensures Valid()
      ensures (cache, currentBytes) == Unlink(old(cache), old(currentBytes), id)
    {
      UnlinkAccounting(cache, currentBytes, id);
      match IndexOf(cache, id) {
        case Some(i) =>
          var entry := cache[i].1;
          cache := Remove(cache, id);
          currentBytes := SatSub(currentBytes, |entry|);
        case None =>
      }
    }

    /** `invalidate_inode`: collect the inode's keys, then pop each. */
    method InvalidateInode(inode: Inode)
      requires Valid()
      modifies this
      ensures Valid()
      ensures cache == DropKeys(old(cache), KeySet(KeysOfInode(old(cache), inode)))
      ensures currentBytes == ResidentBytes(cache)
    {
      var toRemove := KeysOfInode(cache, inode);
      var s, c := PopAll(cache, currentBytes, toRemove);
      cache, currentBytes := s, c;
    }

    method Clear()
      requires Valid()
      modifies this
      ensures Valid() && cache == [] && currentBytes == 0
    {
      cache := [];
      currentBytes := 0;
    }
  }

  lemma {:induction false} DropNothing(s: Chunks)
    ensures DropKeys(s, {}) == s
    decreases |s|
  {
    if |s| > 0 {
      DropNothing(s[1..]);
    }
  }
}
