/** The buffer pool (crates/teleport-core/src/buffer_pool.rs): a bounded
    set of reusable byte buffers. A buffer is handed out by `TryAcquire` and
    comes back through `Release` when its handle is dropped. */
module BufferPool {
  import opened Ints
  import opened Wrappers

  const BULK_CHUNK_SIZE: nat := 4 * 1024 * 1024
  const RANDOM_CHUNK_SIZE: nat := 128 * 1024
  const DEFAULT_MAX_BULK_BUFFERS: nat := 64
  const DEFAULT_MAX_RANDOM_BUFFERS: nat := 512

  predicate AllZero(b: seq<u8>) {
    forall i :: 0 <= i < |b| ==> b[i] == 0
  }

  function Zeros(n: nat): (z: seq<u8>)
    ensures |z| == n && AllZero(z)
  {
    seq(n, _ => 0)
  }

  /** `BufferPoolStats` without the floating-point hit rate. */
  datatype BufferPoolStats = BufferPoolStats(
    totalAcquisitions: nat, cacheHits: nat,
    allocatedCount: nat, available: nat, inUse: nat)

  class BufferPool {
    /** Buffers ready to be handed out; `pop` and `push` work on its end. */
    var pool: seq<seq<u8>>
    const bufferSize: nat
    const maxBuffers: nat
    /** Buffers created so far (`allocated`), whether pooled or handed out. */
    var allocatedCount: nat
    var totalAcquisitions: nat
    var cacheHits: nat
    /** Buffers handed out whose handles have not been dropped yet. */
    ghost var outstanding: nat

    ghost predicate Valid()
      reads this
    {
      && |pool| + outstanding == allocatedCount <= maxBuffers
      && cacheHits <= totalAcquisitions
      && forall i :: 0 <= i < |pool| ==> AllZero(pool[i])
    }

    constructor (maxBuffers: nat, bufferSize: nat)
      ensures Valid()
      ensures this.maxBuffers == maxBuffers && this.bufferSize == bufferSize
      ensures pool == [] && allocatedCount == 0 && outstanding == 0
      ensures totalAcquisitions == 0 && cacheHits == 0
    {
      this.maxBuffers := maxBuffers;
      this.bufferSize := bufferSize;
      pool := [];
      allocatedCount := 0;
      totalAcquisitions := 0;
      cacheHits := 0;
      outstanding := 0;
    }

    /** `try_acquire`: every call counts; a pooled buffer is reused first
        (a cache hit); otherwise a new zeroed buffer is made while fewer than
        `maxBuffers` exist; otherwise `None`. */
    method TryAcquire() returns (r: Option<seq<u8>>)
      requires Valid()
      modifies this
      ensures Valid()
      ensures totalAcquisitions == old(totalAcquisitions) + 1
      ensures old(|pool|) > 0 ==>
                && r == Some(old(pool[|pool| - 1]))
                && pool == old(pool[..|pool| - 1])
                && cacheHits == old(cacheHits) + 1
                && allocatedCount == old(allocatedCount)
                && outstanding == old(outstanding) + 1
      ensures old(|pool|) == 0 && old(allocatedCount) < maxBuffers ==>
                && r == Some(Zeros(bufferSize))
                && pool == [] && cacheHits == old(cacheHits)
                && allocatedCount == old(allocatedCount) + 1
                && outstanding == old(outstanding) + 1
      ensures old(|pool|) == 0 && old(allocatedCount) >= maxBuffers ==>
                && r == None
                && pool == [] && cacheHits == old(cacheHits)
                && allocatedCount == old(allocatedCount)
                && outstanding == old(outstanding)
      ensures r.Some? ==> AllZero(r.value)
    {
      totalAcquisitions := totalAcquisitions + 1;
      if |pool| > 0 {
        var buffer := pool[|pool| - 1];
        pool := pool[..|pool| - 1];
        cacheHits := cacheHits + 1;
        outstanding := outstanding + 1;
        return Some(buffer);
      }
      if allocatedCount >= maxBuffers {
        return None;
      }
      allocatedCount := allocatedCount + 1;
      outstanding := outstanding + 1;
      r := Some(Zeros(bufferSize));
    }

    /** `release`, run when a handle is dropped: the buffer, whatever its
        length now, is zero-filled and pushed back while the pool has room.
        Because every pooled or handed-out buffer is one of the `allocatedCount`
        ones, the pool always has room here. */
    method Release(buffer: seq<u8>)
      requires Valid() && outstanding > 0
      modifies this
      ensures Valid()
      ensures pool == old(pool) + [Zeros(|buffer|)]
      ensures allocatedCount == old(allocatedCount) && outstanding == old(outstanding) - 1
      ensures totalAcquisitions == old(totalAcquisitions) && cacheHits == old(cacheHits)
    {
      var cleared := Zeros(|buffer|);
      if |pool| < maxBuffers {
        pool := pool + [cleared];
      } else {
        assert false;
      }
      outstanding := outstanding - 1;
    }

    function Available(): (n: nat)
      reads this
      ensures n == |pool|
    {
      |pool|
    }

    /** `in_use`: allocatedCount minus available, which is exactly the number
        of handed-out buffers. */
    function InUse(): (n: nat)
      requires Valid()
      reads this
      ensures n == outstanding && n + Available() == allocatedCount
    {
      allocatedCount - |pool|
    }

    function Stats(): (s: BufferPoolStats)
      requires Valid()
      reads this
      ensures s.cacheHits <= s.totalAcquisitions
      ensures s.available <= s.allocatedCount && s.inUse + s.available == s.allocatedCount
      ensures s.allocatedCount <= maxBuffers
    {
      BufferPoolStats(totalAcquisitions, cacheHits, allocatedCount, |pool|, allocatedCount - |pool|)
    }
  }

  /** The exhaustion scenario of the tests: a pool of two hands out two
      buffers, refuses a third, and after one is dropped reuses it. */
  method ExhaustionExample() returns (third: bool, fourth: bool, hits: nat, inUse: nat)
    ensures !third && fourth && hits == 1 && inUse == 2
  {
    var p := new BufferPool(2, 1024);
    var a := p.TryAcquire();
    var b := p.TryAcquire();
    var c := p.TryAcquire();
    third := c.Some?;
    p.Release(a.value);
    var d := p.TryAcquire();
    fourth := d.Some?;
    hits := p.cacheHits;
    inUse := p.InUse();
  }
}
