/** The streaming governor (crates/teleport-daemon/src/governor.rs): per-file
    detection of forward or backward sequential reads, and the chunks to
    prefetch once a streak is long enough. The per-file states live in an
    LRU cache of bounded size. */
module Governor {
  import opened Ints
  import opened Wrappers
  import opened Types
  import opened Lru

  const PREFETCH_WINDOW: u64 := 5
  const SEQUENTIAL_THRESHOLD: nat := 3
  const MAX_PREFETCH_CONCURRENT: nat := 4
  const MAX_FILE_STATES: nat := 10000
  const TWO_63: int := 0x8000_0000_0000_0000

  datatype AccessDirection = Forward | Backward | Random

  datatype FileAccessState = FileAccessState(lastChunk: u64, streak: nat, direction: AccessDirection)

  /** The state a file gets on its first access. */
  function Initial(index: u64): FileAccessState {
    FileAccessState(index, 0, Random)
  }

  /** `index as i64 - last as i64` with two's-complement wrap-around: the
      difference modulo 2^64, read as a signed 64-bit value. */
  function Diff(index: u64, last: u64): (d: int)
    ensures -TWO_63 <= d < TWO_63
    ensures (d - (index - last)) % TWO_64 == 0
  {
    var m := (index - last) % TWO_64;
    if m >= TWO_63 then m - TWO_64 else m
  }

  /** For indices below 2^63 the wrapped difference is the plain one. */
  lemma DiffPlain(index: u64, last: u64)
    requires index < TWO_63 && last < TWO_63
    ensures Diff(index, last) == index - last
  {
  }

  /** The pattern update of `record_access` for one access of `index`. */
  function Observe(st: FileAccessState, index: u64): (r: FileAccessState)
    ensures r.lastChunk == index
  {
    var d := Diff(index, st.lastChunk);
    if d == 1 then
      if st.direction == Forward then FileAccessState(index, st.streak + 1, Forward)
      else FileAccessState(index, 1, Forward)
    else if d == -1 then
      if st.direction == Backward then FileAccessState(index, st.streak + 1, Backward)
      else FileAccessState(index, 1, Backward)
    else if d == 0 then st.(lastChunk := index)
    else FileAccessState(index, 0, Random)
  }

  /** The first access of a file leaves it in its initial state. */
  lemma FirstAccess(index: u64)
    ensures Observe(Initial(index), index) == Initial(index)
  {
  }

  /** A re-read keeps the streak; a non-adjacent jump resets it. */
  lemma RepeatAndJump(st: FileAccessState, index: u64)
    ensures index == st.lastChunk ==> Observe(st, index) == st
    ensures Diff(index, st.lastChunk) !in {-1, 0, 1} ==> Observe(st, index) == FileAccessState(index, 0, Random)
  {
  }

  /** A step to the next (or the previous) chunk extends a streak in that
      direction, and starts one of length 1 after any other direction. */
  lemma AdjacentStep(st: FileAccessState, index: u64)
    ensures Diff(index, st.lastChunk) == 1 ==>
      Observe(st, index) == FileAccessState(index, if st.direction == Forward then st.streak + 1 else 1, Forward)
    ensures Diff(index, st.lastChunk) == -1 ==>
      Observe(st, index) == FileAccessState(index, if st.direction == Backward then st.streak + 1 else 1, Backward)
  {
  }

  /** The states after a sequence of accesses. */
  function ObserveAll(st: FileAccessState, indices: seq<u64>): FileAccessState
    decreases |indices|
  {
    if |indices| == 0 then st else ObserveAll(Observe(st, indices[0]), indices[1..])
  }

  function Ascending(start: u64, k: nat): (r: seq<u64>)
    requires start + k < TWO_63
    ensures |r| == k
    ensures forall i :: 0 <= i < k ==> r[i] == start + i + 1
  {
    if k == 0 then [] else Ascending(start, k - 1) + [start + k]
  }

  lemma {:induction false} ObserveAllSnoc(st: FileAccessState, indices: seq<u64>, x: u64)
    ensures ObserveAll(st, indices + [x]) == Observe(ObserveAll(st, indices), x)
    decreases |indices|
  {
    if |indices| == 0 {
      assert indices + [x] == [x];
    } else {
      assert (indices + [x])[1..] == indices[1..] + [x];
      ObserveAllSnoc(Observe(st, indices[0]), indices[1..], x);
    }
  }

  /** Reading k consecutive chunks forward after opening at `start` builds
      a forward streak of exactly k; so prefetching starts at the
      `threshold`-th consecutive read. */
  lemma {:induction false} ForwardRun(start: u64, k: nat)
    requires start + k < TWO_63
    ensures ObserveAll(Initial(start), Ascending(start, k))
              == FileAccessState(start + k, k, if k == 0 then Random else Forward)
  {
    if k > 0 {
      ForwardRun(start, k - 1);
      ObserveAllSnoc(Initial(start), Ascending(start, k - 1), start + k);
      DiffPlain(start + k, start + k - 1);
    }
  }

  /** What `generate_prefetch_targets` yields: forward, the next `window`
      chunks (indices wrap at 2^64); backward, the previous chunks that
      exist, at most `window`; for random access, nothing. */
  predicate IsPlan(targets: seq<ChunkId>, current: ChunkId, direction: AccessDirection, window: u64) {
    match direction
    case Forward =>
      |targets| == window
      && forall k :: 0 <= k < |targets| ==> targets[k] == ChunkId(current.inode, (current.index + k + 1) % TWO_64)
    case Backward =>
      |targets| == Min(window, current.index)
      && forall k :: 0 <= k < |targets| ==> targets[k] == ChunkId(current.inode, current.index - k - 1)
    case Random => targets == []
  }

  /** A plan never exceeds the window, stays within the file's inode, and
      backward targets lie strictly below the current chunk. */
  lemma PlanBounds(targets: seq<ChunkId>, current: ChunkId, direction: AccessDirection, window: u64)
    requires IsPlan(targets, current, direction, window)
    ensures |targets| <= window
    ensures forall k :: 0 <= k < |targets| ==> targets[k].inode == current.inode
    ensures direction == Backward ==> forall k :: 0 <= k < |targets| ==> targets[k].index < current.index
    ensures direction == Forward && current.index + window < TWO_64 ==>
              forall k :: 0 <= k < |targets| ==> current.index < targets[k].index <= current.index + window
  {
  }

  /** `generate_prefetch_targets`. */
  method PrefetchTargets(current: ChunkId, direction: AccessDirection, window: u64)
    returns (targets: seq<ChunkId>)
    ensures IsPlan(targets, current, direction, window)
  {
    targets := [];
    match direction {
      case Forward =>
        var i: nat := 1;
        while i <= window
          invariant 1 <= i <= window + 1 && |targets| == i - 1
          invariant forall k :: 0 <= k < |targets| ==>
                      targets[k] == ChunkId(current.inode, (current.index + k + 1) % TWO_64)
        {
          targets := targets + [ChunkId(current.inode, (current.index + i) % TWO_64)];
          i := i + 1;
        }
      case Backward =>
        var i: nat := 1;
        while i <= window
          invariant 1 <= i <= window + 1 && |targets| == Min(i - 1, current.index)
          invariant forall k :: 0 <= k < |targets| ==> targets[k] == ChunkId(current.inode, current.index - k - 1)
        {
          if current.index >= i {
            targets := targets + [ChunkId(current.inode, current.index - i)];
          }
          i := i + 1;
        }
      case Random =>
    }
  }

  class Governor {
    var states: Entries<Inode, FileAccessState>
    const capacity: nat
    const prefetchWindow: u64
    const sequentialThreshold: nat

    ghost predicate Valid()
      reads this
    {
      UniqueKeys(states) && 0 < capacity && |states| <= capacity
    }

    /** `with_capacity`: a zero capacity falls back to `MAX_FILE_STATES`. */
    constructor WithCapacity(capacity: nat)
      ensures Valid() && states == []
      ensures this.capacity == (if capacity == 0 then MAX_FILE_STATES else capacity)
      ensures prefetchWindow == PREFETCH_WINDOW && sequentialThreshold == SEQUENTIAL_THRESHOLD
    {
      this.capacity := if capacity == 0 then MAX_FILE_STATES else capacity;
      prefetchWindow := PREFETCH_WINDOW;
      sequentialThreshold := SEQUENTIAL_THRESHOLD;
      states := [];
    }

    constructor WithConfig(prefetchWindow: u64, sequentialThreshold: nat)
      ensures Valid() && states == [] && capacity == MAX_FILE_STATES
      ensures this.prefetchWindow == prefetchWindow && this.sequentialThreshold == sequentialThreshold
    {
      capacity := MAX_FILE_STATES;
      this.prefetchWindow := prefetchWindow;
      this.sequentialThreshold := sequentialThreshold;
      states := [];
    }

    /** `record_access`: fetch (or create) the file's state as most recently
        used, update the pattern, and plan a prefetch once the streak
        reaches the threshold. */
    method RecordAccess(chunk: ChunkId) returns (targets: seq<ChunkId>)
      requires Valid()
      modifies this
      ensures Valid()
      ensures var next := Observe(Peek(old(states), chunk.inode).GetOr(Initial(chunk.index)), chunk.index);
        && states == Put(old(states), chunk.inode, next, capacity)
        && (next.streak < sequentialThreshold ==> targets == [])
        && (next.streak >= sequentialThreshold ==> IsPlan(targets, chunk, next.direction, prefetchWindow))
    {
      var prior := Peek(states, chunk.inode).GetOr(Initial(chunk.index));
      var next := Observe(prior, chunk.index);
      states := Put(states, chunk.inode, next, capacity);
      if next.streak >= sequentialThreshold {
        targets := PrefetchTargets(chunk, next.direction, prefetchWindow);
      } else {
        targets := [];
      }
    }

    function GetDirection(inode: Inode): AccessDirection
      reads this
    {
      match Peek(states, inode)
      case Some(st) => st.direction
      case None => Random
    }

    function GetStreak(inode: Inode): nat
      reads this
    {
      match Peek(states, inode)
      case Some(st) => st.streak
      case None => 0
    }

    method ClearInode(inode: Inode)
      requires Valid()
      modifies this
      ensures Valid()
      ensures states == Remove(old(states), inode)
      ensures GetStreak(inode) == 0 && GetDirection(inode) == Random
    {
      states := Remove(states, inode);
    }

    method Clear()
      requires Valid()
      modifies this
      ensures Valid() && states == []
    {
      states := [];
    }
  }
}
