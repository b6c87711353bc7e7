/** The pool of parallel QUIC streams used for bulk transfers
    (crates/teleport-daemon/src/stream_pool.rs). A stream is only its
    handle here; the guard that hands a stream out and returns it on drop is
    modelled by `TryAcquire`/`AcquireOrCreate` handing out a handle and
    `ReturnStream` taking it back. Clock readings are parameters. */
module StreamPool {
  import opened Ints
  import opened Wrappers

  const MIN_STREAMS: nat := 4
  const MAX_STREAMS: nat := 256
  const DEFAULT_STREAMS: nat := 16

  datatype StreamHandle = StreamHandle(id: nat, lastUsed: int, bytesTransferred: nat)

  /** `PooledStream::record_bytes`. */
  function RecordBytes(h: StreamHandle, bytes: nat): (r: StreamHandle)
    ensures r.id == h.id && r.lastUsed == h.lastUsed
    ensures r.bytesTransferred - h.bytesTransferred == bytes
  {
    h.(bytesTransferred := h.bytesTransferred + bytes)
  }

  datatype StreamPoolConfig = StreamPoolConfig(initialStreams: nat, minStreams: nat, maxStreams: nat, autoTune: bool)

  function DefaultConfig(): StreamPoolConfig {
    StreamPoolConfig(DEFAULT_STREAMS, MIN_STREAMS, MAX_STREAMS, true)
  }

  datatype StreamPoolStatsSnapshot = StreamPoolStatsSnapshot(
    acquires: nat, backpressureEvents: nat, totalBytes: nat,
    activeStreams: nat, targetStreams: nat, availableStreams: nat)

  /** The idle streams `with_config` starts with: ids `0..n`, nothing sent. */
  function InitialStreams(n: nat, now: int): (r: seq<StreamHandle>)
    ensures |r| == n
    ensures forall k :: 0 <= k < n ==> r[k] == StreamHandle(k, now, 0)
  {
    seq(n, (k: int) requires 0 <= k => StreamHandle(k, now, 0))
  }

  class StreamPool {
    var available: seq<StreamHandle>
    var targetStreams: nat
    const config: StreamPoolConfig
    var acquires: nat
    var backpressureEvents: nat
    var totalBytes: nat
    var activeStreams: nat
    /** The copy of the target kept in the statistics. */
    var statsTargetStreams: nat
    var nextId: nat
    /** The ids of the streams handed out and not yet returned. */
    ghost var lent: set<nat>

    /** Every stream id lives in one place: idle ones are distinct, none of
        them is also lent out, and all lie below `next_id`. The target
        stays in `[min, max]` and the pool never grows past `max`. */
    ghost predicate Valid()
      reads this
    {
      && config.minStreams <= targetStreams <= config.maxStreams
      && statsTargetStreams == targetStreams
      && activeStreams == |lent|
      && (forall i :: 0 <= i < |available| ==> available[i].id < nextId && available[i].id !in lent)
      && (forall i :: 0 <= i < |available| ==> available[i].bytesTransferred == 0)
      && (forall i, j :: 0 <= i < j < |available| ==> available[i].id != available[j].id)
      && (forall k :: k in lent ==> k < nextId)
      && |available| + activeStreams <= config.maxStreams
    }

    /** `current_stream_count`: idle plus in use. */
    function CurrentStreamCount(): nat
      reads this
    {
      |available| + activeStreams
    }

    /** `with_config`: `clamp(initial, min, max)` idle streams, numbered
        from 0; Rust's `clamp` demands `min <= max`. */
    constructor WithConfig(config: StreamPoolConfig, now: int)
      requires config.minStreams <= config.maxStreams
      ensures Valid() && this.config == config
      ensures available == InitialStreams(Clamp(config.initialStreams, config.minStreams, config.maxStreams), now)
      ensures targetStreams == |available| && nextId == |available| && lent == {}
      ensures acquires == 0 && backpressureEvents == 0 && totalBytes == 0 && activeStreams == 0
    {
      var n: nat := Clamp(config.initialStreams, config.minStreams, config.maxStreams);
      var streams: seq<StreamHandle> := [];
      var id: nat := 0;
      while id < n
        invariant id <= n && streams == InitialStreams(id, now)
      {
        streams := streams + [StreamHandle(id, now, 0)];
        id := id + 1;
      }
      this.config := config;
      available := streams;
      targetStreams, statsTargetStreams, nextId := n, n, n;
      acquires, backpressureEvents, totalBytes, activeStreams := 0, 0, 0, 0;
      lent := {};
    }

    /** `try_acquire`: the front idle stream, or `None` and one more
        backpressure event. */
    method TryAcquire() returns (r: Option<StreamHandle>)
      requires Valid()
      modifies this
      ensures Valid()
      ensures old(available) != [] ==>
        && r == Some(old(available)[0]) && available == old(available)[1..]
        && acquires == old(acquires) + 1 && activeStreams == old(activeStreams) + 1
        && backpressureEvents == old(backpressureEvents) && lent == old(lent) + {r.value.id}
      ensures old(available) == [] ==>
        && r == None && available == old(available)
        && acquires == old(acquires) && activeStreams == old(activeStreams)
        && backpressureEvents == old(backpressureEvents) + 1 && lent == old(lent)
      ensures r.Some? ==> r.value.id !in old(lent) && r.value.bytesTransferred == 0
      ensures CurrentStreamCount() == old(CurrentStreamCount())
      ensures targetStreams == old(targetStreams) && nextId == old(nextId) && totalBytes == old(totalBytes)
    {
      if available != [] {
        var h := available[0];
        available := available[1..];
        acquires := acquires + 1;
        activeStreams := activeStreams + 1;
        lent := lent + {h.id};
        r := Some(h);
      } else {
        backpressureEvents := backpressureEvents + 1;
        r := None;
      }
    }

    /** `acquire_or_create`: an idle stream if there is one; otherwise a new
        stream with the next id when the pool is below both its target and
        its maximum. The failed `try_acquire` counts one backpressure
        event, and a refusal counts a second. */
    method AcquireOrCreate(now: int) returns (r: Option<StreamHandle>)
      requires Valid()
      modifies this
      ensures Valid()
      ensures old(available) != [] ==> r == Some(old(available)[0]) && backpressureEvents == old(backpressureEvents)
      ensures var cur := old(CurrentStreamCount());
        old(available) == [] && cur < old(targetStreams) && cur < config.maxStreams ==>
          && r == Some(StreamHandle(old(nextId), now, 0)) && nextId == old(nextId) + 1
          && available == [] && acquires == old(acquires) + 1 && activeStreams == old(activeStreams) + 1
          && backpressureEvents == old(backpressureEvents) + 1
      ensures var cur := old(CurrentStreamCount());
        old(available) == [] && !(cur < old(targetStreams) && cur < config.maxStreams) ==>
          && r == None && nextId == old(nextId) && acquires == old(acquires)
          && activeStreams == old(activeStreams) && backpressureEvents == old(backpressureEvents) + 2
      ensures r.Some? ==> r.value.id in lent && r.value.id !in old(lent) && r.value.bytesTransferred == 0
      ensures targetStreams == old(targetStreams) && totalBytes == old(totalBytes)
    {
      r := TryAcquire();
      if r.Some? {
        return;
      }
      var current := CurrentStreamCount();
      var target := targetStreams;
      if current < target && current < config.maxStreams {
        var h := StreamHandle(nextId, now, 0);
        nextId := nextId + 1;
        acquires := acquires + 1;
        activeStreams := activeStreams + 1;
        lent := lent + {h.id};
        r := Some(h);
        return;
      }
      backpressureEvents := backpressureEvents + 1;
    }

    /** `return_stream`, reached when the guard drops: the stream's bytes
        go to the total and it rejoins the idle queue at the back, stamped
        with `now` and its byte count reset. */
    method ReturnStream(h: StreamHandle, now: int)
      requires Valid() && h.id in lent
      modifies this
      ensures Valid()
      ensures available == old(available) + [StreamHandle(h.id, now, 0)]
      ensures totalBytes == old(totalBytes) + h.bytesTransferred
      ensures activeStreams == old(activeStreams) - 1 && lent == old(lent) - {h.id}
      ensures CurrentStreamCount() == old(CurrentStreamCount())
      ensures acquires == old(acquires) && backpressureEvents == old(backpressureEvents)
      ensures targetStreams == old(targetStreams) && nextId == old(nextId)
    {
      LentCard(lent, h.id);
      totalBytes := totalBytes + h.bytesTransferred;
      activeStreams := activeStreams - 1;
      lent := lent - {h.id};
      available := available + [StreamHandle(h.id, now, 0)];
    }

    /** `update_measurements`, given the stream count the bandwidth-delay
        product asks for (`calculate_optimal_streams`, computed in floating
        point, is left out): the target becomes that count clamped to
        `[min, max]`, and nothing changes when auto-tuning is off. */
    method UpdateMeasurements(optimal: nat)
      requires Valid()
      modifies this
      ensures Valid()
      ensures config.autoTune ==> targetStreams == Clamp(optimal, config.minStreams, config.maxStreams)
      ensures !config.autoTune ==> targetStreams == old(targetStreams)
      ensures available == old(available) && activeStreams == old(activeStreams) && nextId == old(nextId)
      ensures acquires == old(acquires) && backpressureEvents == old(backpressureEvents) && totalBytes == old(totalBytes)
    {
      if !config.autoTune {
        return;
      }
      var clamped := Clamp(optimal, config.minStreams, config.maxStreams);
      targetStreams := clamped;
      statsTargetStreams := clamped;
    }

    /** `stats`. */
    method Stats() returns (r: StreamPoolStatsSnapshot)
      requires Valid()
      ensures r == StreamPoolStatsSnapshot(acquires, backpressureEvents, totalBytes, activeStreams, targetStreams, |available|)
      ensures r.availableStreams + r.activeStreams <= config.maxStreams
      ensures config.minStreams <= r.targetStreams <= config.maxStreams
    {
      r := StreamPoolStatsSnapshot(acquires, backpressureEvents, totalBytes, activeStreams, statsTargetStreams, |available|);
    }
  }

  lemma LentCard(lent: set<nat>, k: nat)
    requires k in lent
    ensures |lent - {k}| == |lent| - 1
  {
  }
}
