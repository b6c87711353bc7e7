/** The per-IP limiter of failed connection attempts, with a sliding window
    of failures and exponentially growing blocks
    (crates/teleport-daemon/src/rate_limiter.rs). Instants are integer
    seconds passed in as `now`; durations are whole seconds. */
module RateLimiter {
  import opened Ints
  import opened Wrappers
  import opened Collections

  const DEFAULT_MAX_FAILURES: u32 := 5
  const DEFAULT_WINDOW_SECS: nat := 60
  const DEFAULT_BLOCK_DURATION_SECS: nat := 60
  /** One hour: the longest block, whatever the backoff. */
  const MAX_BLOCK_DURATION_SECS: nat := 3600
  /** The backoff doubles the block at most six times. */
  const MAX_BACKOFF_EXPONENT: nat := 6

  datatype IpAddr = IpAddr(octets: seq<u8>)

  datatype Config = Config(maxFailures: u32, window: nat, blockDuration: nat)

  function DefaultConfig(): Config {
    Config(DEFAULT_MAX_FAILURES, DEFAULT_WINDOW_SECS, DEFAULT_BLOCK_DURATION_SECS)
  }

  /** The failures of one IP inside the window, when its block ends, and how
      often it has been blocked. */
  datatype IpEntry = IpEntry(failures: seq<int>, blockedUntil: Option<int>, blockCount: u32)

  function NewEntry(): IpEntry {
    IpEntry([], None, 0)
  }

  /** `cleanup`: keep only failures later than `now - window`, in order. */
  function Cleanup(e: IpEntry, window: nat, now: int): (r: IpEntry)
    ensures r.blockedUntil == e.blockedUntil && r.blockCount == e.blockCount
    ensures forall i :: 0 <= i < |r.failures| ==> r.failures[i] > now - window && r.failures[i] in e.failures
    ensures forall t :: t in e.failures && t > now - window ==> t in r.failures
  {
    var cutoff := now - window;
    var kept := Filter((t: int) => t > cutoff, e.failures);
    e.(failures := kept)
  }

  predicate IsBlocked(e: IpEntry, now: int) {
    e.blockedUntil.Some? && now < e.blockedUntil.value
  }

  /** `block_remaining`. */
  function BlockRemaining(e: IpEntry, now: int): (r: Option<nat>)
    ensures r.Some? <==> IsBlocked(e, now)
    ensures r.Some? ==> now + r.value == e.blockedUntil.value
  {
    if IsBlocked(e, now) then Some(e.blockedUntil.value - now) else None
  }

  /** The length of a block after `blockCount` earlier ones: the base
      duration times `2^min(blockCount, 6)`, capped at one hour. */
  function BlockLength(blockDuration: nat, blockCount: u32): (r: nat)
    ensures r <= MAX_BLOCK_DURATION_SECS
    ensures blockDuration > 0 ==> r > 0
  {
    Min(blockDuration * Pow2(Min(blockCount, MAX_BACKOFF_EXPONENT)), MAX_BLOCK_DURATION_SECS)
  }

  lemma BlockLengthGrows(blockDuration: nat, c: u32)
    requires c < 0xFFFF_FFFF
    ensures BlockLength(blockDuration, c) <= BlockLength(blockDuration, c + 1)
    ensures c < MAX_BACKOFF_EXPONENT && 2 * blockDuration * Pow2(c) <= MAX_BLOCK_DURATION_SECS ==>
      BlockLength(blockDuration, c + 1) == 2 * BlockLength(blockDuration, c)
  {
    if c < MAX_BACKOFF_EXPONENT {
      assert Pow2(c + 1) == 2 * Pow2(c);
    }
  }

  /** `record_failure` on one entry: the updated entry and the answer. */
  function FailureStep(cfg: Config, e: IpEntry, now: int): (IpEntry, bool) {
    var c := Cleanup(e, cfg.window, now);
    if IsBlocked(c, now) then (c, true)
    else
      var f := c.failures + [now];
      if |f| >= cfg.maxFailures then
        (IpEntry([], Some(now + BlockLength(cfg.blockDuration, c.blockCount)), SatAddU32(c.blockCount, 1)), true)
      else (c.(failures := f), false)
  }

  function SatAddU32(a: u32, b: u32): (r: u32)
    ensures a + b <= 0xFFFF_FFFF ==> r == a + b
    ensures a + b > 0xFFFF_FFFF ==> r == 0xFFFF_FFFF
  {
    if a + b <= 0xFFFF_FFFF then a + b else 0xFFFF_FFFF
  }

  /** An IP that is still blocked gets `true` back and no new failure. */
  lemma FailureWhileBlocked(cfg: Config, e: IpEntry, now: int)
    requires IsBlocked(e, now)
    ensures FailureStep(cfg, e, now) == (Cleanup(e, cfg.window, now), true)
  {
  }

  /** Reaching `max_failures` blocks the IP for the backoff length, counts
      the block and forgets the failures. */
  lemma FailureBlocks(cfg: Config, e: IpEntry, now: int)
    requires !IsBlocked(e, now)
    requires |Cleanup(e, cfg.window, now).failures| + 1 >= cfg.maxFailures
    ensures var r := FailureStep(cfg, e, now);
      && r.1
      && r.0.failures == []
      && r.0.blockedUntil == Some(now + BlockLength(cfg.blockDuration, e.blockCount))
      && r.0.blockCount == SatAddU32(e.blockCount, 1)
  {
  }

  /** Below the threshold the failure is recorded and the IP is not blocked. */
  lemma FailureRecorded(cfg: Config, e: IpEntry, now: int)
    requires !IsBlocked(e, now)
    requires |Cleanup(e, cfg.window, now).failures| + 1 < cfg.maxFailures
    ensures var r := FailureStep(cfg, e, now);
      && !r.1 && !IsBlocked(r.0, now)
      && r.0.failures == Cleanup(e, cfg.window, now).failures + [now]
      && r.0.blockedUntil == e.blockedUntil && r.0.blockCount == e.blockCount
  {
  }

  /** The answer is `true` exactly when the IP is blocked afterwards (given
      a non-zero base block). */
  lemma FailureAnswersBlocked(cfg: Config, e: IpEntry, now: int)
    requires cfg.blockDuration > 0
    ensures FailureStep(cfg, e, now).1 <==> IsBlocked(FailureStep(cfg, e, now).0, now)
  {
  }

  /** With the entry bound below, the `len() as u32` cast of the source
      never truncates: an entry holds fewer failures than the threshold
      (or none). */
  predicate FewFailures(cfg: Config, e: IpEntry) {
    |e.failures| < cfg.maxFailures || e.failures == []
  }

  lemma FailureKeepsFew(cfg: Config, e: IpEntry, now: int)
    requires FewFailures(cfg, e)
    ensures FewFailures(cfg, FailureStep(cfg, e, now).0)
  {
    var c := Cleanup(e, cfg.window, now);
    assert |c.failures| <= |e.failures|;
  }

  /** Whether the first `retain` of `cleanup_expired` keeps an entry. */
  predicate Worth(e: IpEntry, now: int) {
    IsBlocked(e, now) || e.failures != [] || e.blockCount > 0
  }

  /** The second `retain`: forget an expired block, dropping the entry if
      nothing else is left. */
  predicate Lapsed(e: IpEntry, now: int) {
    e.blockedUntil.Some? && now > e.blockedUntil.value
  }

  function ForgetBlock(e: IpEntry, now: int): IpEntry {
    if Lapsed(e, now) then e.(blockedUntil := None) else e
  }

  predicate Idle(e: IpEntry, now: int) {
    Lapsed(e, now) && e.blockCount == 0 && e.failures == []
  }

  /** The entries after `cleanup_expired`'s two passes. */
  function CleanupExpired(entries: map<IpAddr, IpEntry>, window: nat, now: int): (r: map<IpAddr, IpEntry>)
  {
    var first := map ip | ip in entries && Worth(Cleanup(entries[ip], window, now), now) :: Cleanup(entries[ip], window, now);
    map ip | ip in first && !Idle(first[ip], now) :: ForgetBlock(first[ip], now)
  }

  /** An entry that is blocked, has failures in the window or has been
      blocked before survives the cleanup, with its old failures dropped
      and a lapsed block forgotten; every other entry is removed. */
  lemma CleanupKeepsExactly(entries: map<IpAddr, IpEntry>, window: nat, now: int, ip: IpAddr)
    requires ip in entries
    ensures var c := Cleanup(entries[ip], window, now);
      ip in CleanupExpired(entries, window, now) <==> Worth(c, now)
    ensures var c := Cleanup(entries[ip], window, now);
      ip in CleanupExpired(entries, window, now) ==> CleanupExpired(entries, window, now)[ip] == ForgetBlock(c, now)
  {
    var c := Cleanup(entries[ip], window, now);
    if Worth(c, now) {
      assert !Idle(c, now);
    }
  }

  /** Cleanup never invents an entry. */
  lemma CleanupInventsNothing(entries: map<IpAddr, IpEntry>, window: nat, now: int)
    ensures CleanupExpired(entries, window, now).Keys <= entries.Keys
  {
  }

  class RateLimiter {
    const config: Config
    var entries: map<IpAddr, IpEntry>

    ghost predicate Valid()
      reads this
    {
      forall ip :: ip in entries ==> FewFailures(config, entries[ip])
    }

    /** `with_config`. */
    constructor WithConfig(config: Config)
      ensures this.config == config && entries == map[] && Valid()
    {
      this.config := config;
      entries := map[];
    }

    /** `new`: the default configuration. */
    constructor ()
      ensures config == DefaultConfig() && entries == map[] && Valid()
    {
      config := DefaultConfig();
      entries := map[];
    }

    /** `check`: allowed unless the IP's block has not yet run out. */
    method Check(ip: IpAddr, now: int) returns (allowed: bool)
      ensures allowed <==> ip !in entries || !IsBlocked(entries[ip], now)
    {
      allowed := !(ip in entries && IsBlocked(entries[ip], now));
    }

    /** `record_success`: forget the failures, keep the block history. */
    method RecordSuccess(ip: IpAddr)
      requires Valid()
      modifies this
      ensures Valid()
      ensures ip in old(entries) ==> entries == old(entries)[ip := old(entries)[ip].(failures := [])]
      ensures ip !in old(entries) ==> entries == old(entries)
    {
      if ip in entries {
        entries := entries[ip := entries[ip].(failures := [])];
      }
    }

    /** `record_failure`: an unseen IP starts from an empty entry; no other
        IP's entry changes. */
    method RecordFailure(ip: IpAddr, now: int) returns (blocked: bool)
      requires Valid()
      modifies this
      ensures Valid()
      ensures var e := if ip in old(entries) then old(entries)[ip] else NewEntry();
        entries == old(entries)[ip := FailureStep(config, e, now).0] && blocked == FailureStep(config, e, now).1
    {
      var e := if ip in entries then entries[ip] else NewEntry();
      FailureKeepsFew(config, e, now);
      var r := FailureStep(config, e, now);
      entries := entries[ip := r.0];
      blocked := r.1;
    }

    /** `get_block_remaining`. */
    method GetBlockRemaining(ip: IpAddr, now: int) returns (r: Option<nat>)
      ensures ip !in entries ==> r == None
      ensures ip in entries ==> r == BlockRemaining(entries[ip], now)
    {
      r := if ip in entries then BlockRemaining(entries[ip], now) else None;
    }

    /** `cleanup_expired`. */
    method CleanupExpiredEntries(now: int)
      requires Valid()
      modifies this
      ensures Valid()
      ensures entries == CleanupExpired(old(entries), config.window, now)
    {
      entries := CleanupExpired(entries, config.window, now);
    }

    /** `stats`: the blocked IPs and all tracked ones. */
    method Stats(now: int) returns (blockedCount: nat, totalTracked: nat)
      ensures blockedCount == |set ip | ip in entries && IsBlocked(entries[ip], now)|
      ensures totalTracked == |entries|
      ensures blockedCount <= totalTracked
    {
      var blockedSet := set ip | ip in entries && IsBlocked(entries[ip], now);
      assert blockedSet <= entries.Keys;
      SubsetCard(blockedSet, entries.Keys);
      blockedCount := |blockedSet|;
      totalTracked := |entries|;
    }
  }

  /** Blocking after the threshold: once `record_failure` reports a block,
      the next `check` at the same instant refuses the IP (with a non-zero
      base block). */
  lemma BlockedRefused(cfg: Config, entries: map<IpAddr, IpEntry>, ip: IpAddr, now: int)
    requires cfg.blockDuration > 0
    ensures var e := if ip in entries then entries[ip] else NewEntry();
      FailureStep(cfg, e, now).1 ==> IsBlocked(FailureStep(cfg, e, now).0, now)
  {
    var e := if ip in entries then entries[ip] else NewEntry();
    FailureAnswersBlocked(cfg, e, now);
  }

  /** A success followed by failures needs the full threshold again: the
      first failure after it, with `max_failures` above one, does not block. */
  lemma SuccessRestartsCount(cfg: Config, e: IpEntry, now: int)
    requires cfg.maxFailures > 1 && !IsBlocked(e, now)
    ensures !FailureStep(cfg, e.(failures := []), now).1
  {
    assert Cleanup(e.(failures := []), cfg.window, now).failures == [];
  }
}
