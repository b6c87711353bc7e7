/** The host's lock table (crates/teleport-daemon/src/lock_manager.rs):
    per-inode shared or exclusive holds that expire after a time to live.
    Time is a parameter `now` (an instant on a monotonic clock), and the
    random token of a new hold is supplied by the caller. */
module LockManager {
  import opened Ints
  import opened Wrappers
  import opened Types
  import opened Collections

  const DEFAULT_LOCK_TTL_SECS: nat := 30

  datatype LockHold = LockHold(
    token: LockToken, lockType: LockType, holderId: string,
    acquiredAt: nat, expiresAt: nat)

  /** A hold is expired from its expiry instant on. */
  predicate IsExpired(h: LockHold, now: nat) {
    now >= h.expiresAt
  }

  predicate IsLive(now: nat, h: LockHold) {
    !IsExpired(h, now)
  }

  function TimeRemaining(h: LockHold, now: nat): (d: nat)
    ensures IsExpired(h, now) <==> d == 0
    ensures d > 0 ==> now + d == h.expiresAt
  {
    SatSub(h.expiresAt, now)
  }

  datatype LockStatus =
    | Unlocked
    | SharedLock(holders: seq<LockHold>)
    | ExclusiveLock(holder: LockHold)

  datatype LockError =
    | Conflict(holder: Option<string>, lockType: LockType, retryAfter: Option<nat>)
    | TokenNotFound

  /** The holds a status carries. */
  function Holds(s: LockStatus): seq<LockHold> {
    match s
    case Unlocked => []
    case SharedLock(hs) => hs
    case ExclusiveLock(h) => [h]
  }

  /** What the table keeps true of each status: a shared status has at
      least one hold and only shared holds, an exclusive one an exclusive
      hold. */
  predicate WellFormed(s: LockStatus) {
    match s
    case Unlocked => true
    case SharedLock(hs) => |hs| > 0 && forall i :: 0 <= i < |hs| ==> hs[i].lockType == Shared
    case ExclusiveLock(h) => h.lockType == Exclusive
  }

  predicate AllWellFormed(locks: map<Inode, LockStatus>) {
    forall i :: i in locks ==> WellFormed(locks[i])
  }

  // ---------------------------------------------------------------------
  // Expiry (`cleanup_expired_locked`)

  function LiveHolds(hs: seq<LockHold>, now: nat): (r: seq<LockHold>)
    ensures forall k :: 0 <= k < |r| ==> r[k] in hs && !IsExpired(r[k], now)
    ensures forall k :: 0 <= k < |hs| && !IsExpired(hs[k], now) ==> hs[k] in r
  {
    Filter(h => IsLive(now, h), hs)
  }

  /** Drop the expired holds of one status; a shared status left with no
      hold and an expired exclusive one become `Unlocked`. */
  function CleanupStatus(s: LockStatus, now: nat): (r: LockStatus)
    ensures r != SharedLock([])
    ensures WellFormed(s) ==> WellFormed(r)
    ensures forall k :: 0 <= k < |Holds(r)| ==> Holds(r)[k] in Holds(s) && !IsExpired(Holds(r)[k], now)
  {
    match s
    case Unlocked => Unlocked
    case SharedLock(hs) =>
      var live := LiveHolds(hs, now);
      if |live| == 0 then Unlocked else SharedLock(live)
    case ExclusiveLock(h) => if IsExpired(h, now) then Unlocked else s
  }

  /** Cleaning keeps exactly the unexpired holds, in their order. */
  lemma CleanupKeepsLiveHolds(s: LockStatus, now: nat)
    ensures Holds(CleanupStatus(s, now)) == Filter(h => IsLive(now, h), Holds(s))
  {
    match s
    case Unlocked =>
    case SharedLock(hs) =>
    case ExclusiveLock(h) =>
      assert [h][1..] == [];
  }

  function CleanupAt(locks: map<Inode, LockStatus>, inode: Inode, now: nat): map<Inode, LockStatus> {
    if inode in locks then locks[inode := CleanupStatus(locks[inode], now)] else locks
  }

  function CleanupAll(locks: map<Inode, LockStatus>, now: nat): (r: map<Inode, LockStatus>)
    ensures r.Keys == locks.Keys
  {
    map i | i in locks :: CleanupStatus(locks[i], now)
  }

  // ---------------------------------------------------------------------
  // Acquire

  /** The shortest remaining time over the holds, `None` when there are none. */
  function MinRemaining(hs: seq<LockHold>, now: nat): (r: Option<nat>)
    ensures r.None? <==> |hs| == 0
    ensures r.Some? ==> (exists k :: 0 <= k < |hs| && r.value == TimeRemaining(hs[k], now))
    ensures r.Some? ==> forall k :: 0 <= k < |hs| ==> r.value <= TimeRemaining(hs[k], now)
  {
    if |hs| == 0 then None
    else
      var rest := MinRemaining(hs[1..], now);
      var here := TimeRemaining(hs[0], now);
      if rest.None? then Some(here)
      else
        assert forall k :: 1 <= k < |hs| ==> hs[k] == hs[1..][k - 1];
        Some(Min(here, rest.value))
  }

  /** The status after granting `hold` on a status that admits it. */
  function Grant(s: LockStatus, hold: LockHold): LockStatus
    requires s.Unlocked? || s.SharedLock?
  {
    match s
    case Unlocked =>
      if hold.lockType == Shared then SharedLock([hold]) else ExclusiveLock(hold)
    case SharedLock(hs) => SharedLock(hs + [hold])
  }

  /** The table and the answer after `acquire`: clean the inode, add an
      `Unlocked` entry if it has none, refuse on an exclusive hold or an
      exclusive request against shared holds, otherwise grant. */
  function AcquireStep(locks: map<Inode, LockStatus>, inode: Inode, lockType: LockType,
                       holderId: string, ttl: nat, now: nat, token: LockToken)
    : (map<Inode, LockStatus>, Result<LockToken, LockError>)
  {
    var cleaned := CleanupAt(locks, inode, now);
    var status := if inode in cleaned then cleaned[inode] else Unlocked;
    var entry := cleaned[inode := status];
    var hold := LockHold(token, lockType, holderId, now, now + ttl);
    match status
    case ExclusiveLock(h) =>
      (entry, Err(Conflict(Some(h.holderId), Exclusive, Some(TimeRemaining(h, now)))))
    case SharedLock(hs) =>
      if lockType == Exclusive then
        var first := if |hs| > 0 then Some(hs[0].holderId) else None;
        (entry, Err(Conflict(first, Shared, MinRemaining(hs, now))))
      else (entry[inode := Grant(status, hold)], Ok(token))
    case Unlocked => (entry[inode := Grant(status, hold)], Ok(token))
  }

  /** Acquire never disturbs another inode's entry and only adds `inode`. */
  lemma AcquireTouchesOnlyInode(locks: map<Inode, LockStatus>, inode: Inode, lockType: LockType,
                                holderId: string, ttl: nat, now: nat, token: LockToken)
    ensures var (after, _) := AcquireStep(locks, inode, lockType, holderId, ttl, now, token);
      && after.Keys == locks.Keys + {inode}
      && forall i :: i in locks && i != inode ==> after[i] == locks[i]
  {
  }

  /** An unexpired exclusive hold refuses every request, naming its holder. */
  lemma LiveExclusiveConflicts(locks: map<Inode, LockStatus>, inode: Inode, lockType: LockType,
                               holderId: string, ttl: nat, now: nat, token: LockToken)
    requires inode in locks && locks[inode].ExclusiveLock?
    requires !IsExpired(locks[inode].holder, now)
    ensures var h := locks[inode].holder;
      && AcquireStep(locks, inode, lockType, holderId, ttl, now, token).1
           == Err(Conflict(Some(h.holderId), Exclusive, Some(TimeRemaining(h, now))))
      && AcquireStep(locks, inode, lockType, holderId, ttl, now, token).0 == locks
  {
    assert locks[inode := locks[inode]] == locks;
  }

  /** Against live shared holds an exclusive request conflicts, naming the
      first live holder, and a shared request is granted by appending a
      hold after the live ones. */
  lemma SharedHoldsStack(locks: map<Inode, LockStatus>, inode: Inode, lockType: LockType,
                         holderId: string, ttl: nat, now: nat, token: LockToken)
    requires inode in locks && CleanupStatus(locks[inode], now).SharedLock?
    ensures var live := CleanupStatus(locks[inode], now).holders;
      var (after, r) := AcquireStep(locks, inode, lockType, holderId, ttl, now, token);
      && (lockType == Exclusive ==>
            r == Err(Conflict(Some(live[0].holderId), Shared, MinRemaining(live, now))))
      && (lockType == Shared ==>
            && r == Ok(token)
            && after[inode] == SharedLock(live + [LockHold(token, Shared, holderId, now, now + ttl)]))
  {
  }

  /** With no live hold on the inode (none at all, or only expired ones)
      the request is granted with expiry `now + ttl`. */
  lemma UnlockedGrants(locks: map<Inode, LockStatus>, inode: Inode, lockType: LockType,
                       holderId: string, ttl: nat, now: nat, token: LockToken)
    requires inode !in locks || CleanupStatus(locks[inode], now) == Unlocked
    ensures var (after, r) := AcquireStep(locks, inode, lockType, holderId, ttl, now, token);
      var hold := LockHold(token, lockType, holderId, now, now + ttl);
      && r == Ok(token)
      && after[inode] == (if lockType == Shared then SharedLock([hold]) else ExclusiveLock(hold))
  {
  }

  /** An exclusive hold that has expired no longer blocks anything. */
  lemma ExpiredExclusiveYields(locks: map<Inode, LockStatus>, inode: Inode, lockType: LockType,
                               holderId: string, ttl: nat, now: nat, token: LockToken)
    requires inode in locks && locks[inode].ExclusiveLock?
    requires IsExpired(locks[inode].holder, now)
    ensures AcquireStep(locks, inode, lockType, holderId, ttl, now, token).1 == Ok(token)
  {
    UnlockedGrants(locks, inode, lockType, holderId, ttl, now, token);
  }

  lemma AcquireKeepsWellFormed(locks: map<Inode, LockStatus>, inode: Inode, lockType: LockType,
                               holderId: string, ttl: nat, now: nat, token: LockToken)
    requires AllWellFormed(locks)
    ensures AllWellFormed(AcquireStep(locks, inode, lockType, holderId, ttl, now, token).0)
  {
  }

  // ---------------------------------------------------------------------
  // Release, renew, validate, release by holder

  /** The first position of a hold with this token (`position`). */
  function Position(hs: seq<LockHold>, token: LockToken): (r: Option<nat>)
    ensures r.Some? ==> r.value < |hs| && hs[r.value].token == token
    ensures r.Some? ==> forall k :: 0 <= k < r.value ==> hs[k].token != token
    ensures r.None? ==> forall k :: 0 <= k < |hs| ==> hs[k].token != token
  {
    if |hs| == 0 then None
    else if hs[0].token == token then Some(0)
    else
      var p := Position(hs[1..], token);
      if p.None? then None else Some(p.value + 1)
  }

  predicate HoldsToken(s: LockStatus, token: LockToken) {
    match s
    case Unlocked => false
    case SharedLock(hs) => Position(hs, token).Some?
    case ExclusiveLock(h) => h.token == token
  }

  /** The status after releasing the hold with `token` from a status that
      carries it. */
  function ReleaseToken(s: LockStatus, token: LockToken): LockStatus
    requires HoldsToken(s, token)
  {
    match s
    case SharedLock(hs) =>
      var rest := RemoveAt(hs, Position(hs, token).value);
      if |rest| == 0 then Unlocked else SharedLock(rest)
    case ExclusiveLock(_) => Unlocked
  }

  /** Releasing removes exactly the first hold carrying the token and keeps
      the status well formed. */
  lemma ReleaseRemovesHold(s: LockStatus, token: LockToken)
    requires WellFormed(s) && HoldsToken(s, token)
    ensures exists p :: 0 <= p < |Holds(s)| && Holds(s)[p].token == token
              && Holds(ReleaseToken(s, token)) == RemoveAt(Holds(s), p)
    ensures WellFormed(ReleaseToken(s, token))
  {
    match s
    case SharedLock(hs) =>
      var p := Position(hs, token).value;
      assert Holds(ReleaseToken(s, token)) == RemoveAt(hs, p);
    case ExclusiveLock(h) =>
      assert Holds(s)[0].token == token;
      assert Holds(ReleaseToken(s, token)) == RemoveAt([h], 0);
  }

  /** The status after `renew`: the first hold carrying the token gets the
      new expiry. */
  function RenewToken(s: LockStatus, token: LockToken, expiresAt: nat): (r: LockStatus)
    requires HoldsToken(s, token)
    ensures |Holds(r)| == |Holds(s)|
  {
    match s
    case SharedLock(hs) =>
      var p := Position(hs, token).value;
      SharedLock(hs[p := hs[p].(expiresAt := expiresAt)])
    case ExclusiveLock(h) => ExclusiveLock(h.(expiresAt := expiresAt))
  }

  lemma RenewSetsExpiry(s: LockStatus, token: LockToken, expiresAt: nat)
    requires WellFormed(s) && HoldsToken(s, token)
    ensures WellFormed(RenewToken(s, token, expiresAt))
    ensures exists p :: 0 <= p < |Holds(s)| && Holds(s)[p].token == token
              && Holds(RenewToken(s, token, expiresAt))
                 == Holds(s)[p := Holds(s)[p].(expiresAt := expiresAt)]
  {
    match s
    case SharedLock(hs) =>
      var p := Position(hs, token).value;
      assert Holds(s)[p].token == token;
    case ExclusiveLock(h) =>
      assert Holds(s)[0].token == token;
      assert Holds(RenewToken(s, token, expiresAt)) == [h][0 := h.(expiresAt := expiresAt)];
  }

  /** `validate` on the status found for the inode (if any). */
  predicate ValidateStatus(s: Option<LockStatus>, token: LockToken, required: LockType, now: nat) {
    match s
    case Some(ExclusiveLock(h)) => h.token == token && !IsExpired(h, now)
    case Some(SharedLock(hs)) =>
      required == Shared && exists k :: 0 <= k < |hs| && hs[k].token == token && !IsExpired(hs[k], now)
    case _ => false
  }

  /** `validate` in terms of the hold itself: some unexpired hold with the
      token is exclusive, or is shared and only shared access is required. */
  lemma ValidateMeaning(s: LockStatus, token: LockToken, required: LockType, now: nat)
    requires WellFormed(s)
    ensures ValidateStatus(Some(s), token, required, now) <==>
      exists k :: 0 <= k < |Holds(s)| && Holds(s)[k].token == token && !IsExpired(Holds(s)[k], now)
        && (Holds(s)[k].lockType == Exclusive || required == Shared)
  {
    match s
    case Unlocked =>
    case SharedLock(hs) =>
      assert Holds(s) == hs;
    case ExclusiveLock(h) =>
      if h.token == token && !IsExpired(h, now) {
        assert Holds(s)[0] == h;
      }
  }

  predicate OtherHolder(holderId: string, h: LockHold) {
    h.holderId != holderId
  }

  /** The status after `release_all_by_holder` for one inode. */
  function ReleaseHolder(s: LockStatus, holderId: string): (r: LockStatus)
    ensures r != SharedLock([])
  {
    match s
    case Unlocked => Unlocked
    case SharedLock(hs) =>
      var rest := Filter(h => OtherHolder(holderId, h), hs);
      if |rest| == 0 then Unlocked else SharedLock(rest)
    case ExclusiveLock(h) => if h.holderId == holderId then Unlocked else s
  }

  /** Releasing by holder keeps exactly the other holders' holds, in order. */
  lemma ReleaseHolderKeepsOthers(s: LockStatus, holderId: string)
    ensures Holds(ReleaseHolder(s, holderId)) == Filter(h => OtherHolder(holderId, h), Holds(s))
    ensures WellFormed(s) ==> WellFormed(ReleaseHolder(s, holderId))
  {
    match s
    case Unlocked =>
    case SharedLock(hs) =>
    case ExclusiveLock(h) =>
      assert [h][1..] == [];
  }

  // ---------------------------------------------------------------------
  // The table

  class LockManager {
    var locks: map<Inode, LockStatus>
    const defaultTtl: nat

    ghost predicate Valid()
      reads this
    {
      AllWellFormed(locks)
    }

    constructor (defaultTtl: nat)
      ensures Valid() && locks == map[] && this.defaultTtl == defaultTtl
    {
      locks := map[];
      this.defaultTtl := defaultTtl;
    }

    /** `cleanup_expired_locked` for one inode. */
    method CleanupInode(inode: Inode, now: nat)
      requires Valid()
      modifies this
      ensures Valid()
      ensures locks == CleanupAt(old(locks), inode, now)
    {
      if inode in locks {
        var status := locks[inode];
        match status {
          case SharedLock(holders) =>
            var live := LiveHolds(holders, now);
            if |live| == 0 {
              locks := locks[inode := Unlocked];
            } else {
              locks := locks[inode := SharedLock(live)];
            }
          case ExclusiveLock(holder) =>
            if IsExpired(holder, now) {
              locks := locks[inode := Unlocked];
            }
          case Unlocked =>
        }
      }
    }

    method Acquire(inode: Inode, lockType: LockType, holderId: string,
                   timeout: Option<nat>, now: nat, token: LockToken)
      returns (r: Result<LockToken, LockError>)
      requires Valid()
      modifies this
      ensures Valid()
      ensures (locks, r) == AcquireStep(old(locks), inode, lockType, holderId,
                                        timeout.GetOr(defaultTtl), now, token)
    {
      var ttl := timeout.GetOr(defaultTtl);
      ghost var before := locks;
      CleanupInode(inode, now);
      if inode !in locks {
        locks := locks[inode := Unlocked];
      } else {
        assert locks[inode := locks[inode]] == locks;
      }
      var status := locks[inode];
      assert locks == CleanupAt(before, inode, now)[inode := status];
      match status {
        case ExclusiveLock(holder) =>
          return Err(Conflict(Some(holder.holderId), Exclusive, Some(TimeRemaining(holder, now))));
        case SharedLock(holders) =>
          if lockType == Exclusive {
            var first := if |holders| > 0 then Some(holders[0].holderId) else None;
            return Err(Conflict(first, Shared, MinRemaining(holders, now)));
          }
        case Unlocked =>
      }
      var hold := LockHold(token, lockType, holderId, now, now + ttl);
      locks := locks[inode := Grant(status, hold)];
      AcquireKeepsWellFormed(before, inode, lockType, holderId, ttl, now, token);
      r := Ok(token);
    }

    /** `release`: entries are visited in no fixed order, so which inode is
        updated is the one found first; tokens are random, so in practice
        there is only one. */
    method Release(token: LockToken) returns (r: Result<(), LockError>)
      requires Valid()
      modifies this
      ensures Valid()
      ensures r.Ok? <==> exists i :: i in old(locks) && HoldsToken(old(locks)[i], token)
      ensures r.Ok? ==>
                exists i :: i in old(locks) && HoldsToken(old(locks)[i], token)
                  && locks == old(locks)[i := ReleaseToken(old(locks)[i], token)]
      ensures r.Err? ==> r.error == TokenNotFound && locks == old(locks)
    {
      var keys := locks.Keys;
      while keys != {}
        invariant keys <= locks.Keys && locks == old(locks)
        invariant forall i :: i in locks && i !in keys ==> !HoldsToken(locks[i], token)
        decreases |keys|
      {
        var i :| i in keys;
        if HoldsToken(locks[i], token) {
          ReleaseRemovesHold(locks[i], token);
          locks := locks[i := ReleaseToken(locks[i], token)];
          return Ok(());
        }
        keys := keys - {i};
      }
      return Err(TokenNotFound);
    }

    /** `renew`: the first hold found with the token expires at
        `now + ttl` instead. */
    method Renew(token: LockToken, newTtl: Option<nat>, now: nat) returns (r: Result<(), LockError>)
      requires Valid()
      modifies this
      ensures Valid()
      ensures r.Ok? <==> exists i :: i in old(locks) && HoldsToken(old(locks)[i], token)
      ensures r.Ok? ==>
                exists i :: i in old(locks) && HoldsToken(old(locks)[i], token)
                  && locks == old(locks)[i := RenewToken(old(locks)[i], token,
                                                         now + newTtl.GetOr(defaultTtl))]
      ensures r.Err? ==> r.error == TokenNotFound && locks == old(locks)
    {
      var expires := now + newTtl.GetOr(defaultTtl);
      var keys := locks.Keys;
      while keys != {}
        invariant keys <= locks.Keys && locks == old(locks)
        invariant forall i :: i in locks && i !in keys ==> !HoldsToken(locks[i], token)
        decreases |keys|
      {
        var i :| i in keys;
        if HoldsToken(locks[i], token) {
          RenewSetsExpiry(locks[i], token, expires);
          locks := locks[i := RenewToken(locks[i], token, expires)];
          return Ok(());
        }
        keys := keys - {i};
      }
      return Err(TokenNotFound);
    }

    function Validate(inode: Inode, token: LockToken, required: LockType, now: nat): (ok: bool)
      reads this
      ensures ok ==> inode in locks && HoldsToken(locks[inode], token)
    {
      ValidateStatus(if inode in locks then Some(locks[inode]) else None, token, required, now)
    }

    function GetStatus(inode: Inode): LockStatus
      reads this
    {
      if inode in locks then locks[inode] else Unlocked
    }

    /** `cleanup_expired`: every entry is cleaned. */
    method CleanupExpired(now: nat)
      requires Valid()
      modifies this
      ensures Valid()
      ensures locks == CleanupAll(old(locks), now)
    {
      locks := CleanupEach(locks, now);
    }

    /** `release_all_by_holder`: every entry drops that holder's holds. */
    method ReleaseAllByHolder(holderId: string)
      requires Valid()
      modifies this
      ensures Valid()
      ensures locks == map i | i in old(locks) :: ReleaseHolder(old(locks)[i], holderId)
    {
      locks := ReleaseAll(locks, holderId);
    }
  }

  /** The loop of `release_all_by_holder`, entry by entry. */
  method ReleaseAll(locks0: map<Inode, LockStatus>, holderId: string) returns (locks: map<Inode, LockStatus>)
    requires AllWellFormed(locks0)
    ensures AllWellFormed(locks)
    ensures locks == map i | i in locks0 :: ReleaseHolder(locks0[i], holderId)
  {
    locks := locks0;
    var keys := locks.Keys;
    while keys != {}
      invariant ReleasedBut(locks0, locks, keys, holderId)
      decreases |keys|
    {
      var i :| i in keys;
      ReleaseOne(locks0, locks, keys, holderId, i);
      locks := locks[i := ReleaseHolder(locks[i], holderId)];
      keys := keys - {i};
    }
    ReleasedAll(locks0, locks, holderId);
  }

  /** Progress of `ReleaseAll`: the entries still in `keys` are untouched,
      the others have dropped the holder, and all stay well formed. */
  predicate ReleasedBut(locks0: map<Inode, LockStatus>, locks: map<Inode, LockStatus>,
                        keys: set<Inode>, holderId: string)
  {
    && keys <= locks.Keys && locks.Keys == locks0.Keys
    && AllWellFormed(locks)
    && (forall i :: i in keys ==> locks[i] == locks0[i])
    && (forall i :: i in locks && i !in keys ==> locks[i] == ReleaseHolder(locks0[i], holderId))
  }

  lemma ReleaseOne(locks0: map<Inode, LockStatus>, locks: map<Inode, LockStatus>,
                   keys: set<Inode>, holderId: string, i: Inode)
    requires ReleasedBut(locks0, locks, keys, holderId) && i in keys
    ensures ReleasedBut(locks0, locks[i := ReleaseHolder(locks[i], holderId)], keys - {i}, holderId)
  {
    ReleaseHolderKeepsOthers(locks[i], holderId);
  }

  lemma ReleasedAll(locks0: map<Inode, LockStatus>, locks: map<Inode, LockStatus>, holderId: string)
    requires ReleasedBut(locks0, locks, {}, holderId)
    ensures AllWellFormed(locks)
    ensures locks == map i | i in locks0 :: ReleaseHolder(locks0[i], holderId)
  {
  }

  /** The loop of `cleanup_expired`: `cleanup_expired_locked` on every inode. */
  method CleanupEach(locks0: map<Inode, LockStatus>, now: nat) returns (locks: map<Inode, LockStatus>)
    requires AllWellFormed(locks0)
    ensures AllWellFormed(locks)
    ensures locks == CleanupAll(locks0, now)
  {
    locks := locks0;
    var keys := locks.Keys;
    while keys != {}
      invariant CleanedBut(locks0, locks, keys, now)
      decreases |keys|
    {
      var i :| i in keys;
      CleanOne(locks0, locks, keys, now, i);
      locks := CleanupAt(locks, i, now);
      keys := keys - {i};
    }
    CleanedAll(locks0, locks, now);
  }

  /** Progress of `CleanupEach`: the entries still in `keys` are untouched,
      the others are cleaned, and all stay well formed. */
  predicate CleanedBut(locks0: map<Inode, LockStatus>, locks: map<Inode, LockStatus>,
                       keys: set<Inode>, now: nat)
  {
    && keys <= locks.Keys && locks.Keys == locks0.Keys
    && AllWellFormed(locks)
    && (forall i :: i in keys ==> locks[i] == locks0[i])
    && (forall i :: i in locks && i !in keys ==> locks[i] == CleanupStatus(locks0[i], now))
  }

  lemma CleanOne(locks0: map<Inode, LockStatus>, locks: map<Inode, LockStatus>,
                 keys: set<Inode>, now: nat, i: Inode)
    requires CleanedBut(locks0, locks, keys, now) && i in keys
    ensures CleanedBut(locks0, CleanupAt(locks, i, now), keys - {i}, now)
  {
  }

  lemma CleanedAll(locks0: map<Inode, LockStatus>, locks: map<Inode, LockStatus>, now: nat)
    requires CleanedBut(locks0, locks, {}, now)
    ensures AllWellFormed(locks)
    ensures locks == CleanupAll(locks0, now)
  {
  }
}
