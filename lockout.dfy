/**
 * The brute-force lockout table of `LockoutService`: per lower-cased user name,
 * a failure count and an optional lock expiry. Five consecutive failures lock
 * the name for two minutes and reset the count; an expired lock is cleared
 * lazily, when it is next looked at. Time is an integer number of
 * milliseconds passed in by the caller in place of `Instant.now()`.
 */
module Lockout {
  import opened Wrappers
  import opened Text

  const MaxAttempts: nat := 5
  const LockDuration: int := 2 * 60 * 1000

  /** `AttemptInfo`: the failure count and the instant until which the name is locked. */
  datatype Entry = Entry(attempts: nat, lockedUntil: Option<int>)

  /** An entry as `computeIfAbsent` creates it, and as `reset` leaves it. */
  const Clear: Entry := Entry(0, None)

  /** The table invariant: the count stays below the threshold, and it is zero while a lock is recorded. */
  predicate EntryInv(e: Entry) {
    e.attempts < MaxAttempts && (e.lockedUntil.Some? ==> e.attempts == 0)
  }

  /** The lock holds at `now`: `now` is not after the recorded expiry. */
  predicate LockActive(e: Entry, now: int) {
    e.lockedUntil.Some? && !(now > e.lockedUntil.value)
  }

  /** The side effect of `isLocked` on an entry: an expired lock is cleared; the count is never touched. */
  function Expire(e: Entry, now: int): (r: Entry)
    ensures r.attempts == e.attempts
    ensures LockActive(r, now) == LockActive(e, now)
    ensures r.lockedUntil.Some? <==> LockActive(e, now)
    ensures r.lockedUntil.Some? ==> r.lockedUntil == e.lockedUntil
    ensures EntryInv(e) ==> EntryInv(r)
  {
    if e.lockedUntil.Some? && now > e.lockedUntil.value then e.(lockedUntil := None) else e
  }

  /** The entry after `recordFailure` at `now`. */
  function AfterFailure(e: Entry, now: int): (r: Entry)
    ensures EntryInv(e) ==> EntryInv(r)
    ensures LockActive(e, now) ==> r == e
    ensures !LockActive(e, now) && e.attempts + 1 < MaxAttempts ==> r == Entry(e.attempts + 1, None)
    ensures !LockActive(e, now) && e.attempts + 1 >= MaxAttempts ==> r == Entry(0, Some(now + LockDuration))
  {
    if LockActive(e, now) then e
    else
      var info := Expire(e, now).(attempts := e.attempts + 1);
      if info.attempts >= MaxAttempts then Entry(0, Some(now + LockDuration)) else info
  }

  /** What `recordFailure` returns: the name was locked, or has just been locked. */
  function FailureReportsLocked(e: Entry, now: int): (locked: bool)
    ensures locked <==> LockActive(AfterFailure(e, now), now)
  {
    LockActive(e, now) || e.attempts + 1 >= MaxAttempts
  }

  /** The entry for `key`, or the entry `computeIfAbsent` would create. */
  function Lookup(store: map<string, Entry>, key: string): Entry {
    if key in store then store[key] else Clear
  }

  /** The entry after failures at the given instants, in order. */
  function Replay(e: Entry, times: seq<int>): Entry
    decreases |times|
  {
    if times == [] then e else Replay(AfterFailure(e, times[0]), times[1..])
  }

  /** What each of those failures returns. */
  function Reports(e: Entry, times: seq<int>): (r: seq<bool>)
    ensures |r| == |times|
    decreases |times|
  {
    if times == [] then [] else [FailureReportsLocked(e, times[0])] + Reports(AfterFailure(e, times[0]), times[1..])
  }

  lemma {:induction false} ReplayAppend(e: Entry, a: seq<int>, b: seq<int>)
    ensures Replay(e, a + b) == Replay(Replay(e, a), b)
    ensures Reports(e, a + b) == Reports(e, a) + Reports(Replay(e, a), b)
    decreases |a|
  {
    if a == [] {
      assert a + b == b;
    } else {
      assert (a + b)[0] == a[0] && (a + b)[1..] == a[1..] + b;
      ReplayAppend(AfterFailure(e, a[0]), a[1..], b);
    }
  }

  /** Below the threshold, each failure of an unlocked entry adds one and reports "not locked". */
  lemma {:induction false} FailuresBelowThreshold(a: nat, times: seq<int>)
    requires a + |times| < MaxAttempts
    ensures Replay(Entry(a, None), times) == Entry(a + |times|, None)
    ensures forall k :: 0 <= k < |times| ==> !Reports(Entry(a, None), times)[k]
    decreases |times|
  {
    if times != [] {
      FailuresBelowThreshold(a + 1, times[1..]);
      var rest := Reports(Entry(a + 1, None), times[1..]);
      assert Reports(Entry(a, None), times) == [false] + rest;
    }
  }

  /**
   * From a clear entry, failures one to four report "not locked" and the fifth
   * reports "locked", leaving the count at zero and a lock until two minutes
   * after the fifth failure, whatever the instants.
   */
  lemma FifthFailureLocks(times: seq<int>)
    requires |times| == MaxAttempts
    ensures Reports(Clear, times) == [false, false, false, false, true]
    ensures Replay(Clear, times) == Entry(0, Some(times[4] + LockDuration))
  {
    FailuresBelowThreshold(0, times[..4]);
    assert times == times[..4] + [times[4]];
    ReplayAppend(Clear, times[..4], [times[4]]);
    var r4 := Reports(Clear, times[..4]);
    assert r4 == [false, false, false, false] by {
      assert |r4| == 4 && !r4[0] && !r4[1] && !r4[2] && !r4[3];
    }
  }

  /**
   * An observed expired lock leaves a clear entry (the count was reset when the
   * lock was set), so the next failure starts the count again at one.
   */
  lemma ExpiredLockRestartsCount(e: Entry, seenAt: int, next: int)
    requires EntryInv(e) && e.lockedUntil.Some? && seenAt > e.lockedUntil.value
    ensures Expire(e, seenAt) == Clear
    ensures AfterFailure(Expire(e, seenAt), next) == Entry(1, None)
    ensures !FailureReportsLocked(Expire(e, seenAt), next)
    ensures AfterFailure(e, seenAt) == Entry(1, None) && !FailureReportsLocked(e, seenAt)
  {
  }

  /**
   * The lockout cycle: five failures lock the name; a sixth failure within the
   * two minutes reports "locked" and changes nothing; after the window the
   * check reports "unlocked" and the next failure counts one.
   */
  lemma LockoutCycle(times: seq<int>, during: int, after: int, next: int)
    requires |times| == MaxAttempts
    requires during <= times[4] + LockDuration < after
    ensures var locked := Replay(Clear, times);
            && FailureReportsLocked(locked, during) && AfterFailure(locked, during) == locked
            && LockActive(locked, during) && !LockActive(locked, after)
            && AfterFailure(Expire(locked, after), next) == Entry(1, None)
  {
    FifthFailureLocks(times);
  }

  /** The table of `LockoutService`, keyed by lower-cased name. */
  class LockoutService {
    var store: map<string, Entry>

    ghost predicate Valid()
      reads this
    {
      forall k :: k in store ==> Lower(k) == k && EntryInv(store[k])
    }

    constructor ()
      ensures Valid() && store == map[]
    {
      store := map[];
    }

    /** `isLocked`: false for an unknown name or no lock; clears a lock whose expiry `now` is after. */
    method IsLocked(username: string, now: int) returns (locked: bool)
      requires Valid()
      modifies this
      ensures Valid()
      ensures var k := Lower(username);
              && locked == (k in old(store) && LockActive(old(store)[k], now))
              && store == if k in old(store) then old(store)[k := Expire(old(store)[k], now)] else old(store)
    {
      var k := Lower(username);
      LowerIdempotent(username);
      if k !in store || store[k].lockedUntil.None? {
        return false;
      }
      var info := store[k];
      if now > info.lockedUntil.value {
        store := store[k := info.(lockedUntil := None)];
        return false;
      }
      return true;
    }

    /** `recordFailure`: create the entry if absent, report a standing lock, else count and maybe lock. */
    method RecordFailure(username: string, now: int) returns (locked: bool)
      requires Valid()
      modifies this
      ensures Valid()
      ensures var k := Lower(username);
              var e := Lookup(old(store), k);
              && store == old(store)[k := AfterFailure(e, now)]
              && locked == FailureReportsLocked(e, now)
    {
      var k := Lower(username);
      LowerIdempotent(username);
      if k !in store {
        store := store[k := Clear];
      }
      var stillLocked := IsLocked(username, now);
      if stillLocked {
        return true;
      }
      var info := store[k];
      info := info.(attempts := info.attempts + 1);
      if info.attempts >= MaxAttempts {
        info := info.(lockedUntil := Some(now + LockDuration), attempts := 0);
        store := store[k := info];
        return true;
      }
      store := store[k := info];
      return false;
    }

    /** `reset`: on a known name clears count and lock; on an unknown name creates nothing. */
    method Reset(username: string)
      requires Valid()
      modifies this
      ensures Valid()
      ensures var k := Lower(username);
              store == if k in old(store) then old(store)[k := Clear] else old(store)
    {
      var k := Lower(username);
      if k in store {
        store := store[k := Entry(0, None)];
      }
    }

    /** `lockedUntil`: the recorded expiry as it is, without lazy expiry; reads only. */
    function LockedUntil(username: string): (until: Option<int>)
      reads this
      ensures Lower(username) in store ==> until == store[Lower(username)].lockedUntil
      ensures Lower(username) !in store ==> until.None?
    {
      var k := Lower(username);
      if k in store then store[k].lockedUntil else None
    }
  }

  /** Names that differ only in the case of their letters address the same entry. */
  lemma CaseVariantsShareEntry(t: LockoutService, a: string, b: string)
    requires DifferOnlyInCase(a, b)
    ensures t.LockedUntil(a) == t.LockedUntil(b)
    ensures Lower(a) == Lower(b)
  {
    LowerIdentifiesCaseVariants(a, b);
  }

  /**
   * `lockedUntil` does not consult the clock: a recorded expiry that is
   * already past, and so no longer locks the name, is still reported.
   */
  lemma LockedUntilMayBePast(t: LockoutService, name: string, u: int, now: int)
    requires Lower(name) in t.store && t.store[Lower(name)].lockedUntil == Some(u)
    requires now > u
    ensures t.LockedUntil(name) == Some(u)
    ensures !LockActive(t.store[Lower(name)], now)
  {
  }
}
