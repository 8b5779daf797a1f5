/**
 * Clients of `WaitLock` replaying the situations the library's tests
 * describe; each result follows from the contracts of the lock's methods
 * alone.
 */
module WaitLockScenarios {
  import opened Wrappers
  import opened WaitingList
  import opened WaitLocks

  /** One waiter on `lock`, then a release with `v` before its timeout: the waiter gets `v`. */
  method WaitThenRelease(lock: WaitLock<int>, ms: Option<int>, v: Option<int>) returns (result: Option<int>)
    requires lock.Valid()
    modifies lock
    ensures lock.Valid() && lock.waitingList == [] && result == v
  {
    var p := lock.Wait(ms, true);
    lock.Release(v);
    result := lock.resolved[p];
  }

  /** One timed waiter on `lock` whose timer fires: the waiter gets `undefined`. */
  method WaitThenTimeout(lock: WaitLock<int>, ms: int) returns (result: Option<int>)
    requires lock.Valid()
    modifies lock
    ensures lock.Valid() && lock.waitingList == old(lock.waitingList) && result == None
  {
    var p := lock.Wait(Some(ms), true);
    lock.TimerFire(p);
    result := lock.resolved[p];
    assert p !in IdSet(old(lock.waitingList));
    WithoutAppended(old(lock.waitingList), lock.waiters[p]);
  }

  /** A timed wait released with 42 before its timeout resolves with 42. */
  method ReleaseBeforeTimeout() returns (result: Option<int>)
    ensures result == Some(42)
  {
    var lock := new WaitLock<int>();
    result := WaitThenRelease(lock, Some(1000), Some(42));
  }

  /** A release without a value resolves a waiter with `undefined`. */
  method ReleaseWithoutValue() returns (result: Option<int>)
    ensures result == None
  {
    var lock := new WaitLock<int>();
    result := WaitThenRelease(lock, Some(1000), None);
  }

  /** A wait with no timeout, and one with a timeout of 0, are both resolved by a release that comes first. */
  method UntimedAndZeroTimeout() returns (untimed: Option<int>, zero: Option<int>)
    ensures untimed == Some(42) && zero == Some(42)
  {
    var lock := new WaitLock<int>();
    untimed := WaitThenRelease(lock, None, Some(42));
    zero := WaitThenRelease(lock, Some(0), Some(42));
  }

  /** One release resolves every waiter with the same value, and clears both timers. */
  method BroadcastRelease() returns (first: Option<int>, second: Option<int>)
    ensures first == Some(42) && second == Some(42)
  {
    var lock := new WaitLock<int>();
    var p := lock.Wait(Some(1000), true);
    var q := lock.Wait(Some(1000), false);
    lock.Release(Some(42));
    first, second := lock.resolved[p], lock.resolved[q];
  }

  /** A timed wait that nobody releases resolves with `undefined`. */
  method TimeoutElapses() returns (result: Option<int>)
    ensures result == None
  {
    var lock := new WaitLock<int>();
    result := WaitThenTimeout(lock, 200);
  }

  /** A waiter whose entry was removed from outside is still resolved by its timer. */
  method TimeoutAfterListReplaced() returns (result: Option<int>)
    ensures result == None
  {
    var lock := new WaitLock<int>();
    var p := lock.Wait(Some(100), true);
    lock.ClearListExternally();
    lock.TimerFire(p);
    result := lock.resolved[p];
  }

  /** The lock is reusable after a release: a second wait behaves like the first. */
  method ReuseAfterRelease() returns (first: Option<int>, second: Option<int>)
    ensures first == Some(42) && second == Some(24)
  {
    var lock := new WaitLock<int>();
    first := WaitThenRelease(lock, Some(1000), Some(42));
    second := WaitThenRelease(lock, Some(1000), Some(24));
  }

  /** The lock is reusable after a timeout: a second wait times out like the first. */
  method ReuseAfterTimeout() returns (first: Option<int>, second: Option<int>, listed: nat)
    ensures first == None && second == None && listed == 0
  {
    var lock := new WaitLock<int>();
    first := WaitThenTimeout(lock, 100);
    second := WaitThenTimeout(lock, 100);
    listed := |lock.waitingList|;
  }
}
