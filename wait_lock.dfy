/**
 * `WaitLock<T>`: a lock that any number of callers wait on and that one call
 * of `Release` opens for all of them at once, with an optional timeout per
 * waiter and an optional value handed to every released waiter.
 *
 * A promise is modelled by its entry in `resolved`; a timer by a token that is
 * live in `liveTimers` until it fires or is cleared; the firing of a timer by
 * the event `TimerFire`. Each method is proved to move the lock's state as
 * the matching function of `LockStates` does.
 */
module WaitLocks {
  import opened Wrappers
  import opened WaitingList
  import opened LockStates
  import LockProperties

  class WaitLock<T> {
    /** The entries of the waiters still waiting for a release, in arrival order. */
    var waitingList: seq<Entry>
    /** Every waiter record `Wait` created, indexed by waiter; a pending timer callback holds on to its record. */
    var waiters: seq<Entry>
    /** The value each settled promise resolved with; `None` is `undefined`. */
    var resolved: map<WaiterId, Option<T>>
    /** The timers scheduled and neither fired nor cleared. */
    var liveTimers: set<TimerId>
    /** The token the next scheduled timer gets. */
    var nextTimer: TimerId
    /** Every call of a waiter's `resolve`, in order, whether or not it took effect. */
    ghost var resolveCalls: seq<WaiterId>

    ghost function State(): LockState<T>
      reads this
    {
      LockState(waitingList, waiters, resolved, liveTimers, nextTimer, resolveCalls)
    }

    ghost predicate Valid()
      reads this
    {
      State().Valid()
    }

    constructor ()
      ensures Valid() && State() == Fresh()
    {
      waitingList := [];
      waiters := [];
      resolved := map[];
      liveTimers := {};
      nextTimer := 0;
      resolveCalls := [];
      LockProperties.FreshIsValid<T>();
    }

    /** Calls waiter `id`'s `resolve`; a promise keeps the first value it is resolved with. */
    method Settle(id: WaiterId, value: Option<T>)
      modifies this`resolved, this`resolveCalls
      ensures resolved == WaitingList.Settle(old(resolved), id, value)
      ensures resolveCalls == old(resolveCalls) + [id]
    {
      if id !in resolved {
        resolved := resolved[id := value];
      }
      resolveCalls := resolveCalls + [id];
    }

    /**
     * `wait(ms, unref)`: appends one entry for a fresh waiter, with a newly
     * scheduled timer exactly when `ms` is given (0 included), and returns
     * the waiter, whose promise is unresolved.
     */
    method Wait(ms: Option<int>, unref: bool) returns (id: WaiterId)
      requires Valid()
      modifies this
      ensures Valid() && State() == AfterWait(old(State()), ms.Some?)
      ensures id == |old(waiters)| && waitingList == old(waitingList) + [waiters[id]]
      ensures id !in resolved && (TimerLive(id) <==> ms.Some?)
      ensures old(State().NoHungWaiter()) ==> State().NoHungWaiter()
    {
      var timer: Option<TimerId> := None;
      if ms.Some? {
        // setTimeout; `unref` only decides whether the timer keeps the process alive
        timer := Some(nextTimer);
        liveTimers := liveTimers + {nextTimer};
        nextTimer := nextTimer + 1;
      }
      id := |waiters|;
      var waiter := Entry(id, timer);
      waiters := waiters + [waiter];
      waitingList := waitingList + [waiter];
      LockProperties.WaitPreserves(old(State()), ms.Some?);
      LockProperties.WaitAppends(old(State()), ms.Some?);
    }

    /** The timer of waiter `i` is scheduled and has neither fired nor been cleared. */
    ghost predicate TimerLive(i: WaiterId)
      reads this
    {
      i < |waiters| && State().TimerLive(i)
    }

    /**
     * The timeout callback of waiter `id`, run when its timer fires: takes the
     * waiter's entry out of the list if `indexOf` finds it and resolves the
     * waiter with `undefined`. A timer fires only while it is live.
     */
    method TimerFire(id: WaiterId)
      requires Valid() && TimerLive(id)
      modifies this
      ensures Valid() && State() == AfterTimerFire(old(State()), id)
      ensures waitingList == Without(old(waitingList), id)
      ensures id !in old(resolved) && resolved == old(resolved)[id := None]
      ensures old(State().NoHungWaiter()) ==> State().NoHungWaiter()
    {
      var index := IndexOf(waitingList, id);
      if index != -1 {
        waitingList := waitingList[..index] + waitingList[index + 1..];
      }
      // the runtime spends a one-shot timer as it fires
      liveTimers := liveTimers - {waiters[id].timer.value};
      Settle(id, None);
      ghost var before := old(State());
      assert State() == AfterTimerFire(before, id);
      LockProperties.TimerFirePreserves(before, id);
      LockProperties.TimerFireResolvesOnlyItself(before, id);
    }

    /**
     * `release(value)`: swaps the list for an empty one, then for each entry of
     * the old list in order clears its timer and resolves its waiter with `value`.
     */
    method Release(value: Option<T>)
      requires Valid()
      modifies this
      ensures Valid() && State() == AfterRelease(old(State()), value)
      ensures waitingList == []
      ensures forall e :: e in old(waitingList) ==> e.id in resolved && resolved[e.id] == value && !TimerLive(e.id)
      ensures old(waitingList) == [] ==> State() == old(State())
      ensures old(State().NoHungWaiter()) ==> State().NoHungWaiter()
    {
      var oldList := waitingList;
      waitingList := [];
      Drain(oldList, value);
      ghost var before := old(State());
      assert State() == AfterRelease(before, value);
      LockProperties.ReleasePreserves(before, value);
      LockProperties.ReleaseResolvesSnapshot(before, value);
    }

    /**
     * The `for...of` loop of `release`: for each entry of `list` in order,
     * clears its timer if it has one and resolves its waiter with `value`.
     */
    method Drain(list: seq<Entry>, value: Option<T>)
      modifies this`resolved, this`resolveCalls, this`liveTimers
      ensures resolved == SettleAll(old(resolved), list, value)
      ensures resolveCalls == old(resolveCalls) + Ids(list)
      ensures liveTimers == old(liveTimers) - TimerSet(list)
    {
      var k := 0;
      ghost var done: seq<Entry> := [];
      while k < |list|
        invariant 0 <= k <= |list| && done == list[..k]
        invariant resolved == SettleAll(old(resolved), done, value)
        invariant resolveCalls == old(resolveCalls) + Ids(done)
        invariant liveTimers == old(liveTimers) - TimerSet(done)
      {
        var waiter := list[k];
        if waiter.timer.Some? {
          liveTimers := liveTimers - {waiter.timer.value};
        }
        assert liveTimers == old(liveTimers) - TimerSet(done + [waiter]) by {
          TimerSetSnoc(done, waiter);
        }
        Settle(waiter.id, value);
        assert resolved == SettleAll(old(resolved), done + [waiter], value) by {
          SettleAllSnoc(old(resolved), done, waiter, value);
        }
        assert resolveCalls == old(resolveCalls) + Ids(done + [waiter]) by {
          IdsSnoc(done, waiter);
        }
        done := done + [waiter];
        k := k + 1;
      }
      assert list[..k] == list;
    }

    /**
     * Replaces the waiting list by an empty one from outside, as one test
     * does; nothing else changes, so timers still fire for the cleared waiters.
     */
    method ClearListExternally()
      requires Valid()
      modifies this`waitingList
      ensures Valid() && State() == AfterClear(old(State()))
      ensures old(State().NoHungWaiter()) ==>
        (State().NoHungWaiter() <==> forall e :: e in old(waitingList) ==> e.timer.Some?)
    {
      waitingList := [];
      LockProperties.ClearPreserves(old(State()));
    }
  }
}
