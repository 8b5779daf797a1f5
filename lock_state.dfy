/**
 * The state of a wait lock as a value, and what each event does to it: a
 * `wait`, a timer firing, a `release`, and the waiting list being replaced
 * from outside. The invariants below hold in every reachable state.
 */
module LockStates {
  import opened Wrappers
  import opened WaitingList

  /**
   * `waitingList`: the entries still waiting for a release, in arrival order;
   * `waiters`: every waiter record created, indexed by waiter (a pending timer
   * callback holds on to its record); `resolved`: the value each settled
   * promise resolved with; `liveTimers`: the timers scheduled and neither
   * fired nor cleared; `nextTimer`: the next fresh timer token;
   * `resolveCalls`: every call of a waiter's `resolve`, in order.
   */
  datatype LockState<T> = LockState(
    waitingList: seq<Entry>,
    waiters: seq<Entry>,
    resolved: map<WaiterId, Option<T>>,
    liveTimers: set<TimerId>,
    nextTimer: TimerId,
    resolveCalls: seq<WaiterId>)
  {
    /** The timer of waiter `i` is scheduled and has neither fired nor been cleared. */
    predicate TimerLive(i: WaiterId)
      requires i < |waiters|
    {
      waiters[i].timer.Some? && waiters[i].timer.value in liveTimers
    }

    /** Waiter records are known by their position, and every timer is a fresh token. */
    ghost predicate RecordsValid() {
      && (forall i :: 0 <= i < |waiters| ==> waiters[i].id == i)
      && (forall i :: 0 <= i < |waiters| && waiters[i].timer.Some? ==> waiters[i].timer.value < nextTimer)
      && (forall i, j :: 0 <= i < j < |waiters| && waiters[i].timer.Some? && waiters[j].timer.Some? ==>
            waiters[i].timer.value != waiters[j].timer.value)
      && (forall t :: t in liveTimers ==> t < nextTimer)
    }

    /** The list holds distinct, known and unresolved waiters, whose timers are live. */
    ghost predicate ListValid() {
      && DistinctIds(waitingList)
      && (forall e :: e in waitingList ==> e.id < |waiters| && waiters[e.id] == e && e.id !in resolved)
      && (forall e :: e in waitingList && e.timer.Some? ==> e.timer.value in liveTimers)
    }

    /**
     * A timer that can still fire belongs to an unresolved waiter, and the
     * promises are resolved exactly by the calls of `resolve`, each waiter at
     * most once.
     */
    ghost predicate SettledOnce() {
      && (forall i :: 0 <= i < |waiters| && TimerLive(i) ==> i !in resolved)
      && (forall i :: i in resolved ==> i < |waiters|)
      && (forall i :: i in resolved <==> i in resolveCalls)
      && NoDuplicates(resolveCalls)
    }

    ghost predicate Valid() {
      RecordsValid() && ListValid() && SettledOnce()
    }

    /** The list holds its waiters in the order `wait` created them. */
    ghost predicate InArrivalOrder() {
      Increasing(waitingList)
    }

    /** Every waiter ever created is resolved or still listed for a release. */
    ghost predicate ListedOrSettled() {
      forall i :: 0 <= i < |waiters| ==> i in resolved || i in IdSet(waitingList)
    }

    /** Every waiter is resolved, or still listed for a release, or has a live timer that will resolve it. */
    ghost predicate NoHungWaiter() {
      forall i :: 0 <= i < |waiters| ==> i in resolved || i in IdSet(waitingList) || TimerLive(i)
    }
  }

  /** A new lock: nothing waits, nothing is scheduled. */
  function Fresh<T>(): LockState<T> {
    LockState([], [], map[], {}, 0, [])
  }

  /** `wait`: a new waiter, with a newly scheduled timer when the call is `timed`, joins the end of the list. */
  function AfterWait<T>(s: LockState<T>, timed: bool): LockState<T> {
    var timer := if timed then Some(s.nextTimer) else None;
    var e := Entry(|s.waiters|, timer);
    s.(waitingList := s.waitingList + [e],
       waiters := s.waiters + [e],
       liveTimers := if timed then s.liveTimers + {s.nextTimer} else s.liveTimers,
       nextTimer := if timed then s.nextTimer + 1 else s.nextTimer)
  }

  /**
   * The timer of waiter `id` fires: the runtime spends it, the callback takes
   * the waiter out of the list if `indexOf` finds it and resolves it with
   * `undefined`.
   */
  function AfterTimerFire<T>(s: LockState<T>, id: WaiterId): LockState<T>
    requires id < |s.waiters| && s.waiters[id].timer.Some?
  {
    s.(waitingList := TimeoutRemove(s.waitingList, id),
       liveTimers := s.liveTimers - {s.waiters[id].timer.value},
       resolved := Settle(s.resolved, id, None),
       resolveCalls := s.resolveCalls + [id])
  }

  /** `release(v)`: the list becomes empty; each old entry, in order, has its timer cleared and is resolved with `v`. */
  function AfterRelease<T>(s: LockState<T>, v: Option<T>): LockState<T> {
    s.(waitingList := [],
       resolved := SettleAll(s.resolved, s.waitingList, v),
       liveTimers := s.liveTimers - TimerSet(s.waitingList),
       resolveCalls := s.resolveCalls + Ids(s.waitingList))
  }

  /** The waiting list is replaced by an empty one from outside the lock. */
  function AfterClear<T>(s: LockState<T>): LockState<T> {
    s.(waitingList := [])
  }

  /** What can happen to a lock through its public interface. */
  datatype Event<T> = WaitEvent(timed: bool) | TimerEvent(id: WaiterId) | ReleaseEvent(value: Option<T>)

  /** A timer fires only while it is scheduled and not cleared. */
  predicate Enabled<T>(s: LockState<T>, ev: Event<T>) {
    ev.TimerEvent? ==> ev.id < |s.waiters| && s.TimerLive(ev.id)
  }

  function Step<T>(s: LockState<T>, ev: Event<T>): LockState<T>
    requires Enabled(s, ev)
  {
    match ev
    case WaitEvent(timed) => AfterWait(s, timed)
    case TimerEvent(id) => AfterTimerFire(s, id)
    case ReleaseEvent(v) => AfterRelease(s, v)
  }

  /** The state after the events `evs`, in order, or None when one of them could not happen. */
  function Run<T>(s: LockState<T>, evs: seq<Event<T>>): Option<LockState<T>>
    decreases |evs|
  {
    if evs == [] then Some(s)
    else if !Enabled(s, evs[0]) then None
    else Run(Step(s, evs[0]), evs[1..])
  }
}

module LockProperties {
  import opened Wrappers
  import opened WaitingList
  import opened LockStates

  /** A new lock satisfies the invariants and has no waiter at all. */
  lemma FreshIsValid<T>()
    ensures Fresh<T>().Valid() && Fresh<T>().NoHungWaiter()
    ensures Fresh<T>().waitingList == [] && Fresh<T>().waiters == []
  {
  }

  /** `wait` keeps the invariants and leaves no waiter hung. */
  lemma WaitPreserves<T>(s: LockState<T>, timed: bool)
    requires s.Valid()
    ensures var t := AfterWait(s, timed);
      && t.Valid()
      && (s.NoHungWaiter() ==> t.NoHungWaiter())
  {
    var t := AfterWait(s, timed);
    var n := |s.waiters|;
    assert t.RecordsValid() by {
      assert forall i :: 0 <= i < n ==> t.waiters[i] == s.waiters[i];
    }
    assert t.ListValid() by {
      forall j, k | 0 <= j < k < |t.waitingList| ensures t.waitingList[j].id != t.waitingList[k].id {
        if k == |s.waitingList| {
          assert t.waitingList[j] in s.waitingList;
        } else {
          assert t.waitingList[j] == s.waitingList[j] && t.waitingList[k] == s.waitingList[k];
        }
      }
    }
    assert t.SettledOnce() by {
      assert forall i :: 0 <= i < n ==> (t.TimerLive(i) <==> s.TimerLive(i));
    }
    if s.NoHungWaiter() {
      assert t.NoHungWaiter() by {
        assert forall i :: 0 <= i < n ==> (t.TimerLive(i) <==> s.TimerLive(i));
        assert IdSet(t.waitingList) == IdSet(s.waitingList) + {n};
      }
    }
  }

  /** What `wait` promises its caller: one new entry at the end, all earlier ones unchanged and in order. */
  lemma WaitAppends<T>(s: LockState<T>, timed: bool)
    requires s.Valid()
    ensures var t := AfterWait(s, timed); var id := |s.waiters|;
      && |t.waitingList| == |s.waitingList| + 1
      && t.waitingList[..|s.waitingList|] == s.waitingList
      && t.waitingList[|s.waitingList|] == t.waiters[id]
      && id !in IdSet(s.waitingList) && id !in t.resolved
      && t.resolved == s.resolved
      && (t.waiters[id].timer.Some? <==> timed)
      && (t.TimerLive(id) <==> timed)
  {
    var t := AfterWait(s, timed);
    assert t.waitingList[..|s.waitingList|] == s.waitingList;
  }

  /**
   * A timer firing keeps the invariants and leaves no waiter hung: it
   * resolves a waiter that was unresolved, so no promise is resolved twice.
   */
  lemma TimerFirePreserves<T>(s: LockState<T>, id: WaiterId)
    requires s.Valid() && id < |s.waiters| && s.TimerLive(id)
    ensures var t := AfterTimerFire(s, id);
      && t.Valid()
      && (s.NoHungWaiter() ==> t.NoHungWaiter())
  {
    TimerFireKeepsList(s, id);
    TimerFireSettlesOnce(s, id);
    if s.NoHungWaiter() {
      TimerFireLeavesNoHung(s, id);
    }
  }

  /** After a timer fires the list still holds distinct, unresolved waiters with live timers. */
  lemma TimerFireKeepsList<T>(s: LockState<T>, id: WaiterId)
    requires s.RecordsValid() && s.ListValid() && id < |s.waiters| && s.waiters[id].timer.Some?
    ensures AfterTimerFire(s, id).ListValid()
  {
    TimeoutRemoveIsWithout(s.waitingList, id);
    WithoutDistinct(s.waitingList, id);
    WithoutMembers(s.waitingList, id);
  }

  /** The waiter a live timer resolves had not been resolved, and no other waiter's timer is affected. */
  lemma TimerFireSettlesOnce<T>(s: LockState<T>, id: WaiterId)
    requires s.RecordsValid() && s.SettledOnce() && id < |s.waiters| && s.TimerLive(id)
    ensures AfterTimerFire(s, id).SettledOnce()
  {
    var t := AfterTimerFire(s, id);
    assert id !in s.resolved && id !in s.resolveCalls;
    assert forall i :: 0 <= i < |s.waiters| && i != id ==> (t.TimerLive(i) <==> s.TimerLive(i));
  }

  /** Only the waiter a timer resolves leaves the list, and its timer is the only one spent. */
  lemma TimerFireLeavesNoHung<T>(s: LockState<T>, id: WaiterId)
    requires s.RecordsValid() && s.ListValid() && s.NoHungWaiter() && id < |s.waiters| && s.waiters[id].timer.Some?
    ensures AfterTimerFire(s, id).NoHungWaiter()
  {
    var t := AfterTimerFire(s, id);
    TimeoutRemoveIsWithout(s.waitingList, id);
    WithoutMembers(s.waitingList, id);
    assert IdSet(t.waitingList) == IdSet(s.waitingList) - {id};
    assert forall i :: 0 <= i < |s.waiters| && i != id ==> (t.TimerLive(i) <==> s.TimerLive(i));
  }

  /**
   * When a waiter's timer fires, only that waiter's entry leaves the list,
   * the others keep their order, and the waiter, unresolved until then,
   * resolves to `undefined`; if the entry was no longer listed the list is
   * unchanged and the waiter still resolves.
   */
  lemma TimerFireResolvesOnlyItself<T>(s: LockState<T>, id: WaiterId)
    requires s.Valid() && id < |s.waiters| && s.TimerLive(id)
    ensures var t := AfterTimerFire(s, id);
      && t.waitingList == Without(s.waitingList, id)
      && (id in IdSet(s.waitingList) ==> |t.waitingList| == |s.waitingList| - 1)
      && (id !in IdSet(s.waitingList) ==> t.waitingList == s.waitingList)
      && id !in s.resolved
      && t.resolved == s.resolved[id := None]
      && !t.TimerLive(id)
  {
    var t := AfterTimerFire(s, id);
    TimeoutRemoveIsWithout(s.waitingList, id);
    var index := IndexOf(s.waitingList, id);
    if id !in IdSet(s.waitingList) {
      WithoutAbsent(s.waitingList, id);
    } else {
      assert index != -1;
    }
  }

  /** `release` keeps the invariants and leaves no waiter hung. */
  lemma ReleasePreserves<T>(s: LockState<T>, v: Option<T>)
    requires s.Valid()
    ensures var t := AfterRelease(s, v);
      && t.Valid()
      && (s.NoHungWaiter() ==> t.NoHungWaiter())
  {
    var t := AfterRelease(s, v);
    SettleAllOutcome(s.resolved, s.waitingList, v);
    assert t.RecordsValid();
    assert t.ListValid();
    ListedTimers(s);
    ReleaseCallsOnce(s, v);
    IdsIdSet(s.waitingList);
    assert t.SettledOnce();
    if s.NoHungWaiter() {
      forall i | 0 <= i < |t.waiters| ensures i in t.resolved || i in IdSet(t.waitingList) || t.TimerLive(i) {
        assert s.TimerLive(i) && !t.TimerLive(i) ==> i in IdSet(s.waitingList);
      }
    }
  }

  /** A timer held by a listed entry belongs to no other waiter. */
  lemma ListedTimers<T>(s: LockState<T>)
    requires s.Valid()
    ensures forall i :: 0 <= i < |s.waiters| && s.waiters[i].timer.Some? && s.waiters[i].timer.value in TimerSet(s.waitingList) ==>
      i in IdSet(s.waitingList)
  {
    forall i | 0 <= i < |s.waiters| && s.waiters[i].timer.Some? && s.waiters[i].timer.value in TimerSet(s.waitingList)
      ensures i in IdSet(s.waitingList)
    {
      var e :| e in s.waitingList && e.timer.Some? && e.timer.value == s.waiters[i].timer.value;
      assert s.waiters[e.id] == e;
    }
  }

  /** The calls `release` adds name each waiter once, and none resolved before. */
  lemma ReleaseCallsOnce<T>(s: LockState<T>, v: Option<T>)
    requires s.Valid()
    ensures NoDuplicates(AfterRelease(s, v).resolveCalls)
  {
    var c, d := s.resolveCalls, Ids(s.waitingList);
    IdsIdSet(s.waitingList);
    IdsDistinct(s.waitingList);
    forall j, k | 0 <= j < k < |c + d| ensures (c + d)[j] != (c + d)[k] {
      if k >= |c| && j < |c| {
        assert (c + d)[j] in s.resolved;
        assert (c + d)[k] in IdSet(s.waitingList);
      }
    }
  }

  /**
   * `release(v)` resolves every waiter of the list it swapped out with `v`,
   * clears all their timers so none of them can later time out, leaves the
   * promises already settled as they were, and calls `resolve` in list
   * order. On an empty list it changes nothing.
   */
  lemma ReleaseResolvesSnapshot<T>(s: LockState<T>, v: Option<T>)
    requires s.Valid()
    ensures var t := AfterRelease(s, v);
      && t.waitingList == []
      && (forall e :: e in s.waitingList ==> e.id in t.resolved && t.resolved[e.id] == v)
      && (forall i :: i in t.resolved && i !in IdSet(s.waitingList) ==> i in s.resolved && t.resolved[i] == s.resolved[i])
      && (forall e :: e in s.waitingList ==> !t.TimerLive(e.id))
      && t.resolveCalls == s.resolveCalls + Ids(s.waitingList)
      && (s.waitingList == [] ==> t == s)
  {
    var t := AfterRelease(s, v);
    SettleAllOutcome(s.resolved, s.waitingList, v);
    if s.waitingList == [] {
      assert TimerSet(s.waitingList) == {};
      assert t.resolveCalls == s.resolveCalls;
    }
  }

  /**
   * Replacing the list from outside keeps the invariants; every cleared
   * waiter is then left to its timer, so no waiter hangs exactly when every
   * cleared entry had one.
   */
  lemma ClearPreserves<T>(s: LockState<T>)
    requires s.Valid()
    ensures var t := AfterClear(s);
      && t.Valid()
      && (s.NoHungWaiter() ==> (t.NoHungWaiter() <==> forall e :: e in s.waitingList ==> e.timer.Some?))
  {
    var t := AfterClear(s);
    if s.NoHungWaiter() && !t.NoHungWaiter() {
      var i :| 0 <= i < |t.waiters| && !(i in t.resolved || i in IdSet(t.waitingList) || t.TimerLive(i));
      var e :| e in s.waitingList && e.id == i;
      assert s.waiters[i] == e;
    }
  }

  /**
   * After a release the lock is as good as new: its list is a new lock's,
   * and a following wait leaves exactly that waiter's entry listed,
   * unresolved, with a live timer exactly when timed.
   */
  lemma ReleaseThenWaitLikeFresh<T>(s: LockState<T>, v: Option<T>, timed: bool)
    requires s.Valid()
    ensures var r := AfterRelease(s, v); var t := AfterWait(r, timed); var id := |s.waiters|;
      && r.waitingList == Fresh<T>().waitingList
      && t.waitingList == [t.waiters[id]]
      && id !in t.resolved
      && (t.TimerLive(id) <==> timed)
  {
    ReleasePreserves(s, v);
    WaitAppends(AfterRelease(s, v), timed);
  }

  /** Every event keeps the invariants and leaves no waiter hung. */
  lemma StepPreserves<T>(s: LockState<T>, ev: Event<T>)
    requires s.Valid() && Enabled(s, ev)
    ensures Step(s, ev).Valid()
    ensures s.NoHungWaiter() ==> Step(s, ev).NoHungWaiter()
    ensures forall i :: i in s.resolved ==> i in Step(s, ev).resolved && Step(s, ev).resolved[i] == s.resolved[i]
  {
    if ev.ReleaseEvent? {
      SettleAllOutcome(s.resolved, s.waitingList, ev.value);
    }
    match ev
    case WaitEvent(timed) => WaitPreserves(s, timed);
    case TimerEvent(id) => TimerFirePreserves(s, id);
    case ReleaseEvent(v) => ReleasePreserves(s, v);
  }

  /** Any sequence of events keeps the invariants, leaves no waiter hung and never changes a settled promise. */
  lemma {:induction false} RunPreserves<T>(s: LockState<T>, evs: seq<Event<T>>)
    requires s.Valid() && s.NoHungWaiter() && Run(s, evs).Some?
    ensures Run(s, evs).value.Valid() && Run(s, evs).value.NoHungWaiter()
    ensures forall i :: i in s.resolved ==> i in Run(s, evs).value.resolved && Run(s, evs).value.resolved[i] == s.resolved[i]
    decreases |evs|
  {
    if evs != [] {
      StepPreserves(s, evs[0]);
      RunPreserves(Step(s, evs[0]), evs[1..]);
    }
  }

  /** `wait` appends a waiter newer than every listed one, and lists it. */
  lemma WaitKeepsOrder<T>(s: LockState<T>, timed: bool)
    requires s.ListValid() && s.InArrivalOrder() && s.ListedOrSettled()
    ensures AfterWait(s, timed).InArrivalOrder() && AfterWait(s, timed).ListedOrSettled()
  {
    var t := AfterWait(s, timed);
    var n := |s.waiters|;
    forall j, k | 0 <= j < k < |t.waitingList| ensures t.waitingList[j].id < t.waitingList[k].id {
      if k == |s.waitingList| {
        assert t.waitingList[j] in s.waitingList;
      } else {
        assert t.waitingList[j] == s.waitingList[j] && t.waitingList[k] == s.waitingList[k];
      }
    }
    assert IdSet(t.waitingList) == IdSet(s.waitingList) + {n};
  }

  /** A timer firing removes one waiter, keeps the others in order, and resolves the one it removes. */
  lemma TimerFireKeepsOrder<T>(s: LockState<T>, id: WaiterId)
    requires s.ListValid() && s.InArrivalOrder() && s.ListedOrSettled()
    requires id < |s.waiters| && s.waiters[id].timer.Some?
    ensures AfterTimerFire(s, id).InArrivalOrder() && AfterTimerFire(s, id).ListedOrSettled()
  {
    var t := AfterTimerFire(s, id);
    TimeoutRemoveIsWithout(s.waitingList, id);
    WithoutIncreasing(s.waitingList, id);
    WithoutMembers(s.waitingList, id);
    assert IdSet(t.waitingList) == IdSet(s.waitingList) - {id};
  }

  /** `release` settles every listed waiter, so every waiter created so far is settled. */
  lemma ReleaseKeepsOrder<T>(s: LockState<T>, v: Option<T>)
    requires s.ListedOrSettled()
    ensures AfterRelease(s, v).InArrivalOrder() && AfterRelease(s, v).ListedOrSettled()
    ensures forall i :: 0 <= i < |s.waiters| ==> i in AfterRelease(s, v).resolved
  {
    SettleAllOutcome(s.resolved, s.waitingList, v);
  }

  /** Every event keeps the list in arrival order and every waiter listed or settled. */
  lemma StepKeepsOrder<T>(s: LockState<T>, ev: Event<T>)
    requires s.Valid() && s.InArrivalOrder() && s.ListedOrSettled() && Enabled(s, ev)
    ensures Step(s, ev).InArrivalOrder() && Step(s, ev).ListedOrSettled()
  {
    match ev
    case WaitEvent(timed) => WaitKeepsOrder(s, timed);
    case TimerEvent(id) => TimerFireKeepsOrder(s, id);
    case ReleaseEvent(v) => ReleaseKeepsOrder(s, v);
  }

  /** Along any sequence of events the list stays in arrival order and no waiter is neither listed nor settled. */
  lemma {:induction false} RunKeepsOrder<T>(s: LockState<T>, evs: seq<Event<T>>)
    requires s.Valid() && s.InArrivalOrder() && s.ListedOrSettled() && Run(s, evs).Some?
    ensures Run(s, evs).value.InArrivalOrder() && Run(s, evs).value.ListedOrSettled()
    decreases |evs|
  {
    if evs != [] {
      StepPreserves(s, evs[0]);
      StepKeepsOrder(s, evs[0]);
      RunKeepsOrder(Step(s, evs[0]), evs[1..]);
    }
  }

  /** Running one more event `e` is one more step from where `evs` ended. */
  lemma {:induction false} RunSnoc<T>(s: LockState<T>, evs: seq<Event<T>>, e: Event<T>)
    ensures Run(s, evs + [e]) ==
      if Run(s, evs).None? then None
      else if Enabled(Run(s, evs).value, e) then Some(Step(Run(s, evs).value, e))
      else None
    decreases |evs|
  {
    if evs == [] {
      assert evs + [e] == [e];
      assert [e][1..] == [];
    } else {
      assert (evs + [e])[0] == evs[0];
      assert (evs + [e])[1..] == evs[1..] + [e];
      if Enabled(s, evs[0]) {
        RunSnoc(Step(s, evs[0]), evs[1..], e);
      }
    }
  }

  /**
   * Exactly-once resolution: along any sequence of waits, timer firings and
   * releases from a new lock, every promise settled was resolved by exactly
   * one call of `resolve`, every waiter not yet resolved is still listed for
   * a release, the list is in arrival order, and no live timer belongs to a
   * settled waiter, so no waiter is resolved both by its timeout and by a
   * release.
   */
  lemma ExactlyOnce<T>(evs: seq<Event<T>>)
    requires Run(Fresh<T>(), evs).Some?
    ensures var t := Run(Fresh<T>(), evs).value;
      && NoDuplicates(t.resolveCalls)
      && (forall i :: i in t.resolved <==> i in t.resolveCalls)
      && (forall i :: 0 <= i < |t.waiters| ==> i in t.resolved || i in IdSet(t.waitingList))
      && (forall j, k :: 0 <= j < k < |t.waitingList| ==> t.waitingList[j].id < t.waitingList[k].id)
      && (forall i :: 0 <= i < |t.waiters| && t.TimerLive(i) ==> i !in t.resolved)
  {
    FreshIsValid<T>();
    RunPreserves(Fresh<T>(), evs);
    RunKeepsOrder(Fresh<T>(), evs);
  }

  /**
   * A release resumes every suspended caller: after any sequence of events
   * from a new lock followed by a `release(v)`, every waiter created so far
   * is resolved and the list is empty.
   */
  lemma ReleaseResolvesAll<T>(evs: seq<Event<T>>, v: Option<T>)
    requires Run(Fresh<T>(), evs).Some?
    ensures Run(Fresh<T>(), evs + [ReleaseEvent(v)]).Some?
    ensures var t := Run(Fresh<T>(), evs + [ReleaseEvent(v)]).value;
      && t.waitingList == []
      && forall i :: 0 <= i < |t.waiters| ==> i in t.resolved
  {
    FreshIsValid<T>();
    RunPreserves(Fresh<T>(), evs);
    RunKeepsOrder(Fresh<T>(), evs);
    RunSnoc(Fresh<T>(), evs, ReleaseEvent(v));
    ReleaseKeepsOrder(Run(Fresh<T>(), evs).value, v);
  }

  /**
   * On a list in arrival order, the calls of `resolve` that `release` adds
   * name the released waiters in the order `wait` created them.
   */
  lemma ReleaseInArrivalOrder<T>(s: LockState<T>, v: Option<T>)
    requires s.InArrivalOrder()
    ensures var t := AfterRelease(s, v);
      && |t.resolveCalls| == |s.resolveCalls| + |s.waitingList|
      && (forall j, k :: |s.resolveCalls| <= j < k < |t.resolveCalls| ==> t.resolveCalls[j] < t.resolveCalls[k])
  {
    IdsAt(s.waitingList);
    IdsIncreasing(s.waitingList);
  }
}
