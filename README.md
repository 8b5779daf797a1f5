# WaitLock in Dafny

This project models `WaitLock<T>` from the `wait-lock` TypeScript library. It is a broadcast wait gate.
`wait(ms?, unref?)` adds an entry for a new waiter to the end of a private `waitingList` and hands back a promise.
`release(value?)` swaps `waitingList` for an empty list. It then walks the old list in order, clears each entry's timer
if it has one, and resolves the waiter with `value` (or with `undefined`). When a waiter's timeout fires, its callback
uses `indexOf` and `splice` to remove that waiter's entry if it is still listed. It then resolves the waiter with
`undefined`, whether or not the entry was found.

The JavaScript runtime is replaced by explicit state:

- a promise is an entry in `resolved: map<WaiterId, Option<T>>`. `None` stands for `undefined`. As with a real
  promise, only the first resolution takes effect (`WaitingList.Settle`);
- a timer is a token. It is live in `liveTimers` until it fires or is cleared. A firing is the event
  `WaitLock.TimerFire`, which can happen only while the timer is live;
- `waiters` holds every waiter record ever created. This is what a pending timer callback keeps hold of, so a timer
  can still resolve a waiter whose entry has left the list;
- the ghost log `resolveCalls` records every call of a waiter's `resolve`, including calls that have no effect.
  "Resolved exactly once" becomes: this log never repeats a waiter, and it names exactly the settled waiters.

Modules:

- `WaitingList` (waiting_list.dfy) holds the list entries, `indexOf`, the reference filter `Without`, and the release
  fold `SettleAll`, with their lemmas.
- `LockStates` (lock_state.dfy) holds the whole lock as a value `LockState`. It has the invariants `Valid` and
  `NoHungWaiter`. It also has `InArrivalOrder` and `ListedOrSettled`, which hold along every `Run`. An outside reset of
  the list can break `ListedOrSettled`. It has one transition function per event: `AfterWait`, `AfterTimerFire`, `AfterRelease` and
  `AfterClear`. `Run` replays a sequence of events.
- `LockProperties` (lock_state.dfy) holds the preservation lemmas and the exactly-once theorem.
- `WaitLocks` (wait_lock.dfy) holds the class `WaitLock`, with fields `waitingList`, `waiters`, `resolved`,
  `liveTimers` and `nextTimer`. Each event method (`Wait`, `TimerFire`, `Release`, `ClearListExternally`) is proved
  to move `State()` exactly as the matching transition function does. The `for...of` loop of `release` is the method
  `Drain`, which `Release` calls. `Drain` and the promise helper `Settle` state only the fields they change.
- `WaitLockScenarios` (scenarios.dfy) holds clients that replay the library's test cases through the method contracts.

The documented behaviour of `release` does not promise any order in which waiters resume. The code resolves them in list order, and the list holds its waiters in arrival order. The model follows the code: `ReleaseResolvesSnapshot` states list order, `ExactlyOnce` proves that the list stays in arrival order, and `ReleaseInArrivalOrder` combines the two.

## Model

| member | source | states |
|---|---|---|
| `WaitLocks.WaitLock.constructor` | src/index.ts:8-14 | a new lock has an empty waiting list, no waiters, no settled promise and no timer, and satisfies the invariants |
| `WaitLocks.WaitLock.Wait` | src/index.ts:22-39 | appends exactly one entry for a fresh waiter at the end of the list and changes no earlier entry; the waiter is unresolved; it gets a live timer exactly when `ms` is given (0 included); `unref` has no effect; the new state is `AfterWait` of the old one |
| `WaitLocks.WaitLock.TimerFire` | src/index.ts:27-31 | the timeout callback removes only this waiter's entry and keeps the others in order; the waiter, which was unresolved, resolves to `undefined`; the invariants hold afterwards |
| `WaitLocks.WaitLock.Release` | src/index.ts:45-52 | the list becomes empty; every entry of the pre-call list resolves with `value` and its timer is no longer live; calling it on an empty list changes nothing; the new state is `AfterRelease` of the old one |
| `WaitLocks.WaitLock.Drain` | src/index.ts:48-51 | the loop clears each entry's timer and resolves its waiter with `value`, in list order; the result equals the fold `SettleAll` |
| `WaitLocks.WaitLock.Settle` | src/index.ts:3 | a waiter's `resolve` keeps the first value it is given; every call is logged |
| `WaitLocks.WaitLock.ClearListExternally` | test/index.spec.ts:140-145 | replacing the list from outside changes nothing else and keeps the invariants; no waiter is left hung exactly when every cleared entry had a timer |
| `WaitingList.IndexOf` | src/index.ts:28 | `indexOf` gives -1 exactly when the waiter is not listed, and otherwise the first position that holds it |
| `WaitingList.WithoutMembers` | src/index.ts:27-30 | the reference removal keeps exactly the entries of the other waiters |
| `WaitingList.WithoutAbsent` | src/index.ts:29 | removing a waiter that is not listed leaves the list unchanged |
| `WaitingList.TimeoutRemoveIsWithout` | src/index.ts:28-29 | on a list of distinct waiters, `indexOf` followed by `splice(index, 1)` equals removing that waiter and keeping the rest in order |
| `WaitingList.WithoutAppend` | src/index.ts:28-29 | removal distributes over concatenation |
| `WaitingList.WithoutAppended` | src/index.ts:34-35 | timing out the waiter pushed last gives back the list from before its `wait` |
| `WaitingList.Settle` | src/index.ts:30 | resolving a settled promise changes nothing; resolving an unsettled one sets its value and leaves all others |
| `WaitingList.SettleAllOutcome` | src/index.ts:48-51 | resolving the waiters of a list with `v` settles exactly the unsettled ones, each with `v`, and leaves every settled promise as it was |
| `WaitingList.TimeoutRemove` | src/index.ts:28-29 | the list after the timeout's `indexOf` and, when it found the waiter, `splice(index, 1)`; `TimeoutRemoveIsWithout` relates it to the reference removal `Without` |
| `WaitingList.SettleAll` | src/index.ts:48-51 | the promises after the release loop resolves each entry of a list with `v`, first to last; `SettleAllOutcome` states what it settles |
| `WaitingList.WithoutIncreasing` | src/index.ts:28-29 | the timeout's removal keeps the remaining waiters in the order they were created |
| `WaitingList.IdsIncreasing` | src/index.ts:48 | on a list in creation order, the release loop visits waiters in creation order |
| `WaitingList.IdsAt` | src/index.ts:48 | the release order names the waiter of each entry, position by position (list order) |
| `LockStates.AfterWait` | src/index.ts:22-39 | the state after `wait`; `WaitAppends` and `WaitPreserves` state what it does |
| `LockStates.AfterTimerFire` | src/index.ts:27-31 | the state after a waiter's timer fires; `TimerFireResolvesOnlyItself` and `TimerFirePreserves` state what it does |
| `LockStates.AfterRelease` | src/index.ts:45-52 | the state after `release(v)`; `ReleaseResolvesSnapshot` and `ReleasePreserves` state what it does |
| `LockStates.AfterClear` | test/index.spec.ts:142 | the state after the list is replaced from outside; `ClearPreserves` states what it does |
| `LockProperties.FreshIsValid` | src/index.ts:11-14 | the initial state satisfies the invariants and has no waiters |
| `LockProperties.WaitPreserves` | src/index.ts:22-39 | `wait` keeps the invariants and leaves no waiter hung |
| `LockProperties.WaitAppends` | src/index.ts:25-35 | `wait` adds one entry at the end, earlier entries unchanged and in order; the waiter is fresh and unresolved; its timer exists and is live exactly when the call was timed |
| `LockProperties.TimerFirePreserves` | src/index.ts:27-31 | a timer firing keeps the invariants and leaves no waiter hung |
| `LockProperties.TimerFireResolvesOnlyItself` | src/index.ts:27-31 | a firing removes only its own entry; if the entry was not listed the list is unchanged and the waiter still resolves to `undefined`; the waiter was unresolved before; its timer is spent |
| `LockProperties.ReleasePreserves` | src/index.ts:45-52 | `release` keeps the invariants and leaves no waiter hung |
| `LockProperties.ReleaseResolvesSnapshot` | src/index.ts:45-51 | the list becomes empty; every waiter of the old list resolves with `v`; promises settled earlier keep their values; no released waiter keeps a live timer; `resolve` is called in list order; an empty release is the identity |
| `LockProperties.ClearPreserves` | test/index.spec.ts:140-145 | an external reset keeps the invariants; it leaves no waiter hung exactly when every cleared entry had a timer |
| `LockProperties.ReleaseThenWaitLikeFresh` | test/index.spec.ts:147-162 | after `release` the list is as on a new lock; after a following `wait` the list holds exactly that waiter's entry, which is unresolved and has a live timer exactly when the wait was timed |
| `LockProperties.StepPreserves` | src/index.ts:22-52 | each event keeps the invariants and leaves no waiter hung; a settled promise never changes |
| `LockProperties.RunPreserves` | src/index.ts:22-52 | any sequence of waits, timer firings and releases keeps the invariants, leaves no waiter hung and never changes a settled promise |
| `LockProperties.WaitKeepsOrder` | src/index.ts:34-35 | `wait` appends a waiter newer than every listed one, so the list stays in arrival order and the new waiter is listed |
| `LockProperties.TimerFireKeepsOrder` | src/index.ts:27-31 | a timer firing keeps the rest of the list in arrival order, and the waiter it removes is settled |
| `LockProperties.ReleaseKeepsOrder` | src/index.ts:45-51 | after `release` every waiter created so far is settled |
| `LockProperties.StepKeepsOrder` | src/index.ts:22-52 | every event keeps the list in arrival order and every waiter listed or settled |
| `LockProperties.RunKeepsOrder` | src/index.ts:22-52 | along any sequence of events the list stays in arrival order and every waiter is listed or settled |
| `LockProperties.ReleaseInArrivalOrder` | src/index.ts:45-51 | on a list in arrival order, the calls of `resolve` that `release` adds name the waiters in the order they were created |
| `LockProperties.ReleaseResolvesAll` | src/index.ts:45-52 | after any sequence of events from a new lock, a `release` leaves the list empty and every waiter created so far resolved |
| `LockProperties.ExactlyOnce` | src/index.ts:28-30 | from a new lock, along any sequence of events: each settled waiter was resolved by exactly one call; each unsettled waiter is still listed for a release; the list holds its waiters in arrival order; no settled waiter has a live timer, so none is resolved both by a timeout and by a release |
| `WaitLockScenarios.WaitThenRelease` | test/index.spec.ts:116-126 | on any valid lock, one waiter followed by a release with `v` resolves with `v` and leaves the list empty |
| `WaitLockScenarios.WaitThenTimeout` | test/index.spec.ts:108-114 | on any valid lock, one timed waiter whose timer fires resolves to `undefined` and leaves the list as it was |
| `WaitLockScenarios.ReleaseBeforeTimeout` | test/index.spec.ts:24-37 | a timed wait released with 42 resolves with 42 |
| `WaitLockScenarios.ReleaseWithoutValue` | test/index.spec.ts:39-49 | a release without a value resolves the waiter with `undefined` |
| `WaitLockScenarios.UntimedAndZeroTimeout` | test/index.spec.ts:51-69 | a wait with no timeout and a wait with timeout 0 are both resolved with 42 by a release that comes first |
| `WaitLockScenarios.BroadcastRelease` | test/index.spec.ts:95-106 | one release resolves two waiters with the same value |
| `WaitLockScenarios.TimeoutElapses` | test/index.spec.ts:108-114 | a timed wait that nobody releases resolves to `undefined` |
| `WaitLockScenarios.TimeoutAfterListReplaced` | test/index.spec.ts:140-145 | a waiter whose entry was removed from outside is still resolved to `undefined` by its timer |
| `WaitLockScenarios.ReuseAfterRelease` | test/index.spec.ts:147-162 | two wait/release cycles on one lock give 42 and then 24 |
| `WaitLockScenarios.ReuseAfterTimeout` | test/index.spec.ts:164-172 | two wait/timeout cycles on one lock each give `undefined`, and the list ends empty |

## Left out

- Promises, `await` and the microtask queue: a promise is only its entry in `resolved`, and awaiting it means reading that entry.
- Timers are tokens. The duration passed to `setTimeout`, the clock, the order in which live timers fire, and `timer.unref()` are not modelled. Any live timer may fire at any point. `unref` only affects whether the Node process may exit, so `Wait` accepts it and ignores it.
- `ms` is an `Option<int>`. JavaScript would accept any number, including fractional values, `NaN` and `Infinity`. The model only records whether `ms` was given, which is the only thing the code tests (`typeof ms !== 'undefined'`).
- Resolving with a `PromiseLike<T>` (src/index.ts:3): values are plain `T` or `undefined`.
- `indexOf` compares waiter objects by reference. The model compares waiter ids instead. Each id is unique and belongs to one record, so the two agree.
- The loop of `release` lives in its own method, `Drain`. `Release` swaps the list and then calls `Drain`. The code runs the same steps in the same order.
- The elapsed-time checks of the tests (`Date.now()`) and the test harness itself.
- A waiter without a timer whose entry is removed from outside (possible only through the test's private-field access) is never resolved. `ClearPreserves` and `ClearListExternally` state exactly when this happens; `Run` has no such event.
