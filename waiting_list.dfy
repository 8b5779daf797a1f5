/**
 * The waiting list of a wait lock as a value: its entries, the lookup and
 * removal the timeout callback performs on it, and the outcome of resolving
 * every entry of a snapshot in order, as `release` does.
 */
module WaitingList {
  import opened Wrappers

  /** A waiter is known by the order in which `wait` created it. */
  type WaiterId = nat

  /** An abstract token for one scheduled `setTimeout`. */
  type TimerId = nat

  /** One record of the waiting list: the waiter it resolves and its timer, if `wait` got a timeout. */
  datatype Entry = Entry(id: WaiterId, timer: Option<TimerId>)

  /** No waiter occurs twice in `s`. */
  ghost predicate DistinctIds(s: seq<Entry>) {
    forall j, k :: 0 <= j < k < |s| ==> s[j].id != s[k].id
  }

  ghost predicate NoDuplicates<X>(s: seq<X>) {
    forall j, k :: 0 <= j < k < |s| ==> s[j] != s[k]
  }

  /** The waiters of `s` appear in the order they were created: ids strictly increase along the list. */
  ghost predicate Increasing(s: seq<Entry>) {
    forall j, k :: 0 <= j < k < |s| ==> s[j].id < s[k].id
  }

  /** The waiters listed in `s`. */
  function IdSet(s: seq<Entry>): set<WaiterId> {
    set e | e in s :: e.id
  }

  /** The timers held by the entries of `s`. */
  function TimerSet(s: seq<Entry>): set<TimerId> {
    set e | e in s && e.timer.Some? :: e.timer.value
  }

  /** The waiters of `s`, in list order. */
  function Ids(s: seq<Entry>): seq<WaiterId> {
    if s == [] then [] else Ids(s[..|s| - 1]) + [s[|s| - 1].id]
  }

  /** `Ids` names the waiter of each entry, position by position. */
  lemma {:induction false} IdsAt(s: seq<Entry>)
    ensures |Ids(s)| == |s|
    ensures forall k :: 0 <= k < |s| ==> Ids(s)[k] == s[k].id
  {
    if s != [] {
      IdsAt(s[..|s| - 1]);
    }
  }

  /**
   * `indexOf` on the waiting list, looking for the entry of waiter `id`:
   * the first position holding it, or -1 when it is not listed.
   */
  function IndexOf(s: seq<Entry>, id: WaiterId): (r: int)
    ensures -1 <= r < |s|
    ensures r == -1 <==> forall k :: 0 <= k < |s| ==> s[k].id != id
    ensures 0 <= r ==> s[r].id == id && forall k :: 0 <= k < r ==> s[k].id != id
  {
    if s == [] then -1
    else if s[0].id == id then 0
    else
      var r := IndexOf(s[1..], id);
      if r == -1 then -1 else r + 1
  }

  /**
   * The list with every entry of waiter `id` taken out, all other entries
   * kept in their order: the reference for what a timeout does to the list.
   */
  function Without(s: seq<Entry>, id: WaiterId): seq<Entry> {
    if s == [] then []
    else (if s[0].id == id then [] else [s[0]]) + Without(s[1..], id)
  }

  /** `Without` keeps exactly the entries of other waiters. */
  lemma {:induction false} WithoutMembers(s: seq<Entry>, id: WaiterId)
    ensures forall e :: e in Without(s, id) <==> e in s && e.id != id
    ensures |Without(s, id)| <= |s|
  {
    if s != [] {
      WithoutMembers(s[1..], id);
      assert s == [s[0]] + s[1..];
    }
  }

  /** `splice(index, 1)` at the position `indexOf` found, and nothing when it found none. */
  function TimeoutRemove(s: seq<Entry>, id: WaiterId): seq<Entry> {
    var index := IndexOf(s, id);
    if index != -1 then s[..index] + s[index + 1..] else s
  }

  /** Resolving a promise: only the first resolution of a waiter has an effect. */
  function Settle<T>(m: map<WaiterId, Option<T>>, id: WaiterId, v: Option<T>): (r: map<WaiterId, Option<T>>)
    ensures r.Keys == m.Keys + {id}
    ensures id in m ==> r == m
    ensures id !in m ==> r[id] == v && forall i :: i in m ==> r[i] == m[i]
  {
    if id in m then m else m[id := v]
  }

  /** The promises after resolving every waiter of `s` with `v`, first to last. */
  function SettleAll<T>(m: map<WaiterId, Option<T>>, s: seq<Entry>, v: Option<T>): map<WaiterId, Option<T>> {
    if s == [] then m
    else Settle(SettleAll(m, s[..|s| - 1], v), s[|s| - 1].id, v)
  }

  /**
   * Resolving the waiters of `s` with `v` settles exactly those still
   * unsettled, with `v`, and leaves every promise already settled as it was.
   */
  lemma {:induction false} SettleAllOutcome<T>(m: map<WaiterId, Option<T>>, s: seq<Entry>, v: Option<T>)
    ensures SettleAll(m, s, v).Keys == m.Keys + IdSet(s)
    ensures forall i :: i in m ==> SettleAll(m, s, v)[i] == m[i]
    ensures forall i :: i in IdSet(s) && i !in m ==> SettleAll(m, s, v)[i] == v
  {
    if s != [] {
      var init := s[..|s| - 1];
      SettleAllOutcome(m, init, v);
      assert s == init + [s[|s| - 1]];
      assert IdSet(s) == IdSet(init) + {s[|s| - 1].id};
    }
  }

  /** A list without waiter `id` loses nothing to `Without`. */
  lemma {:induction false} WithoutAbsent(s: seq<Entry>, id: WaiterId)
    requires forall k :: 0 <= k < |s| ==> s[k].id != id
    ensures Without(s, id) == s
  {
    if s != [] {
      WithoutAbsent(s[1..], id);
    }
  }

  /** Removing a waiter that was appended last gives back the list before it. */
  lemma WithoutAppended(s: seq<Entry>, e: Entry)
    requires e.id !in IdSet(s)
    ensures Without(s + [e], e.id) == s
  {
    assert forall k :: 0 <= k < |s| ==> s[k] in s;
    WithoutAbsent(s, e.id);
    WithoutAppend(s, [e], e.id);
  }

  /** `Without` works on each part of a concatenation separately. */
  lemma {:induction false} WithoutAppend(s: seq<Entry>, u: seq<Entry>, id: WaiterId)
    ensures Without(s + u, id) == Without(s, id) + Without(u, id)
  {
    if s != [] {
      WithoutAppend(s[1..], u, id);
      assert (s + u)[1..] == s[1..] + u;
    } else {
      assert s + u == u;
    }
  }

  /**
   * On a list where each waiter occurs once, the timeout's `indexOf` and
   * `splice` remove exactly that waiter's entry and keep the others in order.
   */
  lemma {:induction false} TimeoutRemoveIsWithout(s: seq<Entry>, id: WaiterId)
    requires DistinctIds(s)
    ensures TimeoutRemove(s, id) == Without(s, id)
  {
    if s != [] {
      if s[0].id == id {
        TimeoutRemoveHead(s, id);
      } else {
        DistinctTail(s);
        TimeoutRemoveIsWithout(s[1..], id);
        TimeoutRemoveCons(s, id);
        assert Without(s, id) == [s[0]] + Without(s[1..], id);
      }
    }
  }

  /** A waiter found at the head of a list of distinct waiters leaves the rest of the list as it was. */
  lemma TimeoutRemoveHead(s: seq<Entry>, id: WaiterId)
    requires s != [] && s[0].id == id && DistinctIds(s)
    ensures TimeoutRemove(s, id) == Without(s, id)
  {
    var tail := s[1..];
    assert IndexOf(s, id) == 0;
    assert TimeoutRemove(s, id) == tail;
    forall k | 0 <= k < |tail| ensures tail[k].id != id {
      assert tail[k] == s[k + 1];
    }
    WithoutAbsent(tail, id);
    assert Without(s, id) == Without(tail, id);
  }

  /** Past a head entry of another waiter, the timeout's removal works on the rest of the list. */
  lemma TimeoutRemoveCons(s: seq<Entry>, id: WaiterId)
    requires s != [] && s[0].id != id
    ensures TimeoutRemove(s, id) == [s[0]] + TimeoutRemove(s[1..], id)
  {
    var tail := s[1..];
    var r := IndexOf(tail, id);
    assert IndexOf(s, id) == if r == -1 then -1 else r + 1;
    if r != -1 {
      assert s[..r + 1] + s[r + 2..] == [s[0]] + (tail[..r] + tail[r + 1..]) by {
        assert s[..r + 1] == [s[0]] + tail[..r];
        assert s[r + 2..] == tail[r + 1..];
      }
    } else {
      assert s == [s[0]] + tail;
    }
  }

  lemma DistinctTail(s: seq<Entry>)
    requires s != [] && DistinctIds(s)
    ensures DistinctIds(s[1..])
  {
    var tail := s[1..];
    forall j, k | 0 <= j < k < |tail| ensures tail[j].id != tail[k].id {
      assert tail[j] == s[j + 1] && tail[k] == s[k + 1];
    }
  }

  /** Removing entries keeps the remaining waiters distinct. */
  lemma {:induction false} WithoutDistinct(s: seq<Entry>, id: WaiterId)
    requires DistinctIds(s)
    ensures DistinctIds(Without(s, id))
  {
    if s != [] {
      DistinctTail(s);
      WithoutDistinct(s[1..], id);
      WithoutMembers(s[1..], id);
      var r := Without(s[1..], id);
      if s[0].id != id {
        forall k | 0 <= k < |r| ensures r[k].id != s[0].id {
          assert r[k] in s[1..];
        }
        assert Without(s, id) == [s[0]] + r;
      }
    }
  }

  /** Removing entries keeps the others in the order they were created. */
  lemma {:induction false} WithoutIncreasing(s: seq<Entry>, id: WaiterId)
    requires Increasing(s)
    ensures Increasing(Without(s, id))
  {
    if s != [] {
      var tail := s[1..];
      assert Increasing(tail) by {
        forall j, k | 0 <= j < k < |tail| ensures tail[j].id < tail[k].id {
          assert tail[j] == s[j + 1] && tail[k] == s[k + 1];
        }
      }
      WithoutIncreasing(tail, id);
      WithoutMembers(tail, id);
      var r := Without(tail, id);
      if s[0].id != id {
        forall k | 0 <= k < |r| ensures s[0].id < r[k].id {
          assert r[k] in tail;
          var m :| 0 <= m < |tail| && tail[m] == r[k];
          assert tail[m] == s[m + 1];
        }
        assert Without(s, id) == [s[0]] + r;
      }
    }
  }

  /** On a list in creation order, `Ids` lists strictly increasing waiters. */
  lemma IdsIncreasing(s: seq<Entry>)
    requires Increasing(s)
    ensures forall j, k :: 0 <= j < k < |Ids(s)| ==> Ids(s)[j] < Ids(s)[k]
  {
    IdsAt(s);
  }

  /** The waiters listed and the waiters named by `Ids` are the same. */
  lemma IdsIdSet(s: seq<Entry>)
    ensures forall i :: i in Ids(s) <==> i in IdSet(s)
  {
    IdsAt(s);
    forall i | i in IdSet(s) ensures i in Ids(s) {
      var e :| e in s && e.id == i;
      var k :| 0 <= k < |s| && s[k] == e;
      assert Ids(s)[k] == i;
    }
  }

  /** Distinct waiters in the list give a call order with no repeated waiter. */
  lemma IdsDistinct(s: seq<Entry>)
    requires DistinctIds(s)
    ensures NoDuplicates(Ids(s))
  {
    IdsAt(s);
  }

  /** Resolving one more entry `e` settles its waiter last. */
  lemma SettleAllSnoc<T>(m: map<WaiterId, Option<T>>, s: seq<Entry>, e: Entry, v: Option<T>)
    ensures SettleAll(m, s + [e], v) == Settle(SettleAll(m, s, v), e.id, v)
  {
    assert (s + [e])[..|s|] == s;
  }

  /** One more entry `e` adds its waiter at the end of the call order. */
  lemma IdsSnoc(s: seq<Entry>, e: Entry)
    ensures Ids(s + [e]) == Ids(s) + [e.id]
  {
    assert (s + [e])[..|s|] == s;
  }

  /** One more entry `e` adds its timer, if any. */
  lemma TimerSetSnoc(s: seq<Entry>, e: Entry)
    ensures TimerSet(s + [e]) == TimerSet(s) + TimerSet([e])
  {
  }
}
