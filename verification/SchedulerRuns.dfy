/** spd_sched_runall under a clock that stands still, the agreement of spd_sched_wait with
    it, and the scheduler's invariant over whole runs under any clock. */
module SchedulerRuns {

  import opened Common
  import opened Times
  import opened Scheduler

  // ---------- the termination measure ----------

  /** How often an event can still run at this clock reading: twice if it is overdue, once
      if it falls into the millisecond of slack, not at all otherwise. */
  function Weight(when: Tv, now: Tv): nat {
    if Us(when) < Us(now) then 2 else if Us(when) < Us(now) + 1000 then 1 else 0
  }

  /** The weight of an event if it is among those watched: all of them, or those with one id. */
  function EventWeight(e: Event, now: Tv, only: Option<int>): nat {
    if only == None || only == Some(e.id) then Weight(e.when, now) else 0
  }

  function WeightOf(q: seq<Event>, now: Tv, only: Option<int>): nat {
    if q == [] then 0 else EventWeight(q[0], now, only) + WeightOf(q[1..], now, only)
  }

  lemma {:induction false} WeightInsert(q: seq<Event>, e: Event, now: Tv, only: Option<int>)
    ensures WeightOf(Insert(q, e), now, only) == WeightOf(q, now, only) + EventWeight(e, now, only)
  {
    if q != [] {
      if Cmp(e.when, q[0].when) == -1 {
        assert ([e] + q)[1..] == q;
      } else {
        WeightInsert(q[1..], e, now, only);
        assert ([q[0]] + Insert(q[1..], e))[1..] == Insert(q[1..], e);
      }
    }
  }

  lemma {:induction false} WeightDrop(q: seq<Event>, k: nat, now: Tv, only: Option<int>, q': seq<Event>)
    requires k < |q| && q' == q[..k] + q[k + 1..]
    ensures WeightOf(q', now, only) == WeightOf(q, now, only) - EventWeight(q[k], now, only)
  {
    if k == 0 {
      assert q' == q[1..];
    } else {
      assert q'[0] == q[0] && q'[1..] == q[1..][..k - 1] + q[1..][k..];
      WeightDrop(q[1..], k - 1, now, only, q'[1..]);
    }
  }

  lemma DueIsWeight(when: Tv, now: Tv)
    requires Normal(when) && Normal(now)
    ensures Due(when, now) <==> Us(when) < Us(now) + 1000
    ensures Due(when, now) <==> Weight(when, now) >= 1
  {
    AddExact(now, Tv(0, 1000));
    CmpExact(when, Times.Add(now, Tv(0, 1000)));
  }

  /** Running an event at least once more becomes impossible each time it is rescheduled. */
  lemma RescheduleIsLighter(when: Tv, delay: CInt, now: Tv)
    requires Normal(when) && Normal(now) && delay != 0 && Weight(when, now) >= 1
    ensures Weight(SetTime(when, delay, now), now) < Weight(when, now)
  {
    SetTimeBounds(when, delay, now);
  }

  lemma AddIsNoHeavier(s: Sched, delay: CInt, flag: bool, data: int, now: Tv, only: Option<int>)
    requires Normal(now)
    ensures WeightOf(Scheduler.Add(s, delay, flag, data, now).0.queue, now, only) == WeightOf(s.queue, now, only)
  {
    if delay != 0 {
      var e := Event(AllocCell(s).0, s.nextId, SetTime(Tv(0, 0), delay, now), flag, delay, data);
      SetTimeBounds(Tv(0, 0), delay, now);
      WeightInsert(s.queue, e, now, only);
    }
  }

  lemma DelIsNoHeavier(s: Sched, id: int, now: Tv, only: Option<int>)
    ensures WeightOf(Del(s, id).0.queue, now, only) <= WeightOf(s.queue, now, only)
  {
    var k := FindId(s.queue, id);
    if k < |s.queue| {
      WeightDrop(s.queue, k, now, only, s.queue[..k] + s.queue[k + 1..]);
    }
  }

  /** What a callback asks for never adds weight. */
  lemma ServeIsNoHeavier(s: Sched, r: Request, now: Tv, hand: set<nat>, only: Option<int>)
    requires Inv(s, hand) && Normal(now)
    ensures Inv(Serve(s, r, now), hand) && Serve(s, r, now).nextId >= s.nextId
    ensures WeightOf(Serve(s, r, now).queue, now, only) <= WeightOf(s.queue, now, only)
  {
    match r {
      case AddRequest(delay, flag, data) =>
        AddKeeps(s, delay, flag, data, now, hand);
        AddIsNoHeavier(s, delay, flag, data, now, only);
      case DelRequest(id) =>
        DelKeeps(s, id, hand);
        DelIsNoHeavier(s, id, now, only);
    }
  }

  lemma {:induction false} InsertAbsent(q: seq<Event>, e: Event, id: int)
    requires e.id != id && forall i :: 0 <= i < |q| ==> q[i].id != id
    ensures forall i :: 0 <= i < |Insert(q, e)| ==> Insert(q, e)[i].id != id
  {
    if q != [] {
      InsertAbsent(q[1..], e, id);
    }
  }

  /** An id that is not in the queue and has been handed out does not come back. */
  lemma ServeKeepsAbsent(s: Sched, r: Request, now: Tv, hand: set<nat>, id: int)
    requires Inv(s, hand) && Normal(now) && id < s.nextId
    requires forall i :: 0 <= i < |s.queue| ==> s.queue[i].id != id
    ensures forall i :: 0 <= i < |Serve(s, r, now).queue| ==> Serve(s, r, now).queue[i].id != id
  {
    hide Inv;
    match r {
      case AddRequest(delay, flag, data) =>
        if delay != 0 {
          var (cell, s1) := AllocCell(s);
          InsertAbsent(s.queue, Event(cell, s.nextId, SetTime(Tv(0, 0), delay, now), flag, delay, data), id);
        }
      case DelRequest(other) =>
        var k := FindId(s.queue, other);
    }
  }

  lemma {:induction false} ServeAllKeeps(s: Sched, rs: seq<Request>, now: Tv, hand: set<nat>, only: Option<int>,
                                         id: int)
    requires Inv(s, hand) && Normal(now) && id < s.nextId
    requires forall i :: 0 <= i < |s.queue| ==> s.queue[i].id != id
    ensures var s' := ServeAll(s, rs, now);
      && Inv(s', hand) && s'.nextId >= s.nextId
      && WeightOf(s'.queue, now, only) <= WeightOf(s.queue, now, only)
      && forall i :: 0 <= i < |s'.queue| ==> s'.queue[i].id != id
    decreases |rs|
  {
    if rs != [] {
      ServeIsNoHeavier(s, rs[0], now, hand, only);
      ServeKeepsAbsent(s, rs[0], now, hand, id);
      ServeAllKeeps(Serve(s, rs[0], now), rs[1..], now, hand, only, id);
    }
  }

  /** What happens to the event that has run. */
  lemma SettleInv(s: Sched, e: Event, result: CInt, now: Tv)
    requires Inv(s, {e.cell}) && Normal(now) && Normal(e.when)
    requires 1 <= e.id < s.nextId && e.reschedule != 0 && forall i :: 0 <= i < |s.queue| ==> s.queue[i].id != e.id
    ensures Inv(Settle(s, e, result, now), {}) && Settle(s, e, result, now).nextId == s.nextId
  {
    assert {e.cell} - {e.cell} == {};
    if result == 0 {
      ReleaseKeeps(s, e.cell, {e.cell});
    } else {
      var delay := if e.flag then result else e.reschedule;
      var e' := e.(when := SetTime(e.when, delay, now));
      SetTimeBounds(e.when, delay, now);
      EnqueueKeeps(s, e', {e.cell}, Enqueue(s, e'));
    }
  }

  lemma SettleKeeps(s: Sched, e: Event, result: CInt, now: Tv, only: Option<int>)
    requires Inv(s, {e.cell}) && Normal(now) && Normal(e.when) && Weight(e.when, now) >= 1
    requires 1 <= e.id < s.nextId && e.reschedule != 0 && forall i :: 0 <= i < |s.queue| ==> s.queue[i].id != e.id
    ensures Inv(Settle(s, e, result, now), {})
    ensures Settle(s, e, result, now).nextId == s.nextId
    ensures WeightOf(Settle(s, e, result, now).queue, now, only) + Watched(only, e.id)
         <= WeightOf(s.queue, now, only) + EventWeight(e, now, only)
  {
    hide Inv;
    SettleInv(s, e, result, now);
    if result != 0 {
      var delay := if e.flag then result else e.reschedule;
      var e' := e.(when := SetTime(e.when, delay, now));
      RescheduleIsLighter(e.when, delay, now);
      WeightInsert(s.queue, e', now, only);
    }
  }

  function Watched(only: Option<int>, id: int): nat {
    if only == None || only == Some(id) then 1 else 0
  }

  /** The head off the queue: what is known of it, and of the rest. */
  lemma HeadTaken(s: Sched)
    requires Inv(s, {}) && s.queue != []
    ensures var e, s1 := s.queue[0], TakeHead(s);
      && Inv(s1, {e.cell}) && s1.nextId == s.nextId && Normal(e.when) && 1 <= e.id < s.nextId && e.reschedule != 0
      && forall i :: 0 <= i < |s1.queue| ==> s1.queue[i].id != e.id
  {
    assert s.queue[..0] + s.queue[0 + 1..] == s.queue[1..];
    assert {} + {s.queue[0].cell} == {s.queue[0].cell};
    RemoveKeeps(s, 0, {}, TakeHead(s));
  }

  /** One round keeps the invariant and lightens the queue, and it lightens the share of the
      event that ran by at least one. */
  lemma RoundKeeps(s: Sched, b: Behaviour, now: Tv, only: Option<int>)
    requires Inv(s, {}) && Normal(now) && Ready(s, now)
    ensures Inv(Round(s, b, now), {}) && Round(s, b, now).nextId >= s.nextId
    ensures WeightOf(Round(s, b, now).queue, now, only) + Watched(only, s.queue[0].id) <= WeightOf(s.queue, now, only)
  {
    hide Inv, Settle, ServeAll;
    var e, s1 := s.queue[0], TakeHead(s);
    HeadTaken(s);
    DueIsWeight(e.when, now);
    ServeAllKeeps(s1, b.requests, now, {e.cell}, only, e.id);
    SettleKeeps(ServeAll(s1, b.requests, now), e, b.result, now, only);
  }

  // ---------- runall ----------

  /** spd_sched_runall with the clock at `now`: the final state and the ids of the events
      run, in order. The k-th callback behaves as `behave(k)` says. That this function is
      well defined is the termination of the loop. */
  ghost function RunAll(s: Sched, now: Tv, behave: nat -> Behaviour, k: nat): (Sched, seq<int>)
    requires Inv(s, {}) && Normal(now)
    decreases WeightOf(s.queue, now, None)
  {
    if !Ready(s, now) then (s, [])
    else
      RoundKeeps(s, behave(k), now, None);
      var (s', log) := RunAll(Round(s, behave(k), now), now, behave, k + 1);
      (s', [s.queue[0].id] + log)
  }

  /** A call of runall that ends as `goal` says and has reached the state s, having run the
      events of `log`. */
  ghost predicate Underway(goal: (Sched, seq<int>), log: seq<int>, s: Sched, now: Tv, behave: nat -> Behaviour)
    requires Inv(s, {}) && Normal(now)
  {
    var (end, rest) := RunAll(s, now, behave, |log|);
    goal == (end, log + rest)
  }

  lemma UnderwayStep(goal: (Sched, seq<int>), log: seq<int>, s: Sched, now: Tv, behave: nat -> Behaviour)
    requires Inv(s, {}) && Normal(now) && Underway(goal, log, s, now, behave)
    ensures !Ready(s, now) ==> goal == (s, log)
    ensures Ready(s, now) ==> (RoundKeeps(s, behave(|log|), now, None);
      Underway(goal, log + [s.queue[0].id], Round(s, behave(|log|), now), now, behave))
  {
    if Ready(s, now) {
      RoundKeeps(s, behave(|log|), now, None);
      var rest := RunAll(Round(s, behave(|log|), now), now, behave, |log| + 1).1;
      assert log + ([s.queue[0].id] + rest) == log + [s.queue[0].id] + rest;
    } else {
      assert log + [] == log;
    }
  }

  function RunsOf(log: seq<int>, id: int): nat {
    if log == [] then 0 else (if log[0] == id then 1 else 0) + RunsOf(log[1..], id)
  }

  lemma {:induction false} RunAllKeeps(s: Sched, now: Tv, behave: nat -> Behaviour, k: nat)
    requires Inv(s, {}) && Normal(now)
    ensures Inv(RunAll(s, now, behave, k).0, {})
    ensures !Ready(RunAll(s, now, behave, k).0, now)
    decreases WeightOf(s.queue, now, None)
  {
    if Ready(s, now) {
      RoundKeeps(s, behave(k), now, None);
      RunAllKeeps(Round(s, behave(k), now), now, behave, k + 1);
    }
  }

  lemma {:induction false} RunsWithinWeight(s: Sched, now: Tv, behave: nat -> Behaviour, k: nat, id: int)
    requires Inv(s, {}) && Normal(now)
    ensures var log := RunAll(s, now, behave, k).1;
      RunsOf(log, id) <= WeightOf(s.queue, now, Some(id)) && |log| <= WeightOf(s.queue, now, None)
    decreases WeightOf(s.queue, now, None)
  {
    if Ready(s, now) {
      RoundKeeps(s, behave(k), now, None);
      RoundKeeps(s, behave(k), now, Some(id));
      var s1 := Round(s, behave(k), now);
      RunsWithinWeight(s1, now, behave, k + 1, id);
      var log := RunAll(s1, now, behave, k + 1).1;
      assert ([s.queue[0].id] + log)[1..] == log;
    }
  }

  lemma {:induction false} WeightBounds(q: seq<Event>, now: Tv, id: int)
    requires forall i, j :: 0 <= i < j < |q| ==> q[i].id != q[j].id
    ensures WeightOf(q, now, Some(id)) <= 2
    ensures (forall i :: 0 <= i < |q| ==> q[i].id != id) ==> WeightOf(q, now, Some(id)) == 0
    ensures WeightOf(q, now, None) <= 2 * |q|
  {
    if q != [] {
      WeightBounds(q[1..], now, id);
      if q[0].id == id {
        assert forall i :: 0 <= i < |q[1..]| ==> q[1..][i].id != id;
      }
    }
  }

  /** With the clock standing still a call of runall ends; it runs no event more than twice
      and none that was added during the call, at most twice as many events as were
      queued, and afterwards nothing is due. All this for any callbacks, adding and
      deleting events at will, and any delays but zero. */
  lemma RunAllBounded(s: Sched, now: Tv, behave: nat -> Behaviour, id: int)
    requires Inv(s, {}) && Normal(now)
    ensures var (s', log) := RunAll(s, now, behave, 0);
      && Inv(s', {})
      && !Ready(s', now)
      && RunsOf(log, id) <= 2
      && (id >= s.nextId ==> RunsOf(log, id) == 0)
      && |log| <= 2 * |s.queue|
  {
    RunAllKeeps(s, now, behave, 0);
    RunsWithinWeight(s, now, behave, 0, id);
    WeightBounds(s.queue, now, id);
  }

  /** The bound of two is reached: an event that is overdue by more than its delay runs, is
      put back at the clock reading, and runs again. */
  lemma OverdueRunsTwice(now: Tv, e: Event)
    requires Normal(now) && Normal(e.when) && e.id == 1 && e.cell == 0 && !e.flag && e.reschedule == 1
    requires !IsZero(e.when) && Us(e.when) + 1000 < Us(now)
    ensures var s := Sched([e], [], 2, 0, 1, 1);
      Inv(s, {}) && RunAll(s, now, (k: nat) => Behaviour([], 1), 0).1 == [1, 1]
  {
    var s, b := Sched([e], [], 2, 0, 1, 1), Behaviour([], 1);
    var behave := (k: nat) => Behaviour([], 1);
    DueIsWeight(e.when, now);
    SetTimeBounds(e.when, 1, now);
    RoundKeeps(s, b, now, None);
    var e1 := e.(when := now);
    AddExact(e.when, Samp2Tv(1, 1000));
    DelayExact(1);
    CmpExact(Times.Add(e.when, Samp2Tv(1, 1000)), now);
    assert SetTime(e.when, 1, now) == now;
    var s1 := Round(s, b, now);
    assert s1.queue == [e1];
    DueIsWeight(now, now);
    RoundKeeps(s1, b, now, None);
    var s2 := Round(s1, b, now);
    SetTimeBounds(now, 1, now);
    assert s2.queue == [e1.(when := SetTime(now, 1, now))];
    DueIsWeight(s2.queue[0].when, now);
    assert RunAll(s2, now, behave, 2).1 == [];
    assert RunAll(s1, now, behave, 1).1 == [1];
  }

  // ---------- wait and run agree ----------

  /** The clock m milliseconds later. */
  function Later(now: Tv, m: nat): Tv {
    Times.Add(now, Tv(m / 1000, (m % 1000) * 1000))
  }

  lemma DueLater(when: Tv, now: Tv, m: nat)
    requires Normal(when) && Normal(now)
    ensures Due(when, Later(now, m)) <==> m >= DiffMs(when, now)
  {
    AddExact(now, Tv(m / 1000, (m % 1000) * 1000));
    DueIsWeight(when, Later(now, m));
    DiffMsFloors(when, now);
  }

  /** Is w the least whole number of milliseconds after which the event is due? */
  ghost predicate LeastWait(when: Tv, now: Tv, w: int) {
    && w >= 0
    && Due(when, Later(now, w))
    && forall m: nat :: m < w ==> !Due(when, Later(now, m))
  }

  /** spd_sched_wait returns the least number of milliseconds after which runall will run the
      head, exactly when the difference survives the conversion to int: it must not
      exceed the largest int, and an overdue event must not be so long overdue that the
      conversion turns positive. */
  lemma WaitIsLeast(s: Sched, now: Tv)
    requires Inv(s, {}) && s.queue != [] && Normal(now)
    ensures var ms := DiffMs(s.queue[0].when, now);
      LeastWait(s.queue[0].when, now, Wait(s, now)) <==> ms <= INT32_MAX && (ms >= 0 || ToInt32(ms) <= 0)
  {
    var when := s.queue[0].when;
    var ms, w := DiffMs(when, now), Wait(s, now);
    forall m: nat
      ensures Due(when, Later(now, m)) <==> m >= ms
    {
      DueLater(when, now, m);
    }
    if ms < 0 {
      assert LeastWait(when, now, 0);
      assert w > 0 ==> Due(when, Later(now, 0));
    } else {
      assert LeastWait(when, now, ms);
      if ms <= INT32_MAX {
        assert ToInt32(ms) == ms;
      } else {
        assert w < ms;
      }
    }
  }

  /** The wait is -1 exactly if nothing is scheduled. */
  lemma WaitOnEmpty(s: Sched, now: Tv)
    ensures Wait(s, now) >= -1 && (Wait(s, now) == -1 <==> s.queue == [])
  {
  }

  /** An event further away than an int of milliseconds can be had: a negative delay arrives
      as an unsigned number, and the wait for it is then reported as zero. */
  lemma NegativeDelayWaitsZero(now: Tv)
    requires Normal(now)
    ensures var s := Scheduler.Add(EMPTY, -1, false, 0, now).0;
      Wait(s, now) == 0 && !Due(s.queue[0].when, now)
  {
    var s := Scheduler.Add(EMPTY, -1, false, 0, now).0;
    SetTimeBounds(Tv(0, 0), -1, now);
    DiffMsFloors(s.queue[0].when, now);
    DueIsWeight(s.queue[0].when, now);
  }

  // ---------- the queue counter ----------

  /** The field schedsnt agrees with the length of the queue exactly when the insertions it
      has missed come to a multiple of 2^32; after a first insertion it does not. */
  lemma SentIsLength(s: Sched)
    requires Inv(s, {}) && |s.queue| < TWO_TO_THE_32
    ensures s.sent == |s.queue| <==> s.added % TWO_TO_THE_32 == 0
  {
    var a, d := s.sent + s.added, |s.queue|;
    var k := a / TWO_TO_THE_32;
    assert a == k * TWO_TO_THE_32 + a % TWO_TO_THE_32;
    assert a % TWO_TO_THE_32 == d;
    if s.sent == d {
      assert s.added == k * TWO_TO_THE_32 + 0;
      ModShift(0, k);
    }
    if s.added % TWO_TO_THE_32 == 0 {
      var j := s.added / TWO_TO_THE_32;
      assert s.added == j * TWO_TO_THE_32;
      ModShift(s.sent, j);
    }
  }

  // ---------- deletion ----------

  function WithoutId(q: seq<Event>, id: int): seq<Event> {
    if q == [] then [] else (if q[0].id == id then [] else [q[0]]) + WithoutId(q[1..], id)
  }

  lemma {:induction false} WithoutAbsent(q: seq<Event>, id: int)
    requires forall i :: 0 <= i < |q| ==> q[i].id != id
    ensures WithoutId(q, id) == q
  {
    if q != [] {
      WithoutAbsent(q[1..], id);
    }
  }

  lemma {:induction false} DropIsWithout(q: seq<Event>, k: nat, id: int)
    requires k < |q| && q[k].id == id && forall i, j :: 0 <= i < j < |q| ==> q[i].id != q[j].id
    ensures q[..k] + q[k + 1..] == WithoutId(q, id)
  {
    if k == 0 {
      WithoutAbsent(q[1..], id);
    } else {
      DropIsWithout(q[1..], k - 1, id);
      assert q[..k] + q[k + 1..] == [q[0]] + (q[1..][..k - 1] + q[1..][k..]);
    }
  }

  /** Deletion removes the event with that id and no other, succeeds exactly if there is one,
      and gives its structure back. */
  lemma DelIsExact(s: Sched, id: int)
    requires IdsOk(s.queue, s.nextId)
    ensures var (s', res) := Del(s, id);
      && s'.queue == WithoutId(s.queue, id)
      && (res == 0 <==> exists i :: 0 <= i < |s.queue| && s.queue[i].id == id)
      && (res == 0 || (res == -1 && s' == s))
  {
    var k := FindId(s.queue, id);
    if k == |s.queue| {
      WithoutAbsent(s.queue, id);
    } else {
      DropIsWithout(s.queue, k, id);
    }
  }

  // ---------- where an event comes to stand ----------

  /** The due time d milliseconds on, in microseconds, for a reading `now`: from the old due time,
      or from the reading if there is none, and not before the reading. */
  function DueAgain(when: Tv, d: CInt, now: Tv): int {
    var t := (if IsZero(when) then Us(now) else Us(when)) + 1000 * ToUint32(d);
    if t < Us(now) then Us(now) else t
  }

  lemma SetTimeIs(when: Tv, d: CInt, now: Tv)
    requires Normal(when) && Normal(now)
    ensures Normal(SetTime(when, d, now)) && Us(SetTime(when, d, now)) == DueAgain(when, d, now)
  {
    var base := if IsZero(when) then now else when;
    DelayExact(d);
    AddExact(base, Samp2Tv(d, 1000));
    CmpExact(Times.Add(base, Samp2Tv(d, 1000)), now);
  }

  /** The queue q' is q with e put in, behind all that are due no later and in front of all others. */
  ghost predicate PutIn(q: seq<Event>, e: Event, q': seq<Event>) {
    exists k :: PutInAt(q, k, e, q')
  }

  ghost predicate PutInAt(q: seq<Event>, k: int, e: Event, q': seq<Event>) {
    && 0 <= k <= |q| && q' == q[..k] + [e] + q[k..]
    && (forall i :: 0 <= i < k ==> Us(q[i].when) <= Us(e.when))
    && (forall i :: k <= i < |q| ==> Us(e.when) < Us(q[i].when))
  }

  lemma InsertPuts(q: seq<Event>, e: Event)
    requires Sorted(q) && Normal(e.when)
    ensures PutIn(q, e, Insert(q, e))
  {
    var k := InsertSplit(q, e);
    assert PutInAt(q, k, e, Insert(q, e));
  }

  /** What becomes of an event that has run and has returned `result`: `s` is the scheduler while
      it is in hand, `s'` the one after the turn. With a result it stands in the queue again,
      changed in its due time alone, by the result if it has its flag and else by the delay
      it was added with; without one it is gone and its structure is free, or given up to a
      full cache. */
  ghost predicate Settled(s: Sched, e: Event, result: CInt, now: Tv, s': Sched) {
    if result != 0 then
      && s' == s.(queue := s'.queue, added := s'.added)
      && exists at :: Normal(at) && Us(at) == DueAgain(e.when, if e.flag then result else e.reschedule, now)
                      && PutIn(s.queue, e.(when := at), s'.queue)
    else
      && s' == s.(cache := s'.cache)
      && (forall i :: 0 <= i < |s'.queue| ==> s'.queue[i].id != e.id && s'.queue[i].cell != e.cell)
      && (e.cell in s'.cache || |s'.cache| == CACHE_LIMIT)
  }

  lemma SettleIs(s: Sched, e: Event, result: CInt, now: Tv)
    requires Inv(s, {e.cell}) && Normal(now) && Normal(e.when)
    requires forall i :: 0 <= i < |s.queue| ==> s.queue[i].id != e.id
    ensures Settled(s, e, result, now, Settle(s, e, result, now))
  {
    if result != 0 {
      var d := if e.flag then result else e.reschedule;
      var at := SetTime(e.when, d, now);
      SetTimeIs(e.when, d, now);
      InsertPuts(s.queue, e.(when := at));
    }
  }

  /** One turn of runall at a fixed clock: after the requests of the callback the event is settled. */
  lemma RoundSettles(s: Sched, b: Behaviour, now: Tv)
    requires Inv(s, {}) && s.queue != [] && Normal(now)
    ensures Settled(ServeAll(TakeHead(s), b.requests, now), s.queue[0], b.result, now, Round(s, b, now))
  {
    hide Inv, Settle, ServeAll, Settled;
    HeadTaken(s);
    ServeAllKeeps(TakeHead(s), b.requests, now, {s.queue[0].cell}, None, s.queue[0].id);
    SettleIs(ServeAll(TakeHead(s), b.requests, now), s.queue[0], b.result, now);
  }

  /** An addition: for a delay of zero nothing, else one event more, with a new id, the flag, the
      delay and the data as given, due when the delay has passed. */
  lemma AddPuts(s: Sched, delay: CInt, flag: bool, data: int, now: Tv)
    requires Sorted(s.queue) && IdsOk(s.queue, s.nextId) && Normal(now)
    ensures var (s', id) := Scheduler.Add(s, delay, flag, data, now);
      if delay == 0 then s' == s && id == -1
      else
        && (forall i :: 0 <= i < |s.queue| ==> s.queue[i].id != id) && id == s.nextId == s'.nextId - 1
        && exists e: Event :: e.id == id && e.flag == flag && e.reschedule == delay && e.data == data
             && Normal(e.when) && Us(e.when) == Us(now) + 1000 * ToUint32(delay) && PutIn(s.queue, e, s'.queue)
  {
    if delay != 0 {
      SetTimeIs(Tv(0, 0), delay, now);
      var e := Event(AllocCell(s).0, s.nextId, SetTime(Tv(0, 0), delay, now), flag, delay, data);
      InsertPuts(s.queue, e);
      assert PutIn(s.queue, e, Scheduler.Add(s, delay, flag, data, now).0.queue);
    }
  }

  // ---------- a clock that moves ----------

  /** A request of a callback, and the clock reading made for it. */
  datatype Asked = Asked(request: Request, now: Tv)

  /** One turn of runall with a reading for the due test, one for each request and one for the
      time the event is put back at. */
  datatype Turn = Turn(due: Tv, asked: seq<Asked>, result: CInt, settled: Tv)

  predicate ReadingsOk(t: Turn) {
    Normal(t.due) && Normal(t.settled) && forall i :: 0 <= i < |t.asked| ==> Normal(t.asked[i].now)
  }

  function Answer(s: Sched, asked: seq<Asked>): Sched
    decreases |asked|
  {
    if asked == [] then s else Answer(Serve(s, asked[0].request, asked[0].now), asked[1..])
  }

  function TakeTurn(s: Sched, t: Turn): Sched
    requires s.queue != []
  {
    Settle(Answer(TakeHead(s), t.asked), s.queue[0], t.result, t.settled)
  }

  /** The turns of one call of runall, up to the first reading at which nothing is due. */
  function RunTurns(s: Sched, turns: seq<Turn>): Sched
    decreases |turns|
  {
    if turns == [] || !Ready(s, turns[0].due) then s else RunTurns(TakeTurn(s, turns[0]), turns[1..])
  }

  lemma {:induction false} AnswerKeeps(s: Sched, asked: seq<Asked>, hand: set<nat>, id: int)
    requires Inv(s, hand) && id < s.nextId && forall i :: 0 <= i < |asked| ==> Normal(asked[i].now)
    requires forall i :: 0 <= i < |s.queue| ==> s.queue[i].id != id
    ensures var s' := Answer(s, asked);
      Inv(s', hand) && s'.nextId >= s.nextId && forall i :: 0 <= i < |s'.queue| ==> s'.queue[i].id != id
    decreases |asked|
  {
    hide Inv, Serve;
    if asked != [] {
      var r, now := asked[0].request, asked[0].now;
      ServeIsNoHeavier(s, r, now, hand, None);
      ServeKeepsAbsent(s, r, now, hand, id);
      AnswerKeeps(Serve(s, r, now), asked[1..], hand, id);
    }
  }

  /** A turn keeps the invariant, whatever the clock shows each time it is read. */
  lemma TurnKeeps(s: Sched, t: Turn)
    requires Inv(s, {}) && s.queue != [] && ReadingsOk(t)
    ensures Inv(TakeTurn(s, t), {}) && TakeTurn(s, t).nextId >= s.nextId
  {
    hide Inv, Settle, Answer;
    var e, s1 := s.queue[0], TakeHead(s);
    HeadTaken(s);
    AnswerKeeps(s1, t.asked, {e.cell}, e.id);
    SettleInv(Answer(s1, t.asked), e, t.result, t.settled);
  }

  /** And whatever the clock shows, the event that has run is settled by the last reading. */
  lemma TurnSettles(s: Sched, t: Turn)
    requires Inv(s, {}) && s.queue != [] && ReadingsOk(t)
    ensures Settled(Answer(TakeHead(s), t.asked), s.queue[0], t.result, t.settled, TakeTurn(s, t))
  {
    hide Inv, Settle, Answer, Settled;
    HeadTaken(s);
    AnswerKeeps(TakeHead(s), t.asked, {s.queue[0].cell}, s.queue[0].id);
    SettleIs(Answer(TakeHead(s), t.asked), s.queue[0], t.result, t.settled);
  }

  lemma {:induction false} TurnsKeep(s: Sched, turns: seq<Turn>)
    requires Inv(s, {}) && forall i :: 0 <= i < |turns| ==> ReadingsOk(turns[i])
    ensures Inv(RunTurns(s, turns), {})
    decreases |turns|
  {
    hide Inv, TakeTurn;
    if turns != [] && Ready(s, turns[0].due) {
      TurnKeeps(s, turns[0]);
      TurnsKeep(TakeTurn(s, turns[0]), turns[1..]);
    }
  }

  function AllAsked(rs: seq<Request>, now: Tv): seq<Asked> {
    if rs == [] then [] else [Asked(rs[0], now)] + AllAsked(rs[1..], now)
  }

  lemma {:induction false} AnswerStill(s: Sched, rs: seq<Request>, now: Tv)
    ensures Answer(s, AllAsked(rs, now)) == ServeAll(s, rs, now)
    ensures Normal(now) ==> forall i :: 0 <= i < |AllAsked(rs, now)| ==> Normal(AllAsked(rs, now)[i].now)
    decreases |rs|
  {
    if rs != [] {
      AnswerStill(Serve(s, rs[0], now), rs[1..], now);
      assert AllAsked(rs, now)[1..] == AllAsked(rs[1..], now);
    }
  }

  /** A call under a clock that stands still is such a sequence of turns, at whose end the next
      reading finds nothing due. */
  lemma {:induction false} StandingStill(s: Sched, now: Tv, behave: nat -> Behaviour, k: nat)
    returns (turns: seq<Turn>)
    requires Inv(s, {}) && Normal(now)
    ensures forall i :: 0 <= i < |turns| ==> ReadingsOk(turns[i])
    ensures RunTurns(s, turns) == RunAll(s, now, behave, k).0
    ensures |turns| == |RunAll(s, now, behave, k).1|
    decreases WeightOf(s.queue, now, None)
  {
    hide Inv, Settle, Answer, ServeAll, Serve;
    turns := [];
    if Ready(s, now) {
      var b := behave(k);
      var t := Turn(now, AllAsked(b.requests, now), b.result, now);
      RoundKeeps(s, b, now, None);
      AnswerStill(TakeHead(s), b.requests, now);
      var more := StandingStill(Round(s, b, now), now, behave, k + 1);
      turns := [t] + more;
      assert turns[1..] == more;
    }
  }

  /** What the requests of a callback do: a deletion takes the event with that id and no other, an
      addition puts one in. */
  lemma RequestsAre(s: Sched, r: Request, now: Tv)
    requires Sorted(s.queue) && IdsOk(s.queue, s.nextId) && Normal(now)
    ensures r.DelRequest? ==> Serve(s, r, now).queue == WithoutId(s.queue, r.id)
    ensures r.AddRequest? && r.delay == 0 ==> Serve(s, r, now) == s
    ensures r.AddRequest? && r.delay != 0 ==>
      exists e: Event :: e.id == s.nextId && e.flag == r.flag && e.reschedule == r.delay && e.data == r.data
        && Normal(e.when) && Us(e.when) == Us(now) + 1000 * ToUint32(r.delay)
        && PutIn(s.queue, e, Serve(s, r, now).queue)
  {
    match r {
      case AddRequest(delay, flag, data) => AddPuts(s, delay, flag, data, now);
      case DelRequest(id) => DelIsExact(s, id);
    }
  }

  // ---------- whole runs ----------

  /** `turns` are those of one call of runall; a call that goes on for ever is covered by each
      of its beginnings. */
  datatype Call =
    | CallAdd(delay: CInt, flag: bool, data: int, now: Tv)
    | CallDel(id: int)
    | CallRun(turns: seq<Turn>)

  ghost predicate ClockOk(c: Call) {
    match c
    case CallAdd(_, _, _, now) => Normal(now)
    case CallDel(_) => true
    case CallRun(turns) => forall i :: 0 <= i < |turns| ==> ReadingsOk(turns[i])
  }

  function Do(s: Sched, c: Call): Sched {
    match c
    case CallAdd(delay, flag, data, now) => Scheduler.Add(s, delay, flag, data, now).0
    case CallDel(id) => Del(s, id).0
    case CallRun(turns) => RunTurns(s, turns)
  }

  lemma DoKeeps(s: Sched, c: Call)
    requires Inv(s, {}) && ClockOk(c)
    ensures Inv(Do(s, c), {})
  {
    hide Inv;
    match c {
      case CallAdd(delay, flag, data, now) => AddKeeps(s, delay, flag, data, now, {});
      case CallDel(id) => DelKeeps(s, id, {});
      case CallRun(turns) => TurnsKeep(s, turns);
    }
  }

  function DoAll(s: Sched, calls: seq<Call>): Sched
    decreases |calls|
  {
    if calls == [] then s else DoAll(Do(s, calls[0]), calls[1..])
  }

  /** Over every run, from the empty scheduler or any other that is sound, whatever the clock
      shows each time it is read: the queue is sorted by due time, the ids are distinct, every
      structure has one place, and the cache holds at most 128 of them. */
  lemma {:induction false} EveryRun(s: Sched, calls: seq<Call>)
    requires Inv(s, {}) && forall i :: 0 <= i < |calls| ==> ClockOk(calls[i])
    ensures Inv(DoAll(s, calls), {})
    decreases |calls|
  {
    hide Inv, ClockOk, Do;
    if calls != [] {
      DoKeeps(s, calls[0]);
      EveryRun(Do(s, calls[0]), calls[1..]);
    }
  }

  lemma EmptyInv()
    ensures Inv(EMPTY, {})
  {
  }
}
