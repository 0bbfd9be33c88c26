/** struct scheduler_context with the methods of scheduler.c, which update it in place. */
module SchedulerObject {

  import opened Common
  import opened Times
  import S = Scheduler
  import R = SchedulerRuns

  class SchedContext {
    var queue: seq<S.Event>
    var cache: seq<nat>
    var cacheCount: nat
    var nextId: int
    var sent: nat
    var unused: nat
    ghost var added: nat

    ghost function View(): S.Sched
      reads this
    {
      S.Sched(queue, cache, nextId, sent, added, unused)
    }

    ghost predicate Valid()
      reads this
    {
      cacheCount == |cache|
    }

    constructor ()
      ensures Valid() && View() == S.EMPTY
    {
      queue, cache, cacheCount, nextId, sent, unused, added := [], [], 0, 1, 0, 0, 0;
    }

    method AllocStruct() returns (cell: nat)
      requires Valid()
      modifies this
      ensures Valid() && (cell, View()) == S.AllocCell(old(View()))
    {
      if cache != [] {
        cell := cache[0];
        cache, cacheCount := cache[1..], cacheCount - 1;
      } else {
        cell, unused := unused, unused + 1;
      }
    }

    method ReleaseStruct(cell: nat)
      requires Valid()
      modifies this
      ensures Valid() && View() == S.Release(old(View()), cell)
    {
      if cacheCount < S.CACHE_LIMIT {
        cache, cacheCount := [cell] + cache, cacheCount + 1;
      }
    }

    /** add_scheduler: a traversal that stops in front of the first later event. */
    method AddScheduler(e: S.Event)
      requires Valid()
      modifies this
      ensures Valid() && View() == S.Enqueue(old(View()), e)
    {
      var k := 0;
      ghost var goal := S.Insert(queue, e);
      assert queue[..0] + S.Insert(queue[0..], e) == goal by {
        assert queue[0..] == queue;
      }
      while k < |queue| && Cmp(e.when, queue[k].when) != -1
        invariant Valid() && View() == old(View())
        invariant k <= |queue| && queue[..k] + S.Insert(queue[k..], e) == goal
      {
        S.InsertPass(queue, k, e);
        k := k + 1;
      }
      if k < |queue| {
        S.InsertPass(queue, k, e);
      } else {
        assert queue[k..] == [] && S.Insert([], e) == [e] && queue[..k] + [e] + [] == queue[..k] + [e];
      }
      assert goal == queue[..k] + [e] + queue[k..];
      queue := queue[..k] + [e] + queue[k..];
      added := added + 1;
    }

    method AddFlag(delay: CInt, flag: bool, data: int, now: Tv) returns (id: int)
      requires Valid()
      modifies this
      ensures Valid() && (View(), id) == S.Add(old(View()), delay, flag, data, now)
    {
      if delay == 0 {
        return -1;
      }
      var cell := AllocStruct();
      id := nextId;
      nextId := nextId + 1;
      AddScheduler(S.Event(cell, id, S.SetTime(Tv(0, 0), delay, now), flag, delay, data));
    }

    method Delete(id: int) returns (res: int)
      requires Valid()
      modifies this
      ensures Valid() && (View(), res) == S.Del(old(View()), id)
    {
      var k := 0;
      while k < |queue| && queue[k].id != id
        invariant k <= |queue|
        invariant forall i :: 0 <= i < k ==> queue[i].id != id
      {
        k := k + 1;
      }
      if k == |queue| {
        return -1;
      }
      var cell := queue[k].cell;
      queue := queue[..k] + queue[k + 1..];
      sent := ToUint32(sent - 1);
      ReleaseStruct(cell);
      res := 0;
    }

    method Wait(now: Tv) returns (ms: int)
      ensures ms == S.Wait(View(), now)
    {
      if queue == [] {
        return -1;
      }
      ms := ToInt32(DiffMs(queue[0].when, now));
      if ms < 0 {
        ms := 0;
      }
    }

    /** A callback at work: it calls back into the scheduler. */
    method Serve(requests: seq<S.Request>, now: Tv)
      requires Valid()
      modifies this
      ensures Valid() && View() == S.ServeAll(old(View()), requests, now)
    {
      var k := 0;
      assert requests[0..] == requests;
      while k < |requests|
        invariant k <= |requests| && Valid()
        invariant S.ServeAll(View(), requests[k..], now) == S.ServeAll(old(View()), requests, now)
      {
        assert requests[k..][1..] == requests[k + 1..];
        match requests[k] {
          case AddRequest(delay, flag, data) => var _ := AddFlag(delay, flag, data, now);
          case DelRequest(id) => var _ := Delete(id);
        }
        k := k + 1;
      }
    }

    /** One turn of the loop in spd_sched_runall: the head is taken off, its callback runs,
        and it is put back or released. */
    method RunHead(b: S.Behaviour, now: Tv) returns (id: int)
      requires Valid() && queue != []
      modifies this
      ensures Valid() && View() == S.Round(old(View()), b, now) && id == old(queue)[0].id
    {
      var cur := queue[0];
      queue := queue[1..];
      sent := ToUint32(sent - 1);
      Serve(b.requests, now);
      if b.result != 0 {
        AddScheduler(cur.(when := S.SetTime(cur.when, if cur.flag then b.result else cur.reschedule, now)));
      } else {
        ReleaseStruct(cur.cell);
      }
      id := cur.id;
    }

    /** spd_sched_runall. The loop ends because every turn leaves the events in the queue
        able to run at least once less. */
    method RunAll(now: Tv, behave: nat -> S.Behaviour) returns (count: nat, log: seq<int>)
      requires Valid() && S.Inv(View(), {}) && Normal(now)
      modifies this
      ensures Valid() && (View(), log) == R.RunAll(old(View()), now, behave, 0)
      ensures count == |log|
    {
      count, log := 0, [];
      ghost var goal := R.RunAll(View(), now, behave, 0);
      assert [] + goal.1 == goal.1;
      while queue != []
        invariant Valid() && S.Inv(View(), {}) && count == |log|
        invariant R.Underway(goal, log, View(), now, behave)
        decreases R.WeightOf(queue, now, None)
      {
        R.UnderwayStep(goal, log, View(), now, behave);
        if !S.Due(queue[0].when, now) {
          break;
        }
        R.RoundKeeps(View(), behave(count), now, None);
        var id := RunHead(behave(count), now);
        log, count := log + [id], count + 1;
      }
      R.UnderwayStep(goal, log, View(), now, behave);
    }
  }
}
