/** The timer scheduler of scheduler.c as values, and what it keeps. */
module Scheduler {

  import opened Common
  import opened Times

  const CACHE_LIMIT: nat := 128

  /** A scheduled event; `cell` is the address of its structure. */
  datatype Event = Event(cell: nat, id: int, when: Tv, flag: bool, reschedule: CInt, data: int)

  /** `cache` are the free structures, `unused` the next address an allocation returns.
      `sent` is the field schedsnt as the code keeps it: an unsigned counter that is
      decremented on removal and, since line 168 lacks its increment, never goes up.
      `added` counts the insertions that line was meant to record. */
  datatype Sched = Sched(queue: seq<Event>, cache: seq<nat>, nextId: int, sent: nat, added: nat, unused: nat)

  const EMPTY := Sched([], [], 1, 0, 0, 0)

  // ---------- the operations ----------

  function AllocCell(s: Sched): (nat, Sched) {
    if s.cache != [] then (s.cache[0], s.(cache := s.cache[1..]))
    else (s.unused, s.(unused := s.unused + 1))
  }

  function Release(s: Sched, cell: nat): Sched {
    if |s.cache| < CACHE_LIMIT then s.(cache := [cell] + s.cache) else s
  }

  /** add_scheduler: before the first event that is due strictly later. */
  function Insert(q: seq<Event>, e: Event): seq<Event> {
    if q == [] then [e]
    else if Cmp(e.when, q[0].when) == -1 then [e] + q
    else [q[0]] + Insert(q[1..], e)
  }

  /** The traversal of add_scheduler passes an event that is due no later. */
  lemma InsertPass(q: seq<Event>, k: nat, e: Event)
    requires k < |q|
    ensures Cmp(e.when, q[k].when) != -1 ==> q[..k] + Insert(q[k..], e) == q[..k + 1] + Insert(q[k + 1..], e)
    ensures Cmp(e.when, q[k].when) == -1 ==> q[..k] + Insert(q[k..], e) == q[..k] + [e] + q[k..]
  {
    var rest := Insert(q[k + 1..], e);
    assert q[k..][0] == q[k] && q[k..][1..] == q[k + 1..];
    assert q[..k + 1] == q[..k] + [q[k]];
    assert q[..k] + ([q[k]] + rest) == q[..k] + [q[k]] + rest;
    assert q[..k] + ([e] + q[k..]) == q[..k] + [e] + q[k..];
  }

  function Enqueue(s: Sched, e: Event): Sched {
    s.(queue := Insert(s.queue, e), added := s.added + 1)
  }

  /** One removal in the eyes of the unsigned counter schedsnt. */
  function Uncount(sent: nat): nat {
    ToUint32(sent - 1)
  }

  /** sched_settime. */
  function SetTime(when: Tv, delay: CInt, now: Tv): Tv {
    var t := Times.Add(if IsZero(when) then now else when, Samp2Tv(delay, 1000));
    if Cmp(t, now) < 0 then now else t
  }

  /** spd_sched_add_flag: the id, or -1 for a delay of zero. */
  function Add(s: Sched, delay: CInt, flag: bool, data: int, now: Tv): (Sched, int) {
    if delay == 0 then (s, -1)
    else
      var (cell, s1) := AllocCell(s);
      var e := Event(cell, s.nextId, SetTime(Tv(0, 0), delay, now), flag, delay, data);
      (Enqueue(s1.(nextId := s.nextId + 1), e), e.id)
  }

  function FindId(q: seq<Event>, id: int): (k: nat)
    ensures k <= |q|
    ensures k < |q| ==> q[k].id == id
    ensures forall i :: 0 <= i < k ==> q[i].id != id
  {
    if q == [] || q[0].id == id then 0 else 1 + FindId(q[1..], id)
  }

  /** spd_sched_del. */
  function Del(s: Sched, id: int): (Sched, int) {
    var k := FindId(s.queue, id);
    if k == |s.queue| then (s, -1)
    else
      (Release(s.(queue := s.queue[..k] + s.queue[k + 1..], sent := Uncount(s.sent)), s.queue[k].cell), 0)
  }

  /** spd_sched_wait: the milliseconds until the head is due, squeezed into an int. */
  function Wait(s: Sched, now: Tv): int {
    if s.queue == [] then -1
    else
      var ms := ToInt32(DiffMs(s.queue[0].when, now));
      if ms < 0 then 0 else ms
  }

  /** The due test of spd_sched_runall: less than a millisecond ahead of the clock. */
  predicate Due(when: Tv, now: Tv) {
    Cmp(when, Times.Add(now, Tv(0, 1000))) == -1
  }

  // ---------- running ----------

  /** What a callback does while it runs: calls of its own, then a result. */
  datatype Request = AddRequest(delay: CInt, flag: bool, data: int) | DelRequest(id: int)
  datatype Behaviour = Behaviour(requests: seq<Request>, result: CInt)

  function Serve(s: Sched, r: Request, now: Tv): Sched {
    match r
    case AddRequest(delay, flag, data) => Add(s, delay, flag, data, now).0
    case DelRequest(id) => Del(s, id).0
  }

  function ServeAll(s: Sched, rs: seq<Request>, now: Tv): Sched
    decreases |rs|
  {
    if rs == [] then s else ServeAll(Serve(s, rs[0], now), rs[1..], now)
  }

  /** The event to be run, taken off the queue. */
  function TakeHead(s: Sched): Sched
    requires s.queue != []
  {
    s.(queue := s.queue[1..], sent := Uncount(s.sent))
  }

  /** After the callback: back into the queue, or released. */
  function Settle(s: Sched, e: Event, result: CInt, now: Tv): Sched {
    if result != 0 then
      Enqueue(s, e.(when := SetTime(e.when, if e.flag then result else e.reschedule, now)))
    else Release(s, e.cell)
  }

  /** One round of spd_sched_runall. */
  function Round(s: Sched, b: Behaviour, now: Tv): Sched
    requires s.queue != []
  {
    Settle(ServeAll(TakeHead(s), b.requests, now), s.queue[0], b.result, now)
  }

  predicate Ready(s: Sched, now: Tv) {
    s.queue != [] && Due(s.queue[0].when, now)
  }

  // ---------- the state invariant ----------

  ghost predicate Sorted(q: seq<Event>) {
    && (forall i :: 0 <= i < |q| ==> Normal(q[i].when))
    && (forall i, j :: 0 <= i < j < |q| ==> Us(q[i].when) <= Us(q[j].when))
  }

  ghost predicate IdsOk(q: seq<Event>, nextId: int) {
    && (forall i :: 0 <= i < |q| ==> 1 <= q[i].id < nextId)
    && (forall i, j :: 0 <= i < j < |q| ==> q[i].id != q[j].id)
  }

  ghost predicate QueueCells(q: seq<Event>, unused: nat, hand: set<nat>) {
    && (forall i, j :: 0 <= i < j < |q| ==> q[i].cell != q[j].cell)
    && (forall i :: 0 <= i < |q| ==> q[i].cell < unused && q[i].cell !in hand)
  }

  ghost predicate CacheCells(cache: seq<nat>, unused: nat, hand: set<nat>) {
    && (forall i, j :: 0 <= i < j < |cache| ==> cache[i] != cache[j])
    && (forall j :: 0 <= j < |cache| ==> cache[j] < unused && cache[j] !in hand)
  }

  /** Every structure is in the queue, in the free cache or in the hands of runall, and in
      one of these places once. */
  ghost predicate CellsOk(s: Sched, hand: set<nat>) {
    && QueueCells(s.queue, s.unused, hand)
    && CacheCells(s.cache, s.unused, hand)
    && (forall i :: 0 <= i < |s.queue| ==> s.queue[i].cell !in s.cache)
    && (forall c :: c in hand ==> c < s.unused)
  }

  ghost predicate DelaysOk(q: seq<Event>) {
    forall i :: 0 <= i < |q| ==> q[i].reschedule != 0
  }

  ghost predicate Inv(s: Sched, hand: set<nat>) {
    && Sorted(s.queue)
    && IdsOk(s.queue, s.nextId)
    && s.nextId >= 1
    && CellsOk(s, hand)
    && |s.cache| <= CACHE_LIMIT
    && DelaysOk(s.queue)
    && s.sent < TWO_TO_THE_32
    && (s.sent + s.added) % TWO_TO_THE_32 == |s.queue| % TWO_TO_THE_32
  }

  // ---------- insertion ----------

  /** Sorted insertion: behind every event that is due no later, in front of all others, so
      equal times stay in the order of their insertion. */
  lemma {:induction false} InsertSplit(q: seq<Event>, e: Event) returns (k: nat)
    requires Sorted(q) && Normal(e.when)
    ensures k <= |q| && Insert(q, e) == q[..k] + [e] + q[k..]
    ensures forall i :: 0 <= i < k ==> Us(q[i].when) <= Us(e.when)
    ensures forall i :: k <= i < |q| ==> Us(e.when) < Us(q[i].when)
  {
    if q == [] {
      k := 0;
    } else {
      CmpExact(e.when, q[0].when);
      if Cmp(e.when, q[0].when) == -1 {
        k := 0;
      } else {
        var t := q[1..];
        k := InsertSplit(t, e);
        assert Insert(q, e) == [q[0]] + (t[..k] + [e] + t[k..]);
        assert q[..k + 1] == [q[0]] + t[..k] && q[k + 1..] == t[k..];
        k := k + 1;
      }
    }
  }

  /** q' is q with e put in at k. */
  ghost predicate PutAt(q: seq<Event>, k: nat, e: Event, q': seq<Event>) {
    k <= |q| && q' == q[..k] + [e] + q[k..]
  }

  lemma InsertSorted(q: seq<Event>, e: Event, q': seq<Event>)
    requires Sorted(q) && Normal(e.when) && q' == Insert(q, e)
    ensures Sorted(q')
  {
    var k := InsertSplit(q, e);
    assert PutAt(q, k, e, q');
  }

  lemma PutIds(q: seq<Event>, k: nat, e: Event, q': seq<Event>, nextId: int)
    requires PutAt(q, k, e, q') && IdsOk(q, nextId)
    requires 1 <= e.id < nextId && forall i :: 0 <= i < |q| ==> q[i].id != e.id
    ensures IdsOk(q', nextId)
  {
  }

  lemma PutCells(q: seq<Event>, k: nat, e: Event, q': seq<Event>, unused: nat, hand: set<nat>)
    requires PutAt(q, k, e, q') && QueueCells(q, unused, hand) && e.cell in hand && e.cell < unused
    ensures QueueCells(q', unused, hand - {e.cell})
  {
  }

  lemma EnqueueQueue(q: seq<Event>, e: Event, q': seq<Event>, nextId: int, unused: nat, hand: set<nat>)
    requires Sorted(q) && IdsOk(q, nextId) && QueueCells(q, unused, hand) && DelaysOk(q)
    requires Normal(e.when) && e.cell in hand && e.cell < unused && e.reschedule != 0
    requires 1 <= e.id < nextId && forall i :: 0 <= i < |q| ==> q[i].id != e.id
    requires q' == Insert(q, e)
    ensures Sorted(q') && IdsOk(q', nextId) && QueueCells(q', unused, hand - {e.cell}) && DelaysOk(q')
    ensures |q'| == |q| + 1 && forall x :: x in q' ==> x in q || x == e
  {
    InsertSorted(q, e, q');
    var k := InsertSplit(q, e);
    PutIds(q, k, e, q', nextId);
    PutCells(q, k, e, q', unused, hand);
  }

  /** An event in hand goes into the queue. */
  lemma EnqueueKeeps(s: Sched, e: Event, hand: set<nat>, s': Sched)
    requires Inv(s, hand) && Normal(e.when) && e.cell in hand && s' == Enqueue(s, e)
    requires 1 <= e.id < s.nextId && forall i :: 0 <= i < |s.queue| ==> s.queue[i].id != e.id
    requires e.reschedule != 0
    ensures Inv(s', hand - {e.cell})
  {
    EnqueueQueue(s.queue, e, s'.queue, s.nextId, s.unused, hand);
    ModAdd(s.sent + s.added, |s.queue|, 1);
    forall i | 0 <= i < |s'.queue|
      ensures s'.queue[i].cell !in s'.cache
    {
      assert s'.queue[i] in s'.queue;
    }
  }

  lemma ModAdd(a: int, b: int, c: int)
    requires a % TWO_TO_THE_32 == b % TWO_TO_THE_32
    ensures (a + c) % TWO_TO_THE_32 == (b + c) % TWO_TO_THE_32
  {
    var k := a / TWO_TO_THE_32 - b / TWO_TO_THE_32;
    assert a + c == (b + c) + k * TWO_TO_THE_32;
    ModShift(b + c, k);
  }

  lemma {:induction false} ModShift(a: int, k: int)
    ensures (a + k * TWO_TO_THE_32) % TWO_TO_THE_32 == a % TWO_TO_THE_32
  {
  }

  /** What the due time becomes: never before the clock reading, and later than both the
      reading and, short of a wrap through the zero time, the old due time by the delay. */
  lemma SetTimeBounds(when: Tv, delay: CInt, now: Tv)
    requires Normal(when) && Normal(now) && delay != 0
    ensures Normal(SetTime(when, delay, now))
    ensures Us(SetTime(when, delay, now)) >= Us(now)
    ensures Us(SetTime(when, delay, now)) >= (if IsZero(when) then Us(now) else Us(when)) + 1000
         || SetTime(when, delay, now) == now
    ensures IsZero(when) ==> Us(SetTime(when, delay, now)) == Us(now) + 1000 * ToUint32(delay)
    ensures !IsZero(when) && Us(when) + 1000 * ToUint32(delay) >= Us(now) ==>
      Us(SetTime(when, delay, now)) == Us(when) + 1000 * ToUint32(delay)
    ensures ToUint32(delay) >= 1
  {
    DelayExact(delay);
    var base := if IsZero(when) then now else when;
    AddExact(base, Samp2Tv(delay, 1000));
    CmpExact(Times.Add(base, Samp2Tv(delay, 1000)), now);
    if delay < 0 {
      ModShift(delay, 1);
      assert (delay + 1 * TWO_TO_THE_32) % TWO_TO_THE_32 == delay + TWO_TO_THE_32;
    }
  }

  lemma AllocKeeps(s: Sched, hand: set<nat>)
    requires Inv(s, hand)
    ensures var (cell, s1) := AllocCell(s);
      Inv(s1, hand + {cell}) && cell !in hand && s1.queue == s.queue && s1.nextId == s.nextId
  {
    var (cell, s1) := AllocCell(s);
    if s.cache != [] {
      assert s.cache[0] == cell;
    }
  }

  lemma ReleaseKeeps(s: Sched, cell: nat, hand: set<nat>)
    requires Inv(s, hand) && cell in hand
    ensures Inv(Release(s, cell), hand - {cell})
  {
  }

  lemma AddKeeps(s: Sched, delay: CInt, flag: bool, data: int, now: Tv, hand: set<nat>)
    requires Inv(s, hand) && Normal(now)
    ensures Inv(Add(s, delay, flag, data, now).0, hand)
  {
    if delay != 0 {
      var (cell, s1) := AllocCell(s);
      AllocKeeps(s, hand);
      SetTimeBounds(Tv(0, 0), delay, now);
      var s2 := s1.(nextId := s.nextId + 1);
      var e := Event(cell, s.nextId, SetTime(Tv(0, 0), delay, now), flag, delay, data);
      assert Inv(s2, hand + {cell});
      EnqueueKeeps(s2, e, hand + {cell}, Enqueue(s2, e));
      assert hand + {cell} - {cell} == hand;
    }
  }

  /** q' is q without its k-th event. */
  ghost predicate DropAt(q: seq<Event>, k: nat, q': seq<Event>) {
    k < |q| && q' == q[..k] + q[k + 1..]
  }

  lemma DropCells(q: seq<Event>, k: nat, q': seq<Event>, unused: nat, hand: set<nat>)
    requires DropAt(q, k, q') && QueueCells(q, unused, hand)
    ensures QueueCells(q', unused, hand + {q[k].cell})
  {
  }

  lemma DropQueue(q: seq<Event>, k: nat, q': seq<Event>, nextId: int, unused: nat, hand: set<nat>)
    requires DropAt(q, k, q') && Sorted(q) && IdsOk(q, nextId) && QueueCells(q, unused, hand) && DelaysOk(q)
    ensures Sorted(q') && IdsOk(q', nextId) && QueueCells(q', unused, hand + {q[k].cell}) && DelaysOk(q')
    ensures forall i :: 0 <= i < |q'| ==> q'[i].id != q[k].id && q'[i] in q
  {
    DropCells(q, k, q', unused, hand);
    hide QueueCells;
  }

  /** Taking any event off the queue puts its structure in the caller's hand. */
  lemma RemoveKeeps(s: Sched, k: nat, hand: set<nat>, s': Sched)
    requires Inv(s, hand) && k < |s.queue|
    requires s' == s.(queue := s.queue[..k] + s.queue[k + 1..], sent := Uncount(s.sent))
    ensures Inv(s', hand + {s.queue[k].cell})
    ensures forall i :: 0 <= i < |s'.queue| ==> s'.queue[i].id != s.queue[k].id
  {
    DropQueue(s.queue, k, s'.queue, s.nextId, s.unused, hand);
    ModAdd(s.sent + s.added, |s.queue|, -1);
    ModAdd(s'.sent, s.sent - 1, s.added);
  }

  lemma DelKeeps(s: Sched, id: int, hand: set<nat>)
    requires Inv(s, hand)
    ensures Inv(Del(s, id).0, hand)
  {
    var k := FindId(s.queue, id);
    if k < |s.queue| {
      var s' := s.(queue := s.queue[..k] + s.queue[k + 1..], sent := Uncount(s.sent));
      RemoveKeeps(s, k, hand, s');
      ReleaseKeeps(s', s.queue[k].cell, hand + {s.queue[k].cell});
      assert hand + {s.queue[k].cell} - {s.queue[k].cell} == hand;
    }
  }
}
