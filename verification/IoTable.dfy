/** The I/O record table of io.c (poll variant) as values: slots addressed through id
    cells, deferred removal and stable compaction. */
module IoTable {

  import opened Common

  /** One index of the two parallel arrays: struct pollfd and struct io_rec together. The
      callback 0 is the NULL pointer. `id` points to the cell that holds the index. */
  datatype Slot = Slot(fd: int, events: int, revents: int, cb: nat, data: int, id: Option<nat>)

  /** `slots` are the first fdcnt entries; `cells` the allocated id cells and their values. */
  datatype Io = Io(slots: seq<Slot>, cells: map<nat, int>, needShrink: bool, current: int, nextCell: nat)

  const EMPTY := Io([], map[], false, -1, 0)

  // ---------- the operations ----------

  /** spd_io_context_add, with the slot counted. */
  function Add(s: Io, fd: int, cb: nat, data: int, events: int): (Io, nat) {
    (s.(slots := s.slots + [Slot(fd, events, 0, cb, data, Some(s.nextCell))],
        cells := s.cells[s.nextCell := |s.slots|], nextCell := s.nextCell + 1), s.nextCell)
  }

  /** The fields that spd_io_context_change overwrites: those given a real value. */
  function Changed(o: Slot, fd: int, cb: nat, data: int, events: int): Slot {
    o.(fd := if fd > -1 then fd else o.fd, cb := if cb != 0 then cb else o.cb,
       events := if events != 0 then events else o.events, data := if data != 0 then data else o.data)
  }

  function Change(s: Io, id: nat, fd: int, cb: nat, data: int, events: int): Io
    requires id in s.cells && 0 <= s.cells[id] < |s.slots|
  {
    s.(slots := s.slots[s.cells[id] := Changed(s.slots[s.cells[id]], fd, cb, data, events)])
  }

  function FindId(slots: seq<Slot>, id: nat): (k: nat)
    ensures k <= |slots|
    ensures k < |slots| ==> slots[k].id == Some(id)
    ensures forall i :: 0 <= i < k ==> slots[i].id != Some(id)
  {
    if slots == [] || slots[0].id == Some(id) then 0 else 1 + FindId(slots[1..], id)
  }

  /** io_shrink: the in-use slots, in order. */
  function InUse(slots: seq<Slot>): seq<Slot> {
    if slots == [] then [] else (if slots[0].id.Some? then [slots[0]] else []) + InUse(slots[1..])
  }

  /** Writing each slot's index into its cell. */
  function Number(slots: seq<Slot>, k: nat, cells: map<nat, int>): map<nat, int> {
    if slots == [] then cells
    else if slots[0].id.None? then Number(slots[1..], k + 1, cells)
    else Number(slots[1..], k + 1, cells[slots[0].id.value := k])
  }

  function Shrink(s: Io): Io {
    s.(slots := InUse(s.slots), cells := Number(InUse(s.slots), 0, s.cells), needShrink := false)
  }

  /** The slot after its removal: no id, nothing to poll for, nothing pending. */
  function Vacated(o: Slot): Slot {
    o.(id := None, events := 0, revents := 0)
  }

  /** spd_io_context_remove before any compaction. */
  function Vacate(s: Io, k: nat): Io
    requires k < |s.slots| && s.slots[k].id.Some?
  {
    s.(slots := s.slots[k := Vacated(s.slots[k])], cells := s.cells - {s.slots[k].id.value}, needShrink := true)
  }

  /** spd_io_context_remove: compaction is put off while a callback is running. */
  function Remove(s: Io, id: Option<nat>): (Io, int) {
    if id.None? then (s, -1)
    else
      var k := FindId(s.slots, id.value);
      if k == |s.slots| then (s, -1)
      else
        var s1 := Vacate(s, k);
        (if s.current == -1 then Shrink(s1) else s1, 0)
  }

  // ---------- dispatch ----------

  /** What a callback does: calls into the table, and whether it wants to stay. */
  datatype Request =
    | AddRequest(fd: int, cb: nat, data: int, events: int)
    | ChangeRequest(id: nat, fd: int, cb: nat, data: int, events: int)
    | RemoveRequest(id: nat)
  datatype Behaviour = Behaviour(requests: seq<Request>, keep: bool)

  /** A change through an id that has been removed is the caller's error; it is ignored. */
  function Serve(s: Io, r: Request): Io {
    match r
    case AddRequest(fd, cb, data, events) => Add(s, fd, cb, data, events).0
    case ChangeRequest(id, fd, cb, data, events) =>
      if id in s.cells && 0 <= s.cells[id] < |s.slots| then Change(s, id, fd, cb, data, events) else s
    case RemoveRequest(id) => Remove(s, Some(id)).0
  }

  function ServeAll(s: Io, rs: seq<Request>): Io
    decreases |rs|
  {
    if rs == [] then s else ServeAll(Serve(s, rs[0]), rs[1..])
  }

  /** A callback call: the slot, the function called and its arguments. */
  datatype Call = Call(slot: nat, cb: nat, id: nat, fd: int, revents: int, data: int)

  predicate Pending(o: Slot) {
    o.revents != 0 && o.id.Some?
  }

  /** One turn of the dispatch loop for slot x, with an event pending there. A NULL callback
      leaves current_ioc at the slot's index. */
  function Turn(s: Io, x: nat, b: Behaviour): Io
    requires x < |s.slots| && Pending(s.slots[x])
  {
    var s1 := s.(current := x);
    if s.slots[x].cb == 0 then s1
    else
      var s2 := ServeAll(s1, b.requests);
      var s3 := if b.keep || x >= |s2.slots| then s2 else Remove(s2, s2.slots[x].id).0;
      s3.(current := -1)
  }

  function CallOf(o: Slot, x: nat): Call
    requires o.id.Some?
  {
    Call(x, o.cb, o.id.value, o.fd, o.revents, o.data)
  }

  /** Slot x of the dispatch loop: a turn if something is pending there, nothing otherwise. */
  function Advance(s: Io, x: nat, b: Behaviour): Io
    requires x < |s.slots|
  {
    if Pending(s.slots[x]) then Turn(s, x, b) else s
  }

  function Logged(s: Io, x: nat, calls: seq<Call>): seq<Call>
    requires x < |s.slots|
  {
    if Pending(s.slots[x]) && s.slots[x].cb != 0 then calls + [CallOf(s.slots[x], x)] else calls
  }

  /** The dispatch loop from slot x on; `calls` are the calls made so far. */
  function Dispatch(s: Io, x: nat, n: nat, behave: nat -> Behaviour, calls: seq<Call>): (Io, seq<Call>)
    decreases n - x
  {
    if x >= n || x >= |s.slots| then (s, calls)
    else Dispatch(Advance(s, x, behave(|calls|)), x + 1, n, behave, Logged(s, x, calls))
  }

  /** poll writes the pending events of every slot. */
  function Polled(slots: seq<Slot>, ready: nat -> int): seq<Slot> {
    seq(|slots|, i requires 0 <= i < |slots| => slots[i].(revents := ready(i)))
  }

  function SomeReady(slots: seq<Slot>): bool {
    exists i :: 0 <= i < |slots| && slots[i].revents != 0
  }

  /** spd_io_context_wait. */
  function Wait(s: Io, ready: nat -> int, behave: nat -> Behaviour): (Io, seq<Call>) {
    var s0 := s.(slots := Polled(s.slots, ready));
    if !SomeReady(s0.slots) then (s0, [])
    else
      var (s1, calls) := Dispatch(s0, 0, |s0.slots|, behave, []);
      (if s1.needShrink then Shrink(s1) else s1, calls)
  }

  // ---------- id indirection ----------

  /** Every in-use slot has a cell that holds its index, and every cell belongs to an in-use
      slot: the cells of different slots are different. */
  ghost predicate Indirect(s: Io) {
    && (forall i :: 0 <= i < |s.slots| && s.slots[i].id.Some? ==>
          s.slots[i].id.value in s.cells && s.cells[s.slots[i].id.value] == i)
    && (forall c :: c in s.cells ==>
          c < s.nextCell && 0 <= s.cells[c] < |s.slots| && s.slots[s.cells[c]].id == Some(c))
  }

  ghost predicate NoHoles(slots: seq<Slot>) {
    forall i :: 0 <= i < |slots| ==> slots[i].id.Some?
  }

  ghost predicate Core(s: Io) {
    Indirect(s) && (s.needShrink || NoHoles(s.slots))
  }

  /** Between calls: holes may exist only while current_ioc names a running callback. */
  ghost predicate Inv(s: Io) {
    Core(s) && (s.current == -1 ==> !s.needShrink)
  }

  /** What an id stands for. */
  function Lookup(s: Io, id: nat): Slot
    requires id in s.cells && 0 <= s.cells[id] < |s.slots|
  {
    s.slots[s.cells[id]]
  }

  lemma {:induction false} InUseShape(slots: seq<Slot>)
    ensures NoHoles(InUse(slots))
    ensures forall o :: o in InUse(slots) <==> o in slots && o.id.Some?
    ensures NoHoles(slots) ==> InUse(slots) == slots
  {
    if slots != [] {
      InUseShape(slots[1..]);
      assert slots == [slots[0]] + slots[1..];
    }
  }

  ghost predicate DistinctIds(slots: seq<Slot>) {
    forall i, j :: 0 <= i < j < |slots| && slots[i].id.Some? ==> slots[i].id != slots[j].id
  }

  lemma {:induction false} InUseDistinct(slots: seq<Slot>)
    requires DistinctIds(slots)
    ensures DistinctIds(InUse(slots))
  {
    if slots != [] {
      InUseDistinct(slots[1..]);
      InUseShape(slots[1..]);
      if slots[0].id.Some? {
        var t := InUse(slots[1..]);
        forall j | 0 <= j < |t|
          ensures slots[0].id != t[j].id
        {
          assert t[j] in slots[1..];
        }
      }
    }
  }

  lemma {:induction false} NumberShape(slots: seq<Slot>, k: nat, cells: map<nat, int>)
    requires DistinctIds(slots) && NoHoles(slots)
    requires forall i :: 0 <= i < |slots| ==> slots[i].id.value in cells
    ensures Number(slots, k, cells).Keys == cells.Keys
    ensures forall i :: 0 <= i < |slots| ==> Number(slots, k, cells)[slots[i].id.value] == k + i
    ensures forall c :: c in cells && (forall i :: 0 <= i < |slots| ==> slots[i].id != Some(c)) ==>
      Number(slots, k, cells)[c] == cells[c]
  {
    if slots != [] {
      var c0 := slots[0].id.value;
      assert forall i :: 0 <= i < |slots[1..]| ==> slots[1..][i] == slots[i + 1];
      NumberShape(slots[1..], k + 1, cells[c0 := k]);
      forall i | 0 <= i < |slots|
        ensures Number(slots, k, cells)[slots[i].id.value] == k + i
      {
        if i > 0 {
          assert slots[1..][i - 1] == slots[i];
        }
      }
    }
  }

  lemma IndirectDistinct(s: Io)
    requires Indirect(s)
    ensures DistinctIds(s.slots)
  {
  }

  lemma ShrinkNumbers(s: Io)
    requires Indirect(s)
    ensures var kept, cells := InUse(s.slots), Shrink(s).cells;
      && NoHoles(kept) && cells.Keys == s.cells.Keys
      && forall i :: 0 <= i < |kept| ==> kept[i].id.value in cells && cells[kept[i].id.value] == i
  {
    var kept := InUse(s.slots);
    IndirectDistinct(s);
    InUseShape(s.slots);
    InUseDistinct(s.slots);
    forall i | 0 <= i < |kept|
      ensures kept[i].id.value in s.cells
    {
      assert kept[i] in kept;
    }
    NumberShape(kept, 0, s.cells);
  }

  /** One surviving id after compaction. */
  lemma ShrinkLookup(s: Io, id: nat)
    requires Indirect(s) && id in s.cells
    ensures var s' := Shrink(s);
      id in s'.cells && 0 <= s'.cells[id] < |s'.slots| && Lookup(s', id) == Lookup(s, id)
  {
    var kept, o := InUse(s.slots), Lookup(s, id);
    ShrinkNumbers(s);
    InUseShape(s.slots);
    assert o in kept;
    var i :| 0 <= i < |kept| && kept[i] == o;
    assert Shrink(s).cells[kept[i].id.value] == i;
  }

  /** Where the in-use slots in front of k end up: their number is their new place. */
  lemma {:induction false} InUsePrefix(slots: seq<Slot>, k: nat)
    requires k <= |slots|
    ensures InUse(slots) == InUse(slots[..k]) + InUse(slots[k..])
    decreases k
  {
    if k > 0 {
      InUsePrefix(slots[1..], k - 1);
      assert slots[..k][1..] == slots[1..][..k - 1];
    }
  }

  /** The new index of a surviving id is the number of in-use slots in front of its own. */
  lemma ShrinkPlace(s: Io, id: nat)
    requires Indirect(s) && id in s.cells
    ensures id in Shrink(s).cells && Shrink(s).cells[id] == |InUse(s.slots[..s.cells[id]])|
  {
    var k := s.cells[id];
    ShrinkNumbers(s);
    InUsePrefix(s.slots, k);
    assert InUse(s.slots[k..])[0] == s.slots[k];
    assert InUse(s.slots)[|InUse(s.slots[..k])|].id == Some(id);
  }

  /** Surviving ids keep their order. */
  lemma ShrinkOrders(s: Io, a: nat, b: nat)
    requires Indirect(s) && a in s.cells && b in s.cells && s.cells[a] < s.cells[b]
    ensures a in Shrink(s).cells && b in Shrink(s).cells && Shrink(s).cells[a] < Shrink(s).cells[b]
  {
    var i, j := s.cells[a], s.cells[b];
    ShrinkPlace(s, a);
    ShrinkPlace(s, b);
    InUsePrefix(s.slots[..j], i);
    assert s.slots[..j][..i] == s.slots[..i] && s.slots[..j][i..][0] == s.slots[i];
  }

  /** Compaction keeps exactly the in-use slots, in their order, and every surviving id
      leads to the same descriptor, events, callback and data as before. */
  lemma ShrinkKeeps(s: Io)
    requires Indirect(s)
    ensures Indirect(Shrink(s)) && NoHoles(Shrink(s).slots)
    ensures Shrink(s).cells.Keys == s.cells.Keys
    ensures forall id :: id in s.cells ==> Lookup(Shrink(s), id) == Lookup(s, id)
    ensures forall a, b :: a in s.cells && b in s.cells && s.cells[a] < s.cells[b] ==>
      Shrink(s).cells[a] < Shrink(s).cells[b]
  {
    ShrinkNumbers(s);
    forall a, b | a in s.cells && b in s.cells && s.cells[a] < s.cells[b]
      ensures a in Shrink(s).cells && b in Shrink(s).cells && Shrink(s).cells[a] < Shrink(s).cells[b]
    {
      ShrinkOrders(s, a, b);
    }
    forall id | id in s.cells
      ensures 0 <= Shrink(s).cells[id] < |Shrink(s).slots| && Lookup(Shrink(s), id) == Lookup(s, id)
    {
      ShrinkLookup(s, id);
    }
  }

  // ---------- what every operation keeps ----------

  lemma AddKeeps(s: Io, fd: int, cb: nat, data: int, events: int)
    requires Core(s)
    ensures var (s', id) := Add(s, fd, cb, data, events);
      && Core(s') && id !in s.cells && s'.cells.Keys == s.cells.Keys + {id}
      && Lookup(s', id) == Slot(fd, events, 0, cb, data, Some(id))
      && forall c :: c in s.cells ==> Lookup(s', c) == Lookup(s, c)
  {
    assert s.nextCell !in s.cells;
  }

  lemma ChangeKeeps(s: Io, id: nat, fd: int, cb: nat, data: int, events: int)
    requires Core(s) && id in s.cells
    ensures var s' := Change(s, id, fd, cb, data, events);
      && Core(s') && s'.cells == s.cells
      && Lookup(s', id) == Changed(Lookup(s, id), fd, cb, data, events)
      && forall c :: c in s.cells && c != id ==> Lookup(s', c) == Lookup(s, c)
    ensures var o, o' := Lookup(s, id), Lookup(Change(s, id, fd, cb, data, events), id);
      && (fd >= 0 ==> o'.fd == fd) && (cb != 0 ==> o'.cb == cb)
      && (data != 0 ==> o'.data == data) && (events != 0 ==> o'.events == events)
      && o' == Slot(if fd < 0 then o.fd else o'.fd, if events == 0 then o.events else o'.events, o.revents,
                    if cb == 0 then o.cb else o'.cb, if data == 0 then o.data else o'.data, Some(id))
  {
  }

  lemma VacateKeeps(s: Io, k: nat)
    requires Core(s) && k < |s.slots| && s.slots[k].id.Some?
    ensures Core(Vacate(s, k)) && Vacate(s, k).cells.Keys == s.cells.Keys - {s.slots[k].id.value}
    ensures forall c :: c in Vacate(s, k).cells ==> Lookup(Vacate(s, k), c) == Lookup(s, c)
  {
  }

  /** Removal: it succeeds exactly for an id that is in use, takes that id away, and leaves
      what every other id stands for. */
  lemma RemoveKeeps(s: Io, id: nat)
    requires Core(s)
    ensures var (s', res) := Remove(s, Some(id));
      && Core(s') && (res == 0 <==> id in s.cells) && (res == 0 || (res == -1 && s' == s))
      && s'.cells.Keys == s.cells.Keys - {id}
      && s'.current == s.current
      && (s.current == -1 && !s.needShrink ==> !s'.needShrink)
      && forall c :: c in s'.cells ==> Lookup(s', c) == Lookup(s, c)
  {
    var k := FindId(s.slots, id);
    if k < |s.slots| {
      VacateKeeps(s, k);
      if s.current == -1 {
        ShrinkKeeps(Vacate(s, k));
      }
    }
  }

  /** Every operation keeps the invariant: each id leads to its own slot, and there are no
      holes unless a callback is running. */
  lemma OperationsKeep(s: Io, r: Request)
    requires Inv(s)
    ensures Inv(Serve(s, r))
  {
    match r {
      case AddRequest(fd, cb, data, events) => AddKeeps(s, fd, cb, data, events);
      case ChangeRequest(id, fd, cb, data, events) => if id in s.cells { ChangeKeeps(s, id, fd, cb, data, events); }
      case RemoveRequest(id) => RemoveKeeps(s, id);
    }
  }

  /** The code of spd_io_context_add as it stands: line 147 lacks its increment, so the slot
      is written but not counted. */
  function AddAsWritten(s: Io): (Io, nat) {
    (s.(cells := s.cells[s.nextCell := |s.slots|], nextCell := s.nextCell + 1), s.nextCell)
  }

  /** Such an id never leads to a slot: it cannot be removed, and the next addition hands out
      the same index again. */
  lemma AddAsWrittenIsLost(s: Io)
    requires Inv(s)
    ensures var (s1, id1) := AddAsWritten(s); var (s2, id2) := AddAsWritten(s1);
      && Remove(s1, Some(id1)).1 == -1
      && id1 != id2 && s2.cells[id1] == s2.cells[id2]
      && !Indirect(s1)
  {
    var (s1, id1) := AddAsWritten(s);
    assert id1 in s1.cells && s1.cells[id1] == |s1.slots|;
    assert forall i :: 0 <= i < |s.slots| ==> s.slots[i].id != Some(id1);
  }

  // ---------- the dispatch loop ----------

  /** A polled slot later in the round: it has its id and its pending events still, or has
      been vacated; a callback, once there, stays. */
  predicate SlotTracks(o: Slot, o0: Slot) {
    && ((o.id == None && o.revents == 0) || (o.id == o0.id && o.revents == o0.revents))
    && (o0.cb != 0 ==> o.cb != 0)
  }

  /** A slot added during the round: nothing is pending, and its id is a new one. */
  predicate SlotIsNew(o: Slot, limit: nat) {
    o.revents == 0 && (o.id.Some? ==> o.id.value >= limit)
  }

  /** The table during a round that was polled as s0 with n slots. */
  ghost predicate Tracks(s: Io, s0: Io, n: nat) {
    && Core(s) && Indirect(s0) && n == |s0.slots| <= |s.slots|
    && s0.nextCell <= s.nextCell
    && (forall i :: 0 <= i < n ==> SlotTracks(s.slots[i], s0.slots[i]))
    && (forall i :: n <= i < |s.slots| ==> SlotIsNew(s.slots[i], s0.nextCell))
  }

  lemma AddTracks(s: Io, s0: Io, n: nat, fd: int, cb: nat, data: int, events: int)
    requires Tracks(s, s0, n)
    ensures Tracks(Add(s, fd, cb, data, events).0, s0, n)
  {
    AddKeeps(s, fd, cb, data, events);
  }

  lemma ChangeTracks(s: Io, s0: Io, n: nat, id: nat, fd: int, cb: nat, data: int, events: int)
    requires Tracks(s, s0, n) && id in s.cells
    ensures Tracks(Change(s, id, fd, cb, data, events), s0, n)
  {
    ChangeKeeps(s, id, fd, cb, data, events);
  }

  lemma VacateTracks(s: Io, s0: Io, n: nat, k: nat)
    requires Tracks(s, s0, n) && k < |s.slots| && s.slots[k].id.Some?
    ensures Tracks(Vacate(s, k), s0, n)
  {
    VacateKeeps(s, k);
  }

  /** A request made while a callback runs. */
  lemma ServeTracks(s: Io, s0: Io, n: nat, r: Request)
    requires Tracks(s, s0, n) && s.current != -1
    ensures Tracks(Serve(s, r), s0, n) && Serve(s, r).current == s.current
    ensures forall c :: c in s.cells ==> (c in Serve(s, r).cells <==> r != RemoveRequest(c))
    ensures forall c :: c in Serve(s, r).cells && c < s.nextCell ==> c in s.cells
    ensures Serve(s, r).nextCell >= s.nextCell
  {
    match r {
      case AddRequest(fd, cb, data, events) => AddTracks(s, s0, n, fd, cb, data, events);
      case ChangeRequest(id, fd, cb, data, events) =>
        if id in s.cells { ChangeTracks(s, s0, n, id, fd, cb, data, events); }
      case RemoveRequest(id) => RemoveTracks(s, s0, n, id);
    }
  }

  lemma RemoveTracks(s: Io, s0: Io, n: nat, id: nat)
    requires Tracks(s, s0, n) && s.current != -1
    ensures var s' := Remove(s, Some(id)).0;
      Tracks(s', s0, n) && s'.current == s.current && s'.nextCell == s.nextCell && s'.cells.Keys == s.cells.Keys - {id}
  {
    RemoveKeeps(s, id);
    var k := FindId(s.slots, id);
    if k < |s.slots| { VacateTracks(s, s0, n, k); }
  }

  ghost predicate RemovesIn(rs: seq<Request>, id: nat) {
    RemoveRequest(id) in rs
  }

  lemma {:induction false} ServeAllTracks(s: Io, s0: Io, n: nat, rs: seq<Request>)
    requires Tracks(s, s0, n) && s.current != -1
    ensures Tracks(ServeAll(s, rs), s0, n) && ServeAll(s, rs).current == s.current
    ensures forall c :: c in s.cells ==> (c in ServeAll(s, rs).cells <==> !RemovesIn(rs, c))
    ensures forall c :: c in ServeAll(s, rs).cells && c < s.nextCell ==> c in s.cells
    ensures ServeAll(s, rs).nextCell >= s.nextCell
    decreases |rs|
  {
    if rs != [] {
      var s1 := Serve(s, rs[0]);
      ServeTracks(s, s0, n, rs[0]);
      ServeAllTracks(s1, s0, n, rs[1..]);
      assert rs == [rs[0]] + rs[1..];
    }
  }

  /** Does this call take the id away, by a request or by returning 0? */
  ghost predicate TakesAway(b: Behaviour, c: Call, id: nat) {
    RemovesIn(b.requests, id) || (c.id == id && !b.keep)
  }

  /** A polled slot that has lost its id does not get it back, nor does another slot. */
  lemma GoneForGood(s: Io, s0: Io, n: nat, x: nat)
    requires Tracks(s, s0, n) && x < n && s0.slots[x].id.Some? && s.slots[x].id == None
    ensures s0.slots[x].id.value !in s.cells
  {
  }

  /** The removal of a slot whose callback returned 0. */
  lemma DismissTracks(s: Io, s0: Io, n: nat, x: nat, id: nat, s': Io)
    requires Tracks(s, s0, n) && s.current != -1 && x < n && s0.slots[x].id == Some(id)
    requires s' == Remove(s, s.slots[x].id).0
    ensures Tracks(s', s0, n) && s'.nextCell == s.nextCell && s'.cells.Keys == s.cells.Keys - {id}
  {
    if s.slots[x].id == None {
      GoneForGood(s, s0, n, x);
    } else {
      RemoveTracks(s, s0, n, id);
    }
  }

  lemma TrackedId(s: Io, s0: Io, n: nat, x: nat)
    requires Tracks(s, s0, n) && x < n
    ensures n == |s0.slots| <= |s.slots|
    ensures s.slots[x].id.Some? ==> s0.slots[x].id == s.slots[x].id
  {
  }

  /** A callback at slot x, from the moment current_ioc is set to the moment it is reset. */
  lemma CallTracks(s1: Io, s0: Io, n: nat, x: nat, b: Behaviour, s2: Io, s3: Io, id: nat)
    requires Tracks(s1, s0, n) && x < n <= |s1.slots| && s1.current == x && s1.slots[x].id == Some(id)
    requires s2 == ServeAll(s1, b.requests)
    requires s3 == if b.keep || x >= |s2.slots| then s2 else Remove(s2, s2.slots[x].id).0
    ensures Tracks(s3, s0, n) && s3.nextCell >= s1.nextCell
    ensures forall c :: c in s1.cells ==> (c in s3.cells <==> !RemovesIn(b.requests, c) && !(c == id && !b.keep))
    ensures forall c :: c in s3.cells && c < s1.nextCell ==> c in s1.cells
  {
    hide Tracks, ServeAll, Remove, RemovesIn;
    ServeAllTracks(s1, s0, n, b.requests);
    TrackedId(s1, s0, n, x);
    TrackedId(s2, s0, n, x);
    if !b.keep {
      DismissTracks(s2, s0, n, x, id, s3);
    }
  }

  lemma TurnTracks(s: Io, s0: Io, x: nat, b: Behaviour)
    requires Tracks(s, s0, |s0.slots|) && x < |s0.slots| && Pending(s.slots[x])
    ensures Tracks(Turn(s, x, b), s0, |s0.slots|)
    ensures s.slots[x].cb != 0 ==> Turn(s, x, b).current == -1
    ensures s.slots[x].cb == 0 ==> Turn(s, x, b) == s.(current := x)
    ensures s.slots[x].cb != 0 ==> forall c :: c in s.cells ==>
      (c in Turn(s, x, b).cells <==> !TakesAway(b, CallOf(s.slots[x], x), c))
    ensures forall c :: c in Turn(s, x, b).cells && c < s.nextCell ==> c in s.cells
    ensures Turn(s, x, b).nextCell >= s.nextCell
  {
    var s1 := s.(current := x);
    assert Tracks(s1, s0, |s0.slots|);
    if s.slots[x].cb != 0 {
      var s2 := ServeAll(s1, b.requests);
      var s3 := if b.keep || x >= |s2.slots| then s2 else Remove(s2, s2.slots[x].id).0;
      CallTracks(s1, s0, |s0.slots|, x, b, s2, s3, s.slots[x].id.value);
    }
  }

  // ---------- one round ----------

  /** Is the id taken away by one of these calls? The k-th call behaves as `behave(k)`. */
  ghost predicate Taken(calls: seq<Call>, behave: nat -> Behaviour, id: nat) {
    exists k :: 0 <= k < |calls| && TakesAway(behave(k), calls[k], id)
  }

  /** The calls made for slots below x. */
  ghost predicate CallsBelow(calls: seq<Call>, x: nat) {
    && (forall k :: 0 <= k < |calls| ==> calls[k].slot < x)
    && (forall j, k :: 0 <= j < k < |calls| ==> calls[j].slot < calls[k].slot)
  }

  /** The state of a round at slot x: an id polled at the start is still in use exactly if no
      call so far has taken it away. */
  ghost predicate RoundAt(s: Io, s0: Io, x: nat, calls: seq<Call>, behave: nat -> Behaviour) {
    && Tracks(s, s0, |s0.slots|)
    && x <= |s0.slots|
    && CallsBelow(calls, x)
    && (forall c :: c in s0.cells ==> (c in s.cells <==> !Taken(calls, behave, c)))
  }

  lemma TakenMore(calls: seq<Call>, behave: nat -> Behaviour, c: Call, id: nat)
    ensures Taken(calls + [c], behave, id) <==> Taken(calls, behave, id) || TakesAway(behave(|calls|), c, id)
  {
    var more := calls + [c];
    if Taken(calls, behave, id) {
      var k :| 0 <= k < |calls| && TakesAway(behave(k), calls[k], id);
      assert more[k] == calls[k];
    }
    if TakesAway(behave(|calls|), c, id) {
      assert more[|calls|] == c;
    }
  }

  lemma RoundStep(s: Io, s0: Io, x: nat, calls: seq<Call>, behave: nat -> Behaviour)
    requires RoundAt(s, s0, x, calls, behave) && x < |s0.slots|
    ensures RoundAt(Advance(s, x, behave(|calls|)), s0, x + 1, Logged(s, x, calls), behave)
  {
    hide Turn, TakesAway, Core, SlotTracks, SlotIsNew;
    if Pending(s.slots[x]) {
      var b := behave(|calls|);
      TurnTracks(s, s0, x, b);
      if s.slots[x].cb != 0 {
        var c := CallOf(s.slots[x], x);
        forall id | id in s0.cells
          ensures id in Turn(s, x, b).cells <==> !Taken(calls + [c], behave, id)
        {
          TakenMore(calls, behave, c, id);
          assert id < s0.nextCell <= s.nextCell;
        }
      }
    }
  }

  /** Is the id taken away by a call made for a slot below x? */
  ghost predicate TakenBefore(calls: seq<Call>, behave: nat -> Behaviour, x: nat, id: nat) {
    exists k :: 0 <= k < |calls| && calls[k].slot < x && TakesAway(behave(k), calls[k], id)
  }

  ghost predicate CalledFor(calls: seq<Call>, x: nat) {
    exists k :: 0 <= k < |calls| && calls[k].slot == x
  }

  /** `all` continues `calls` with calls for slots from x on. */
  ghost predicate Continues(calls: seq<Call>, all: seq<Call>, x: nat) {
    calls <= all && forall k :: |calls| <= k < |all| ==> all[k].slot >= x
  }

  lemma TakenBeforeIsTaken(calls: seq<Call>, all: seq<Call>, behave: nat -> Behaviour, x: nat, id: nat)
    requires CallsBelow(calls, x) && Continues(calls, all, x)
    ensures TakenBefore(all, behave, x, id) <==> Taken(calls, behave, id)
  {
    if Taken(calls, behave, id) {
      var k :| 0 <= k < |calls| && TakesAway(behave(k), calls[k], id);
      assert all[k] == calls[k];
    }
    if TakenBefore(all, behave, x, id) {
      var k :| 0 <= k < |all| && all[k].slot < x && TakesAway(behave(k), all[k], id);
      assert calls[k] == all[k];
    }
  }

  /** Slot x at its turn: it is pending exactly if it was pending when polled and its id has
      not been taken away since. */
  lemma PendingAtTurn(s: Io, s0: Io, x: nat, calls: seq<Call>, behave: nat -> Behaviour)
    requires RoundAt(s, s0, x, calls, behave) && x < |s0.slots|
    ensures Pending(s.slots[x]) <==> Pending(s0.slots[x]) && !Taken(calls, behave, s0.slots[x].id.value)
  {
    if Pending(s0.slots[x]) {
      var id := s0.slots[x].id.value;
      assert id in s0.cells;
      if s.slots[x].id == None {
        GoneForGood(s, s0, |s0.slots|, x);
      } else {
        assert id in s.cells;
      }
    }
  }

  /** Slot i is called exactly if it was pending when polled and no call for an earlier slot
      has taken its id away. */
  ghost predicate ExactAt(s0: Io, all: seq<Call>, behave: nat -> Behaviour, i: nat)
    requires i < |s0.slots|
  {
    CalledFor(all, i) <==> Pending(s0.slots[i]) && !TakenBefore(all, behave, i, s0.slots[i].id.value)
  }

  lemma HeadExact(s: Io, s0: Io, x: nat, calls: seq<Call>, behave: nat -> Behaviour, all: seq<Call>)
    requires RoundAt(s, s0, x, calls, behave) && x < |s0.slots| && s0.slots[x].cb != 0
    requires Continues(Logged(s, x, calls), all, x + 1)
    ensures ExactAt(s0, all, behave, x)
  {
    PendingAtTurn(s, s0, x, calls, behave);
    CalledNow(calls, Logged(s, x, calls), all, x);
    if Pending(s0.slots[x]) {
      TakenBeforeIsTaken(calls, all, behave, x, s0.slots[x].id.value);
    }
  }

  lemma CalledNow(calls: seq<Call>, calls1: seq<Call>, all: seq<Call>, x: nat)
    requires CallsBelow(calls, x) && Continues(calls1, all, x + 1)
    requires calls1 == calls || (|calls1| == |calls| + 1 && calls <= calls1 && calls1[|calls|].slot == x)
    ensures CalledFor(all, x) <==> calls1 != calls
  {
    if calls1 != calls {
      assert all[|calls|] == calls1[|calls|];
    }
    if CalledFor(all, x) {
      var k :| 0 <= k < |all| && all[k].slot == x;
      assert k < |calls1| && all[k] == calls1[k];
    }
  }

  /** During a round the table never falls below the slots that were polled. */
  lemma RoundReaches(s: Io, s0: Io, x: nat, calls: seq<Call>, behave: nat -> Behaviour)
    requires RoundAt(s, s0, x, calls, behave)
    ensures Core(s) && Indirect(s) && |s.slots| >= |s0.slots| >= x
  {
  }

  lemma {:induction false} DispatchKeeps(s: Io, s0: Io, x: nat, calls: seq<Call>, behave: nat -> Behaviour)
    requires RoundAt(s, s0, x, calls, behave)
    ensures var (s', all) := Dispatch(s, x, |s0.slots|, behave, calls);
      RoundAt(s', s0, |s0.slots|, all, behave)
    decreases |s0.slots| - x
  {
    hide RoundAt, Advance, Logged;
    RoundReaches(s, s0, x, calls, behave);
    if x < |s0.slots| {
      RoundStep(s, s0, x, calls, behave);
      DispatchKeeps(Advance(s, x, behave(|calls|)), s0, x + 1, Logged(s, x, calls), behave);
    }
  }

  lemma {:induction false} DispatchContinues(s: Io, x: nat, n: nat, calls: seq<Call>, behave: nat -> Behaviour)
    ensures Continues(calls, Dispatch(s, x, n, behave, calls).1, x)
    decreases n - x
  {
    if x < n && x < |s.slots| {
      DispatchContinues(Advance(s, x, behave(|calls|)), x + 1, n, Logged(s, x, calls), behave);
    }
  }

  /** One slot of the loop; `s1` and `calls1` are what the rest of the loop starts from. */
  lemma DispatchStep(s: Io, s0: Io, x: nat, calls: seq<Call>, behave: nat -> Behaviour, all: seq<Call>)
    returns (s1: Io, calls1: seq<Call>)
    requires RoundAt(s, s0, x, calls, behave) && x < |s0.slots|
    requires all == Dispatch(s, x, |s0.slots|, behave, calls).1
    ensures all == Dispatch(s1, x + 1, |s0.slots|, behave, calls1).1
    ensures RoundAt(s1, s0, x + 1, calls1, behave)
    ensures calls1 == Logged(s, x, calls) && Continues(calls1, all, x + 1)
  {
    hide Turn, Taken, CallsBelow, Continues, Indirect, Core;
    RoundStep(s, s0, x, calls, behave);
    s1, calls1 := Advance(s, x, behave(|calls|)), Logged(s, x, calls);
    DispatchContinues(s1, x + 1, |s0.slots|, calls1, behave);
  }

  /** The loop calls back for exactly the slots that were pending when polled and whose id no
      earlier call has taken away. */
  lemma {:induction false} DispatchExact(s: Io, s0: Io, x: nat, calls: seq<Call>, behave: nat -> Behaviour, i: nat,
                                         all: seq<Call>)
    requires RoundAt(s, s0, x, calls, behave)
    requires x <= i < |s0.slots| && s0.slots[i].cb != 0
    requires all == Dispatch(s, x, |s0.slots|, behave, calls).1
    ensures ExactAt(s0, all, behave, i)
    decreases i - x
  {
    hide Turn, Tracks;
    var s1, calls1 := DispatchStep(s, s0, x, calls, behave, all);
    if x == i {
      HeadExact(s, s0, x, calls, behave, all);
    } else {
      DispatchExact(s1, s0, x + 1, calls1, behave, i, all);
    }
  }

  // ---------- what a callback is called with ----------

  /** What a registration says: the callback, its descriptor and its data. */
  datatype Args = Args(cb: nat, fd: int, data: int)

  function ArgsOf(o: Slot): Args {
    Args(o.cb, o.fd, o.data)
  }

  /** The registration with this id after a request: a change of it replaces what is given. */
  function ChangedBy(a: Args, r: Request, id: nat): Args {
    if r.ChangeRequest? && r.id == id
    then Args(if r.cb == 0 then a.cb else r.cb, if r.fd < 0 then a.fd else r.fd, if r.data == 0 then a.data else r.data)
    else a
  }

  function ChangedByAll(a: Args, rs: seq<Request>, id: nat): Args
    decreases |rs|
  {
    if rs == [] then a else ChangedByAll(ChangedBy(a, rs[0], id), rs[1..], id)
  }

  /** The registration as the first k calls of the round have left it. */
  function AsLeft(a: Args, behave: nat -> Behaviour, k: nat, id: nat): Args {
    if k == 0 then a else ChangedByAll(AsLeft(a, behave, k - 1, id), behave(k - 1).requests, id)
  }

  /** An addition asked for by a callback. */
  lemma ServeAdds(s: Io, fd: int, cb: nat, data: int, events: int)
    requires Core(s)
    ensures var s' := Serve(s, AddRequest(fd, cb, data, events));
      && |s'.slots| == |s.slots| + 1 && s'.slots[..|s.slots|] == s.slots
      && s'.cells.Keys == s.cells.Keys + {s.nextCell} && s.nextCell !in s.cells
      && s'.slots[|s.slots|] == Slot(fd, events, 0, cb, data, Some(s.nextCell))
  {
    AddKeeps(s, fd, cb, data, events);
  }

  /** The k-th call of a round on the table s: it goes to a registration of the table, with its
      id and the events that poll has reported for it, and with the callback, the descriptor
      and the data as the calls before it have left them. */
  ghost predicate RightCall(c: Call, k: nat, s: Io, ready: nat -> int, behave: nat -> Behaviour) {
    && c.slot < |s.slots| && s.slots[c.slot].id == Some(c.id) && c.revents == ready(c.slot)
    && Args(c.cb, c.fd, c.data) == AsLeft(ArgsOf(s.slots[c.slot]), behave, k, c.id)
  }

  ghost predicate RightCalls(calls: seq<Call>, s: Io, ready: nat -> int, behave: nat -> Behaviour) {
    forall k :: 0 <= k < |calls| ==> RightCall(calls[k], k, s, ready, behave)
  }

  lemma ServeArgs(s: Io, r: Request, i: nat)
    requires Core(s) && s.current != -1 && i < |s.slots|
    ensures i < |Serve(s, r).slots|
    ensures var o, o' := s.slots[i], Serve(s, r).slots[i];
      o'.id.Some? ==> o'.id == o.id && ArgsOf(o') == ChangedBy(ArgsOf(o), r, o.id.value)
  {
  }

  lemma {:induction false} ServeAllArgs(s: Io, s0: Io, n: nat, rs: seq<Request>, i: nat)
    requires Tracks(s, s0, n) && s.current != -1 && i < |s.slots|
    ensures i < |ServeAll(s, rs).slots|
    ensures var o, o' := s.slots[i], ServeAll(s, rs).slots[i];
      o'.id.Some? ==> o'.id == o.id && ArgsOf(o') == ChangedByAll(ArgsOf(o), rs, o.id.value)
    decreases |rs|
  {
    hide Serve, ChangedBy;
    if rs != [] {
      ServeTracks(s, s0, n, rs[0]);
      ServeArgs(s, rs[0], i);
      ServeAllArgs(Serve(s, rs[0]), s0, n, rs[1..], i);
    }
  }

  lemma TurnArgs(s: Io, s0: Io, x: nat, b: Behaviour, i: nat)
    requires Tracks(s, s0, |s0.slots|) && x < |s0.slots| && i < |s0.slots|
    requires Pending(s.slots[x]) && s.slots[x].cb != 0
    ensures i < |Turn(s, x, b).slots|
    ensures var o, o' := s.slots[i], Turn(s, x, b).slots[i];
      o'.id.Some? ==> o'.id == o.id && ArgsOf(o') == ChangedByAll(ArgsOf(o), b.requests, o.id.value)
  {
    hide Serve, ServeAll, ChangedByAll, Remove, Tracks, Core;
    var s1 := s.(current := x);
    var s2 := ServeAll(s1, b.requests);
    Marked(s, s0, |s0.slots|, x);
    ServeAllTracks(s1, s0, |s0.slots|, b.requests);
    ServeAllArgs(s1, s0, |s0.slots|, b.requests, i);
    if x < |s2.slots| { RemoveArgs(s2, s0, |s0.slots|, s2.slots[x].id, i); }
  }

  lemma Marked(s: Io, s0: Io, n: nat, x: nat)
    requires Tracks(s, s0, n)
    ensures Tracks(s.(current := x), s0, n) && n <= |s.slots|
  {
  }

  lemma RemoveArgs(s: Io, s0: Io, n: nat, id: Option<nat>, i: nat)
    requires Tracks(s, s0, n) && s.current != -1 && i < |s.slots|
    ensures i < |Remove(s, id).0.slots|
    ensures var o, o' := s.slots[i], Remove(s, id).0.slots[i];
      o'.id.Some? ==> o'.id == o.id && ArgsOf(o') == ArgsOf(o)
  {
    if id.Some? { ServeArgs(s, RemoveRequest(id.value), i); }
  }

  /** The registrations polled, at the time of the k-th call. */
  ghost predicate ArgsAt(s: Io, s0: Io, behave: nat -> Behaviour, k: nat) {
    && |s0.slots| <= |s.slots|
    && forall i :: 0 <= i < |s0.slots| && s.slots[i].id.Some? ==>
         ArgsOf(s.slots[i]) == AsLeft(ArgsOf(s0.slots[i]), behave, k, s.slots[i].id.value)
  }

  lemma AdvanceArgs(s: Io, s0: Io, x: nat, calls: seq<Call>, behave: nat -> Behaviour)
    requires Tracks(s, s0, |s0.slots|) && x < |s0.slots| && ArgsAt(s, s0, behave, |calls|)
    ensures ArgsAt(Advance(s, x, behave(|calls|)), s0, behave, |Logged(s, x, calls)|)
  {
    hide ChangedByAll, Core;
    if Pending(s.slots[x]) && s.slots[x].cb != 0 {
      hide Turn;
      var s' := Turn(s, x, behave(|calls|));
      TurnTracks(s, s0, x, behave(|calls|));
      forall i | 0 <= i < |s0.slots| && s'.slots[i].id.Some?
        ensures ArgsOf(s'.slots[i]) == AsLeft(ArgsOf(s0.slots[i]), behave, |calls| + 1, s'.slots[i].id.value)
      {
        TurnArgs(s, s0, x, behave(|calls|), i);
      }
    }
  }

  lemma {:induction false} DispatchRight(s: Io, s0: Io, x: nat, calls: seq<Call>, behave: nat -> Behaviour, s1: Io,
                                         ready: nat -> int)
    requires Tracks(s, s0, |s0.slots|) && ArgsAt(s, s0, behave, |calls|)
    requires s0 == s1.(slots := Polled(s1.slots, ready)) && RightCalls(calls, s1, ready, behave)
    ensures RightCalls(Dispatch(s, x, |s0.slots|, behave, calls).1, s1, ready, behave)
    decreases |s0.slots| - x
  {
    hide Turn, Core, Indirect, AsLeft;
    if x < |s0.slots| {
      AdvanceArgs(s, s0, x, calls, behave);
      if Pending(s.slots[x]) { TurnTracks(s, s0, x, behave(|calls|)); }
      DispatchRight(Advance(s, x, behave(|calls|)), s0, x + 1, Logged(s, x, calls), behave, s1, ready);
    }
  }

  lemma PolledKeeps(s: Io, ready: nat -> int)
    requires Core(s)
    ensures Core(s.(slots := Polled(s.slots, ready)))
  {
    var s0 := s.(slots := Polled(s.slots, ready));
    assert forall i :: 0 <= i < |s.slots| ==> s0.slots[i].id == s.slots[i].id;
  }

  /** One wait, whatever the callbacks add, change and remove and whatever poll reports: the
      calls are made in index order, at most once for each slot and only for slots that
      were there at the poll; a slot with a callback is called exactly if it was pending
      and no earlier call removed it; each call gets its arguments as poll and the calls
      before it have left them; afterwards the table is compact and every id leads to its
      slot. */
  lemma WaitRound(s: Io, ready: nat -> int, behave: nat -> Behaviour, s0: Io, s': Io, calls: seq<Call>)
    requires Core(s) && s0 == s.(slots := Polled(s.slots, ready)) && SomeReady(s0.slots)
    requires (s', calls) == Wait(s, ready, behave)
    ensures CallsBelow(calls, |s.slots|)
    ensures forall i :: 0 <= i < |s.slots| && s.slots[i].cb != 0 ==> ExactAt(s0, calls, behave, i)
    ensures forall i :: 0 <= i < |s.slots| ==> (Pending(s0.slots[i]) <==> ready(i) != 0 && s.slots[i].id.Some?)
    ensures RightCalls(calls, s, ready, behave)
    ensures Indirect(s') && NoHoles(s'.slots) && !s'.needShrink
  {
    hide Dispatch, Turn, TakesAway, SlotTracks, SlotIsNew, InUse, Number, TakenBefore, CalledFor;
    PolledKeeps(s, ready);
    RoundBegins(s0, behave);
    DispatchKeeps(s0, s0, 0, [], behave);
    DispatchRight(s0, s0, 0, [], behave, s, ready);
    forall i | 0 <= i < |s.slots| && s.slots[i].cb != 0
      ensures ExactAt(s0, calls, behave, i)
    {
      DispatchExact(s0, s0, 0, [], behave, i, calls);
    }
    var s1 := Dispatch(s0, 0, |s0.slots|, behave, []).0;
    if s1.needShrink {
      ShrinkKeeps(s1);
    }
  }

  lemma RoundBegins(s0: Io, behave: nat -> Behaviour)
    requires Core(s0)
    ensures RoundAt(s0, s0, 0, [], behave)
  {
  }

  // ---------- current_ioc after a round ----------

  /** With a callback in every polled slot each turn resets current_ioc. */
  lemma {:induction false} DispatchResets(s: Io, s0: Io, x: nat, calls: seq<Call>, behave: nat -> Behaviour)
    requires Tracks(s, s0, |s0.slots|) && s.current == -1
    requires forall i :: 0 <= i < |s0.slots| ==> s0.slots[i].cb != 0
    ensures Dispatch(s, x, |s0.slots|, behave, calls).0.current == -1
    decreases |s0.slots| - x
  {
    hide Turn, Taken, Indirect, Core;
    if x < |s0.slots| {
      if Pending(s.slots[x]) {
        TurnTracks(s, s0, x, behave(|calls|));
      }
      DispatchResets(Advance(s, x, behave(|calls|)), s0, x + 1, Logged(s, x, calls), behave);
    }
  }

  /** A stretch of slots with nothing pending. */
  lemma {:induction false} DispatchIdles(s: Io, x: nat, n: nat, y: nat, behave: nat -> Behaviour, calls: seq<Call>)
    requires x <= y <= n <= |s.slots|
    requires forall i :: x <= i < y ==> !Pending(s.slots[i])
    ensures Dispatch(s, x, n, behave, calls) == Dispatch(s, y, n, behave, calls)
    decreases y - x
  {
    if x < y {
      DispatchIdles(s, x + 1, n, y, behave, calls);
    }
  }

  /** The readiness of slot i alone. */
  function Only(i: nat): nat -> int {
    k => if k == i then 1 else 0
  }

  /** An event for one registration without a callback: nothing else has a turn, and
      current_ioc stays at its index. */
  lemma NullStays(s: Io, i: nat, behave: nat -> Behaviour)
    requires NoHoles(s.slots) && !s.needShrink && i < |s.slots| && s.slots[i].cb == 0
    ensures SomeReady(Polled(s.slots, Only(i))) && Wait(s, Only(i), behave).0.current == i
  {
    var s0, n := s.(slots := Polled(s.slots, Only(i))), |s.slots|;
    assert s0.slots[i].revents != 0;
    DispatchIdles(s0, 0, n, i, behave, []);
    DispatchIdles(s0.(current := i), i + 1, n, n, behave, []);
  }

  /** Does every wait, whatever is ready and whatever the callbacks do, reset current_ioc? */
  ghost predicate EveryWaitResets(s: Io) {
    forall ready, behave :: SomeReady(Polled(s.slots, ready)) ==> Wait(s, ready, behave).0.current == -1
  }

  /** "No callback is marked as running, so there are no holes" survives every wait exactly
      if every registration has a callback. */
  lemma CurrentIsReset(s: Io)
    requires Inv(s) && s.current == -1
    ensures (forall i :: 0 <= i < |s.slots| ==> s.slots[i].cb != 0) <==> EveryWaitResets(s)
  {
    hide Dispatch, InUse, Number;
    if i :| 0 <= i < |s.slots| && s.slots[i].cb == 0 {
      NullStays(s, i, _ => Behaviour([], true));
    } else {
      forall ready, behave | SomeReady(Polled(s.slots, ready))
        ensures Wait(s, ready, behave).0.current == -1
      {
        var s0 := s.(slots := Polled(s.slots, ready));
        PolledKeeps(s, ready);
        DispatchResets(s0, s0, 0, [], behave);
      }
    }
  }

  // ---------- whole runs ----------

  ghost predicate AllCall(slots: seq<Slot>) {
    forall i :: 0 <= i < |slots| ==> slots[i].cb != 0
  }

  predicate GivesCallback(r: Request) {
    r.AddRequest? ==> r.cb != 0
  }

  lemma ShrinkCalls(s: Io)
    requires AllCall(s.slots)
    ensures AllCall(Shrink(s).slots)
  {
    InUseShape(s.slots);
    forall i | 0 <= i < |InUse(s.slots)|
      ensures InUse(s.slots)[i].cb != 0
    {
      assert InUse(s.slots)[i] in s.slots;
    }
  }

  lemma RemoveCalls(s: Io, id: Option<nat>)
    requires AllCall(s.slots)
    ensures AllCall(Remove(s, id).0.slots)
  {
    hide Shrink;
    if id.Some? && FindId(s.slots, id.value) < |s.slots| {
      ShrinkCalls(Vacate(s, FindId(s.slots, id.value)));
    }
  }

  lemma ServeCalls(s: Io, r: Request)
    requires AllCall(s.slots) && GivesCallback(r)
    ensures AllCall(Serve(s, r).slots)
  {
    hide Remove;
    if r.RemoveRequest? { RemoveCalls(s, Some(r.id)); }
  }

  lemma {:induction false} ServeAllCalls(s: Io, rs: seq<Request>)
    requires AllCall(s.slots) && forall r :: r in rs ==> GivesCallback(r)
    ensures AllCall(ServeAll(s, rs).slots)
    decreases |rs|
  {
    if rs != [] {
      ServeCalls(s, rs[0]);
      ServeAllCalls(Serve(s, rs[0]), rs[1..]);
    }
  }

  lemma {:induction false} DispatchCalls(s: Io, x: nat, n: nat, behave: nat -> Behaviour, calls: seq<Call>)
    requires AllCall(s.slots) && forall k, r :: r in behave(k).requests ==> GivesCallback(r)
    ensures AllCall(Dispatch(s, x, n, behave, calls).0.slots)
    decreases n - x
  {
    hide ServeAll, Remove;
    if x < n && x < |s.slots| {
      var b := behave(|calls|);
      if Pending(s.slots[x]) {
        var s2 := ServeAll(s.(current := x), b.requests);
        ServeAllCalls(s.(current := x), b.requests);
        if x < |s2.slots| { RemoveCalls(s2, s2.slots[x].id); }
      }
      DispatchCalls(Advance(s, x, b), x + 1, n, behave, Logged(s, x, calls));
    }
  }

  /** What a program does with the table: requests of its own, and waits in which callbacks make
      requests. */
  datatype Op = Ask(request: Request) | Await(ready: nat -> int, behave: nat -> Behaviour)

  ghost predicate OpOk(op: Op) {
    match op
    case Ask(r) => GivesCallback(r)
    case Await(_, behave) => forall k, r :: r in behave(k).requests ==> GivesCallback(r)
  }

  function Act(s: Io, op: Op): Io {
    match op
    case Ask(r) => Serve(s, r)
    case Await(ready, behave) => Wait(s, ready, behave).0
  }

  function ActAll(s: Io, ops: seq<Op>): Io
    decreases |ops|
  {
    if ops == [] then s else ActAll(Act(s, ops[0]), ops[1..])
  }

  /** No callback is marked as running, there are no holes, and every id leads to its slot. */
  ghost predicate AtRest(s: Io) {
    Indirect(s) && NoHoles(s.slots) && !s.needShrink && s.current == -1 && AllCall(s.slots)
  }

  lemma AwaitRests(s: Io, ready: nat -> int, behave: nat -> Behaviour)
    requires AtRest(s) && OpOk(Await(ready, behave))
    ensures AtRest(Wait(s, ready, behave).0)
  {
    hide Dispatch, Indirect, Shrink;
    var s0 := s.(slots := Polled(s.slots, ready));
    PolledKeeps(s, ready);
    if SomeReady(s0.slots) {
      WaitRound(s, ready, behave, s0, Wait(s, ready, behave).0, Wait(s, ready, behave).1);
      assert EveryWaitResets(s) by { CurrentIsReset(s); }
      DispatchCalls(s0, 0, |s0.slots|, behave, []);
      ShrinkCalls(Dispatch(s0, 0, |s0.slots|, behave, []).0);
    }
  }

  lemma AskRests(s: Io, r: Request)
    requires AtRest(s) && GivesCallback(r)
    ensures AtRest(Serve(s, r))
  {
    OperationsKeep(s, r);
    ServeCalls(s, r);
  }

  /** Over every run of additions with a callback, changes, removals and waits, from the empty
      table or any other at rest, and whatever poll reports and the callbacks do, adding
      with a callback themselves: after every operation the table is at rest again. */
  lemma {:induction false} EveryRun(s: Io, ops: seq<Op>)
    requires AtRest(s) && forall i :: 0 <= i < |ops| ==> OpOk(ops[i])
    ensures AtRest(ActAll(s, ops))
    decreases |ops|
  {
    hide AtRest, Serve, Wait;
    if ops != [] {
      assert OpOk(ops[0]);
      match ops[0] {
        case Ask(r) => AskRests(s, r);
        case Await(ready, behave) => AwaitRests(s, ready, behave);
      }
      EveryRun(Act(s, ops[0]), ops[1..]);
    }
  }

  lemma EmptyRests()
    ensures AtRest(EMPTY)
  {
  }

  /** A registration without a callback shows the difference: its event leaves current_ioc
      set, and a removal after the wait, with no callback running, leaves a hole. */
  lemma NullCallbackLeavesHole(behave: nat -> Behaviour)
    ensures var s := Add(Add(EMPTY, 3, 0, 0, 1).0, 4, 7, 0, 1).0;
      var s1 := Wait(s, i => if i == 0 then 1 else 0, behave).0;
      s1.current == 0 && Remove(s1, Some(1)).1 == 0 && !NoHoles(Remove(s1, Some(1)).0.slots)
  {
    var s := Add(Add(EMPTY, 3, 0, 0, 1).0, 4, 7, 0, 1).0;
    var ready: nat -> int := i => if i == 0 then 1 else 0;
    var a, b := Slot(3, 1, 1, 0, 0, Some(0)), Slot(4, 1, 0, 7, 0, Some(1));
    var s0 := s.(slots := Polled(s.slots, ready));
    assert s0.slots == [a, b];
    assert s0.slots[0].revents != 0;
    var s1 := s0.(current := 0);
    assert Turn(s0, 0, behave(0)) == s1;
    assert Dispatch(s1, 1, 2, behave, []) == Dispatch(s1, 2, 2, behave, []) == (s1, []);
    assert Dispatch(s0, 0, 2, behave, []) == (s1, []);
    assert FindId([b], 1) == 0;
    assert s1.slots[1..] == [b] && FindId(s1.slots, 1) == 1;
    assert Vacate(s1, 1).slots[1].id == None;
  }
}
