/** The I/O context object: the parallel arrays that the operations of io.c overwrite, grow and
    compact in place, each method proved against the function of IoTable. */
module IoObject {

  import opened Common
  import opened IoTable

  datatype PollFd = PollFd(fd: int, events: int, revents: int)
  datatype IoRec = IoRec(cb: nat, data: int, id: Option<nat>)

  const GROW_SHRINK_SIZE: nat := 512
  const NO_FD := PollFd(0, 0, 0)
  const NO_REC := IoRec(0, 0, None)

  function SlotOf(p: PollFd, r: IoRec): Slot {
    Slot(p.fd, p.events, p.revents, r.cb, r.data, r.id)
  }

  function Zip(ps: seq<PollFd>, rs: seq<IoRec>): (slots: seq<Slot>)
    requires |ps| == |rs|
    ensures |slots| == |ps| && forall i :: 0 <= i < |ps| ==> slots[i] == SlotOf(ps[i], rs[i])
  {
    seq(|ps|, i requires 0 <= i < |ps| => SlotOf(ps[i], rs[i]))
  }

  lemma {:induction false} InUseSnoc(slots: seq<Slot>, o: Slot)
    ensures InUse(slots + [o]) == InUse(slots) + if o.id.Some? then [o] else []
  {
    if slots == [] {
      assert [o][1..] == [];
    } else {
      InUseSnoc(slots[1..], o);
      assert (slots + [o])[1..] == slots[1..] + [o];
    }
  }

  lemma {:induction false} NumberSnoc(slots: seq<Slot>, o: Slot, k: nat, cells: map<nat, int>, id: nat)
    requires o.id == Some(id)
    ensures Number(slots + [o], k, cells) == Number(slots, k, cells)[id := k + |slots|]
  {
    if slots == [] {
      assert [o][1..] == [] && [] + [o] == [o];
    } else {
      var more := if slots[0].id.None? then cells else cells[slots[0].id.value := k];
      NumberSnoc(slots[1..], o, k + 1, more, id);
      assert (slots + [o])[1..] == slots[1..] + [o];
    }
  }

  /** Numbering the slots kept so far has not touched the cell of a later slot. */
  lemma NumberSpares(s: Io, n: nat, id: nat)
    requires Indirect(s) && n < |s.slots| && s.slots[n].id == Some(id)
    ensures id in Number(InUse(s.slots[..n]), 0, s.cells) && Number(InUse(s.slots[..n]), 0, s.cells)[id] == n
  {
    var before := s.slots[..n];
    var kept := InUse(before);
    InUseShape(before);
    InUseDistinct(before);
    forall o | o in kept
      ensures o.id.Some? && o.id.value in s.cells && o.id.value != id
    {
      var i :| 0 <= i < n && s.slots[i] == o;
    }
    forall i | 0 <= i < |kept|
      ensures kept[i].id.value in s.cells && kept[i].id != Some(id)
    {
      assert kept[i] in kept;
    }
    NumberShape(kept, 0, s.cells);
  }

  lemma NothingKept(slots: seq<Slot>, cells: map<nat, int>)
    ensures InUse(slots[..0]) == [] && Number([], 0, cells) == cells
  {
  }

  /** One step of the compacting loop, on values. */
  lemma ShrinkStep(s: Io, n: nat, kept: seq<Slot>, cells: map<nat, int>)
    requires Indirect(s) && n < |s.slots|
    requires kept == InUse(s.slots[..n]) && cells == Number(kept, 0, s.cells) && |kept| <= n
    ensures s.slots[n].id.None? ==> InUse(s.slots[..n + 1]) == kept
    ensures s.slots[n].id.Some? ==>
      && InUse(s.slots[..n + 1]) == kept + [s.slots[n]]
      && Number(InUse(s.slots[..n + 1]), 0, s.cells) == cells[s.slots[n].id.value := |kept|]
      && (|kept| == n ==> cells[s.slots[n].id.value := |kept|] == cells)
  {
    hide Indirect, InUse, Number;
    assert s.slots[..n + 1] == s.slots[..n] + [s.slots[n]];
    InUseSnoc(s.slots[..n], s.slots[n]);
    if s.slots[n].id.Some? {
      NumberSnoc(kept, s.slots[n], 0, s.cells, s.slots[n].id.value);
      NumberSpares(s, n, s.slots[n].id.value);
    }
  }

  lemma ZipUpdate(ps: seq<PollFd>, rs: seq<IoRec>, k: nat, p: PollFd, r: IoRec)
    requires |ps| == |rs| && k < |ps|
    ensures Zip(ps[k := p], rs[k := r]) == Zip(ps, rs)[k := SlotOf(p, r)]
  {
  }

  lemma FindIdIs(slots: seq<Slot>, id: nat, x: nat)
    requires x <= |slots| && forall i :: 0 <= i < x ==> slots[i].id != Some(id)
    requires x < |slots| ==> slots[x].id == Some(id)
    ensures FindId(slots, id) == x
  {
  }

  /** Changing a slot is replacing its two halves. */
  lemma ChangeIs(s: Io, ps: seq<PollFd>, rs: seq<IoRec>, id: nat, fd: int, cb: nat, data: int, events: int, k: nat,
                 p: PollFd, r: IoRec)
    requires |ps| == |rs| && s.slots == Zip(ps, rs) && id in s.cells && s.cells[id] == k < |ps|
    requires SlotOf(p, r) == Changed(SlotOf(ps[k], rs[k]), fd, cb, data, events)
    ensures IoTable.Change(s, id, fd, cb, data, events) == s.(slots := Zip(ps[k := p], rs[k := r]))
  {
    ZipUpdate(ps, rs, k, p, r);
  }

  /** A removal, once the slot is found. */
  lemma RemoveIs(s: Io, id: nat, x: nat)
    requires Core(s) && FindId(s.slots, id) == x < |s.slots|
    ensures var s1 := IoTable.Vacate(s, x);
      Indirect(s1) && IoTable.Remove(s, Some(id)) == (if s.current == -1 then IoTable.Shrink(s1) else s1, 0)
  {
    VacateKeeps(s, x);
  }

  class IoContext {
    var fds: array<PollFd>
    var ior: array<IoRec>
    var fdcnt: nat
    var maxfdcnt: nat
    var currentIoc: int
    var needShrink: bool
    var cells: map<nat, int>
    var nextCell: nat

    ghost predicate Valid()
      reads this
    {
      fds.Length == ior.Length == maxfdcnt + 1 && fdcnt <= maxfdcnt + 1
    }

    ghost function View(): Io
      requires Valid()
      reads this, fds, ior
    {
      Io(Zip(fds[..fdcnt], ior[..fdcnt]), cells, needShrink, currentIoc, nextCell)
    }

    constructor ()
      ensures Valid() && fresh(fds) && fresh(ior) && View() == EMPTY
    {
      maxfdcnt := GROW_SHRINK_SIZE / 2;
      fds := new PollFd[GROW_SHRINK_SIZE / 2 + 1](_ => NO_FD);
      ior := new IoRec[GROW_SHRINK_SIZE / 2 + 1](_ => NO_REC);
      fdcnt, currentIoc, needShrink, cells, nextCell := 0, -1, false, map[], 0;
    }

    /** The realloc copies: what was stored stays stored. */
    method Grow()
      requires Valid()
      modifies this
      ensures Valid() && fresh(fds) && fresh(ior) && View() == old(View())
      ensures maxfdcnt == old(maxfdcnt) + GROW_SHRINK_SIZE && fdcnt == old(fdcnt)
    {
      var size := maxfdcnt + GROW_SHRINK_SIZE + 1;
      var moreFds := new PollFd[size](i requires 0 <= i reads this, fds => if i < fds.Length then fds[i] else NO_FD);
      var moreIor := new IoRec[size](i requires 0 <= i reads this, ior => if i < ior.Length then ior[i] else NO_REC);
      assert moreFds[..fdcnt] == fds[..fdcnt] && moreIor[..fdcnt] == ior[..fdcnt];
      fds, ior, maxfdcnt := moreFds, moreIor, maxfdcnt + GROW_SHRINK_SIZE;
    }

    method Add(fd: int, cb: nat, data: int, events: int) returns (id: nat)
      requires Valid()
      modifies this, fds, ior
      ensures Valid() && (fds == old(fds) || fresh(fds)) && (ior == old(ior) || fresh(ior))
      ensures (View(), id) == IoTable.Add(old(View()), fd, cb, data, events)
    {
      if fdcnt > maxfdcnt {
        Grow();
      }
      ghost var was := View().slots;
      fds[fdcnt] := PollFd(fd, events, 0);
      id := nextCell;
      ior[fdcnt] := IoRec(cb, data, Some(id));
      cells, nextCell := cells[id := fdcnt], nextCell + 1;
      fdcnt := fdcnt + 1;
      assert View().slots == was + [Slot(fd, events, 0, cb, data, Some(id))];
    }

    method Change(id: nat, fd: int, cb: nat, data: int, events: int)
      requires Valid() && id in cells && 0 <= cells[id] < fdcnt
      modifies fds, ior
      ensures View() == IoTable.Change(old(View()), id, fd, cb, data, events)
    {
      hide Zip, IoTable.Change;
      var k := cells[id];
      ghost var s, p, r := View(), fds[k], ior[k];
      if fd > -1 { fds[k] := fds[k].(fd := fd); }
      if cb != 0 { ior[k] := ior[k].(cb := cb); }
      assert fds[..] == old(fds[..])[k := fds[k]] && ior[..] == old(ior[..])[k := ior[k]];
      if events != 0 { fds[k] := fds[k].(events := events); }
      if data != 0 { ior[k] := ior[k].(data := data); }
      assert fds[..] == old(fds[..])[k := fds[k]] && ior[..] == old(ior[..])[k := ior[k]];
      assert SlotOf(fds[k], ior[k]) == Changed(SlotOf(p, r), fd, cb, data, events);
      assert fds[..fdcnt] == old(fds[..fdcnt])[k := fds[k]] && ior[..fdcnt] == old(ior[..fdcnt])[k := ior[k]];
      ChangeIs(s, old(fds[..fdcnt]), old(ior[..fdcnt]), id, fd, cb, data, events, k, fds[k], ior[k]);
    }

    method Shrink()
      requires Valid() && Indirect(View())
      modifies this`fdcnt, this`needShrink, this`cells, fds, ior
      ensures Valid() && View() == IoTable.Shrink(old(View()))
    {
      hide Indirect, InUse, Number;
      ghost var s := View();
      var getfrom, putto := 0, 0;
      NothingKept(s.slots, s.cells);
      while getfrom < fdcnt
        invariant putto <= getfrom <= fdcnt == old(fdcnt)
        invariant Zip(fds[..putto], ior[..putto]) == InUse(s.slots[..getfrom])
        invariant cells == Number(InUse(s.slots[..getfrom]), 0, s.cells)
        invariant forall i :: getfrom <= i < fdcnt ==> SlotOf(fds[i], ior[i]) == s.slots[i]
      {
        ghost var kept := Zip(fds[..putto], ior[..putto]);
        ShrinkStep(s, getfrom, kept, cells);
        if ior[getfrom].id.Some? {
          if getfrom != putto {
            fds[putto] := fds[getfrom];
            ior[putto] := ior[getfrom];
            cells := cells[ior[putto].id.value := putto];
          }
          putto := putto + 1;
          assert Zip(fds[..putto], ior[..putto]) == kept + [s.slots[getfrom]];
        }
        getfrom := getfrom + 1;
      }
      assert s.slots[..getfrom] == s.slots;
      fdcnt := putto;
      needShrink := false;
    }

    /** The record is given up: its id is freed and nothing is polled for any more. */
    method Vacate(x: nat)
      requires Valid() && x < fdcnt && ior[x].id.Some?
      modifies this`needShrink, this`cells, fds, ior
      ensures View() == IoTable.Vacate(old(View()), x)
    {
      cells := cells - {ior[x].id.value};
      ior[x] := ior[x].(id := None);
      fds[x] := fds[x].(events := 0, revents := 0);
      needShrink := true;
      assert fds[..fdcnt] == old(fds[..fdcnt])[x := fds[x]] && ior[..fdcnt] == old(ior[..fdcnt])[x := ior[x]];
      ZipUpdate(old(fds[..fdcnt]), old(ior[..fdcnt]), x, fds[x], ior[x]);
    }

    method Remove(id: Option<nat>) returns (res: int)
      requires Valid() && Core(View())
      modifies this`fdcnt, this`needShrink, this`cells, fds, ior
      ensures Valid() && (View(), res) == IoTable.Remove(old(View()), id)
    {
      hide IoTable.Shrink, IoTable.Vacate, FindId, NoHoles;
      if id.None? {
        return -1;
      }
      var x := 0;
      while x < fdcnt && ior[x].id != id
        invariant x <= fdcnt
        invariant forall i :: 0 <= i < x ==> ior[i].id != id
      {
        x := x + 1;
      }
      FindIdIs(View().slots, id.value, x);
      if x == fdcnt {
        return -1;
      }
      RemoveIs(View(), id.value, x);
      hide IoTable.Remove, Core, Indirect;
      Vacate(x);
      if currentIoc == -1 {
        Shrink();
      }
      return 0;
    }

    method Serve(r: Request)
      requires Valid() && Core(View())
      modifies this, fds, ior
      ensures Valid() && (fds == old(fds) || fresh(fds)) && (ior == old(ior) || fresh(ior))
      ensures View() == IoTable.Serve(old(View()), r)
    {
      match r
      case AddRequest(fd, cb, data, events) => var _ := Add(fd, cb, data, events);
      case ChangeRequest(id, fd, cb, data, events) =>
        if id in cells && 0 <= cells[id] < fdcnt {
          Change(id, fd, cb, data, events);
        }
      case RemoveRequest(id) => var _ := Remove(Some(id));
    }

    /** What a callback does to the table while it runs. */
    method ServeAll(rs: seq<Request>)
      requires Valid() && Core(View())
      modifies this, fds, ior
      ensures Valid() && Core(View()) && (fds == old(fds) || fresh(fds)) && (ior == old(ior) || fresh(ior))
      ensures View() == IoTable.ServeAll(old(View()), rs)
    {
      var i := 0;
      while i < |rs|
        invariant 0 <= i <= |rs| && Valid() && Core(View())
        invariant (fds == old(fds) || fresh(fds)) && (ior == old(ior) || fresh(ior))
        invariant IoTable.ServeAll(View(), rs[i..]) == IoTable.ServeAll(old(View()), rs)
      {
        hide Core;
        ghost var s := View();
        ServeCore(s, rs[i]);
        Serve(rs[i]);
        assert rs[i..][0] == rs[i] && rs[i..][1..] == rs[i + 1..];
        i := i + 1;
      }
    }

    /** poll, as far as the table sees it: every entry gets its pending events. */
    method Poll(ready: nat -> int) returns (some: bool)
      requires Valid()
      modifies fds
      ensures View() == old(View()).(slots := Polled(old(View()).slots, ready))
      ensures some == SomeReady(View().slots)
    {
      var i := 0;
      some := false;
      while i < fdcnt
        invariant 0 <= i <= fdcnt
        invariant forall k :: 0 <= k < i ==> fds[k] == old(fds[k]).(revents := ready(k))
        invariant forall k :: i <= k < fdcnt ==> fds[k] == old(fds[k])
        invariant some <==> exists k :: 0 <= k < i && fds[k].revents != 0
      {
        fds[i] := fds[i].(revents := ready(i));
        some := some || fds[i].revents != 0;
        i := i + 1;
      }
      ghost var slots := old(View()).slots;
      assert View().slots == Polled(slots, ready);
      if some {
        var k :| 0 <= k < fdcnt && fds[k].revents != 0;
        assert View().slots[k].revents != 0;
      }
    }

    /** One turn of the dispatch loop. */
    method Turn(x: nat, b: Behaviour)
      requires Valid() && Core(View()) && x < fdcnt && Pending(View().slots[x])
      modifies this, fds, ior
      ensures Valid() && (fds == old(fds) || fresh(fds)) && (ior == old(ior) || fresh(ior))
      ensures View() == IoTable.Turn(old(View()), x, b)
    {
      hide IoTable.ServeAll, IoTable.Remove, NoHoles;
      currentIoc := cells[ior[x].id.value];
      if ior[x].cb != 0 {
        ServeAll(b.requests);
        if !b.keep && x < fdcnt {
          var _ := Remove(ior[x].id);
        }
        currentIoc := -1;
      }
    }

    /** The dispatch loop of spd_io_context_wait; the k-th callback call behaves as
        `behave(k)`, and `calls` lists the calls made. */
    method Dispatch(behave: nat -> Behaviour) returns (calls: seq<Call>)
      requires Valid() && Core(View())
      modifies this, fds, ior
      ensures Valid() && Core(View()) && (fds == old(fds) || fresh(fds)) && (ior == old(ior) || fresh(ior))
      ensures (View(), calls) == IoTable.Dispatch(old(View()), 0, old(fdcnt), behave, [])
    {
      hide Core, Indirect, IoTable.Turn, Tracks, Taken, CallsBelow;
      calls := [];
      ghost var s0 := View();
      RoundBegins(s0, behave);
      var origcnt, x := fdcnt, 0;
      while x < origcnt
        invariant 0 <= x <= origcnt == |s0.slots| && Valid()
        invariant (fds == old(fds) || fresh(fds)) && (ior == old(ior) || fresh(ior))
        invariant RoundAt(View(), s0, x, calls, behave)
        invariant IoTable.Dispatch(View(), x, origcnt, behave, calls) == IoTable.Dispatch(s0, 0, origcnt, behave, [])
      {
        ghost var s := View();
        RoundStep(s, s0, x, calls, behave);
        RoundReaches(s, s0, x, calls, behave);
        if fds[x].revents != 0 && ior[x].id.Some? {
          var call := CallOf(SlotOf(fds[x], ior[x]), x);
          var called := ior[x].cb != 0;
          Turn(x, behave(|calls|));
          if called {
            calls := calls + [call];
          }
        }
        x := x + 1;
      }
      RoundReaches(View(), s0, x, calls, behave);
    }

    /** spd_io_context_wait. */
    method Wait(ready: nat -> int, behave: nat -> Behaviour) returns (calls: seq<Call>)
      requires Valid() && Core(View())
      modifies this, fds, ior
      ensures Valid() && (fds == old(fds) || fresh(fds)) && (ior == old(ior) || fresh(ior))
      ensures (View(), calls) == IoTable.Wait(old(View()), ready, behave)
    {
      PolledKeeps(View(), ready);
      var some := Poll(ready);
      if !some {
        return [];
      }
      calls := Dispatch(behave);
      if needShrink {
        Shrink();
      }
    }
  }

  lemma ServeCore(s: Io, r: Request)
    requires Core(s)
    ensures Core(IoTable.Serve(s, r))
  {
    match r
    case AddRequest(fd, cb, data, events) => AddKeeps(s, fd, cb, data, events);
    case ChangeRequest(id, fd, cb, data, events) =>
      if id in s.cells && 0 <= s.cells[id] < |s.slots| {
        ChangeKeeps(s, id, fd, cb, data, events);
      }
    case RemoveRequest(id) => RemoveKeeps(s, id);
  }
}
