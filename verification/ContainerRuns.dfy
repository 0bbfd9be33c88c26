/** Iteration while the program runs: whatever operations come between the calls of an iterator,
    the container only evolves, so the iterator's guarantees hold over every run. */
module ContainerRuns {

  import opened Common
  import opened RefCounts
  import opened Container
  import opened ContainerIter
  import opened ContainerRounds
  import opened ContainerWorld

  /** A search changes only the container it is made in, and that one by evolution. */
  lemma SearchStepEvolves(w: World, d: ObjId, orders: seq<seq<nat>>, f: Flags, cb: Callback, results: ObjId, c: ObjId)
    requires Inv(w) && Enabled(w, SearchIn(d, orders, f, cb, results)) && c in w.conts
    ensures var w' := DoSearch(w, d, orders, f, cb, results); c in w'.conts && Evolves(w.conts[c], w'.conts[c])
  {
    hide Repeat;
    if c == d {
      RepeatEvolves(w.conts[c].buckets, orders, f, cb, SearchWork(w, c));
    } else {
      EvolvesReflexive(w.conts[c]);
    }
  }

  lemma NextUnlinkEvolves(w: World, d: ObjId, it: Iter, c: ObjId)
    requires Inv(w) && Enabled(w, NextUnlink(d, it)) && c in w.conts
    ensures var w' := DoNextUnlink(w, d, it); c in w'.conts && Evolves(w.conts[c], w'.conts[c])
  {
    EvolvesReflexive(w.conts[c]);
    AdvancePosition(w.conts[d], it);
    if c == d && Locate(w.conts[d], it).Some? {
      TakeOutEvolves(w.conts[d], Locate(w.conts[d], it).value, 0);
    }
  }

  /** Every operation of the program leaves each container that stays alive evolved. */
  lemma StepEvolves(w: World, op: Op, c: ObjId)
    requires Inv(w) && Enabled(w, op) && c in w.conts && c in Apply(w, op).conts
    ensures Evolves(w.conts[c], Apply(w, op).conts[c])
  {
    EvolvesReflexive(w.conts[c]);
    match op {
      case LinkObj(d, hash, o) => LinkKeepsWf(w.conts[d], hash, o);
      case SearchIn(d, orders, f, cb, results) => SearchStepEvolves(w, d, orders, f, cb, results, c);
      case NextUnlink(d, it) => NextUnlinkEvolves(w, d, it, c);
      case NewContainer(d, n) => assert d !in w.conts;
      case NewObject(_) =>
      case TakeHandle(_) =>
      case DropHandle(_) =>
      case Next(_, _) =>
    }
  }

  /** The worlds of a run, one after the other. */
  ghost predicate History(ws: seq<World>, ops: seq<Op>) {
    && |ws| == |ops| + 1 && Inv(ws[0])
    && forall k :: 0 <= k < |ops| ==> Inv(ws[k]) && Enabled(ws[k], ops[k]) && ws[k + 1] == Apply(ws[k], ops[k])
  }

  ghost predicate AliveIn(ws: seq<World>, c: ObjId) {
    forall k :: 0 <= k < |ws| ==> c in ws[k].conts
  }

  lemma HistoryInv(ws: seq<World>, ops: seq<Op>, k: nat)
    requires History(ws, ops) && k < |ws|
    ensures Inv(ws[k])
  {
    if k == |ops| && k > 0 {
      StepKeeps(ws[k - 1], ops[k - 1]);
    }
  }

  lemma {:induction false} HistoryEvolves(ws: seq<World>, ops: seq<Op>, c: ObjId, i: nat, j: nat)
    requires History(ws, ops) && AliveIn(ws, c) && i <= j < |ws|
    ensures Evolves(ws[i].conts[c], ws[j].conts[c])
    decreases j - i
  {
    hide Apply, Inv, Enabled, Evolves;
    if i == j {
      EvolvesReflexive(ws[i].conts[c]);
    } else {
      HistoryEvolves(ws, ops, c, i, j - 1);
      assert ws[j - 1 + 1] == Apply(ws[j - 1], ops[j - 1]);
      StepEvolves(ws[j - 1], ops[j - 1], c);
      EvolvesTransitive(ws[i].conts[c], ws[j - 1].conts[c], ws[j].conts[c]);
    }
  }

  /** The moments of a run at which the iterator is called. */
  ghost predicate Moments(times: seq<nat>, n: nat) {
    && (forall k :: 0 <= k < |times| ==> times[k] < n)
    && (forall k :: 0 <= k < |times| - 1 ==> times[k] <= times[k + 1])
  }

  /** The container as the calls find it. */
  ghost function Seen(ws: seq<World>, times: seq<nat>, c: ObjId): (stores: seq<Store>)
    requires AliveIn(ws, c) && Moments(times, |ws|)
    ensures |stores| == |times| && forall k :: 0 <= k < |times| ==> stores[k] == ws[times[k]].conts[c]
  {
    seq(|times|, k requires 0 <= k < |times| => ws[times[k]].conts[c])
  }

  lemma SeenIsChain(ws: seq<World>, ops: seq<Op>, times: seq<nat>, c: ObjId)
    requires History(ws, ops) && AliveIn(ws, c) && Moments(times, |ws|)
    ensures Chain(Seen(ws, times, c))
  {
    var stores := Seen(ws, times, c);
    forall k | 0 <= k < |stores|
      ensures Wf(stores[k])
    {
      HistoryInv(ws, ops, times[k]);
    }
    forall k | 0 <= k < |stores| - 1
      ensures Evolves(stores[k], stores[k + 1])
    {
      HistoryEvolves(ws, ops, c, times[k], times[k + 1]);
    }
  }

  /** Iteration over every run: links, unlinks, searches, other iterators and handles may come
      between the calls in any order. The entries returned strictly increase in (bucket,
      version), and once NULL is returned every entry that was there at all calls has been
      returned. */
  lemma IterationOverRuns(ws: seq<World>, ops: seq<Op>, times: seq<nat>, c: ObjId)
    requires History(ws, ops) && AliveIn(ws, c) && Moments(times, |ws|)
    ensures Chain(Seen(ws, times, c))
    ensures forall j, k :: 0 <= j < k < |times| ==> Increasing(FullResults(Seen(ws, times, c)), j, k)
    ensures forall m, b: nat, e :: 0 <= m < |times| && FullResults(Seen(ws, times, c))[m].None?
                                   && Throughout(Seen(ws, times, c), m, b, e) ==>
      ReturnedBefore(FullResults(Seen(ws, times, c)), m, Hit(b, e))
  {
    SeenIsChain(ws, ops, times, c);
    var stores := Seen(ws, times, c);
    forall j, k | 0 <= j < k < |times|
      ensures Increasing(FullResults(stores), j, k)
    {
      FreshOk(stores[0]);
      if FullResults(stores)[j].Some? && FullResults(stores)[k].Some? {
        NeverTwice(stores, Fresh, j, k);
      }
    }
    forall m, b: nat, e | 0 <= m < |times| && FullResults(stores)[m].None? && Throughout(stores, m, b, e)
      ensures ReturnedBefore(FullResults(stores), m, Hit(b, e))
    {
      FullIteration(stores, m, b, e);
    }
  }

  ghost predicate Increasing(outs: seq<Option<Hit>>, j: nat, k: nat)
    requires j < |outs| && k < |outs|
  {
    outs[j].Some? && outs[k].Some? ==>
      Before(outs[j].value.bucket, outs[j].value.entry.version, outs[k].value.bucket, outs[k].value.entry.version)
  }

  ghost predicate ReturnedBefore(outs: seq<Option<Hit>>, m: nat, h: Hit)
    requires m <= |outs|
  {
    exists k :: 0 <= k < m && outs[k] == Some(h)
  }
}
