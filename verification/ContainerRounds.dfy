/** Whole searches of obj.c, the repeated rounds of the outer loop included: what they compute,
    when they end, and that they keep the reference books. */
module ContainerRounds {

  import opened Common
  import opened RefCounts
  import opened Container
  import opened ContainerSearch
  import BucketLoop

  // ---------- the outer loop, turn by turn ----------

  /** The loop variables of internal_obj_callback with the buckets and surroundings they work
      on, and the object to return. */
  datatype Engine = Engine(loop: BucketLoop.Loop, buckets: seq<Bucket>, work: Work, ret: Option<ObjId>)

  ghost predicate EngineOk(e: Engine) {
    && 0 <= e.loop.i && 0 <= e.loop.last <= |e.buckets| && |e.work.multi.buckets| > 0
  }

  predicate Running(e: Engine) {
    e.loop.i < e.loop.last
  }

  function Boot(bs: seq<Bucket>, f: Flags, hash: int, w: Work): Engine
    requires |bs| > 0
  {
    Engine(BucketLoop.Begin(f, hash, |bs|), bs, w, None)
  }

  /** One bucket is scanned, and the loop variables move on. */
  function Turn(e: Engine, f: Flags, start: nat, cb: Callback): (e': Engine)
    requires EngineOk(e) && Running(e) && start <= |e.buckets|
    ensures EngineOk(e') && |e'.buckets| == |e.buckets|
  {
    var r := ScanBucket(e.buckets[e.loop.i], f, cb, e.work);
    Engine(BucketLoop.Turn(e.loop, f, start, |e.buckets|, r.outcome), e.buckets[e.loop.i := r.kept], r.work,
           if r.outcome.Returned? then Some(r.outcome.obj) else None)
  }

  function RunEngine(e: Engine, f: Flags, start: nat, cb: Callback, turns: nat): (e': Engine)
    requires EngineOk(e) && start <= |e.buckets|
    ensures EngineOk(e') && |e'.buckets| == |e.buckets|
    decreases turns
  {
    if turns == 0 || !Running(e) then e else RunEngine(Turn(e, f, start, cb), f, start, cb, turns - 1)
  }

  // ---------- what the loop computes ----------

  /** The rounds over all buckets but the last that follow a scan of the last one. A round that
      is stopped begins again; if it has unlinked nothing it will be stopped for ever. */
  function Rounds(bs: seq<Bucket>, f: Flags, cb: Callback, w: Work): (r: Option<Found>)
    requires |bs| > 0 && |w.multi.buckets| > 0
    ensures r.Some? ==> |r.value.buckets| == |bs| && |r.value.work.multi.buckets| > 0
    decreases Count(bs)
  {
    var r := Search(bs, Upto(0, |bs| - 1), f, cb, w);
    if r.outcome != Stopped then Some(r)
    else if Count(r.buckets) < Count(bs) then Rounds(r.buckets, f, cb, r.work)
    else None
  }

  /** Does the search begin at the last bucket and wrap? */
  predicate WrapsAtEnd(f: Flags, hash: int, n: nat)
    requires n > 0
  {
    BucketLoop.Wraps(f) && Start(f, hash, n) == n - 1
  }

  /** The whole search; None for one that never ends. */
  function FullSearch(bs: seq<Bucket>, f: Flags, hash: int, cb: Callback, w: Work): (r: Option<Found>)
    requires |bs| > 0 && |w.multi.buckets| > 0
    ensures r.Some? ==> |r.value.buckets| == |bs| && |r.value.work.multi.buckets| > 0
  {
    var n := |bs|;
    if WrapsAtEnd(f, hash, n) then
      var r := Search(bs, [n - 1], f, cb, w);
      if r.outcome == Through then Rounds(r.buckets, f, cb, r.work) else Some(r)
    else Some(Search(bs, Order(f, hash, n), f, cb, w))
  }

  // ---------- entries that end a scan ----------

  /** Does the scan of a bucket end at an entry answered like this? */
  predicate Halts(a: Answer, f: Flags) {
    if a.matches then a.stop || !f.multiple else a.stop
  }

  function FirstHalting(b: Bucket, f: Flags, cb: Callback): Option<Entry> {
    if b == [] then None else if Halts(cb(b[0]), f) then Some(b[0]) else FirstHalting(b[1..], f, cb)
  }

  /** The first entry that ends a scan in the buckets from i up to m. */
  function FirstHaltingIn(bs: seq<Bucket>, i: nat, m: nat, f: Flags, cb: Callback): Option<Entry>
    requires m <= |bs|
    decreases m - i
  {
    if i >= m then None
    else if FirstHalting(bs[i], f, cb).Some? then FirstHalting(bs[i], f, cb)
    else FirstHaltingIn(bs, i + 1, m, f, cb)
  }

  /** How a scan ends that ends at this entry. */
  function EndAt(h: Option<Entry>, f: Flags, cb: Callback): Outcome {
    if h.None? then Through
    else if cb(h.value).matches && Returns(f) then Returned(h.value.obj) else Stopped
  }

  lemma {:induction false} ScanEnds(b: Bucket, f: Flags, cb: Callback, w: Work)
    requires |w.multi.buckets| > 0
    ensures ScanBucket(b, f, cb, w).outcome == EndAt(FirstHalting(b, f, cb), f, cb)
    decreases |b|
  {
    if b != [] && !Halts(cb(b[0]), f) {
      ScanEnds(b[1..], f, cb, if cb(b[0]).matches then OnMatch(b[0], f, w) else w);
    }
  }

  /** What stays of a bucket: all entries up to the end of the scan that do not match, or all,
      if the search does not unlink. */
  function KeptOf(b: Bucket, f: Flags, cb: Callback): (kept: Bucket)
    ensures forall e :: e in kept ==> e in b
    ensures |kept| <= |b|
  {
    if b == [] then []
    else
      var rest := if cb(b[0]).matches then Remnant(b[0], f) else [b[0]];
      rest + if Halts(cb(b[0]), f) then b[1..] else KeptOf(b[1..], f, cb)
  }

  lemma {:induction false} ScanKeeps(b: Bucket, f: Flags, cb: Callback, w: Work)
    requires |w.multi.buckets| > 0
    ensures ScanBucket(b, f, cb, w).kept == KeptOf(b, f, cb)
    decreases |b|
  {
    if b != [] && !Halts(cb(b[0]), f) {
      ScanKeeps(b[1..], f, cb, if cb(b[0]).matches then OnMatch(b[0], f, w) else w);
    } else if b != [] {
      assert [b[0]] + b[1..] == b;
    }
  }

  lemma {:induction false} KeptFacts(b: Bucket, f: Flags, cb: Callback)
    ensures !f.unlink ==> KeptOf(b, f, cb) == b
    ensures forall e :: e in b && !cb(e).matches ==> e in KeptOf(b, f, cb)
    ensures var h := FirstHalting(b, f, cb);
      && (h.Some? ==> h.value in b && Halts(cb(h.value), f))
      && (h.None? ==> forall e :: e in b ==> !Halts(cb(e), f))
      && (f.unlink && h.Some? && cb(h.value).matches ==> |KeptOf(b, f, cb)| < |b|)
    ensures |KeptOf(b, f, cb)| == |b| ==> KeptOf(b, f, cb) == b
    decreases |b|
  {
    if b != [] {
      assert b == [b[0]] + b[1..];
      if !Halts(cb(b[0]), f) {
        KeptFacts(b[1..], f, cb);
      }
    }
  }

  /** What stays of the buckets when those from i up to m are searched. */
  function KeptIn(bs: seq<Bucket>, i: nat, m: nat, f: Flags, cb: Callback): (kept: seq<Bucket>)
    requires m <= |bs|
    ensures |kept| == |bs|
    decreases m - i
  {
    if i >= m then bs
    else
      var bs' := bs[i := KeptOf(bs[i], f, cb)];
      if FirstHalting(bs[i], f, cb).Some? then bs' else KeptIn(bs', i + 1, m, f, cb)
  }

  lemma {:induction false} HaltingElsewhere(bs: seq<Bucket>, j: nat, b: Bucket, i: nat, m: nat, f: Flags, cb: Callback)
    requires m <= |bs| && j < i && j < |bs|
    ensures FirstHaltingIn(bs[j := b], i, m, f, cb) == FirstHaltingIn(bs, i, m, f, cb)
    decreases m - i
  {
    if i < m {
      HaltingElsewhere(bs, j, b, i + 1, m, f, cb);
    }
  }

  /** A search of the buckets from i up to m, whatever its surroundings: it ends at the first
      entry that ends a scan. */
  lemma {:induction false} SearchEnds(bs: seq<Bucket>, i: nat, m: nat, f: Flags, cb: Callback, w: Work)
    requires |w.multi.buckets| > 0 && m <= |bs|
    ensures var r := Search(bs, Upto(i, m), f, cb, w);
      && r.outcome == EndAt(FirstHaltingIn(bs, i, m, f, cb), f, cb)
      && r.buckets == KeptIn(bs, i, m, f, cb)
    decreases m - i
  {
    if i < m {
      var r := ScanBucket(bs[i], f, cb, w);
      ScanEnds(bs[i], f, cb, w);
      ScanKeeps(bs[i], f, cb, w);
      assert Upto(i, m)[1..] == Upto(i + 1, m);
      if r.outcome == Through {
        SearchEnds(bs[i := r.kept], i + 1, m, f, cb, r.work);
        HaltingElsewhere(bs, i, r.kept, i + 1, m, f, cb);
      }
    }
  }

  /** Does one of the buckets below m hold an entry that stops without matching? */
  ghost predicate HasStopper(bs: seq<Bucket>, m: nat, cb: Callback)
    requires m <= |bs|
  {
    exists j, e :: 0 <= j < m && e in bs[j] && cb(e) == Answer(false, true)
  }

  lemma {:induction false} KeptInFacts(bs: seq<Bucket>, i: nat, m: nat, f: Flags, cb: Callback)
    requires m <= |bs|
    ensures !f.unlink ==> KeptIn(bs, i, m, f, cb) == bs
    ensures forall j, e :: 0 <= j < |bs| && e in bs[j] && !cb(e).matches ==> e in KeptIn(bs, i, m, f, cb)[j]
    ensures forall j, e :: 0 <= j < |bs| && e in KeptIn(bs, i, m, f, cb)[j] ==> e in bs[j]
    decreases m - i
  {
    if i < m {
      KeptFacts(bs[i], f, cb);
      var bs' := bs[i := KeptOf(bs[i], f, cb)];
      assert !f.unlink ==> bs' == bs;
      KeptInFacts(bs', i + 1, m, f, cb);
    }
  }

  lemma {:induction false} KeptInCount(bs: seq<Bucket>, i: nat, m: nat, f: Flags, cb: Callback)
    requires m <= |bs|
    ensures var h, kept := FirstHaltingIn(bs, i, m, f, cb), KeptIn(bs, i, m, f, cb);
      && Count(kept) <= Count(bs)
      && (Count(kept) == Count(bs) ==> kept == bs)
      && (f.unlink && h.Some? && cb(h.value).matches ==> Count(kept) < Count(bs))
    decreases m - i
  {
    if i < m {
      KeptFacts(bs[i], f, cb);
      var bs' := bs[i := KeptOf(bs[i], f, cb)];
      CountUpdate(bs, i, KeptOf(bs[i], f, cb));
      assert KeptOf(bs[i], f, cb) == bs[i] ==> bs' == bs;
      KeptInCount(bs', i + 1, m, f, cb);
      HaltingElsewhere(bs, i, KeptOf(bs[i], f, cb), i + 1, m, f, cb);
    }
  }

  lemma {:induction false} HaltingIsThere(bs: seq<Bucket>, i: nat, m: nat, f: Flags, cb: Callback)
    requires m <= |bs|
    ensures var h := FirstHaltingIn(bs, i, m, f, cb);
      && (h.Some? ==> Halts(cb(h.value), f) && exists j :: i <= j < m && h.value in bs[j])
      && (h.None? ==> forall j, e :: i <= j < m && e in bs[j] ==> !Halts(cb(e), f))
    decreases m - i
  {
    hide FirstHalting, KeptOf, Halts;
    if i < m {
      KeptFacts(bs[i], f, cb);
      HaltingIsThere(bs, i + 1, m, f, cb);
    }
  }

  /** The searches whose rounds never end, told from the entries of the buckets in front of the
      last one. A search that unlinks and does not return what it finds ends unless some entry
      stops it without matching; any other search ends unless the first entry that ends a
      scan is one it does not return. */
  ghost predicate RoundsForEver(bs: seq<Bucket>, f: Flags, cb: Callback)
    requires |bs| > 0
  {
    if f.unlink && !Returns(f) then HasStopper(bs, |bs| - 1, cb)
    else
      var h := FirstHaltingIn(bs, 0, |bs| - 1, f, cb);
      h.Some? && !(cb(h.value).matches && Returns(f))
  }

  lemma {:induction false} RoundsEnd(bs: seq<Bucket>, f: Flags, cb: Callback, w: Work)
    requires |bs| > 0 && |w.multi.buckets| > 0
    ensures Rounds(bs, f, cb, w).None? <==> RoundsForEver(bs, f, cb)
    decreases Count(bs)
  {
    hide Search, FirstHaltingIn, KeptIn, Upto, Count;
    var m := |bs| - 1;
    var r := Search(bs, Upto(0, m), f, cb, w);
    SearchEnds(bs, 0, m, f, cb, w);
    KeptInFacts(bs, 0, m, f, cb);
    KeptInCount(bs, 0, m, f, cb);
    HaltingIsThere(bs, 0, m, f, cb);
    if f.unlink && !Returns(f) {
      assert HasStopper(r.buckets, m, cb) <==> HasStopper(bs, m, cb);
      if r.outcome == Stopped && Count(r.buckets) < Count(bs) {
        RoundsEnd(r.buckets, f, cb, r.work);
      }
    } else if r.outcome == Stopped {
      StoppedKeepsAll(bs, 0, m, f, cb);
    }
  }

  /** Without unlinking, or when a match is returned, a stopped round has changed nothing. */
  lemma {:induction false} StoppedKeepsAll(bs: seq<Bucket>, i: nat, m: nat, f: Flags, cb: Callback)
    requires m <= |bs| && (!f.unlink || Returns(f))
    requires var h := FirstHaltingIn(bs, i, m, f, cb); h.Some? && !(cb(h.value).matches && Returns(f))
    ensures KeptIn(bs, i, m, f, cb) == bs
    decreases m - i
  {
    StoppedKeepsBucket(bs[i], f, cb);
    assert bs[i := bs[i]] == bs;
    if FirstHalting(bs[i], f, cb).None? {
      StoppedKeepsAll(bs, i + 1, m, f, cb);
    }
  }

  lemma {:induction false} StoppedKeepsBucket(b: Bucket, f: Flags, cb: Callback)
    requires !f.unlink || Returns(f)
    requires var h := FirstHalting(b, f, cb); h.Some? ==> !(cb(h.value).matches && Returns(f))
    ensures KeptOf(b, f, cb) == b
    decreases |b|
  {
    if b != [] {
      assert [b[0]] + b[1..] == b;
      if !Halts(cb(b[0]), f) {
        StoppedKeepsBucket(b[1..], f, cb);
      }
    }
  }

  /** A whole search never ends exactly when it begins at the last bucket and wraps, no entry
      of that bucket ends the scan, and the entries in front of it keep the rounds going. */
  lemma EndsExactly(bs: seq<Bucket>, f: Flags, hash: int, cb: Callback, w: Work)
    requires |bs| > 0 && |w.multi.buckets| > 0
    ensures FullSearch(bs, f, hash, cb, w).None? <==>
      && WrapsAtEnd(f, hash, |bs|)
      && (forall e :: e in bs[|bs| - 1] ==> !Halts(cb(e), f))
      && RoundsForEver(bs, f, cb)
  {
    var n := |bs|;
    if WrapsAtEnd(f, hash, n) {
      var r := Search(bs, [n - 1], f, cb, w);
      assert Upto(n - 1, n) == [n - 1];
      SearchEnds(bs, n - 1, n, f, cb, w);
      HaltingIsThere(bs, n - 1, n, f, cb);
      if r.outcome == Through {
        RoundsEnd(r.buckets, f, cb, r.work);
        LastMakesNoDifference(bs, r.buckets[n - 1], f, cb);
        assert r.buckets == bs[n - 1 := r.buckets[n - 1]];
      } else {
        assert EndAt(FirstHaltingIn(bs, n - 1, n, f, cb), f, cb) == r.outcome;
      }
    }
  }

  lemma LastMakesNoDifference(bs: seq<Bucket>, b: Bucket, f: Flags, cb: Callback)
    requires |bs| > 0
    ensures RoundsForEver(bs[|bs| - 1 := b], f, cb) <==> RoundsForEver(bs, f, cb)
  {
    HaltingBelow(bs, b, 0, f, cb);
    var bs' := bs[|bs| - 1 := b];
    assert forall j :: 0 <= j < |bs| - 1 ==> bs'[j] == bs[j];
  }

  lemma {:induction false} HaltingBelow(bs: seq<Bucket>, b: Bucket, i: nat, f: Flags, cb: Callback)
    requires |bs| > 0
    ensures FirstHaltingIn(bs[|bs| - 1 := b], i, |bs| - 1, f, cb) == FirstHaltingIn(bs, i, |bs| - 1, f, cb)
    decreases |bs| - i
  {
    if i < |bs| - 1 {
      HaltingBelow(bs, b, i + 1, f, cb);
    }
  }

  // ---------- the loop computes the whole search ----------

  /** A stopped round is followed by the rounds from what it leaves. */
  lemma RoundsUnfold(bs: seq<Bucket>, f: Flags, cb: Callback, w: Work)
    requires |bs| > 0 && |w.multi.buckets| > 0
    ensures var r := Search(bs, Upto(0, |bs| - 1), f, cb, w);
      Rounds(bs, f, cb, w) == if r.outcome == Stopped then Rounds(r.buckets, f, cb, r.work) else Some(r)
  {
    hide Search, RoundsForEver;
    var r := Search(bs, Upto(0, |bs| - 1), f, cb, w);
    SearchEnds(bs, 0, |bs| - 1, f, cb, w);
    KeptInCount(bs, 0, |bs| - 1, f, cb);
    if r.outcome == Stopped && Count(r.buckets) == Count(bs) {
      RoundsEnd(bs, f, cb, w);
      RoundsEnd(bs, f, cb, r.work);
    }
  }

  /** What a search leaves: the buckets, the surroundings and the object to return. */
  datatype Left = Left(buckets: seq<Bucket>, work: Work, ret: Option<ObjId>)

  function RetOf(o: Outcome): Option<ObjId> {
    if o.Returned? then Some(o.obj) else None
  }

  function LeftBy(r: Found): Left {
    Left(r.buckets, r.work, RetOf(r.outcome))
  }

  function LeftByRounds(r: Option<Found>): Option<Left> {
    if r.None? then None else Some(LeftBy(r.value))
  }

  /** The buckets still to be scanned in this round, from the two loop variables. */
  function Remaining(i: nat, last: nat, start: nat, n: nat, wraps: bool): (r: seq<nat>)
    requires last <= n && start < n
    ensures forall k :: 0 <= k < |r| ==> r[k] < n
  {
    if wraps && last == n then Upto(i, n) + Upto(0, start) else Upto(i, last)
  }

  lemma RemainingStep(i: nat, last: nat, start: nat, n: nat, wraps: bool)
    requires i < last <= n && start < n
    ensures var r := Remaining(i, last, start, n, wraps);
      && r != [] && r[0] == i
      && r[1..] == if wraps && last == n && i == n - 1 then Remaining(0, start, start, n, wraps)
                   else Remaining(i + 1, last, start, n, wraps)
  {
    BucketLoop.UptoHead(i, last, []);
    BucketLoop.UptoHead(i, n, Upto(0, start));
    assert Upto(i, last) + [] == Upto(i, last);
    assert Upto(i + 1, last) + [] == Upto(i + 1, last);
    assert Upto(n, n) + Upto(0, start) == Upto(0, start);
  }

  /** The loop variables that occur in a search begun at `start`. */
  ghost predicate Shape(e: Engine, f: Flags, start: nat) {
    var n := |e.buckets|;
    && EngineOk(e) && start < n && (Running(e) ==> e.ret == None)
    && (BucketLoop.Wraps(f) && Running(e) ==> e.loop.last == start || e.loop.last == n)
    && (BucketLoop.Wraps(f) && Running(e) && start == n - 1 && e.loop.last == n ==> e.loop.i == n - 1)
  }

  /** What the loop will leave, from any of its turns on; None if it never ends. */
  ghost function Result(e: Engine, f: Flags, start: nat, cb: Callback): Option<Left>
    requires Shape(e, f, start)
  {
    var n := |e.buckets|;
    if !Running(e) then Some(Left(e.buckets, e.work, e.ret))
    else if !BucketLoop.Wraps(f) || start < n - 1 then
      Some(LeftBy(Search(e.buckets, Remaining(e.loop.i, e.loop.last, start, n, BucketLoop.Wraps(f)), f, cb, e.work)))
    else if e.loop.last == n then
      var r := ScanBucket(e.buckets[n - 1], f, cb, e.work);
      var bs := e.buckets[n - 1 := r.kept];
      if r.outcome == Through then LeftByRounds(Rounds(bs, f, cb, r.work)) else Some(Left(bs, r.work, RetOf(r.outcome)))
    else
      var r := Search(e.buckets, Upto(e.loop.i, n - 1), f, cb, e.work);
      if r.outcome == Stopped then LeftByRounds(Rounds(r.buckets, f, cb, r.work)) else Some(LeftBy(r))
  }

  lemma TurnKeepsShape(e: Engine, f: Flags, start: nat, cb: Callback)
    requires Shape(e, f, start) && Running(e)
    ensures Shape(Turn(e, f, start, cb), f, start)
  {
    hide ScanBucket;
  }

  lemma SearchUnfolds(bs: seq<Bucket>, order: seq<nat>, rest: seq<nat>, f: Flags, cb: Callback, w: Work)
    requires |w.multi.buckets| > 0 && order != [] && rest == order[1..]
    requires forall k :: 0 <= k < |order| ==> order[k] < |bs|
    ensures var r := ScanBucket(bs[order[0]], f, cb, w); var bs' := bs[order[0] := r.kept];
      && (r.outcome != Through ==> Search(bs, order, f, cb, w) == Found(bs', r.work, r.outcome))
      && (r.outcome == Through ==> Search(bs, order, f, cb, w) == Search(bs', rest, f, cb, r.work))
      && (rest == [] ==> Search(bs, order, f, cb, w) == Found(bs', r.work, r.outcome))
  {
    hide ScanBucket;
  }

  /** One turn, in a search that does not come back to the buckets in front of the last. */
  lemma PlainTurn(e: Engine, f: Flags, start: nat, cb: Callback)
    requires Shape(e, f, start) && Running(e) && (!BucketLoop.Wraps(f) || start < |e.buckets| - 1)
    ensures Shape(Turn(e, f, start, cb), f, start)
    ensures Result(Turn(e, f, start, cb), f, start, cb) == Result(e, f, start, cb)
  {
    hide ScanBucket, Upto, Rounds, Search, Remaining;
    var n, e' := |e.buckets|, Turn(e, f, start, cb);
    var order := Remaining(e.loop.i, e.loop.last, start, n, BucketLoop.Wraps(f));
    TurnKeepsShape(e, f, start, cb);
    RemainingStep(e.loop.i, e.loop.last, start, n, BucketLoop.Wraps(f));
    if e.loop.last <= e.loop.i + 1 && (BucketLoop.Wraps(f) ==> e.loop.last < n) {
      NothingRemains(e.loop.i + 1, e.loop.last, start, n, BucketLoop.Wraps(f));
    }
    if start == 0 {
      NothingRemains(0, start, start, n, BucketLoop.Wraps(f));
    }
    SearchUnfolds(e.buckets, order, order[1..], f, cb, e.work);
  }

  lemma NothingRemains(i: nat, last: nat, start: nat, n: nat, wraps: bool)
    requires last <= n && start < n && last <= i && (wraps ==> last < n)
    ensures Remaining(i, last, start, n, wraps) == []
  {
  }

  /** One turn of a round over the buckets in front of the last. */
  lemma RoundTurn(e: Engine, f: Flags, cb: Callback)
    requires e.buckets != [] && Shape(e, f, |e.buckets| - 1) && Running(e)
    requires BucketLoop.Wraps(f) && e.loop.last == |e.buckets| - 1
    ensures var e' := Turn(e, f, |e.buckets| - 1, cb);
      Shape(e', f, |e.buckets| - 1) && Result(e', f, |e.buckets| - 1, cb) == Result(e, f, |e.buckets| - 1, cb)
  {
    hide ScanBucket, Rounds, Search, Upto;
    var n := |e.buckets|;
    var e', order := Turn(e, f, n - 1, cb), Upto(e.loop.i, n - 1);
    TurnKeepsShape(e, f, n - 1, cb);
    UptoStep(e.loop.i, n - 1);
    SearchUnfolds(e.buckets, order, order[1..], f, cb, e.work);
    RoundsUnfold(e'.buckets, f, cb, e'.work);
  }

  lemma UptoStep(i: nat, m: nat)
    requires i < m
    ensures Upto(i, m) != [] && Upto(i, m)[0] == i && Upto(i, m)[1..] == Upto(i + 1, m)
    ensures i + 1 == m ==> Upto(i, m)[1..] == []
  {
  }

  lemma FirstTurn(e: Engine, f: Flags, cb: Callback)
    requires e.buckets != [] && Shape(e, f, |e.buckets| - 1) && Running(e)
    requires BucketLoop.Wraps(f) && e.loop.last == |e.buckets|
    ensures var e' := Turn(e, f, |e.buckets| - 1, cb);
      Shape(e', f, |e.buckets| - 1) && Result(e', f, |e.buckets| - 1, cb) == Result(e, f, |e.buckets| - 1, cb)
  {
    hide ScanBucket, Rounds;
    var n := |e.buckets|;
    var e' := Turn(e, f, n - 1, cb);
    TurnKeepsShape(e, f, n - 1, cb);
    RoundsUnfold(e'.buckets, f, cb, e'.work);
  }

  /** No turn changes what the loop will leave. */
  lemma TurnKeepsResult(e: Engine, f: Flags, start: nat, cb: Callback)
    requires Shape(e, f, start) && Running(e)
    ensures Shape(Turn(e, f, start, cb), f, start)
    ensures Result(Turn(e, f, start, cb), f, start, cb) == Result(e, f, start, cb)
  {
    if !BucketLoop.Wraps(f) || start < |e.buckets| - 1 {
      PlainTurn(e, f, start, cb);
    } else if e.loop.last == |e.buckets| {
      FirstTurn(e, f, cb);
    } else {
      RoundTurn(e, f, cb);
    }
  }

  lemma {:induction false} RunKeepsResult(e: Engine, f: Flags, start: nat, cb: Callback, turns: nat)
    requires Shape(e, f, start)
    ensures Shape(RunEngine(e, f, start, cb, turns), f, start)
    ensures Result(RunEngine(e, f, start, cb, turns), f, start, cb) == Result(e, f, start, cb)
    decreases turns
  {
    hide Turn, Result, ScanBucket;
    if turns > 0 && Running(e) {
      TurnKeepsResult(e, f, start, cb);
      RunKeepsResult(Turn(e, f, start, cb), f, start, cb, turns - 1);
    }
  }

  lemma BootIsSearch(bs: seq<Bucket>, f: Flags, hash: int, cb: Callback, w: Work)
    requires |bs| > 0 && |w.multi.buckets| > 0
    ensures var start, e := Start(f, hash, |bs|), Boot(bs, f, hash, w);
      Shape(e, f, start) && Running(e) && Result(e, f, start, cb) == LeftByRounds(FullSearch(bs, f, hash, cb, w))
  {
    hide ScanBucket, Rounds, Search, Upto, CRem;
    var n, start := |bs|, Start(f, hash, |bs|);
    UptoOne(n, start);
    if WrapsAtEnd(f, hash, n) {
      SearchUnfolds(bs, [n - 1], [], f, cb, w);
    }
  }

  lemma UptoOne(n: nat, start: nat)
    requires n > 0 && start < n
    ensures Upto(start, start + 1) == [start] && Upto(0, n) + Upto(0, 0) == Upto(0, n)
    ensures [n - 1][1..] == []
  {
  }

  // ---------- searches that end, and searches that do not ----------

  /** A loop that will leave nothing is running after any number of turns. */
  lemma NeverEnds(e: Engine, f: Flags, start: nat, cb: Callback, turns: nat)
    requires Shape(e, f, start) && Result(e, f, start, cb) == None
    ensures Running(RunEngine(e, f, start, cb, turns))
  {
    RunKeepsResult(e, f, start, cb, turns);
  }

  lemma {:induction false} RunAdds(e: Engine, f: Flags, start: nat, cb: Callback, a: nat, b: nat)
    requires EngineOk(e) && start <= |e.buckets|
    ensures RunEngine(e, f, start, cb, a + b) == RunEngine(RunEngine(e, f, start, cb, a), f, start, cb, b)
    decreases a
  {
    if a > 0 && Running(e) {
      RunAdds(Turn(e, f, start, cb), f, start, cb, a - 1, b);
    }
  }

  /** Has the loop come to an end with this? */
  ghost predicate EndsIn(e: Engine, f: Flags, start: nat, cb: Callback, turns: nat)
    requires EngineOk(e) && start <= |e.buckets|
  {
    !Running(RunEngine(e, f, start, cb, turns))
  }

  lemma {:induction false} PlainEnds(e: Engine, f: Flags, start: nat, cb: Callback) returns (turns: nat)
    requires Shape(e, f, start) && (!BucketLoop.Wraps(f) || start < |e.buckets| - 1)
    ensures EndsIn(e, f, start, cb, turns)
    decreases BucketLoop.Wraps(f) && e.loop.last == |e.buckets| && Running(e),
              if Running(e) then e.loop.last - e.loop.i else 0
  {
    hide ScanBucket;
    turns := 0;
    if Running(e) {
      TurnKeepsShape(e, f, start, cb);
      turns := PlainEnds(Turn(e, f, start, cb), f, start, cb);
      turns := turns + 1;
    }
  }

  /** The turns of one round: until it is stopped and begins again, or ends. */
  lemma {:induction false} RoundRuns(e: Engine, f: Flags, cb: Callback) returns (turns: nat)
    requires e.buckets != [] && Shape(e, f, |e.buckets| - 1) && Running(e)
    requires BucketLoop.Wraps(f) && e.loop.last == |e.buckets| - 1
    ensures var n := |e.buckets|; var r := Search(e.buckets, Upto(e.loop.i, n - 1), f, cb, e.work);
      var e' := RunEngine(e, f, n - 1, cb, turns);
      if r.outcome == Stopped then
        && e'.loop.i == 0 && e'.loop.last == n - 1 && Shape(e', f, n - 1)
        && e'.buckets == r.buckets && e'.work == r.work
      else !Running(e')
    decreases e.loop.last - e.loop.i
  {
    hide ScanBucket, Search, Upto;
    var n := |e.buckets|;
    var e', order := Turn(e, f, n - 1, cb), Upto(e.loop.i, n - 1);
    TurnKeepsShape(e, f, n - 1, cb);
    UptoStep(e.loop.i, n - 1);
    SearchUnfolds(e.buckets, order, order[1..], f, cb, e.work);
    assert RunEngine(e', f, n - 1, cb, 0) == e';
    turns := 1;
    if ScanBucket(e.buckets[e.loop.i], f, cb, e.work).outcome == Through && Running(e') {
      turns := RoundRuns(e', f, cb);
      turns := turns + 1;
    }
  }

  lemma {:induction false} RoundsEndIn(e: Engine, f: Flags, cb: Callback) returns (turns: nat)
    requires e.buckets != [] && Shape(e, f, |e.buckets| - 1) && BucketLoop.Wraps(f)
    requires e.loop.last == |e.buckets| - 1 && e.loop.i == 0
    requires Rounds(e.buckets, f, cb, e.work).Some?
    ensures EndsIn(e, f, |e.buckets| - 1, cb, turns)
    decreases Count(e.buckets)
  {
    hide Search;
    turns := 0;
    if Running(e) {
      turns := RoundRuns(e, f, cb);
      if Search(e.buckets, Upto(0, |e.buckets| - 1), f, cb, e.work).outcome == Stopped {
        var more := RoundsEndIn(RunEngine(e, f, |e.buckets| - 1, cb, turns), f, cb);
        RunAdds(e, f, |e.buckets| - 1, cb, turns, more);
        turns := turns + more;
      }
    }
  }

  /** A search that has a result comes to its end, with that result. */
  lemma SearchEndsIn(bs: seq<Bucket>, f: Flags, hash: int, cb: Callback, w: Work) returns (turns: nat)
    requires |bs| > 0 && |w.multi.buckets| > 0 && FullSearch(bs, f, hash, cb, w).Some?
    ensures var e := RunEngine(Boot(bs, f, hash, w), f, Start(f, hash, |bs|), cb, turns);
      && !Running(e)
      && Left(e.buckets, e.work, e.ret) == LeftBy(FullSearch(bs, f, hash, cb, w).value)
  {
    hide ScanBucket, Search, Rounds;
    var e, start := Boot(bs, f, hash, w), Start(f, hash, |bs|);
    BootIsSearch(bs, f, hash, cb, w);
    if !WrapsAtEnd(f, hash, |bs|) {
      turns := PlainEnds(e, f, start, cb);
    } else {
      var e' := Turn(e, f, start, cb);
      TurnKeepsShape(e, f, start, cb);
      SearchUnfolds(bs, [start], [], f, cb, w);
      turns := 0;
      if Running(e') {
        turns := RoundsEndIn(e', f, cb);
      }
      turns := turns + 1;
    }
    RunKeepsResult(e, f, start, cb, turns);
  }

  /** The loop of a search ends, or runs for ever, exactly as the entries of the container, the
      callback and the flags say before it starts. */
  lemma RunsForEver(bs: seq<Bucket>, f: Flags, hash: int, cb: Callback, w: Work)
    requires |bs| > 0 && |w.multi.buckets| > 0
    ensures (forall turns: nat :: Running(RunEngine(Boot(bs, f, hash, w), f, Start(f, hash, |bs|), cb, turns))) <==>
            && WrapsAtEnd(f, hash, |bs|)
            && (forall e :: e in bs[|bs| - 1] ==> !Halts(cb(e), f))
            && RoundsForEver(bs, f, cb)
  {
    hide RoundsForEver, Search, Halts;
    var e, start := Boot(bs, f, hash, w), Start(f, hash, |bs|);
    EndsExactly(bs, f, hash, cb, w);
    BootIsSearch(bs, f, hash, cb, w);
    if FullSearch(bs, f, hash, cb, w).Some? {
      var turns := SearchEndsIn(bs, f, hash, cb, w);
      assert !Running(RunEngine(e, f, start, cb, turns));
    } else {
      forall turns: nat
        ensures Running(RunEngine(e, f, start, cb, turns))
      {
        NeverEnds(e, f, start, cb, turns);
      }
    }
  }

  /** A lookup without data under OBJ_POINTER and OBJ_CONTINUE, whose hash selects the empty last of
      two buckets while the object is in the other: its loop runs for any number of turns. */
  lemma NodataLookupNeverEnds(hash: int, o: ObjId, w: Work, turns: nat)
    requires CRem(hash, 2) == 1 && |w.multi.buckets| > 0
    ensures var f, cb := Flags(false, true, false, true, true), (e: Entry) => Answer(e.obj == o, true);
      Running(RunEngine(Boot([[Entry(1, o)], []], f, hash, w), f, Start(f, hash, 2), cb, turns))
  {
    var f, cb := Flags(false, true, false, true, true), (e: Entry) => Answer(e.obj == o, true);
    var bs: seq<Bucket> := [[Entry(1, o)], []];
    assert FirstHaltingIn(bs, 0, 1, f, cb) == Some(Entry(1, o));
    RunsForEver(bs, f, hash, cb, w);
  }

  /** Two matches in the first bucket, a hash that selects the empty last one: without OBJ_MULTIPLE
      an unlinking search takes both out, one in each round. */
  lemma RoundsTakeAll(o: ObjId, p: ObjId, w: Work)
    requires |w.multi.buckets| > 0
    ensures var f := Flags(true, true, false, true, true);
      var r := FullSearch([[Entry(1, o), Entry(2, p)], []], f, 1, (e: Entry) => Answer(true, true), w);
      r.Some? && r.value.buckets == [[], []]
  {
    var f, cb := Flags(true, true, false, true, true), (e: Entry) => Answer(true, true);
    var both, one, none := [[Entry(1, o), Entry(2, p)], []], [[Entry(2, p)], []], [[], []];
    assert both[1..][1..] == [] && one[1..] == both[1..] == none[1..];
    assert both[0][1..] == one[0] && one[0][1..] == [];
    assert [] + both[0][1..] == one[0] && [] + one[0][1..] == none[0];
    assert both[0 := one[0]] == one && one[0 := none[0]] == none;
    var w1 := OnMatch(Entry(1, o), f, w);
    var w2 := OnMatch(Entry(2, p), f, w1);
    assert Upto(0, 1) == [0] && [0][1..] == [] && [1][1..] == [];
    assert Search(both, [1], f, cb, w) == Found(both, w, Through);
    assert Search(both, [0], f, cb, w) == Found(one, w1, Stopped);
    assert Search(one, [0], f, cb, w1) == Found(none, w2, Stopped);
    assert Search(none, [0], f, cb, w2) == Found(none, w2, Through);
    assert Rounds(none, f, cb, w2) == Some(Found(none, w2, Through));
    assert Rounds(one, f, cb, w1) == Rounds(none, f, cb, w2);
  }

  /** A search from a hash, by a callback that answers only for objects of that hash, ends and
      leaves what a scan of all buckets leaves, whatever the flags. */
  lemma HashedFullSearchAgrees(s: Store, hash: ObjId -> CInt, h: CInt, f: Flags, cb: Callback, w: Work)
    requires Placed(s, hash) && |w.multi.buckets| > 0
    requires forall i, e :: 0 <= i < |s.buckets| && e in s.buckets[i] && cb(e) != Answer(false, false) ==>
      hash(e.obj) == h
    ensures FullSearch(s.buckets, f, h, cb, w) == Some(Search(s.buckets, Upto(0, |s.buckets|), f, cb, w))
  {
    hide Search, ScanBucket, Rounds;
    var bs, n := s.buckets, |s.buckets|;
    HashedSearchAgrees(s, hash, h, f, cb, w);
    if WrapsAtEnd(f, h, n) {
      LowIsQuiet(s, hash, h, f, cb);
      var r := Search(bs, [n - 1], f, cb, w);
      SearchUnfolds(bs, [n - 1], [], f, cb, w);
      QuietLow(r.buckets, f, cb, r.work);
      HomeLast(bs, f, cb, w);
    }
  }

  lemma LowIsQuiet(s: Store, hash: ObjId -> CInt, h: CInt, f: Flags, cb: Callback)
    requires Placed(s, hash) && WrapsAtEnd(f, h, |s.buckets|)
    requires forall i, e :: 0 <= i < |s.buckets| && e in s.buckets[i] && cb(e) != Answer(false, false) ==>
      hash(e.obj) == h
    ensures forall i :: 0 <= i < |s.buckets| - 1 ==> Quiet(s.buckets[i], cb)
  {
    if CRem(h, |s.buckets|) >= 0 {
      HomeIsStart(h, |s.buckets|);
    }
  }

  lemma QuietLow(bs: seq<Bucket>, f: Flags, cb: Callback, w: Work)
    requires |bs| > 0 && |w.multi.buckets| > 0 && forall i :: 0 <= i < |bs| - 1 ==> Quiet(bs[i], cb)
    ensures Rounds(bs, f, cb, w) == Some(Found(bs, w, Through))
  {
    QuietPrefix(bs, Upto(0, |bs| - 1), [], f, cb, w);
    assert Upto(0, |bs| - 1) + [] == Upto(0, |bs| - 1);
  }

  lemma HomeLast(bs: seq<Bucket>, f: Flags, cb: Callback, w: Work)
    requires |bs| > 0 && |w.multi.buckets| > 0 && forall i :: 0 <= i < |bs| - 1 ==> Quiet(bs[i], cb)
    ensures Search(bs, Upto(0, |bs|), f, cb, w) == Search(bs, [|bs| - 1], f, cb, w)
  {
    HomeOnly(bs, |bs| - 1, f, cb, w);
  }

  // ---------- conservation over all rounds ----------

  ghost predicate OrdersOk(orders: seq<seq<nat>>, n: nat) {
    forall j, k :: 0 <= j < |orders| && 0 <= k < |orders[j]| ==> orders[j][k] < n
  }

  /** Stretches of buckets, searched one after the other until an object is returned. */
  ghost function Repeat(bs: seq<Bucket>, orders: seq<seq<nat>>, f: Flags, cb: Callback, w: Work): (r: Found)
    requires |w.multi.buckets| > 0 && OrdersOk(orders, |bs|)
    ensures |r.buckets| == |bs| && |r.work.multi.buckets| == |w.multi.buckets|
    decreases |orders|
  {
    if orders == [] then Found(bs, w, Through)
    else
      OrdersHead(orders, |bs|);
      var r := Search(bs, orders[0], f, cb, w);
      if r.outcome.Returned? || |orders| == 1 then r else Repeat(r.buckets, orders[1..], f, cb, r.work)
  }

  lemma OrdersHead(orders: seq<seq<nat>>, n: nat)
    requires orders != [] && OrdersOk(orders, n)
    ensures (forall k :: 0 <= k < |orders[0]| ==> orders[0][k] < n) && OrdersOk(orders[1..], n)
  {
    assert forall j :: 0 <= j < |orders[1..]| ==> orders[1..][j] == orders[j + 1];
  }

  lemma OrdersCons(order: seq<nat>, orders: seq<seq<nat>>, n: nat)
    requires (forall k :: 0 <= k < |order| ==> order[k] < n) && OrdersOk(orders, n)
    ensures OrdersOk([order] + orders, n) && ([order] + orders)[1..] == orders
  {
  }

  lemma {:induction false} RoundsRepeat(bs: seq<Bucket>, f: Flags, cb: Callback, w: Work)
    returns (orders: seq<seq<nat>>)
    requires |bs| > 0 && |w.multi.buckets| > 0 && Rounds(bs, f, cb, w).Some?
    ensures orders != [] && OrdersOk(orders, |bs|) && Repeat(bs, orders, f, cb, w) == Rounds(bs, f, cb, w).value
    decreases Count(bs)
  {
    hide Search;
    var low := Upto(0, |bs| - 1);
    var r := Search(bs, low, f, cb, w);
    if r.outcome != Stopped {
      orders := [low];
    } else {
      var more := RoundsRepeat(r.buckets, f, cb, r.work);
      OrdersCons(low, more, |bs|);
      orders := [low] + more;
    }
  }

  /** A whole search is made of such stretches. */
  lemma FullIsRepeat(bs: seq<Bucket>, f: Flags, hash: int, cb: Callback, w: Work) returns (orders: seq<seq<nat>>)
    requires |bs| > 0 && |w.multi.buckets| > 0 && FullSearch(bs, f, hash, cb, w).Some?
    ensures OrdersOk(orders, |bs|) && Repeat(bs, orders, f, cb, w) == FullSearch(bs, f, hash, cb, w).value
  {
    hide Search, Order, Rounds;
    var n := |bs|;
    if !WrapsAtEnd(f, hash, n) {
      orders := [Order(f, hash, n)];
    } else {
      var r := Search(bs, [n - 1], f, cb, w);
      if r.outcome == Through {
        var more := RoundsRepeat(r.buckets, f, cb, r.work);
        OrdersCons([n - 1], more, n);
        orders := [[n - 1]] + more;
      } else {
        orders := [[n - 1]];
      }
    }
  }

  /** Over all rounds the books of every object stay balanced: buckets, result container and
      returned object together hold what its counter says. */
  lemma {:induction false} RepeatConserves(bs: seq<Bucket>, orders: seq<seq<nat>>, f: Flags, cb: Callback, w: Work,
                                           o: ObjId, x: nat, known: bool)
    requires |w.multi.buckets| > 0 && OrdersOk(orders, |bs|)
    requires Balanced(w.refs, o, x + OccIn(bs, o) + OccIn(w.multi.buckets, o), known)
    ensures var r := Repeat(bs, orders, f, cb, w); Balanced(r.work.refs, o, SearchTotal(r, o, x), known)
    decreases |orders|
  {
    hide Search, Balanced;
    if orders != [] {
      OrdersHead(orders, |bs|);
      var r := Search(bs, orders[0], f, cb, w);
      SearchConserves(bs, orders[0], f, cb, w, o, x, known);
      if !r.outcome.Returned? && |orders| > 1 {
        RepeatConserves(r.buckets, orders[1..], f, cb, r.work, o, x, known);
      }
    }
  }

  lemma {:induction false} RepeatEvolves(bs: seq<Bucket>, orders: seq<seq<nat>>, f: Flags, cb: Callback, w: Work)
    requires |w.multi.buckets| > 0 && OrdersOk(orders, |bs|) && Wf(StoreOf(bs, w))
    ensures Wf(After(Repeat(bs, orders, f, cb, w))) && Evolves(StoreOf(bs, w), After(Repeat(bs, orders, f, cb, w)))
    decreases |orders|
  {
    hide Search, Wf, Evolves;
    EvolvesReflexive(StoreOf(bs, w));
    if orders != [] {
      OrdersHead(orders, |bs|);
      var r := Search(bs, orders[0], f, cb, w);
      SearchEvolves(bs, orders[0], f, cb, w);
      if !r.outcome.Returned? && |orders| > 1 {
        RepeatEvolves(r.buckets, orders[1..], f, cb, r.work);
        EvolvesTransitive(StoreOf(bs, w), After(r), After(Repeat(bs, orders, f, cb, w)));
      }
    }
  }

  lemma {:induction false} RepeatMulti(bs: seq<Bucket>, orders: seq<seq<nat>>, f: Flags, cb: Callback, w: Work)
    requires Wf(w.multi) && OrdersOk(orders, |bs|)
    ensures Wf(Repeat(bs, orders, f, cb, w).work.multi)
    ensures !Collects(f) ==> Repeat(bs, orders, f, cb, w).work.multi == w.multi
    decreases |orders|
  {
    hide Search;
    if orders != [] {
      OrdersHead(orders, |bs|);
      SearchMulti(bs, orders[0], f, cb, w);
      var r := Search(bs, orders[0], f, cb, w);
      if !r.outcome.Returned? && |orders| > 1 {
        RepeatMulti(r.buckets, orders[1..], f, cb, r.work);
      }
    }
  }

  lemma {:induction false} RepeatStranger(bs: seq<Bucket>, orders: seq<seq<nat>>, f: Flags, cb: Callback, w: Work,
                                          o: ObjId)
    requires |w.multi.buckets| > 0 && OccIn(bs, o) == 0 && OccIn(w.multi.buckets, o) == 0 && OrdersOk(orders, |bs|)
    ensures SearchTotal(Repeat(bs, orders, f, cb, w), o, 0) == 0
    decreases |orders|
  {
    hide Search;
    if orders != [] {
      OrdersHead(orders, |bs|);
      SearchStranger(bs, orders[0], f, cb, w, o);
      var r := Search(bs, orders[0], f, cb, w);
      if !r.outcome.Returned? && |orders| > 1 {
        RepeatStranger(r.buckets, orders[1..], f, cb, r.work, o);
      }
    }
  }
}
