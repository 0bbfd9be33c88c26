/** Iterators of obj.c over containers that change between the calls. */
module ContainerIter {

  import opened Common
  import opened RefCounts
  import opened Container

  /** The three fields that locate an iterator: a bucket, the version of the entry last
      returned there, and a pointer to that entry with the container version under
      which the pointer was taken. */
  datatype Iter = Iter(bucket: nat, version: nat, cached: Option<Entry>, cversion: nat)

  const Fresh := Iter(0, 0, None, 0)

  datatype Hit = Hit(bucket: nat, entry: Entry)

  /** Everything the fast path relies on. In particular a cached pointer whose container
      version is current points to an entry that is still linked. */
  ghost predicate IterOk(s: Store, it: Iter) {
    && it.version < s.version
    && it.cversion <= s.version
    && (it.cversion == s.version && it.cached.Some? ==>
          && it.bucket < |s.buckets|
          && it.cached.value in s.buckets[it.bucket]
          && it.cached.value.version == it.version)
  }

  lemma FreshOk(s: Store)
    requires Wf(s)
    ensures IterOk(s, Fresh)
  {
  }

  /** Whatever is linked and unlinked meanwhile, an iterator stays safe to use. */
  lemma IterSurvives(s: Store, s': Store, it: Iter)
    requires IterOk(s, it) && Evolves(s, s')
    ensures IterOk(s', it)
  {
  }

  // ---------- the two ways to find the next entry ----------

  function FirstAbove(b: Bucket, v: nat): (r: Option<Entry>)
    ensures r.None? ==> forall e :: e in b ==> e.version <= v
    ensures r.Some? ==> r.value in b && r.value.version > v
    decreases |b|
  {
    if b == [] then None
    else if b[0].version > v then Some(b[0])
    else FirstAbove(b[1..], v)
  }

  /** The version scan: the first entry above `v` in the bucket, or the first entry of the
      next bucket that has one. */
  function VersionScan(bs: seq<Bucket>, bucket: nat, v: nat): Option<Hit>
    decreases |bs| - bucket
  {
    if bucket >= |bs| then None
    else
      match FirstAbove(bs[bucket], v)
      case Some(e) => Some(Hit(bucket, e))
      case None => VersionScan(bs, bucket + 1, 0)
  }

  /** The link of a list entry: the entry that follows it, if any. */
  function NextInList(b: Bucket, e: Entry): Option<Entry>
    requires e in b
    decreases |b|
  {
    if b[0] == e then (if |b| > 1 then Some(b[1]) else None)
    else NextInList(b[1..], e)
  }

  /** The entry internal_obj_iterator_next finds: through the cached pointer while the
      container has not changed, by the version scan otherwise. */
  function Locate(s: Store, it: Iter): Option<Hit>
    requires IterOk(s, it)
  {
    if it.cversion == s.version && it.cached.Some? then
      match NextInList(s.buckets[it.bucket], it.cached.value)
      case Some(e) => Some(Hit(it.bucket, e))
      case None => VersionScan(s.buckets, it.bucket + 1, 0)
    else VersionScan(s.buckets, it.bucket, it.version)
  }

  function Max(a: nat, b: nat): nat {
    if a > b then a else b
  }

  /** The iterator after the call. A failed call leaves it behind the last bucket. */
  function Advance(s: Store, it: Iter): Iter
    requires IterOk(s, it)
  {
    match Locate(s, it)
    case Some(h) => Iter(h.bucket, h.entry.version, Some(h.entry), s.version)
    case None =>
      var ranDry := it.cversion == s.version && it.cached.Some?;
      Iter(Max(it.bucket, |s.buckets|), if it.bucket < |s.buckets| then 0 else it.version,
           if ranDry then None else it.cached, it.cversion)
  }

  // ---------- fast path against scan ----------

  lemma {:induction false} SortedNext(b: Bucket, limit: nat, e: Entry)
    requires SortedBelow(b, limit) && e in b
    ensures NextInList(b, e) == FirstAbove(b, e.version)
    decreases |b|
  {
    var t := b[1..];
    assert SortedBelow(t, limit);
    if b[0] == e {
      if |b| > 1 {
        assert t[0] == b[1];
      } else {
        assert t == [];
      }
    } else {
      assert e in t;
      var i :| 0 <= i < |b| && b[i] == e;
      SortedNext(t, limit, e);
    }
  }

  /** Following the cached pointer finds exactly the entry that the complete version scan
      would find. */
  lemma FastPathAgrees(s: Store, it: Iter)
    requires Wf(s) && IterOk(s, it)
    ensures Locate(s, it) == VersionScan(s.buckets, it.bucket, it.version)
  {
    if it.cversion == s.version && it.cached.Some? {
      SortedNext(s.buckets[it.bucket], s.version, it.cached.value);
    }
  }

  // ---------- what "next" means ----------

  /** The order in which entries are met: by bucket, then by version. */
  predicate Before(b1: nat, v1: nat, b2: nat, v2: nat) {
    b1 < b2 || (b1 == b2 && v1 < v2)
  }

  ghost predicate Linked(s: Store, b: nat, e: Entry) {
    b < |s.buckets| && e in s.buckets[b]
  }

  lemma {:induction false} FirstAboveIsLeast(b: Bucket, limit: nat, v: nat)
    requires SortedBelow(b, limit)
    ensures FirstAbove(b, v).Some? ==>
      forall e :: e in b && e.version > v ==> e == FirstAbove(b, v).value || e.version > FirstAbove(b, v).value.version
    decreases |b|
  {
    if b != [] {
      assert SortedBelow(b[1..], limit);
      FirstAboveIsLeast(b[1..], limit, v);
    }
  }

  /** The scan returns the least linked entry beyond the iterator's position, and gives up
      only if there is none. */
  lemma {:induction false} ScanIsLeast(s: Store, bucket: nat, v: nat)
    requires Wf(s)
    ensures match VersionScan(s.buckets, bucket, v)
      case None => forall b, e :: Linked(s, b, e) ==> !Before(bucket, v, b, e.version)
      case Some(h) =>
        && Linked(s, h.bucket, h.entry)
        && Before(bucket, v, h.bucket, h.entry.version)
        && forall b, e :: Linked(s, b, e) && Before(bucket, v, b, e.version) ==>
             (b == h.bucket && e == h.entry) || Before(h.bucket, h.entry.version, b, e.version)
    decreases |s.buckets| - bucket
  {
    if bucket < |s.buckets| {
      FirstAboveIsLeast(s.buckets[bucket], s.version, v);
      if FirstAbove(s.buckets[bucket], v).None? {
        ScanIsLeast(s, bucket + 1, 0);
        forall b: nat, e | Linked(s, b, e) && Before(bucket, v, b, e.version)
          ensures Before(bucket + 1, 0, b, e.version)
        {
          assert SortedBelow(s.buckets[b], s.version);
        }
      }
    }
  }

  lemma AdvanceOk(s: Store, it: Iter)
    requires Wf(s) && IterOk(s, it)
    ensures IterOk(s, Advance(s, it))
  {
    FastPathAgrees(s, it);
    ScanIsLeast(s, it.bucket, it.version);
    if Locate(s, it).Some? {
      var h := Locate(s, it).value;
      assert SortedBelow(s.buckets[h.bucket], s.version);
    }
  }

  // ---------- whole runs ----------

  /** The states of one container at the successive calls of one iterator, with any
      linking and unlinking in between. */
  ghost predicate Chain(stores: seq<Store>) {
    && (forall k :: 0 <= k < |stores| ==> Wf(stores[k]))
    && (forall k :: 0 <= k < |stores| - 1 ==> Evolves(stores[k], stores[k + 1]))
  }

  /** What the calls return. That `Locate` may be applied at each call is the proof that
      the fast path never follows a pointer to an unlinked entry. */
  ghost function CallResults(stores: seq<Store>, it: Iter): (outs: seq<Option<Hit>>)
    requires Chain(stores)
    requires stores != [] ==> IterOk(stores[0], it)
    ensures |outs| == |stores|
    decreases |stores|
  {
    if stores == [] then []
    else
      AdvanceOk(stores[0], it);
      if |stores| > 1 then
        IterSurvives(stores[0], stores[1], Advance(stores[0], it));
        ChainTail(stores);
        [Locate(stores[0], it)] + CallResults(stores[1..], Advance(stores[0], it))
      else [Locate(stores[0], it)]
  }

  lemma ChainTail(stores: seq<Store>)
    requires Chain(stores) && stores != []
    ensures Chain(stores[1..])
  {
    forall k | 0 <= k < |stores| - 2
      ensures Evolves(stores[1..][k], stores[1..][k + 1])
    {
      assert Evolves(stores[k + 1], stores[k + 2]);
    }
  }

  /** The first call of a run, and the run that is left. */
  lemma FirstCall(stores: seq<Store>, it: Iter)
    requires Chain(stores) && |stores| > 1 && IterOk(stores[0], it)
    ensures Chain(stores[1..]) && IterOk(stores[1], Advance(stores[0], it))
    ensures CallResults(stores, it)[0] == Locate(stores[0], it)
    ensures forall k :: 1 <= k < |stores| ==>
      CallResults(stores, it)[k] == CallResults(stores[1..], Advance(stores[0], it))[k - 1]
  {
    AdvanceOk(stores[0], it);
    IterSurvives(stores[0], stores[1], Advance(stores[0], it));
    ChainTail(stores);
  }

  lemma AdvancePosition(s: Store, it: Iter)
    requires Wf(s) && IterOk(s, it)
    ensures Locate(s, it).Some? ==>
      var h := Locate(s, it).value;
      && Linked(s, h.bucket, h.entry)
      && Before(it.bucket, it.version, h.bucket, h.entry.version)
      && Advance(s, it).bucket == h.bucket && Advance(s, it).version == h.entry.version
    ensures Locate(s, it).None? ==>
      !Before(Advance(s, it).bucket, Advance(s, it).version, it.bucket, it.version)
  {
    FastPathAgrees(s, it);
    ScanIsLeast(s, it.bucket, it.version);
  }

  /** Every entry returned lies beyond the iterator's position at the first call. */
  lemma {:induction false} BeyondStart(stores: seq<Store>, it: Iter, k: nat)
    requires Chain(stores) && (stores != [] ==> IterOk(stores[0], it))
    requires k < |stores| && CallResults(stores, it)[k].Some?
    ensures var h := CallResults(stores, it)[k].value;
      Linked(stores[k], h.bucket, h.entry) && Before(it.bucket, it.version, h.bucket, h.entry.version)
    decreases |stores|
  {
    AdvancePosition(stores[0], it);
    if k > 0 {
      FirstCall(stores, it);
      assert stores[1..][k - 1] == stores[k];
      BeyondStart(stores[1..], Advance(stores[0], it), k - 1);
    }
  }

  /** Safety over every run: the entries returned strictly increase by bucket and version,
      so no entry is ever returned twice. */
  lemma {:induction false} NeverTwice(stores: seq<Store>, it: Iter, j: nat, k: nat)
    requires Chain(stores) && (stores != [] ==> IterOk(stores[0], it))
    requires j < k < |stores| && CallResults(stores, it)[j].Some? && CallResults(stores, it)[k].Some?
    ensures var a, b := CallResults(stores, it)[j].value, CallResults(stores, it)[k].value;
      Before(a.bucket, a.entry.version, b.bucket, b.entry.version)
    decreases |stores|
  {
    hide Wf, Locate, Advance, IterOk;
    FirstCall(stores, it);
    if j == 0 {
      AdvancePosition(stores[0], it);
      BeyondStart(stores[1..], Advance(stores[0], it), k - 1);
    } else {
      NeverTwice(stores[1..], Advance(stores[0], it), j - 1, k - 1);
    }
  }

  /** What one call does for an entry that is linked at the time and lies beyond the
      iterator's position: it returns it, or something nearer. */
  lemma OneCall(s: Store, it: Iter, b: nat, e: Entry)
    requires Wf(s) && IterOk(s, it) && Linked(s, b, e) && Before(it.bucket, it.version, b, e.version)
    ensures Locate(s, it).Some?
    ensures Locate(s, it) == Some(Hit(b, e))
         || Before(Advance(s, it).bucket, Advance(s, it).version, b, e.version)
  {
    FastPathAgrees(s, it);
    ScanIsLeast(s, it.bucket, it.version);
  }

  /** The entry is linked at every call up to the m-th. */
  ghost predicate Throughout(stores: seq<Store>, m: nat, b: nat, e: Entry)
    requires m < |stores|
  {
    forall i :: 0 <= i <= m ==> Linked(stores[i], b, e)
  }

  lemma ThroughoutTail(stores: seq<Store>, m: nat, b: nat, e: Entry)
    requires 0 < m < |stores| && Throughout(stores, m, b, e)
    ensures Throughout(stores[1..], m - 1, b, e)
  {
    forall i | 0 <= i <= m - 1
      ensures Linked(stores[1..][i], b, e)
    {
      assert Linked(stores[i + 1], b, e);
    }
  }

  /** Completeness: once a call returns nothing, every entry that was linked at all calls
      up to that one, beyond the place where the iterator started, has been returned. */
  lemma {:induction false} NothingMissed(stores: seq<Store>, it: Iter, m: nat, b: nat, e: Entry) returns (k: nat)
    requires Chain(stores) && (stores != [] ==> IterOk(stores[0], it))
    requires m < |stores| && CallResults(stores, it)[m].None?
    requires Throughout(stores, m, b, e)
    requires Before(it.bucket, it.version, b, e.version)
    ensures k < m && CallResults(stores, it)[k] == Some(Hit(b, e))
    decreases |stores|
  {
    hide Wf, Locate, Advance, IterOk, Linked;
    OneCall(stores[0], it, b, e);
    assert m > 0;
    FirstCall(stores, it);
    if Locate(stores[0], it) == Some(Hit(b, e)) {
      k := 0;
    } else {
      ThroughoutTail(stores, m, b, e);
      k := NothingMissed(stores[1..], Advance(stores[0], it), m - 1, b, e);
      k := k + 1;
    }
  }

  /** The results of a run of calls with an iterator that has just been initialised. */
  ghost function FullResults(stores: seq<Store>): (r: seq<Option<Hit>>)
    requires Chain(stores)
    ensures |r| == |stores|
  {
    if stores == [] then []
    else
      FreshOk(stores[0]);
      CallResults(stores, Fresh)
  }

  /** Such an iterator starts before every entry: when it returns NULL, every entry present
      from its initialisation until then has been returned. */
  lemma FullIteration(stores: seq<Store>, m: nat, b: nat, e: Entry)
    requires Chain(stores) && m < |stores| && FullResults(stores)[m].None?
    requires Throughout(stores, m, b, e)
    ensures exists k :: 0 <= k < m && FullResults(stores)[k] == Some(Hit(b, e))
  {
    FreshOk(stores[0]);
    assert Linked(stores[0], b, e) && SortedBelow(stores[0].buckets[b], stores[0].version);
    var k := NothingMissed(stores, Fresh, m, b, e);
    assert FullResults(stores)[k] == Some(Hit(b, e));
  }

  // ---------- iterators that unlink what they return ----------

  function Without(b: Bucket, e: Entry): Bucket
    requires e in b
    decreases |b|
  {
    if b[0] == e then b[1..] else [b[0]] + Without(b[1..], e)
  }

  /** The store after an unlinking call that found something. */
  function TakeOut(s: Store, h: Hit): Store
    requires Linked(s, h.bucket, h.entry)
  {
    Store(s.buckets[h.bucket := Without(s.buckets[h.bucket], h.entry)], s.version + 1, s.elements - 1)
  }

  /** The iterator after it: back to "the first object of this bucket". */
  function AfterTakeOut(s: Store, h: Hit): Iter {
    Iter(h.bucket, 0, None, s.version + 1)
  }

  lemma {:induction false} WithoutShape(b: Bucket, limit: nat, e: Entry)
    requires SortedBelow(b, limit) && e in b
    ensures SortedBelow(Without(b, e), limit)
    ensures |Without(b, e)| == |b| - 1
    ensures forall x :: x in Without(b, e) ==> x in b
    decreases |b|
  {
    var t := b[1..];
    assert SortedBelow(t, limit) && b == [b[0]] + t;
    if b[0] != e {
      WithoutShape(t, limit, e);
      ConsSorted(b[0], t, Without(t, e), limit);
    }
  }

  lemma {:induction false} WithoutOcc(b: Bucket, e: Entry, o: ObjId)
    requires e in b
    ensures Occ(Without(b, e), o) + (if e.obj == o then 1 else 0) == Occ(b, o)
    decreases |b|
  {
    if b[0] != e {
      WithoutOcc(b[1..], e, o);
      assert ([b[0]] + Without(b[1..], e))[1..] == Without(b[1..], e);
    }
  }

  /** An unlinking iterator changes the container like any other removal, so iterators
      that run beside it keep their guarantees, and it moves one reference from the
      container to the caller without touching a counter. */
  lemma TakeOutEvolves(s: Store, h: Hit, o: ObjId)
    requires Wf(s) && Linked(s, h.bucket, h.entry)
    ensures Wf(TakeOut(s, h)) && Evolves(s, TakeOut(s, h))
    ensures OccIn(TakeOut(s, h).buckets, o) + (if h.entry.obj == o then 1 else 0) == OccIn(s.buckets, o)
    ensures Count(TakeOut(s, h).buckets) == Count(s.buckets) - 1
  {
    var b := s.buckets[h.bucket];
    WithoutShape(b, s.version, h.entry);
    WithoutOcc(b, h.entry, o);
    ReplaceBucket(s, h.bucket, Without(b, h.entry), TakeOut(s, h));
    OccUpdate(s.buckets, h.bucket, Without(b, h.entry), o);
    CountUpdate(s.buckets, h.bucket, Without(b, h.entry));
  }

  function Flatten(bs: seq<Bucket>): seq<ObjId> {
    if bs == [] then [] else Objs(bs[0]) + Flatten(bs[1..])
  }

  /** What an undisturbed unlinking iterator returns, call after call. */
  ghost function Drain(s: Store, it: Iter): (r: seq<ObjId>)
    requires Wf(s) && it.version == 0 && it.cached.None? && it.cversion <= s.version
    decreases Count(s.buckets)
  {
    match Locate(s, it)
    case None => []
    case Some(h) =>
      FastPathAgrees(s, it);
      ScanIsLeast(s, it.bucket, 0);
      TakeOutEvolves(s, h, h.entry.obj);
      [h.entry.obj] + Drain(TakeOut(s, h), AfterTakeOut(s, h))
  }

  lemma {:induction false} FlattenEmpty(bs: seq<Bucket>)
    requires forall j :: 0 <= j < |bs| ==> bs[j] == []
    ensures Flatten(bs) == []
  {
    if bs != [] {
      FlattenEmpty(bs[1..]);
    }
  }

  lemma {:induction false} ScanFromZero(s: Store, bucket: nat)
    requires Wf(s) && forall j :: 0 <= j < bucket && j < |s.buckets| ==> s.buckets[j] == []
    ensures match VersionScan(s.buckets, bucket, 0)
      case None => forall j :: 0 <= j < |s.buckets| ==> s.buckets[j] == []
      case Some(h) =>
        && h.bucket < |s.buckets| && s.buckets[h.bucket] != [] && h.entry == s.buckets[h.bucket][0]
        && forall j :: 0 <= j < h.bucket ==> s.buckets[j] == []
    decreases |s.buckets| - bucket
  {
    if bucket < |s.buckets| {
      assert SortedBelow(s.buckets[bucket], s.version);
      if s.buckets[bucket] == [] {
        ScanFromZero(s, bucket + 1);
      }
    }
  }

  /** Draining returns every object of the container, in bucket and linking order. For
      the result container of OBJ_MULTIPLE, which has one bucket, this is the order in
      which the objects matched. */
  lemma {:induction false} DrainReturnsAll(s: Store, it: Iter)
    requires Wf(s) && it.version == 0 && it.cached.None? && it.cversion <= s.version
    requires forall j :: 0 <= j < it.bucket && j < |s.buckets| ==> s.buckets[j] == []
    ensures Drain(s, it) == Flatten(s.buckets)
    decreases Count(s.buckets)
  {
    ScanFromZero(s, it.bucket);
    match Locate(s, it) {
      case None =>
        FlattenEmpty(s.buckets);
      case Some(h) =>
        var s', it' := TakeOut(s, h), AfterTakeOut(s, h);
        TakeOutEvolves(s, h, h.entry.obj);
        DrainReturnsAll(s', it');
        FlattenDropHead(s.buckets, h.bucket, s'.buckets);
        assert Drain(s, it) == [h.entry.obj] + Drain(s', it');
    }
  }

  lemma {:induction false} FlattenDropHead(bs: seq<Bucket>, i: nat, bs': seq<Bucket>)
    requires i < |bs| == |bs'| && bs[i] != [] && bs'[i] == bs[i][1..]
    requires forall j :: 0 <= j < i ==> bs[j] == bs'[j] == []
    requires bs'[i + 1..] == bs[i + 1..]
    ensures Flatten(bs) == [bs[i][0].obj] + Flatten(bs')
  {
    if i == 0 {
      var rest := Flatten(bs[1..]);
      assert Objs(bs[0]) == [bs[0][0].obj] + Objs(bs'[0]);
      assert ([bs[0][0].obj] + Objs(bs'[0])) + rest == [bs[0][0].obj] + (Objs(bs'[0]) + rest);
    } else {
      assert Objs(bs[0]) == [] && Objs(bs'[0]) == [];
      assert bs[1..][i..] == bs[i + 1..] && bs'[1..][i..] == bs'[i + 1..];
      FlattenDropHead(bs[1..], i - 1, bs'[1..]);
    }
  }
}
