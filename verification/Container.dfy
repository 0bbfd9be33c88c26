/** The hash container of obj.c as values: linking, the flag-driven search engine
    and what both do to reference counts. */
module Container {

  import opened Common
  import opened RefCounts

  /** One link of an object into a bucket. The version stamps the moment of linking. */
  datatype Entry = Entry(version: nat, obj: ObjId)

  type Bucket = seq<Entry>

  datatype Store = Store(buckets: seq<Bucket>, version: nat, elements: int)

  function NewStore(n: nat): Store {
    Store(seq(n, _ => []), 1, 0)
  }

  // ---------- what a store contains ----------

  function Objs(b: Bucket): seq<ObjId> {
    seq(|b|, i requires 0 <= i < |b| => b[i].obj)
  }

  /** The number of entries of a bucket that refer to an object. */
  function Occ(b: Bucket, o: ObjId): nat {
    if b == [] then 0 else (if b[0].obj == o then 1 else 0) + Occ(b[1..], o)
  }

  /** The number of references to an object held by a list of buckets. */
  function OccIn(bs: seq<Bucket>, o: ObjId): nat {
    if bs == [] then 0 else Occ(bs[0], o) + OccIn(bs[1..], o)
  }

  /** The number of entries in a list of buckets. */
  function Count(bs: seq<Bucket>): nat {
    if bs == [] then 0 else |bs[0]| + Count(bs[1..])
  }

  lemma OccOne(e: Entry, o: ObjId)
    ensures Occ([e], o) == if e.obj == o then 1 else 0
  {
  }

  lemma {:induction false} OccConcat(a: Bucket, b: Bucket, o: ObjId)
    ensures Occ(a + b, o) == Occ(a, o) + Occ(b, o)
  {
    if a == [] {
      assert a + b == b;
    } else {
      assert (a + b)[1..] == a[1..] + b;
      OccConcat(a[1..], b, o);
    }
  }

  lemma {:induction false} OccUpdate(bs: seq<Bucket>, i: nat, b: Bucket, o: ObjId)
    requires i < |bs|
    ensures OccIn(bs[i := b], o) == OccIn(bs, o) - Occ(bs[i], o) + Occ(b, o)
    ensures Occ(bs[i], o) <= OccIn(bs, o)
  {
    if i == 0 {
      assert bs[i := b][1..] == bs[1..];
    } else {
      OccUpdate(bs[1..], i - 1, b, o);
      assert bs[i := b][1..] == bs[1..][i - 1 := b];
    }
  }

  lemma {:induction false} CountUpdate(bs: seq<Bucket>, i: nat, b: Bucket)
    requires i < |bs|
    ensures Count(bs[i := b]) == Count(bs) - |bs[i]| + |b|
  {
    if i == 0 {
      assert bs[i := b][1..] == bs[1..];
    } else {
      CountUpdate(bs[1..], i - 1, b);
      assert bs[i := b][1..] == bs[1..][i - 1 := b];
    }
  }

  lemma {:induction false} EmptyBuckets(bs: seq<Bucket>, o: ObjId)
    requires forall i :: 0 <= i < |bs| ==> bs[i] == []
    ensures Count(bs) == 0 && OccIn(bs, o) == 0
  {
    if bs != [] {
      EmptyBuckets(bs[1..], o);
    }
  }

  lemma NewStoreWf()
    ensures Wf(NewStore(1)) && forall o :: OccIn(NewStore(1).buckets, o) == 0
  {
    forall o
      ensures OccIn(NewStore(1).buckets, o) == 0 && Count(NewStore(1).buckets) == 0
    {
      EmptyBuckets(NewStore(1).buckets, o);
    }
  }

  // ---------- representation invariant ----------

  ghost predicate SortedBelow(b: Bucket, limit: nat) {
    && (forall i, j :: 0 <= i < j < |b| ==> b[i].version < b[j].version)
    && (forall i :: 0 <= i < |b| ==> 1 <= b[i].version < limit)
  }

  /** Buckets are strictly sorted by version, every version lies below the
      container's, and the element counter is exact. */
  ghost predicate Wf(s: Store) {
    && |s.buckets| > 0
    && s.version >= 1
    && (forall i :: 0 <= i < |s.buckets| ==> SortedBelow(s.buckets[i], s.version))
    && s.elements == Count(s.buckets)
  }

  /** The index that internal_obj_link computes: abs(hash) % n, on ints. */
  function LinkIndex(hash: CInt, n: nat): int
    requires n > 0
  {
    CRem(CAbs(hash), n)
  }

  /** The hashes that linking can take: every one but the smallest int, which abs leaves
      negative, unless the number of buckets divides it. */
  predicate Linkable(hash: CInt, n: nat)
    requires n > 0
  {
    hash != INT32_MIN || CRem(hash, n) == 0
  }

  /** Linking stays inside the bucket array exactly for those hashes; for the other one the
      index is negative. */
  lemma LinkIndexInRange(hash: CInt, n: nat)
    requires n > 0
    ensures 0 <= LinkIndex(hash, n) < n <==> Linkable(hash, n)
    ensures !Linkable(hash, n) ==> LinkIndex(hash, n) < 0 < LinkIndex(hash, n) + n
  {
  }

  /** The bucket in which an object with this hash is linked. */
  function HomeBucket(hash: CInt, n: nat): (home: nat)
    requires n > 0 && Linkable(hash, n)
    ensures home < n
  {
    LinkIndex(hash, n)
  }

  /** Does an object with this hash belong into bucket i? */
  predicate Belongs(hash: CInt, n: nat, i: int)
    requires n > 0
  {
    Linkable(hash, n) && HomeBucket(hash, n) == i
  }

  ghost predicate Placed(s: Store, hash: ObjId -> CInt) {
    && |s.buckets| > 0
    && forall i, e :: 0 <= i < |s.buckets| && e in s.buckets[i] ==> Belongs(hash(e.obj), |s.buckets|, i)
  }

  /** What any amount of linking and unlinking does to a store, as an observer that
      looked at it earlier can tell: an unchanged version means an unchanged store,
      and every entry is either an old one, in its old bucket, or stamped later. */
  ghost predicate Evolves(s: Store, s': Store) {
    && |s.buckets| == |s'.buckets|
    && s.version <= s'.version
    && (s.version == s'.version ==> s == s')
    && (forall i, e :: 0 <= i < |s'.buckets| && e in s'.buckets[i] ==>
          e in s.buckets[i] || s.version <= e.version)
  }

  lemma EvolvesReflexive(s: Store)
    ensures Evolves(s, s)
  {
  }

  lemma EvolvesTransitive(a: Store, b: Store, c: Store)
    requires Evolves(a, b) && Evolves(b, c)
    ensures Evolves(a, c)
  {
  }

  lemma ConsSorted(e: Entry, t: Bucket, kept: Bucket, limit: nat)
    requires SortedBelow([e] + t, limit) && SortedBelow(kept, limit)
    requires forall k :: k in kept ==> k in t
    ensures SortedBelow([e] + kept, limit)
  {
    forall j | 0 <= j < |kept|
      ensures e.version < kept[j].version
    {
      assert kept[j] in t;
      var i :| 0 <= i < |t| && t[i] == kept[j];
      assert ([e] + t)[0] == e && ([e] + t)[i + 1] == kept[j];
    }
    assert ([e] + t)[0] == e;
  }

  /** Dropping entries from one bucket, with both counters moved by their number. */
  lemma ReplaceBucket(s: Store, i: nat, kept: Bucket, s': Store)
    requires Wf(s) && i < |s.buckets|
    requires SortedBelow(kept, s.version)
    requires forall e :: e in kept ==> e in s.buckets[i]
    requires |kept| <= |s.buckets[i]| && (|kept| == |s.buckets[i]| ==> kept == s.buckets[i])
    requires s' == Store(s.buckets[i := kept], s.version + (|s.buckets[i]| - |kept|),
                         s.elements - (|s.buckets[i]| - |kept|))
    ensures Wf(s') && Evolves(s, s')
  {
    CountUpdate(s.buckets, i, kept);
    forall j | 0 <= j < |s'.buckets|
      ensures SortedBelow(s'.buckets[j], s'.version)
    {
      assert SortedBelow(s.buckets[j], s.version);
    }
    if s.version == s'.version {
      assert s.buckets[i := kept] == s.buckets;
    }
  }

  // ---------- linking ----------

  /** internal_obj_link: append at the home bucket's tail, stamped with the version
      counter, which then moves on. */
  function Link(s: Store, hash: CInt, o: ObjId): Store
    requires |s.buckets| > 0 && Linkable(hash, |s.buckets|)
  {
    var i := HomeBucket(hash, |s.buckets|);
    Store(s.buckets[i := s.buckets[i] + [Entry(s.version, o)]], s.version + 1, s.elements + 1)
  }

  lemma LinkOcc(s: Store, hash: CInt, x: ObjId, o: ObjId)
    requires |s.buckets| > 0 && Linkable(hash, |s.buckets|)
    ensures OccIn(Link(s, hash, x).buckets, o) == OccIn(s.buckets, o) + if x == o then 1 else 0
  {
    var i := HomeBucket(hash, |s.buckets|);
    var e := Entry(s.version, x);
    OccUpdate(s.buckets, i, s.buckets[i] + [e], o);
    OccConcat(s.buckets[i], [e], o);
  }

  lemma AppendSorted(b: Bucket, limit: nat, o: ObjId)
    requires SortedBelow(b, limit) && limit >= 1
    ensures SortedBelow(b + [Entry(limit, o)], limit + 1)
  {
  }

  lemma LinkKeepsSorted(s: Store, i: nat, o: ObjId, bs: seq<Bucket>)
    requires Wf(s) && i < |s.buckets|
    requires bs == s.buckets[i := s.buckets[i] + [Entry(s.version, o)]]
    ensures forall j :: 0 <= j < |bs| ==> SortedBelow(bs[j], s.version + 1)
  {
    AppendSorted(s.buckets[i], s.version, o);
    forall j | 0 <= j < |s.buckets|
      ensures SortedBelow(s.buckets[j], s.version + 1)
    {
      assert SortedBelow(s.buckets[j], s.version);
    }
  }

  lemma LinkKeepsWf(s: Store, hash: CInt, o: ObjId)
    requires Wf(s) && Linkable(hash, |s.buckets|)
    ensures Wf(Link(s, hash, o))
    ensures Evolves(s, Link(s, hash, o))
  {
    hide HomeBucket, LinkIndex;
    var i := HomeBucket(hash, |s.buckets|);
    LinkKeepsSorted(s, i, o, Link(s, hash, o).buckets);
    CountUpdate(s.buckets, i, s.buckets[i] + [Entry(s.version, o)]);
  }

  lemma LinkKeepsPlaced(s: Store, hash: ObjId -> CInt, o: ObjId)
    requires Placed(s, hash) && Linkable(hash(o), |s.buckets|)
    ensures Placed(Link(s, hash(o), o), hash)
  {
  }

  // ---------- the search engine ----------

  datatype Flags = Flags(unlink: bool, nodata: bool, multiple: bool, pointer: bool, cont: bool)

  /** The two meaningful bits of a callback's result: CMP_MATCH and CMP_STOP. */
  datatype Answer = Answer(matches: bool, stop: bool)

  /** A callback, as a function of the entry it is shown. A search that does not repeat a round
      shows an entry once, so this covers callbacks that keep state of their own. */
  type Callback = Entry -> Answer

  /** How the scan of a bucket ended: it ran off the end, it was stopped with nothing
      to return, or it was stopped with an object to return. */
  datatype Outcome = Through | Stopped | Returned(obj: ObjId)

  /** The mutable surroundings of a search: counts, the searched container's two
      counters, and the container that collects the results of OBJ_MULTIPLE. */
  datatype Work = Work(refs: Refs, version: nat, elements: int, multi: Store)

  function Collects(f: Flags): bool {
    f.multiple && !f.nodata
  }

  /** Does a match hand its object to the caller directly? */
  function Returns(f: Flags): bool {
    !f.multiple && !f.nodata
  }

  /** All that happens to the surroundings when an entry matches. */
  function OnMatch(e: Entry, f: Flags, w: Work): Work
    requires |w.multi.buckets| > 0
  {
    var w1 := if Returns(f) && !f.unlink then w.(refs := AddRef(w.refs, e.obj, 1)) else w;
    var w2 := if Collects(f)
              then w1.(multi := Link(w1.multi, 0, e.obj), refs := AddRef(w1.refs, e.obj, 1)) else w1;
    if !f.unlink then w2
    else w2.(version := w2.version + 1, elements := w2.elements - 1,
             refs := if f.nodata || f.multiple then AddRef(w2.refs, e.obj, -1) else w2.refs)
  }

  /** What a match leaves in the bucket. */
  function Remnant(e: Entry, f: Flags): Bucket {
    if f.unlink then [] else [e]
  }

  /** How a scan that a match brings to its end turns out. */
  function MatchOutcome(e: Entry, f: Flags): Outcome {
    if Returns(f) then Returned(e.obj) else Stopped
  }

  datatype Scan = Scan(kept: Bucket, work: Work, outcome: Outcome)

  /** The inner loop: one bucket, front to back. */
  function ScanBucket(b: Bucket, f: Flags, cb: Callback, w: Work): (r: Scan)
    requires |w.multi.buckets| > 0
    ensures |r.work.multi.buckets| == |w.multi.buckets|
    decreases |b|
  {
    if b == [] then Scan([], w, Through)
    else
      var a := cb(b[0]);
      if !a.matches && a.stop then Scan(b, w, Stopped)
      else if !a.matches then
        var r := ScanBucket(b[1..], f, cb, w);
        r.(kept := [b[0]] + r.kept)
      else
        var w' := OnMatch(b[0], f, w);
        if a.stop || !f.multiple then
          Scan(Remnant(b[0], f) + b[1..], w', MatchOutcome(b[0], f))
        else
          var r := ScanBucket(b[1..], f, cb, w');
          r.(kept := Remnant(b[0], f) + r.kept)
  }

  /** A scan in the middle of its bucket: `front` has been passed, `tail` is still to come. */
  function Resume(front: Bucket, tail: Bucket, f: Flags, cb: Callback, w: Work): (r: Scan)
    requires |w.multi.buckets| > 0
    ensures |r.work.multi.buckets| == |w.multi.buckets|
  {
    var q := ScanBucket(tail, f, cb, w);
    Scan(front + q.kept, q.work, q.outcome)
  }

  /** One round of the inner loop. */
  lemma ResumeStep(front: Bucket, tail: Bucket, f: Flags, cb: Callback, w: Work, w': Work, passed: Bucket)
    requires |w.multi.buckets| > 0 && tail != [] && w' == OnMatch(tail[0], f, w)
    requires passed == front + if cb(tail[0]).matches then Remnant(tail[0], f) else [tail[0]]
    ensures var a, r := cb(tail[0]), Resume(front, tail, f, cb, w);
      if a.matches then
        if a.stop || !f.multiple then r == Scan(passed + tail[1..], w', MatchOutcome(tail[0], f))
        else r == Resume(passed, tail[1..], f, cb, w')
      else
        if a.stop then r == Scan(front + tail, w, Stopped)
        else r == Resume(passed, tail[1..], f, cb, w)
  {
    var e, t := tail[0], tail[1..];
    if cb(e).matches {
      var q := ScanBucket(t, f, cb, w').kept;
      assert front + (Remnant(e, f) + q) == (front + Remnant(e, f)) + q;
      assert front + (Remnant(e, f) + t) == (front + Remnant(e, f)) + t;
    } else {
      var q := ScanBucket(t, f, cb, w).kept;
      assert front + ([e] + q) == (front + [e]) + q;
    }
  }

  datatype Found = Found(buckets: seq<Bucket>, work: Work, outcome: Outcome)

  /** The outer loop: the given buckets, in the given order, until a scan stops. */
  function Search(bs: seq<Bucket>, order: seq<nat>, f: Flags, cb: Callback, w: Work): (r: Found)
    requires |w.multi.buckets| > 0
    requires forall k :: 0 <= k < |order| ==> order[k] < |bs|
    ensures |r.buckets| == |bs|
    ensures |r.work.multi.buckets| == |w.multi.buckets|
    decreases |order|
  {
    if order == [] then Found(bs, w, Through)
    else
      var r := ScanBucket(bs[order[0]], f, cb, w);
      var bs' := bs[order[0] := r.kept];
      if r.outcome == Through then Search(bs', order[1..], f, cb, r.work)
      else Found(bs', r.work, r.outcome)
  }

  // ---------- which buckets are searched ----------

  function Upto(lo: nat, hi: nat): (r: seq<nat>)
    ensures |r| == if lo <= hi then hi - lo else 0
    ensures forall k :: 0 <= k < |r| ==> r[k] == lo + k
    decreases hi - lo
  {
    if lo >= hi then [] else [lo] + Upto(lo + 1, hi)
  }

  /** The first bucket searched: the C remainder of the hash under OBJ_POINTER, and
      bucket 0 of a complete scan when there is no hash or it comes out negative. */
  function Start(f: Flags, hash: int, n: nat): nat
    requires n > 0
  {
    if f.pointer && CRem(hash, n) >= 0 then CRem(hash, n) else 0
  }

  /** The buckets of one search in the order visited, when it is never stopped. */
  function Order(f: Flags, hash: int, n: nat): (r: seq<nat>)
    requires n > 0
    ensures forall k :: 0 <= k < |r| ==> r[k] < n
  {
    var start := Start(f, hash, n);
    if !f.pointer || CRem(hash, n) < 0 then Upto(0, n)
    else if f.cont then Upto(start, n) + Upto(0, start)
    else [start]
  }

  /** internal_obj_callback as far as no round is repeated (see ContainerRounds). */
  function SearchStore(s: Store, f: Flags, hash: int, cb: Callback, refs: Refs): Found
    requires |s.buckets| > 0
  {
    Search(s.buckets, Order(f, hash, |s.buckets|), f, cb, Work(refs, s.version, s.elements, NewStore(1)))
  }

  function After(r: Found): Store {
    Store(r.buckets, r.work.version, r.work.elements)
  }
}
