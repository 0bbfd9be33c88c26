/** obj.c as it is written: objects whose fields the operations update in place, proved
    against the functions of Container and ContainerIter. */
module ContainerObjects {

  import opened Common
  import opened RefCounts
  import opened Container
  import opened ContainerIter
  import opened ContainerRounds
  import opened ContainerTaken
  import Rounds = ContainerRounds

  /** The reference counters of all objects. */
  class ObjHeap {
    var count: map<ObjId, int>
    var destroyed: seq<ObjId>

    ghost function View(): Refs
      reads this
    {
      Refs(count, destroyed)
    }

    constructor ()
      ensures View() == Refs(map[], [])
    {
      count, destroyed := map[], [];
    }

    /** obj_alloc: the creator holds the first reference. */
    method Alloc(o: ObjId)
      modifies this
      ensures View() == RefCounts.Alloc(old(View()), o)
    {
      count := count[o := 1];
    }

    /** internal_obj_ref: the result is the counter before the change. */
    method Ref(o: ObjId, delta: int) returns (before: int)
      modifies this
      ensures View() == AddRef(old(View()), o, delta)
      ensures before == if o in old(count) then old(count)[o] else -1
    {
      if o !in count {
        return -1;
      }
      before := count[o];
      if delta == 0 {
        return;
      }
      var current := before + delta;
      if current <= 0 {
        destroyed := destroyed + [o];
        count := count - {o};
      } else {
        count := count[o := current];
      }
    }
  }

  lemma SearchTaken(bs: seq<Bucket>, f: Flags, hash: int, cb: Callback, w: Work)
    requires |bs| > 0 && w.multi == NewStore(1) && FullSearch(bs, f, hash, cb, w).Some?
    ensures var r := FullSearch(bs, f, hash, cb, w).value;
      && |r.work.multi.buckets| == 1
      && Takes(bs, f, hash, cb, r.buckets, Objs(r.work.multi.buckets[0]), RetOf(r.outcome))
      && Takes(bs, f, hash, cb, r.buckets, if Collects(f) then Objs(r.work.multi.buckets[0]) else [], RetOf(r.outcome))
      && r.work.version == w.version + (Count(bs) - Count(r.buckets))
      && r.work.elements == w.elements - (Count(bs) - Count(r.buckets))
  {
    assert Results(w) == [];
    hide Takes, FullSearch;
    FullTakes(bs, f, hash, cb, w);
    TakesNothing(bs, f, hash, cb, FullSearch(bs, f, hash, cb, w).value);
  }

  /** A search that does not collect leaves the result container empty. */
  lemma TakesNothing(bs: seq<Bucket>, f: Flags, hash: int, cb: Callback, r: Found)
    requires |bs| > 0 && |r.work.multi.buckets| == 1
    requires Takes(bs, f, hash, cb, r.buckets, Objs(r.work.multi.buckets[0]), RetOf(r.outcome))
    ensures !Collects(f) ==> Objs(r.work.multi.buckets[0]) == []
  {
  }

  class HashContainer {
    const heap: ObjHeap
    var buckets: seq<Bucket>
    var elements: int
    var version: nat

    ghost function View(): Store
      reads this
    {
      Store(buckets, version, elements)
    }

    constructor (n: nat, heap: ObjHeap)
      ensures View() == NewStore(n) && this.heap == heap
    {
      this.heap := heap;
      buckets, elements, version := seq(n, _ => []), 0, 1;
    }

    /** __obj_link; `hash` is what the container's hash callback gives for the object, 0 without
        one. For a hash that is not linkable the code writes outside the array. */
    method Link(o: ObjId, hash: CInt)
      requires |buckets| > 0 && Linkable(hash, |buckets|)
      modifies this, heap
      ensures View() == Container.Link(old(View()), hash, o)
      ensures heap.View() == AddRef(old(heap.View()), o, 1)
    {
      LinkIndexInRange(hash, |buckets|);
      var i := CRem(CAbs(hash), |buckets|);
      var stamp := version;
      version := version + 1;
      buckets := buckets[i := buckets[i] + [Entry(stamp, o)]];
      elements := elements + 1;
      var _ := heap.Ref(o, 1);
    }

    /** The surroundings of a search, `results` being its result container. */
    ghost function WorkView(results: HashContainer?): Work
      reads this, heap, results
    {
      Work(heap.View(), version, elements, if results == null then NewStore(1) else results.View())
    }

    /** The body of the search engine for one matching entry at position j of bucket i. */
    method Match(i: nat, j: nat, f: Flags, results: HashContainer?) returns (ret: Option<ObjId>)
      requires i < |buckets| && j < |buckets[i]|
      requires Collects(f) <==> results != null
      requires results != null ==> results != this && results.heap == heap && |results.buckets| == 1
      modifies this, heap, results
      ensures var e := old(buckets[i][j]);
        && buckets == old(buckets)[i := old(buckets[i][..j]) + Remnant(e, f) + old(buckets[i][j + 1..])]
        && WorkView(results) == OnMatch(e, f, old(WorkView(results)))
        && ret == if Returns(f) then Some(e.obj) else None
      ensures results != null ==> |results.buckets| == 1
    {
      var cur := buckets[i][j];
      ghost var b := buckets[i];
      assert f.unlink || b == b[..j] + Remnant(cur, f) + b[j + 1..];
      assert f.unlink ==> b[..j] + Remnant(cur, f) + b[j + 1..] == b[..j] + b[j + 1..];
      ret := None;
      if !f.nodata {
        ret := Some(cur.obj);
        if !f.unlink && !f.multiple {
          var _ := heap.Ref(cur.obj, 1);
        }
      }
      if ret.Some? && results != null {
        results.Link(cur.obj, 0);
        ret := None;
      }
      if f.unlink {
        version := version + 1;
        buckets := buckets[i := buckets[i][..j] + buckets[i][j + 1..]];
        elements := elements - 1;
        if f.nodata || f.multiple {
          var _ := heap.Ref(cur.obj, -1);
        }
      }
      assert buckets == old(buckets)[i := b[..j] + Remnant(cur, f) + b[j + 1..]];
    }

    /** One round of the inner loop: the entry at position j of bucket i. */
    method Visit(i: nat, j: nat, f: Flags, cb: Callback, results: HashContainer?)
      returns (stopped: bool, ret: Option<ObjId>, next: nat)
      requires i < |buckets| && j < |buckets[i]|
      requires Collects(f) <==> results != null
      requires results != null ==> results != this && results.heap == heap && |results.buckets| == 1
      modifies this, heap, results
      ensures results != null ==> |results.buckets| == 1
      ensures |buckets| == |old(buckets)| && buckets == old(buckets)[i := buckets[i]]
      ensures var r := Resume(old(buckets[i][..j]), old(buckets[i][j..]), f, cb, old(WorkView(results)));
        if stopped then
          && r == Scan(buckets[i], WorkView(results), r.outcome) && r.outcome != Through
          && ret == if r.outcome.Returned? then Some(r.outcome.obj) else None
        else
          && ret == None && j <= next <= |buckets[i]| && |buckets[i]| - next < |old(buckets[i])| - j
          && r == Resume(buckets[i][..next], buckets[i][next..], f, cb, WorkView(results))
    {
      var cur := buckets[i][j];
      var a := cb(cur);
      ghost var front, tail, w := buckets[i][..j], buckets[i][j..], WorkView(results);
      ghost var passed := front + if a.matches then Remnant(cur, f) else [cur];
      ResumeStep(front, tail, f, cb, w, OnMatch(cur, f, w), passed);
      assert buckets[i] == front + tail && tail[1..] == buckets[i][j + 1..];
      stopped, ret, next := false, None, j;
      if !a.matches {
        stopped := a.stop;
        next := j + 1;
      } else {
        ret := Match(i, j, f, results);
        stopped := a.stop || !f.multiple;
        if !f.unlink {
          next := j + 1;
        }
      }
      assert buckets[i] == passed + tail[1..];
      assert buckets[i][..next] == passed && buckets[i][next..] == tail[1..];
    }

    /** The inner loop of the search engine: a safe traversal of bucket i. */
    method ScanAt(i: nat, f: Flags, cb: Callback, results: HashContainer?) returns (stopped: bool, ret: Option<ObjId>)
      requires i < |buckets|
      requires Collects(f) <==> results != null
      requires results != null ==> results != this && results.heap == heap && |results.buckets| == 1
      modifies this, heap, results
      ensures var r := ScanBucket(old(buckets[i]), f, cb, old(WorkView(results)));
        && buckets == old(buckets)[i := r.kept]
        && WorkView(results) == r.work
        && (stopped <==> r.outcome != Through)
        && ret == if r.outcome.Returned? then Some(r.outcome.obj) else None
      ensures results != null ==> |results.buckets| == 1
    {
      var j: nat := 0;
      stopped, ret := false, None;
      ghost var r := ScanBucket(buckets[i], f, cb, WorkView(results));
      assert buckets[i][0..] == buckets[i] && buckets[i][..0] == [];
      while j < |buckets[i]| && !stopped
        invariant i < |buckets| == |old(buckets)|
        invariant buckets == old(buckets)[i := buckets[i]]
        invariant results != null ==> |results.buckets| == 1
        invariant !stopped ==> j <= |buckets[i]| && ret == None
        invariant !stopped ==> r == Resume(buckets[i][..j], buckets[i][j..], f, cb, WorkView(results))
        invariant stopped ==> r == Scan(buckets[i], WorkView(results), r.outcome) && r.outcome != Through
        invariant stopped ==> ret == if r.outcome.Returned? then Some(r.outcome.obj) else None
        decreases !stopped, |buckets[i]| - j
      {
        stopped, ret, j := Visit(i, j, f, cb, results);
      }
      if !stopped {
        assert buckets[i][j..] == [] && buckets[i][..j] == buckets[i];
        assert r.kept == buckets[i] + [] == buckets[i];
      }
    }

    /** The loop of internal_obj_callback and its variables, at some moment. */
    ghost predicate At(e: Engine, i: int, last: int, ret: Option<ObjId>, results: HashContainer?)
      reads this, heap, results
    {
      && e.loop.i == i && e.loop.last == last && e.ret == ret
      && e.buckets == buckets && e.work == WorkView(results)
    }

    /** One turn of the outer loop: bucket i is scanned, and the variables move on. */
    method ScanNext(i: nat, last: nat, start: nat, f: Flags, cb: Callback, results: HashContainer?, ghost e: Engine)
      returns (i': int, last': int, ret: Option<ObjId>)
      requires EngineOk(e) && Running(e) && At(e, i, last, e.ret, results) && start <= |buckets|
      requires Collects(f) <==> results != null
      requires results != null ==> results != this && results.heap == heap && |results.buckets| == 1
      modifies this, heap, results
      ensures |buckets| == |old(buckets)| && (results != null ==> |results.buckets| == 1)
      ensures At(Rounds.Turn(e, f, start, cb), i', last', ret, results)
    {
      hide ScanBucket;
      var n, stopped := |buckets|, false;
      i', last' := i, last;
      stopped, ret := ScanAt(i, f, cb, results);
      if stopped {
        i' := last;
      }
      if ret.Some? {
        return;
      }
      if i' == n - 1 && f.pointer && f.cont {
        i' := -1;
        last' := start;
      }
      i' := i' + 1;
    }

    /** internal_obj_callback, for a search that ends. */
    method Callback(f: Flags, argHash: int, cb: Callback) returns (ret: Option<ObjId>, results: HashContainer?)
      requires |buckets| > 0 && FullSearch(buckets, f, argHash, cb, WorkView(null)).Some?
      modifies this, heap
      ensures var r := FullSearch(old(buckets), f, argHash, cb, old(WorkView(null))).value;
        && View() == After(r)
        && WorkView(results) == r.work
        && ret == if r.outcome.Returned? then Some(r.outcome.obj) else None
      ensures results == null || (fresh(results) && results.heap == heap && |results.buckets| == 1)
      ensures results != null <==> Collects(f)
      ensures Takes(old(buckets), f, argHash, cb, buckets,
                    if results == null then [] else Objs(results.buckets[0]), ret)
      ensures var gone := Count(old(buckets)) - Count(buckets);
        version == old(version) + gone && elements == old(elements) - gone
    {
      hide ScanBucket, Search, FullSearch, CRem, Rounds.Turn, Takes, Count, Results, Objs;
      var n := |buckets|;
      SearchTaken(buckets, f, argHash, cb, WorkView(null));
      var start, i, last;
      results := null;
      if f.multiple && !f.nodata {
        results := new HashContainer(1, heap);
      }
      if f.pointer {
        start := CRem(argHash, n);
        i := start;
      } else {
        start, i := -1, -1;
      }
      if i < 0 {
        start, i, last := 0, 0, n;
      } else if f.cont {
        last := n;
      } else {
        last := i + 1;
      }
      ret := None;
      ghost var e := Boot(buckets, f, argHash, WorkView(null));
      ghost var turns := SearchEndsIn(buckets, f, argHash, cb, WorkView(null));
      ghost var end := RunEngine(e, f, start, cb, turns);
      while i < last
        invariant EngineOk(e) && At(e, i, last, ret, results) && |buckets| == n && 0 <= start < n
        invariant results == null || (fresh(results) && results.heap == heap && |results.buckets| == 1)
        invariant results != null <==> Collects(f)
        invariant RunEngine(e, f, start, cb, turns) == end
        decreases turns
      {
        i, last, ret := ScanNext(i, last, start, f, cb, results, e);
        e, turns := Rounds.Turn(e, f, start, cb), turns - 1;
      }
    }

    /** __obj_unlink, a search by address that returns nothing. */
    method Unlink(o: ObjId, hash: int)
      requires |buckets| > 0
      modifies this, heap
      ensures var f := Flags(true, true, false, true, false);
        var r := Search(old(buckets), Order(f, hash, |old(buckets)|), f, (e: Entry) => Answer(e.obj == o, e.obj == o),
                        old(WorkView(null)));
        View() == After(r) && heap.View() == r.work.refs
    {
      var _, _ := Callback(Flags(true, true, false, true, false), hash, (e: Entry) => Answer(e.obj == o, e.obj == o));
    }

    /** container_destruct: one reference less for every entry, bucket after bucket; then
        the entries are freed. */
    method Destruct()
      modifies this, heap
      ensures heap.View() == DropAll(old(heap.View()), Flatten(old(buckets)))
      ensures |buckets| == |old(buckets)| && forall i :: 0 <= i < |buckets| ==> buckets[i] == []
    {
      hide DropAll, AddRef, Flatten;
      var i := 0;
      ghost var all := DropAll(heap.View(), Flatten(buckets));
      assert buckets[0..] == buckets;
      while i < |buckets|
        invariant i <= |buckets| && buckets == old(buckets)
        invariant DropAll(heap.View(), Flatten(buckets[i..])) == all
      {
        var j := 0;
        FlattenAt(buckets, i);
        while j < |buckets[i]|
          invariant i < |buckets| && buckets == old(buckets) && j <= |buckets[i]|
          invariant DropAll(heap.View(), Objs(buckets[i][j..]) + Flatten(buckets[i + 1..])) == all
        {
          DropHead(heap.View(), buckets[i], j, Flatten(buckets[i + 1..]));
          var _ := heap.Ref(buckets[i][j].obj, -1);
          j := j + 1;
        }
        assert Objs(buckets[i][j..]) + Flatten(buckets[i + 1..]) == Flatten(buckets[i + 1..]);
        i := i + 1;
      }
      FlattenAll(buckets, i, heap.View());
      buckets := seq(|buckets|, _ => []);
    }
  }

  lemma FlattenAt(bs: seq<Bucket>, i: nat)
    requires i < |bs|
    ensures Flatten(bs[i..]) == Objs(bs[i][0..]) + Flatten(bs[i + 1..])
  {
    assert bs[i..][0] == bs[i] && bs[i..][1..] == bs[i + 1..] && bs[i][0..] == bs[i];
  }

  lemma FlattenAll(bs: seq<Bucket>, i: nat, r: Refs)
    requires i == |bs|
    ensures DropAll(r, Flatten(bs[i..])) == r
  {
  }

  lemma DropHead(r: Refs, b: Bucket, j: nat, later: seq<ObjId>)
    requires j < |b|
    ensures DropAll(r, Objs(b[j..]) + later) == DropAll(AddRef(r, b[j].obj, -1), Objs(b[j + 1..]) + later)
  {
    ObjsHead(b[j..]);
    assert b[j..][1..] == b[j + 1..];
    var all := Objs(b[j..]) + later;
    assert all[0] == b[j].obj && all[1..] == Objs(b[j + 1..]) + later;
  }

  lemma ObjsHead(b: Bucket)
    requires b != []
    ensures Objs(b) == [b[0].obj] + Objs(b[1..])
  {
  }

  /** An iterator with the fields of struct obj_iterator. */
  class ObjIterator {
    const c: HashContainer
    const unlink: bool
    var bucket: nat
    var version: nat
    var obj: Option<Entry>
    var cversion: nat

    ghost function View(): Iter
      reads this
    {
      Iter(bucket, version, obj, cversion)
    }

    constructor (c: HashContainer, unlink: bool)
      ensures View() == Fresh && this.c == c && this.unlink == unlink
    {
      this.c, this.unlink := c, unlink;
      bucket, version, obj, cversion := 0, 0, None, 0;
    }

    /** The traversal of one bucket for an entry stamped later than `version`. */
    method ScanBucketFor(b: Bucket) returns (p: Option<Entry>)
      ensures p == FirstAbove(b, version)
    {
      var k := 0;
      p := None;
      assert b[0..] == b;
      while k < |b|
        invariant k <= |b|
        invariant FirstAbove(b[k..], version) == FirstAbove(b, version)
      {
        if b[k].version > version {
          return Some(b[k]);
        }
        assert b[k..][1..] == b[k + 1..];
        k := k + 1;
      }
    }

    /** The search part of internal_obj_iterator_next: fast path, then version scan. */
    method Find() returns (p: Option<Entry>)
      requires IterOk(c.View(), View())
      modifies this
      ensures Locate(c.View(), old(View())) == if p.Some? then Some(Hit(bucket, p.value)) else None
      ensures p.None? ==> View() == Advance(c.View(), old(View()))
    {
      p := None;
      ghost var goal := Locate(c.View(), View());
      if c.version == cversion && obj.Some? {
        p := NextInList(c.buckets[bucket], obj.value);
        if p.None? {
          bucket, version, obj := bucket + 1, 0, None;
        }
      }
      while bucket < |c.buckets| && p.None?
        invariant p.None? ==> goal == VersionScan(c.buckets, bucket, version)
        invariant p.Some? ==> goal == Some(Hit(bucket, p.value))
        invariant bucket <= Max(old(bucket), |c.buckets|) && old(bucket) <= bucket && cversion == old(cversion)
        invariant p.None? ==> obj == if cversion == c.version && old(obj).Some? then None else old(obj)
        invariant bucket > old(bucket) ==> version == 0
        invariant bucket == old(bucket) ==> version == old(version)
        decreases |c.buckets| - bucket, p.None?
      {
        p := ScanBucketFor(c.buckets[bucket]);
        if p.None? {
          bucket, version := bucket + 1, 0;
        }
      }
    }

    /** __obj_iterator_next. */
    method Next() returns (ret: Option<ObjId>)
      requires Wf(c.View()) && IterOk(c.View(), View())
      modifies this, c, c.heap
      ensures match Locate(old(c.View()), old(View()))
        case None =>
          && ret == None && View() == Advance(old(c.View()), old(View()))
          && c.View() == old(c.View()) && c.heap.View() == old(c.heap.View())
        case Some(h) =>
          && ret == Some(h.entry.obj)
          && if unlink then
               && Linked(old(c.View()), h.bucket, h.entry)
               && c.View() == TakeOut(old(c.View()), h) && View() == AfterTakeOut(old(c.View()), h)
               && c.heap.View() == old(c.heap.View())
             else
               && c.View() == old(c.View()) && View() == Advance(old(c.View()), old(View()))
               && c.heap.View() == AddRef(old(c.heap.View()), h.entry.obj, 1)
    {
      AdvancePosition(c.View(), View());
      var p := Find();
      ret := None;
      if p.Some? {
        var e := p.value;
        ret := Some(e.obj);
        if unlink {
          c.version := c.version + 1;
          c.buckets := c.buckets[bucket := Without(c.buckets[bucket], e)];
          c.elements := c.elements - 1;
          version, obj, cversion := 0, None, c.version;
        } else {
          version, obj, cversion := e.version, p, c.version;
          var _ := c.heap.Ref(e.obj, 1);
        }
      }
    }
  }
}
