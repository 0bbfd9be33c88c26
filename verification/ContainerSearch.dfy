/** What obj.c's search engine guarantees: a search only ever removes entries, it
    balances the reference books for every combination of flags, and a hashed
    search finds what a complete scan finds. */
module ContainerSearch {

  import opened Common
  import opened RefCounts
  import opened Container

  // ---------- a search as a change of the store ----------

  /** A scan keeps a sorted part of the bucket, and the two counters record exactly
      how many entries went. */
  lemma {:induction false} ScanShape(b: Bucket, f: Flags, cb: Callback, w: Work, limit: nat)
    requires |w.multi.buckets| > 0
    requires SortedBelow(b, limit)
    ensures var r := ScanBucket(b, f, cb, w);
      && SortedBelow(r.kept, limit)
      && (forall e :: e in r.kept ==> e in b)
      && |r.kept| <= |b|
      && (|r.kept| == |b| ==> r.kept == b)
      && r.work.version == w.version + (|b| - |r.kept|)
      && r.work.elements == w.elements - (|b| - |r.kept|)
    decreases |b|
  {
    if b != [] {
      var t := b[1..];
      assert SortedBelow(t, limit);
      assert b == [b[0]] + t;
      var a := cb(b[0]);
      if !a.matches && !a.stop {
        ScanShape(t, f, cb, w, limit);
        ConsSorted(b[0], t, ScanBucket(t, f, cb, w).kept, limit);
      } else if a.matches && !a.stop && f.multiple {
        ScanShape(t, f, cb, OnMatch(b[0], f, w), limit);
        ConsSorted(b[0], t, ScanBucket(t, f, cb, OnMatch(b[0], f, w)).kept, limit);
      }
    }
  }

  function StoreOf(bs: seq<Bucket>, w: Work): Store {
    Store(bs, w.version, w.elements)
  }

  lemma ScanStep(bs: seq<Bucket>, i: nat, f: Flags, cb: Callback, w: Work)
    requires |w.multi.buckets| > 0 && i < |bs|
    requires Wf(StoreOf(bs, w))
    ensures var r := ScanBucket(bs[i], f, cb, w);
      && Wf(StoreOf(bs[i := r.kept], r.work))
      && Evolves(StoreOf(bs, w), StoreOf(bs[i := r.kept], r.work))
  {
    var r := ScanBucket(bs[i], f, cb, w);
    ScanShape(bs[i], f, cb, w, w.version);
    ReplaceBucket(StoreOf(bs, w), i, r.kept, StoreOf(bs[i := r.kept], r.work));
  }

  lemma {:induction false} SearchEvolves(bs: seq<Bucket>, order: seq<nat>, f: Flags, cb: Callback, w: Work)
    requires |w.multi.buckets| > 0
    requires forall k :: 0 <= k < |order| ==> order[k] < |bs|
    requires Wf(StoreOf(bs, w))
    ensures Wf(After(Search(bs, order, f, cb, w)))
    ensures Evolves(StoreOf(bs, w), After(Search(bs, order, f, cb, w)))
    decreases |order|
  {
    if order != [] {
      var r := ScanBucket(bs[order[0]], f, cb, w);
      var bs' := bs[order[0] := r.kept];
      ScanStep(bs, order[0], f, cb, w);
      if r.outcome == Through {
        SearchEvolves(bs', order[1..], f, cb, r.work);
        EvolvesTransitive(StoreOf(bs, w), StoreOf(bs', r.work), After(Search(bs, order, f, cb, w)));
      }
    }
  }

  // ---------- conservation of references ----------

  /** The references to `o` handed to the caller by a search: at most one. */
  function Handed(r: Outcome, o: ObjId): nat {
    if r == Returned(o) then 1 else 0
  }

  /** All references to `o` in sight after a scan or a search: in the buckets, in the
      result container, in the caller's hand, and the `x` that are elsewhere. */
  function ScanTotal(r: Scan, o: ObjId, x: nat): nat {
    x + Occ(r.kept, o) + OccIn(r.work.multi.buckets, o) + Handed(r.outcome, o)
  }

  function SearchTotal(r: Found, o: ObjId, x: nat): nat {
    x + OccIn(r.buckets, o) + OccIn(r.work.multi.buckets, o) + Handed(r.outcome, o)
  }

  /** Balanced books after one match: the entry's reference is still in the bucket, has
      moved to the caller, or has been released; a collected match is counted in the
      result container. */
  lemma MatchConserves(e: Entry, f: Flags, w: Work, o: ObjId, x: nat, known: bool)
    requires |w.multi.buckets| > 0
    requires Balanced(w.refs, o, x + (if e.obj == o then 1 else 0) + OccIn(w.multi.buckets, o), known)
    ensures var w' := OnMatch(e, f, w);
      Balanced(w'.refs, o, x + Occ(Remnant(e, f), o) + OccIn(w'.multi.buckets, o) + Handed(MatchOutcome(e, f), o),
        known)
  {
    var n := x + (if e.obj == o then 1 else 0) + OccIn(w.multi.buckets, o);
    OccOne(e, o);
    LinkOcc(w.multi, 0, e.obj, o);
    RefBalanced(w.refs, o, e.obj, 1, n, known);
    RefBalanced(w.refs, o, e.obj, -1, n, known);
    RefBalanced(AddRef(w.refs, e.obj, 1), o, e.obj, -1, if e.obj == o then n + 1 else n, known);
  }

  /** A scan that goes on, after its head: `kept` is what the head left behind. */
  lemma TotalCons(kept: Bucket, q: Scan, r: Scan, o: ObjId, x: nat)
    requires r.kept == kept + q.kept && r.work == q.work && r.outcome == q.outcome
    ensures ScanTotal(r, o, x) == ScanTotal(q, o, x + Occ(kept, o))
  {
    OccConcat(kept, q.kept, o);
  }

  lemma {:induction false} ScanConserves(b: Bucket, f: Flags, cb: Callback, w: Work, o: ObjId, x: nat, known: bool)
    requires |w.multi.buckets| > 0
    requires Balanced(w.refs, o, x + Occ(b, o) + OccIn(w.multi.buckets, o), known)
    ensures var r := ScanBucket(b, f, cb, w); Balanced(r.work.refs, o, ScanTotal(r, o, x), known)
    decreases |b|, 1
  {
    if b != [] {
      if cb(b[0]).matches {
        ScanMatched(b, f, cb, w, o, x, known);
      } else if !cb(b[0]).stop {
        OccOne(b[0], o);
        ScanConserves(b[1..], f, cb, w, o, x + Occ([b[0]], o), known);
        TotalCons([b[0]], ScanBucket(b[1..], f, cb, w), ScanBucket(b, f, cb, w), o, x);
      }
    }
  }

  lemma {:induction false} ScanMatched(b: Bucket, f: Flags, cb: Callback, w: Work, o: ObjId, x: nat, known: bool)
    requires |w.multi.buckets| > 0 && b != [] && cb(b[0]).matches
    requires Balanced(w.refs, o, x + Occ(b, o) + OccIn(w.multi.buckets, o), known)
    ensures var r := ScanBucket(b, f, cb, w); Balanced(r.work.refs, o, ScanTotal(r, o, x), known)
    decreases |b|, 0
  {
    var e, t := b[0], b[1..];
    var w' := OnMatch(e, f, w);
    MatchConserves(e, f, w, o, x + Occ(t, o), known);
    if cb(e).stop || !f.multiple {
      TotalCons(Remnant(e, f), Scan(t, w', MatchOutcome(e, f)), ScanBucket(b, f, cb, w), o, x);
    } else {
      ScanConserves(t, f, cb, w', o, x + Occ(Remnant(e, f), o), known);
      TotalCons(Remnant(e, f), ScanBucket(t, f, cb, w'), ScanBucket(b, f, cb, w), o, x);
    }
  }

  /** Conservation for a whole search: whatever the flags and whatever the callback
      answers, the references in the searched buckets, in the result container and
      in the caller's hand account for every counter afterwards. */
  lemma {:induction false} SearchConserves(bs: seq<Bucket>, order: seq<nat>, f: Flags, cb: Callback, w: Work,
                                           o: ObjId, x: nat, known: bool)
    requires |w.multi.buckets| > 0
    requires forall k :: 0 <= k < |order| ==> order[k] < |bs|
    requires Balanced(w.refs, o, x + OccIn(bs, o) + OccIn(w.multi.buckets, o), known)
    ensures var r := Search(bs, order, f, cb, w); Balanced(r.work.refs, o, SearchTotal(r, o, x), known)
    decreases |order|
  {
    if order != [] {
      var b := bs[order[0]];
      var r := ScanBucket(b, f, cb, w);
      OccUpdate(bs, order[0], r.kept, o);
      ScanConserves(b, f, cb, w, o, x + (OccIn(bs, o) - Occ(b, o)), known);
      if r.outcome == Through {
        SearchConserves(bs[order[0] := r.kept], order[1..], f, cb, r.work, o, x, known);
      }
    }
  }

  /** The result container stays well formed, and only a collecting search touches it. */
  lemma {:induction false} ScanMulti(b: Bucket, f: Flags, cb: Callback, w: Work)
    requires Wf(w.multi)
    ensures Wf(ScanBucket(b, f, cb, w).work.multi)
    ensures !Collects(f) ==> ScanBucket(b, f, cb, w).work.multi == w.multi
    decreases |b|
  {
    if b != [] {
      LinkKeepsWf(w.multi, 0, b[0].obj);
      ScanMulti(b[1..], f, cb, if cb(b[0]).matches then OnMatch(b[0], f, w) else w);
    }
  }

  lemma {:induction false} SearchMulti(bs: seq<Bucket>, order: seq<nat>, f: Flags, cb: Callback, w: Work)
    requires Wf(w.multi)
    requires forall k :: 0 <= k < |order| ==> order[k] < |bs|
    ensures Wf(Search(bs, order, f, cb, w).work.multi)
    ensures !Collects(f) ==> Search(bs, order, f, cb, w).work.multi == w.multi
    decreases |order|
  {
    if order != [] {
      var r := ScanBucket(bs[order[0]], f, cb, w);
      ScanMulti(bs[order[0]], f, cb, w);
      if r.outcome == Through {
        SearchMulti(bs[order[0] := r.kept], order[1..], f, cb, r.work);
      }
    }
  }

  /** Nothing appears from nowhere: an object that is neither in the buckets nor already
      collected is not kept, collected or handed out. */
  lemma {:induction false} ScanStranger(b: Bucket, f: Flags, cb: Callback, w: Work, o: ObjId)
    requires |w.multi.buckets| > 0 && Occ(b, o) == 0 && OccIn(w.multi.buckets, o) == 0
    ensures ScanTotal(ScanBucket(b, f, cb, w), o, 0) == 0
    decreases |b|
  {
    if b != [] {
      var e, t := b[0], b[1..];
      LinkOcc(w.multi, 0, e.obj, o);
      var w' := if cb(e).matches then OnMatch(e, f, w) else w;
      ScanStranger(t, f, cb, w', o);
      var kept := ScanBucket(t, f, cb, w').kept;
      OccConcat(Remnant(e, f), kept, o);
      OccConcat(Remnant(e, f), t, o);
      OccConcat([e], kept, o);
    }
  }

  lemma {:induction false} SearchStranger(bs: seq<Bucket>, order: seq<nat>, f: Flags, cb: Callback, w: Work, o: ObjId)
    requires |w.multi.buckets| > 0 && OccIn(bs, o) == 0 && OccIn(w.multi.buckets, o) == 0
    requires forall k :: 0 <= k < |order| ==> order[k] < |bs|
    ensures SearchTotal(Search(bs, order, f, cb, w), o, 0) == 0
    decreases |order|
  {
    if order != [] {
      var r := ScanBucket(bs[order[0]], f, cb, w);
      OccUpdate(bs, order[0], r.kept, o);
      ScanStranger(bs[order[0]], f, cb, w, o);
      if r.outcome == Through {
        SearchStranger(bs[order[0] := r.kept], order[1..], f, cb, r.work, o);
      }
    }
  }

  // ---------- hashed search against complete scan ----------

  ghost predicate Quiet(b: Bucket, cb: Callback) {
    forall e :: e in b ==> cb(e) == Answer(false, false)
  }

  lemma {:induction false} QuietScan(b: Bucket, f: Flags, cb: Callback, w: Work)
    requires |w.multi.buckets| > 0 && Quiet(b, cb)
    ensures ScanBucket(b, f, cb, w) == Scan(b, w, Through)
    decreases |b|
  {
    if b != [] {
      assert b == [b[0]] + b[1..] && b[0] in b;
      QuietScan(b[1..], f, cb, w);
    }
  }

  /** Quiet buckets ahead in the order make no difference. */
  lemma {:induction false} QuietPrefix(bs: seq<Bucket>, pre: seq<nat>, rest: seq<nat>, f: Flags, cb: Callback, w: Work)
    requires |w.multi.buckets| > 0
    requires forall k :: 0 <= k < |pre| ==> pre[k] < |bs| && Quiet(bs[pre[k]], cb)
    requires forall k :: 0 <= k < |rest| ==> rest[k] < |bs|
    ensures forall k :: 0 <= k < |pre + rest| ==> (pre + rest)[k] < |bs|
    ensures Search(bs, pre + rest, f, cb, w) == Search(bs, rest, f, cb, w)
    decreases |pre|
  {
    if pre == [] {
      assert pre + rest == rest;
    } else {
      QuietScan(bs[pre[0]], f, cb, w);
      assert bs[pre[0] := bs[pre[0]]] == bs;
      assert (pre + rest)[1..] == pre[1..] + rest;
      QuietPrefix(bs, pre[1..], rest, f, cb, w);
    }
  }

  lemma OnlyHome(bs: seq<Bucket>, home: nat, pre: seq<nat>, post: seq<nat>, f: Flags, cb: Callback, w: Work)
    requires |w.multi.buckets| > 0 && home < |bs|
    requires forall i :: 0 <= i < |bs| && i != home ==> Quiet(bs[i], cb)
    requires forall k :: 0 <= k < |pre| ==> pre[k] < |bs| && pre[k] != home
    requires forall k :: 0 <= k < |post| ==> post[k] < |bs| && post[k] != home
    ensures forall k :: 0 <= k < |pre + [home] + post| ==> (pre + [home] + post)[k] < |bs|
    ensures Search(bs, pre + [home] + post, f, cb, w) == Search(bs, [home], f, cb, w)
  {
    assert pre + [home] + post == pre + ([home] + post);
    QuietPrefix(bs, pre, [home] + post, f, cb, w);
    var r := ScanBucket(bs[home], f, cb, w);
    var bs' := bs[home := r.kept];
    assert ([home] + post)[1..] == post;
    assert [home][1..] == [];
    if r.outcome == Through {
      QuietPrefix(bs', post, [], f, cb, r.work);
      assert post + [] == post;
    }
  }

  lemma HomeIsStart(hash: CInt, n: nat)
    requires n > 0 && CRem(hash, n) >= 0
    ensures Linkable(hash, n) && CRem(hash, n) == HomeBucket(hash, n)
  {
    if hash < 0 {
      var h: int := hash;
      assert (-h) % n == 0;
    }
  }

  /** Searching from a hash value returns the same object, leaves the same entries and
      the same counts as scanning every bucket, for every hash searched for, negative
      ones included, and with or without OBJ_CONTINUE, in every container whose objects
      were linked inside it. The one assumption is that the callback answers only for
      objects whose hash is the one searched for. */
  lemma HashedSearchAgrees(s: Store, hash: ObjId -> CInt, h: CInt, f: Flags, cb: Callback, w: Work)
    requires Placed(s, hash) && |w.multi.buckets| > 0
    requires forall i, e :: 0 <= i < |s.buckets| && e in s.buckets[i] && cb(e) != Answer(false, false) ==>
      hash(e.obj) == h
    ensures Search(s.buckets, Order(f, h, |s.buckets|), f, cb, w)
         == Search(s.buckets, Upto(0, |s.buckets|), f, cb, w)
  {
    var n := |s.buckets|;
    if f.pointer && CRem(h, n) >= 0 {
      HomeIsStart(h, n);
      var home := HomeBucket(h, n);
      forall i | 0 <= i < n && i != home
        ensures Quiet(s.buckets[i], cb)
      {
      }
      HomeOnly(s.buckets, home, f, cb, w);
      if f.cont {
        HomeFirst(s.buckets, home, f, cb, w);
      }
    }
  }

  /** With one bucket that is not quiet, a complete scan and the two hashed orders all come
      down to that bucket. */
  lemma HomeOnly(bs: seq<Bucket>, home: nat, f: Flags, cb: Callback, w: Work)
    requires home < |bs| && |w.multi.buckets| > 0
    requires forall i :: 0 <= i < |bs| && i != home ==> Quiet(bs[i], cb)
    ensures Search(bs, Upto(0, |bs|), f, cb, w) == Search(bs, [home], f, cb, w)
  {
    UptoSplit(0, home, |bs|);
    OnlyHome(bs, home, Upto(0, home), Upto(home + 1, |bs|), f, cb, w);
  }

  lemma HomeFirst(bs: seq<Bucket>, home: nat, f: Flags, cb: Callback, w: Work)
    requires home < |bs| && |w.multi.buckets| > 0
    requires forall i :: 0 <= i < |bs| && i != home ==> Quiet(bs[i], cb)
    ensures forall k :: 0 <= k < |Upto(home, |bs|) + Upto(0, home)| ==> (Upto(home, |bs|) + Upto(0, home))[k] < |bs|
    ensures Search(bs, Upto(home, |bs|) + Upto(0, home), f, cb, w) == Search(bs, [home], f, cb, w)
  {
    var rest := Upto(home + 1, |bs|) + Upto(0, home);
    UptoSplit(home, home, |bs|);
    assert Upto(home, |bs|) + Upto(0, home) == [] + [home] + rest;
    OnlyHome(bs, home, [], rest, f, cb, w);
  }

  lemma UptoSplit(lo: nat, mid: nat, hi: nat)
    requires lo <= mid < hi
    ensures Upto(lo, hi) == Upto(lo, mid) + [mid] + Upto(mid + 1, hi)
  {
  }

  /** The bucket an object is linked into is always among those a search for its own
      hash visits. */
  lemma HomeIsSearched(f: Flags, hash: CInt, n: nat)
    requires n > 0 && Linkable(hash, n)
    ensures HomeBucket(hash, n) in Order(f, hash, n)
  {
    var home := HomeBucket(hash, n);
    if !f.pointer || CRem(hash, n) < 0 {
      assert Upto(0, n)[home] == home;
    } else {
      HomeIsStart(hash, n);
      assert Order(f, hash, n)[0] == home;
    }
  }
}
