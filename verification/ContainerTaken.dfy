/** What a search shows to its callback, what it collects, returns and leaves: told from the
    entries of the container alone, for every combination of flags. */
module ContainerTaken {

  import opened Common
  import opened RefCounts
  import opened Container
  import opened ContainerRounds

  // ---------- the entries concerned ----------

  function Matching(es: seq<Entry>, cb: Callback): seq<Entry> {
    if es == [] then [] else (if cb(es[0]).matches then [es[0]] else []) + Matching(es[1..], cb)
  }

  function Unmatched(es: seq<Entry>, cb: Callback): seq<Entry> {
    if es == [] then [] else (if cb(es[0]).matches then [] else [es[0]]) + Unmatched(es[1..], cb)
  }

  /** The entries of these buckets, one bucket after the other. */
  function Concat(bs: seq<Bucket>, order: seq<nat>): seq<Entry>
    requires forall k :: 0 <= k < |order| ==> order[k] < |bs|
  {
    if order == [] then [] else bs[order[0]] + Concat(bs, order[1..])
  }

  /** Are the first m of these entries those that are shown: up to and including the first one
      that ends the search? */
  ghost predicate Shown(es: seq<Entry>, m: nat, f: Flags, cb: Callback) {
    && m <= |es|
    && (forall i :: 0 <= i < m - 1 ==> !Halts(cb(es[i]), f))
    && (m < |es| ==> m > 0 && Halts(cb(es[m - 1]), f))
  }

  /** What stays of a bucket of which the first m entries were shown. */
  function LeftOf(b: Bucket, m: nat, f: Flags, cb: Callback): Bucket
    requires m <= |b|
  {
    (if f.unlink then Unmatched(b[..m], cb) else b[..m]) + b[m..]
  }

  /** What an entry that is shown leaves of itself. */
  function Stays(e: Entry, f: Flags, cb: Callback): Bucket {
    if f.unlink && cb(e).matches then [] else [e]
  }

  /** How a search that has shown these entries, and no more, turns out. */
  function Verdict(es: seq<Entry>, f: Flags, cb: Callback): Outcome {
    if es == [] || !Halts(cb(es[|es| - 1]), f) then Through
    else if cb(es[|es| - 1]).matches && !f.multiple && !f.nodata then Returned(es[|es| - 1].obj)
    else Stopped
  }

  /** The objects in the result container, in the order in which an iterator meets them. */
  function Results(w: Work): seq<ObjId>
    requires |w.multi.buckets| == 1
  {
    Objs(w.multi.buckets[0])
  }

  /** The objects that are collected when these entries are shown. */
  function Collected(es: seq<Entry>, f: Flags, cb: Callback): seq<ObjId> {
    if f.multiple && !f.nodata then Objs(Matching(es, cb)) else []
  }

  // ---------- one bucket ----------

  lemma ObjsConcat(a: Bucket, b: Bucket)
    ensures Objs(a + b) == Objs(a) + Objs(b)
  {
  }

  lemma MatchCollects(e: Entry, f: Flags, cb: Callback, w: Work)
    requires |w.multi.buckets| == 1 && cb(e).matches
    ensures var w' := OnMatch(e, f, w);
      |w'.multi.buckets| == 1 && Results(w') == Results(w) + Collected([e], f, cb)
  {
    assert Matching([e], cb) == [e];
    var e' := Entry(w.multi.version, e.obj);
    if Collects(f) {
      assert Link(w.multi, 0, e.obj).buckets[0] == w.multi.buckets[0] + [e'];
      ObjsConcat(w.multi.buckets[0], [e']);
    }
  }

  lemma {:induction false} MatchingConcat(a: seq<Entry>, b: seq<Entry>, cb: Callback)
    ensures Matching(a + b, cb) == Matching(a, cb) + Matching(b, cb)
    ensures Unmatched(a + b, cb) == Unmatched(a, cb) + Unmatched(b, cb)
  {
    if a == [] {
      assert a + b == b;
    } else {
      var m, u := if cb(a[0]).matches then [a[0]] else [], if cb(a[0]).matches then [] else [a[0]];
      assert (a + b)[1..] == a[1..] + b;
      MatchingConcat(a[1..], b, cb);
      assert m + (Matching(a[1..], cb) + Matching(b, cb)) == m + Matching(a[1..], cb) + Matching(b, cb);
      assert u + (Unmatched(a[1..], cb) + Unmatched(b, cb)) == u + Unmatched(a[1..], cb) + Unmatched(b, cb);
    }
  }

  lemma CollectedConcat(a: seq<Entry>, b: seq<Entry>, f: Flags, cb: Callback)
    ensures Collected(a + b, f, cb) == Collected(a, f, cb) + Collected(b, f, cb)
  {
    MatchingConcat(a, b, cb);
    ObjsConcat(Matching(a, cb), Matching(b, cb));
  }

  /** The entry in front is shown and does not end the scan. */
  lemma LeftCons(b: Bucket, m: nat, f: Flags, cb: Callback)
    requires m < |b|
    ensures LeftOf(b, m + 1, f, cb) == Stays(b[0], f, cb) + LeftOf(b[1..], m, f, cb)
    ensures b[..m + 1] == [b[0]] + b[1..][..m]
  {
    assert b[..m + 1][1..] == b[1..][..m] && b[m + 1..] == b[1..][m..];
  }

  lemma ShownCons(es: seq<Entry>, m: nat, f: Flags, cb: Callback)
    requires es != [] && !Halts(cb(es[0]), f) && Shown(es[1..], m, f, cb)
    ensures Shown(es, m + 1, f, cb) && Verdict(es[..m + 1], f, cb) == Verdict(es[1..][..m], f, cb)
  {
    assert forall i :: 0 < i < |es| ==> es[i] == es[1..][i - 1];
  }

  lemma OneEntry(e: Entry, f: Flags, cb: Callback)
    ensures Matching([e], cb) == (if cb(e).matches then [e] else [])
    ensures Unmatched([e], cb) == (if cb(e).matches then [] else [e])
    ensures !cb(e).matches ==> Collected([e], f, cb) == []
  {
    assert [e][1..] == [];
  }

  /** The scan at its first entry, `w'` being the surroundings once that has been dealt with. */
  lemma ScanUnfolds(b: Bucket, f: Flags, cb: Callback, w: Work, w': Work)
    requires |w.multi.buckets| == 1 && b != []
    requires w' == if cb(b[0]).matches then OnMatch(b[0], f, w) else w
    ensures |w'.multi.buckets| == 1 && Results(w') == Results(w) + Collected([b[0]], f, cb)
    ensures w'.version == w.version + (1 - |Stays(b[0], f, cb)|)
    ensures w'.elements == w.elements - (1 - |Stays(b[0], f, cb)|)
    ensures Halts(cb(b[0]), f) ==>
      ScanBucket(b, f, cb, w) == Scan(Stays(b[0], f, cb) + b[1..], w', Verdict([b[0]], f, cb))
    ensures !Halts(cb(b[0]), f) ==>
      var q := ScanBucket(b[1..], f, cb, w');
      ScanBucket(b, f, cb, w) == Scan(Stays(b[0], f, cb) + q.kept, q.work, q.outcome)
  {
    OneEntry(b[0], f, cb);
    if cb(b[0]).matches { MatchCollects(b[0], f, cb, w); }
  }

  lemma HaltsAtHead(b: Bucket, f: Flags, cb: Callback)
    requires b != [] && Halts(cb(b[0]), f)
    ensures Shown(b, 1, f, cb) && b[..1] == [b[0]] && LeftOf(b, 1, f, cb) == Stays(b[0], f, cb) + b[1..]
  {
    OneEntry(b[0], f, cb);
    assert b[..1] == [b[0]];
  }

  lemma NothingShown(f: Flags, cb: Callback)
    ensures Shown([], 0, f, cb) && Verdict([], f, cb) == Through && LeftOf([], 0, f, cb) == []
    ensures Collected([], f, cb) == []
  {
  }

  /** The scan of one bucket. */
  lemma {:induction false} ScanTakes(b: Bucket, f: Flags, cb: Callback, w: Work) returns (m: nat)
    requires |w.multi.buckets| == 1
    ensures Shown(b, m, f, cb)
    ensures var r := ScanBucket(b, f, cb, w);
      && r.kept == LeftOf(b, m, f, cb) && r.outcome == Verdict(b[..m], f, cb)
      && Results(r.work) == Results(w) + Collected(b[..m], f, cb)
      && r.work.version == w.version + (|b| - |r.kept|) && r.work.elements == w.elements - (|b| - |r.kept|)
    decreases |b|
  {
    hide OnMatch, Collected, Verdict, LeftOf, Halts, Results;
    NothingShown(f, cb);
    m := 0;
    if b != [] {
      hide ScanBucket;
      var e, t := b[0], b[1..];
      var w' := if cb(e).matches then OnMatch(e, f, w) else w;
      ScanUnfolds(b, f, cb, w, w');
      if Halts(cb(e), f) {
        m := 1;
        HaltsAtHead(b, f, cb);
      } else {
        m := ScanTakes(t, f, cb, w');
        LeftCons(b, m, f, cb);
        ShownCons(b, m, f, cb);
        CollectedConcat([e], t[..m], f, cb);
        m := m + 1;
      }
    }
  }

  // ---------- the buckets of a round ----------

  /** How many of the m entries shown lie in the stretch of n entries that begins at `from`. */
  function Part(m: nat, from: nat, n: nat): (p: nat)
    ensures p <= n
  {
    if m <= from then 0 else if m - from >= n then n else m - from
  }

  ghost predicate OrderOk(order: seq<nat>, n: nat) {
    && (forall k :: 0 <= k < |order| ==> order[k] < n)
    && (forall j, k :: 0 <= j < k < |order| ==> order[j] != order[k])
  }

  ghost predicate LeftAt(bs: seq<Bucket>, order: seq<nat>, m: nat, f: Flags, cb: Callback, bs': seq<Bucket>)
    requires |bs'| == |bs| && forall k :: 0 <= k < |order| ==> order[k] < |bs|
  {
    forall k :: 0 <= k < |order| ==>
      var b := bs[order[k]];
      bs'[order[k]] == LeftOf(b, Part(m, |Concat(bs, order[..k])|, |b|), f, cb)
  }

  /** The buckets after the first m entries, in this order, have been shown: from each what was
      shown and matches is gone if the search unlinks, and the rest is there. */
  ghost predicate LeftIn(bs: seq<Bucket>, order: seq<nat>, m: nat, f: Flags, cb: Callback, bs': seq<Bucket>)
    requires forall k :: 0 <= k < |order| ==> order[k] < |bs|
  {
    && |bs'| == |bs|
    && LeftAt(bs, order, m, f, cb, bs')
    && (forall j :: 0 <= j < |bs| && j !in order ==> bs'[j] == bs[j])
  }

  lemma {:induction false} ConcatElsewhere(bs: seq<Bucket>, order: seq<nat>, j: nat, b: Bucket)
    requires j < |bs| && j !in order && forall k :: 0 <= k < |order| ==> order[k] < |bs|
    ensures Concat(bs[j := b], order) == Concat(bs, order)
  {
    if order != [] {
      ConcatElsewhere(bs, order[1..], j, b);
    }
  }

  lemma NothingLeftOut(bs: seq<Bucket>, order: seq<nat>, f: Flags, cb: Callback)
    requires OrderOk(order, |bs|)
    ensures LeftIn(bs, order, 0, f, cb, bs)
  {
    forall k | 0 <= k < |order|
      ensures LeftOf(bs[order[k]], 0, f, cb) == bs[order[k]]
    {
    }
  }

  /** The first bucket scanned to its m-th entry, and, if that is its last, the others to their
      q-th. */
  lemma LeftInCons(bs: seq<Bucket>, order: seq<nat>, m: nat, q: nat, f: Flags, cb: Callback, bs1: seq<Bucket>,
                   bs': seq<Bucket>)
    requires OrderOk(order, |bs|) && order != [] && m <= |bs[order[0]]| && (q > 0 ==> m == |bs[order[0]]|)
    requires bs1 == bs[order[0] := LeftOf(bs[order[0]], m, f, cb)] && LeftIn(bs1, order[1..], q, f, cb, bs')
    ensures LeftIn(bs, order, m + q, f, cb, bs')
  {
    hide LeftOf;
    var i, rest := order[0], order[1..];
    forall k | 0 <= k < |order|
      ensures bs'[order[k]] == LeftOf(bs[order[k]], Part(m + q, |Concat(bs, order[..k])|, |bs[order[k]]|), f, cb)
    {
      if k == 0 {
        assert i !in rest;
        assert order[..0] == [];
      } else {
        assert rest[k - 1] == order[k] && order[..k][1..] == rest[..k - 1] && order[..k][0] == i;
        assert i !in rest[..k - 1];
        ConcatElsewhere(bs, rest[..k - 1], i, bs1[i]);
      }
    }
    forall j | 0 <= j < |bs| && j !in order
      ensures bs'[j] == bs[j]
    {
      assert j !in rest;
    }
  }

  lemma ShownJoin(a: seq<Entry>, b: seq<Entry>, m: nat, q: nat, f: Flags, cb: Callback)
    requires Shown(a, m, f, cb)
    ensures m > 0 && Halts(cb(a[m - 1]), f) ==> Shown(a + b, m, f, cb) && (a + b)[..m] == a[..m]
    ensures (m > 0 ==> !Halts(cb(a[m - 1]), f)) && Shown(b, q, f, cb) ==>
      && m == |a| && Shown(a + b, |a| + q, f, cb) && (a + b)[..|a| + q] == a + b[..q]
      && Verdict(a + b[..q], f, cb) == Verdict(b[..q], f, cb)
  {
  }

  /** One round of a search. */
  lemma {:induction false} SearchTakes(bs: seq<Bucket>, order: seq<nat>, f: Flags, cb: Callback, w: Work)
    returns (m: nat)
    requires |w.multi.buckets| == 1 && OrderOk(order, |bs|)
    ensures var r, es := Search(bs, order, f, cb, w), Concat(bs, order);
      && m <= |es| && Shown(es, m, f, cb) && r.outcome == Verdict(es[..m], f, cb)
      && LeftIn(bs, order, m, f, cb, r.buckets)
      && Results(r.work) == Results(w) + Collected(es[..m], f, cb)
      && r.work.version == w.version + (Count(bs) - Count(r.buckets))
      && r.work.elements == w.elements - (Count(bs) - Count(r.buckets))
    decreases |order|
  {
    hide LeftIn, Collected, ScanBucket, LeftOf, Verdict, Shown;
    if order == [] {
      m := 0;
      EmptyRound(bs, order, f, cb);
    } else {
      var i, b, rest := order[0], bs[order[0]], order[1..];
      var s := ScanBucket(b, f, cb, w);
      var bs1 := bs[i := s.kept];
      m := ScanTakes(b, f, cb, w);
      CountUpdate(bs, i, s.kept);
      assert i !in rest;
      ConcatElsewhere(bs, rest, i, s.kept);
      var q := 0;
      if s.outcome == Through {
        q := SearchTakes(bs1, rest, f, cb, s.work);
        CollectedConcat(b, Concat(bs, rest)[..q], f, cb);
      } else {
        NothingLeftOut(bs1, rest, f, cb);
      }
      VerdictHalts(b, m, f, cb);
      ShownJoin(b, Concat(bs, rest), m, q, f, cb);
      LeftInCons(bs, order, m, q, f, cb, bs1, Search(bs, order, f, cb, w).buckets);
      m := m + q;
    }
  }

  lemma EmptyRound(bs: seq<Bucket>, order: seq<nat>, f: Flags, cb: Callback)
    requires order == []
    ensures Shown([], 0, f, cb) && Verdict([], f, cb) == Through && LeftIn(bs, order, 0, f, cb, bs)
    ensures Collected([], f, cb) == []
  {
  }

  lemma VerdictHalts(es: seq<Entry>, m: nat, f: Flags, cb: Callback)
    requires Shown(es, m, f, cb)
    ensures m <= |es| && (Verdict(es[..m], f, cb) != Through <==> m > 0 && Halts(cb(es[m - 1]), f))
    ensures Verdict(es[..m], f, cb) == Through ==> m == |es| && es[..m] == es
  {
  }

  // ---------- searches of several rounds ----------

  lemma {:induction false} UnmatchedTwice(es: seq<Entry>, cb: Callback)
    ensures Unmatched(Unmatched(es, cb), cb) == Unmatched(es, cb) && Matching(Unmatched(es, cb), cb) == []
  {
    if es != [] {
      UnmatchedTwice(es[1..], cb);
      if cb(es[0]).matches {
        assert Unmatched(es, cb) == Unmatched(es[1..], cb);
      } else {
        assert Unmatched(es, cb) == [es[0]] + Unmatched(es[1..], cb);
        assert Unmatched(es, cb)[1..] == Unmatched(es[1..], cb);
      }
    }
  }

  lemma PartsAgain(a: seq<Entry>, c: seq<Entry>, cb: Callback)
    ensures Unmatched(Unmatched(a, cb) + c, cb) == Unmatched(a + c, cb)
    ensures Matching(Unmatched(a, cb) + c, cb) == Matching(c, cb)
  {
    hide Unmatched, Matching;
    UnmatchedTwice(a, cb);
    MatchingConcat(Unmatched(a, cb), c, cb);
    MatchingConcat(a, c, cb);
    assert [] + Matching(c, cb) == Matching(c, cb);
  }

  lemma LeftAgain(b: Bucket, p: nat, f: Flags, cb: Callback)
    requires f.unlink && p <= |b|
    ensures Unmatched(LeftOf(b, p, f, cb), cb) == Unmatched(b, cb)
    ensures Matching(LeftOf(b, p, f, cb), cb) == Matching(b[p..], cb)
  {
    hide Unmatched, Matching, Halts;
    var a, c := b[..p], b[p..];
    PartsAgain(a, c, cb);
    assert LeftOf(b, p, f, cb) == Unmatched(a, cb) + c;
    assert a + c == b;
  }

  lemma LeftEntirely(b: Bucket, f: Flags, cb: Callback)
    requires f.unlink
    ensures LeftOf(b, |b|, f, cb) == Unmatched(b, cb)
  {
    assert b[..|b|] == b && Unmatched(b, cb) + [] == Unmatched(b, cb);
  }

  lemma LeftAtTail(bs: seq<Bucket>, order: seq<nat>, m: nat, f: Flags, cb: Callback, bs': seq<Bucket>)
    requires |bs'| == |bs| && order != [] && forall k :: 0 <= k < |order| ==> order[k] < |bs|
    requires LeftAt(bs, order, m, f, cb, bs')
    ensures var b, n := bs[order[0]], |bs[order[0]]|;
      && bs'[order[0]] == LeftOf(b, Part(m, 0, n), f, cb)
      && LeftAt(bs, order[1..], if m <= n then 0 else m - n, f, cb, bs')
  {
    hide LeftOf;
    assert order[..0] == [];
    var rest := order[1..];
    forall k | 0 <= k < |rest|
      ensures |Concat(bs, order[..k + 1])| == |bs[order[0]]| + |Concat(bs, rest[..k])|
    {
      assert order[..k + 1][1..] == rest[..k];
    }
  }

  /** In what a round leaves, the matches are those among the entries it has not shown. */
  lemma {:induction false} MatchesLeft(bs: seq<Bucket>, order: seq<nat>, m: nat, f: Flags, cb: Callback,
                                       bs': seq<Bucket>)
    requires f.unlink && |bs'| == |bs| && forall k :: 0 <= k < |order| ==> order[k] < |bs|
    requires m <= |Concat(bs, order)| && LeftAt(bs, order, m, f, cb, bs')
    ensures Matching(Concat(bs', order), cb) == Matching(Concat(bs, order)[m..], cb)
    decreases |order|
  {
    hide LeftOf, LeftAt;
    if order != [] {
      var b, tail := bs[order[0]], Concat(bs, order[1..]);
      var n := |b|;
      var q := if m <= n then 0 else m - n;
      var p := Part(m, 0, n);
      LeftAtTail(bs, order, m, f, cb, bs');
      MatchesLeft(bs, order[1..], q, f, cb, bs');
      LeftAgain(b, p, f, cb);
      MatchingConcat(bs'[order[0]], Concat(bs', order[1..]), cb);
      MatchingConcat(b[p..], tail[q..], cb);
      assert (b + tail)[m..] == b[p..] + tail[q..];
    }
  }

  /** No match is left in these buckets, and nothing but matches has gone. */
  ghost predicate Cleared(bs: seq<Bucket>, order: seq<nat>, cb: Callback, bs': seq<Bucket>)
    requires forall k :: 0 <= k < |order| ==> order[k] < |bs|
  {
    && |bs'| == |bs|
    && (forall k :: 0 <= k < |order| ==> bs'[order[k]] == Unmatched(bs[order[k]], cb))
    && (forall j :: 0 <= j < |bs| && j !in order ==> bs'[j] == bs[j])
  }

  lemma {:induction false} PartFits(bs: seq<Bucket>, order: seq<nat>, k: nat)
    requires k < |order| && forall k :: 0 <= k < |order| ==> order[k] < |bs|
    ensures |Concat(bs, order[..k])| + |bs[order[k]]| <= |Concat(bs, order)|
    decreases k
  {
    if k > 0 {
      PartFits(bs, order[1..], k - 1);
      assert order[..k][1..] == order[1..][..k - 1];
    }
  }

  lemma ClearedIsLeft(bs: seq<Bucket>, order: seq<nat>, f: Flags, cb: Callback, bs': seq<Bucket>)
    requires f.unlink && forall k :: 0 <= k < |order| ==> order[k] < |bs|
    ensures Cleared(bs, order, cb, bs') <==> LeftIn(bs, order, |Concat(bs, order)|, f, cb, bs')
  {
    hide LeftOf;
    var m := |Concat(bs, order)|;
    forall k | 0 <= k < |order|
      ensures var b := bs[order[k]];
        LeftOf(b, Part(m, |Concat(bs, order[..k])|, |b|), f, cb) == Unmatched(b, cb)
    {
      PartFits(bs, order, k);
      LeftEntirely(bs[order[k]], f, cb);
    }
  }

  lemma ClearedAgain(bs: seq<Bucket>, order: seq<nat>, m: nat, f: Flags, cb: Callback, bs1: seq<Bucket>,
                     bs': seq<Bucket>)
    requires f.unlink && forall k :: 0 <= k < |order| ==> order[k] < |bs|
    requires LeftIn(bs, order, m, f, cb, bs1) && Cleared(bs1, order, cb, bs')
    ensures Cleared(bs, order, cb, bs')
  {
    hide LeftOf;
    forall k | 0 <= k < |order|
      ensures bs'[order[k]] == Unmatched(bs[order[k]], cb)
    {
      var b := bs[order[k]];
      LeftAgain(b, Part(m, |Concat(bs, order[..k])|, |b|), f, cb);
    }
  }

  lemma UptoOk(lo: nat, hi: nat, n: nat)
    requires hi <= n
    ensures OrderOk(Upto(lo, hi), n)
  {
  }

  /** Rounds that unlink, and end: all matches in front of the last bucket are taken, in order, and
      nothing else. */
  lemma {:induction false} RoundsTake(bs: seq<Bucket>, f: Flags, cb: Callback, w: Work)
    requires |bs| > 0 && |w.multi.buckets| == 1 && f.unlink && !Returns(f) && Rounds(bs, f, cb, w).Some?
    ensures var r, order := Rounds(bs, f, cb, w).value, Upto(0, |bs| - 1);
      && Cleared(bs, order, cb, r.buckets) && !r.outcome.Returned?
      && |r.work.multi.buckets| == 1 && Results(r.work) == Results(w) + Collected(Concat(bs, order), f, cb)
      && r.work.version == w.version + (Count(bs) - Count(r.buckets))
      && r.work.elements == w.elements - (Count(bs) - Count(r.buckets))
    decreases Count(bs)
  {
    hide LeftIn, Cleared, Search, Collected, Results, Matching;
    var order := Upto(0, |bs| - 1);
    var r, es := Search(bs, order, f, cb, w), Concat(bs, order);
    UptoOk(0, |bs| - 1, |bs|);
    var m := SearchTakes(bs, order, f, cb, w);
    if r.outcome == Stopped {
      RoundsTake(r.buckets, f, cb, r.work);
      var r' := Rounds(r.buckets, f, cb, r.work).value;
      ClearedAgain(bs, order, m, f, cb, r.buckets, r'.buckets);
      CollectedLater(bs, order, m, f, cb, r.buckets);
    } else {
      VerdictHalts(es, m, f, cb);
      ClearedIsLeft(bs, order, f, cb, r.buckets);
    }
  }

  lemma CollectedLater(bs: seq<Bucket>, order: seq<nat>, m: nat, f: Flags, cb: Callback, bs': seq<Bucket>)
    requires f.unlink && (forall k :: 0 <= k < |order| ==> order[k] < |bs|) && LeftIn(bs, order, m, f, cb, bs')
    requires m <= |Concat(bs, order)|
    ensures var es := Concat(bs, order);
      Collected(es[..m], f, cb) + Collected(Concat(bs', order), f, cb) == Collected(es, f, cb)
  {
    hide Matching, Concat, LeftAt, LeftOf, Objs;
    var es := Concat(bs, order);
    MatchesLeft(bs, order, m, f, cb, bs');
    CollectedConcat(es[..m], es[m..], f, cb);
    assert es[..m] + es[m..] == es;
  }

  // ---------- the whole search ----------

  /** Does a search begin again after a stop, unless it goes on for ever? */
  ghost predicate ComesBack(bs: seq<Bucket>, f: Flags, hash: int, cb: Callback)
    requires |bs| > 0
  {
    WrapsAtEnd(f, hash, |bs|) && (f.multiple || f.nodata) && forall e :: e in bs[|bs| - 1] ==> !Halts(cb(e), f)
  }

  /** What a whole search comes to, told from the container before it. The entries shown are those
      of the visited buckets, in order, up to and including the first that ends the search,
      or all of them in a search that comes back and ends. Of those, the matching ones are
      collected, in that order, by a search for several; they and no others are gone, if it
      unlinks; and a search for one object returns the one it ended at, if that matches. */
  ghost predicate Takes(bs: seq<Bucket>, f: Flags, hash: int, cb: Callback, bs': seq<Bucket>, results: seq<ObjId>,
                        ret: Option<ObjId>)
    requires |bs| > 0
  {
    var order := Order(f, hash, |bs|);
    var es := Concat(bs, order);
    exists m: nat :: m <= |es| && TakesUpTo(es, order, m, bs, f, hash, cb, bs', results, ret)
  }

  ghost predicate TakesUpTo(es: seq<Entry>, order: seq<nat>, m: nat, bs: seq<Bucket>, f: Flags, hash: int,
                            cb: Callback, bs': seq<Bucket>, results: seq<ObjId>, ret: Option<ObjId>)
    requires |bs| > 0 && m <= |es| && forall k :: 0 <= k < |order| ==> order[k] < |bs|
  {
    && (if ComesBack(bs, f, hash, cb) then m == |es| else Shown(es, m, f, cb))
    && LeftIn(bs, order, m, f, cb, bs')
    && results == Collected(es[..m], f, cb)
    && ret == RetOf(Verdict(es[..m], f, cb))
  }

  lemma OrderIsOk(f: Flags, hash: int, n: nat)
    requires n > 0
    ensures OrderOk(Order(f, hash, n), n)
    ensures WrapsAtEnd(f, hash, n) ==> Order(f, hash, n) == [n - 1] + Upto(0, n - 1)
  {
    assert Upto(n - 1, n) == [n - 1];
    assert Upto(0, 0) == [];
  }

  lemma OneRound(bs: seq<Bucket>, f: Flags, hash: int, cb: Callback, w: Work)
    requires |bs| > 0 && |w.multi.buckets| == 1 && Results(w) == []
    requires FullSearch(bs, f, hash, cb, w) == Some(Search(bs, Order(f, hash, |bs|), f, cb, w))
    requires ComesBack(bs, f, hash, cb) ==> Search(bs, Order(f, hash, |bs|), f, cb, w).outcome == Through
    ensures var r := FullSearch(bs, f, hash, cb, w).value;
      && |r.work.multi.buckets| == 1 && Takes(bs, f, hash, cb, r.buckets, Results(r.work), RetOf(r.outcome))
      && r.work.version == w.version + (Count(bs) - Count(r.buckets))
      && r.work.elements == w.elements - (Count(bs) - Count(r.buckets))
  {
    hide FullSearch, Search, Order, LeftIn, Collected, ComesBack, Results, Verdict;
    var order := Order(f, hash, |bs|);
    OrderIsOk(f, hash, |bs|);
    var es, r := Concat(bs, order), Search(bs, order, f, cb, w);
    var m := SearchTakes(bs, order, f, cb, w);
    VerdictHalts(es, m, f, cb);
    assert [] + Collected(es[..m], f, cb) == Collected(es[..m], f, cb);
    assert TakesUpTo(es, order, m, bs, f, hash, cb, r.buckets, Results(r.work), RetOf(r.outcome));
  }

  lemma SearchHead(bs: seq<Bucket>, i: nat, rest: seq<nat>, f: Flags, cb: Callback, w: Work)
    requires |w.multi.buckets| > 0 && i < |bs| && forall k :: 0 <= k < |rest| ==> rest[k] < |bs|
    ensures var s, order := ScanBucket(bs[i], f, cb, w), [i] + rest;
      var bs1 := bs[i := s.kept];
      && (forall k :: 0 <= k < |order| ==> order[k] < |bs|)
      && Search(bs, order, f, cb, w)
         == if s.outcome == Through then Search(bs1, rest, f, cb, s.work) else Found(bs1, s.work, s.outcome)
  {
    assert ([i] + rest)[1..] == rest;
  }

  lemma FullAtEnd(bs: seq<Bucket>, f: Flags, hash: int, cb: Callback, w: Work)
    requires |bs| > 0 && |w.multi.buckets| > 0 && WrapsAtEnd(f, hash, |bs|)
    ensures var s := ScanBucket(bs[|bs| - 1], f, cb, w); var bs1 := bs[|bs| - 1 := s.kept];
      FullSearch(bs, f, hash, cb, w)
      == if s.outcome == Through then Rounds(bs1, f, cb, s.work) else Some(Found(bs1, s.work, s.outcome))
  {
    hide ScanBucket, Rounds, WrapsAtEnd;
    SearchHead(bs, |bs| - 1, [], f, cb, w);
    assert [|bs| - 1] + [] == [|bs| - 1];
  }

  lemma NoneHalts(b: Bucket, m: nat, f: Flags, cb: Callback)
    requires Shown(b, m, f, cb) && forall e :: e in b ==> !Halts(cb(e), f)
    ensures m == |b| && b[..m] == b && Verdict(b, f, cb) == Through
  {
    assert m > 0 ==> b[m - 1] in b;
    assert b != [] ==> b[|b| - 1] in b;
  }

  lemma QuietScan(b: Bucket, f: Flags, cb: Callback, w: Work)
    requires |w.multi.buckets| == 1 && f.unlink && forall e :: e in b ==> !Halts(cb(e), f)
    ensures var s := ScanBucket(b, f, cb, w);
      && s.kept == Unmatched(b, cb) && s.outcome == Through
      && |s.work.multi.buckets| == 1 && Results(s.work) == Results(w) + Collected(b, f, cb)
      && s.work.version == w.version + (|b| - |s.kept|) && s.work.elements == w.elements - (|b| - |s.kept|)
  {
    hide LeftOf, Collected, Results, ScanBucket, Verdict, Unmatched, Halts, Shown;
    var m := ScanTakes(b, f, cb, w);
    NoneHalts(b, m, f, cb);
    LeftEntirely(b, f, cb);
  }

  /** The last bucket of a search that comes back: all of it is shown. */
  lemma LastScanned(bs: seq<Bucket>, f: Flags, hash: int, cb: Callback, w: Work, bs1: seq<Bucket>, w1: Work)
    requires |bs| > 0 && |w.multi.buckets| == 1 && f.unlink && ComesBack(bs, f, hash, cb)
    requires var s := ScanBucket(bs[|bs| - 1], f, cb, w); bs1 == bs[|bs| - 1 := s.kept] && w1 == s.work
    ensures bs1 == bs[|bs| - 1 := Unmatched(bs[|bs| - 1], cb)]
    ensures FullSearch(bs, f, hash, cb, w) == Rounds(bs1, f, cb, w1)
    ensures |w1.multi.buckets| == 1 && Results(w1) == Results(w) + Collected(bs[|bs| - 1], f, cb)
    ensures w1.version == w.version + (Count(bs) - Count(bs1))
    ensures w1.elements == w.elements - (Count(bs) - Count(bs1))
  {
    hide Collected, Results, Rounds, ScanBucket, Unmatched, FullSearch, WrapsAtEnd, Count, Halts, Search, OnMatch;
    FullAtEnd(bs, f, hash, cb, w);
    QuietScan(bs[|bs| - 1], f, cb, w);
    CountUpdate(bs, |bs| - 1, bs1[|bs| - 1]);
  }

  lemma ClearedWithLast(bs: seq<Bucket>, order: seq<nat>, front: seq<nat>, cb: Callback, bs1: seq<Bucket>,
                        bs': seq<Bucket>)
    requires |bs| > 0 && order == [|bs| - 1] + front && OrderOk(order, |bs|)
    requires bs1 == bs[|bs| - 1 := Unmatched(bs[|bs| - 1], cb)]
    requires (forall k :: 0 <= k < |front| ==> front[k] < |bs1|) && Cleared(bs1, front, cb, bs')
    ensures Cleared(bs, order, cb, bs')
  {
    hide Unmatched;
    assert order[0] == |bs| - 1;
    assert forall k :: 0 <= k < |front| ==> order[k + 1] == front[k];
    forall k | 0 <= k < |order|
      ensures bs'[order[k]] == Unmatched(bs[order[k]], cb)
    {
      if k > 0 {
        assert order[k] == front[k - 1] != order[0];
      }
    }
  }

  lemma ConcatWithLast(bs: seq<Bucket>, order: seq<nat>, front: seq<nat>, b: Bucket)
    requires |bs| > 0 && order == [|bs| - 1] + front && OrderOk(order, |bs|)
    ensures forall k :: 0 <= k < |front| ==> front[k] < |bs|
    ensures Concat(bs[|bs| - 1 := b], front) == Concat(bs, front)
    ensures Concat(bs, order) == bs[|bs| - 1] + Concat(bs, front)
  {
    assert order[0] == |bs| - 1 && order[1..] == front;
    assert forall k :: 0 <= k < |front| ==> order[k + 1] == front[k];
    ConcatElsewhere(bs, front, |bs| - 1, b);
  }

  /** A search that comes back, and unlinks: the last bucket, then the rounds in front of it. */
  lemma RoundsAll(bs: seq<Bucket>, f: Flags, hash: int, cb: Callback, w: Work)
    requires |bs| > 0 && |w.multi.buckets| == 1 && f.unlink && ComesBack(bs, f, hash, cb)
    requires FullSearch(bs, f, hash, cb, w).Some?
    ensures var r, order := FullSearch(bs, f, hash, cb, w).value, Order(f, hash, |bs|);
      var es := Concat(bs, order);
      && LeftIn(bs, order, |es|, f, cb, r.buckets) && !r.outcome.Returned?
      && |r.work.multi.buckets| == 1 && Results(r.work) == Results(w) + Collected(es, f, cb)
      && r.work.version == w.version + (Count(bs) - Count(r.buckets))
      && r.work.elements == w.elements - (Count(bs) - Count(r.buckets))
  {
    hide Order, LeftIn, LeftOf, Collected, Results, Rounds, ScanBucket, Verdict, FullSearch, Concat, Unmatched,
      Halts, WrapsAtEnd, Cleared, Count, Search;
    var n := |bs|;
    var order, front := Order(f, hash, n), Upto(0, n - 1);
    OrderIsOk(f, hash, n);
    var s := ScanBucket(bs[n - 1], f, cb, w);
    var bs1 := bs[n - 1 := s.kept];
    LastScanned(bs, f, hash, cb, w, bs1, s.work);
    RoundsTake(bs1, f, cb, s.work);
    var r := Rounds(bs1, f, cb, s.work).value;
    ConcatWithLast(bs, order, front, s.kept);
    ClearedWithLast(bs, order, front, cb, bs1, r.buckets);
    ClearedIsLeft(bs, order, f, cb, r.buckets);
    CollectedConcat(bs[n - 1], Concat(bs, front), f, cb);
  }

  /** Rounds that end although nothing they stop at is taken: there is only one. */
  lemma SingleRound(bs: seq<Bucket>, f: Flags, cb: Callback, w: Work)
    requires |bs| > 0 && |w.multi.buckets| == 1 && (!f.unlink || Returns(f)) && Rounds(bs, f, cb, w).Some?
    ensures var r := Search(bs, Upto(0, |bs| - 1), f, cb, w); Rounds(bs, f, cb, w) == Some(r) && r.outcome != Stopped
  {
    hide Search, RoundsForEver, FirstHaltingIn, KeptIn;
    var r := Search(bs, Upto(0, |bs| - 1), f, cb, w);
    SearchEnds(bs, 0, |bs| - 1, f, cb, w);
    if r.outcome == Stopped {
      StoppedKeepsAll(bs, 0, |bs| - 1, f, cb);
    }
  }

  /** In all other cases a search that ends is one round in the order of the buckets visited. */
  lemma FullIsOneRound(bs: seq<Bucket>, f: Flags, hash: int, cb: Callback, w: Work)
    requires |bs| > 0 && |w.multi.buckets| == 1 && FullSearch(bs, f, hash, cb, w).Some?
    requires ComesBack(bs, f, hash, cb) ==> !f.unlink
    ensures var r := Search(bs, Order(f, hash, |bs|), f, cb, w);
      && FullSearch(bs, f, hash, cb, w) == Some(r)
      && (ComesBack(bs, f, hash, cb) ==> r.outcome == Through)
  {
    hide Order, ScanBucket, Rounds, LeftOf, Collected, Results, Search, Shown, Verdict;
    var n := |bs|;
    if WrapsAtEnd(f, hash, n) {
      hide FullSearch, WrapsAtEnd, Halts;
      var b := bs[n - 1];
      var s := ScanBucket(b, f, cb, w);
      var m := ScanTakes(b, f, cb, w);
      OrderIsOk(f, hash, n);
      FullAtEnd(bs, f, hash, cb, w);
      SearchHead(bs, n - 1, Upto(0, n - 1), f, cb, w);
      if s.outcome == Through {
        LastQuiet(b, m, f, cb);
        SingleRound(bs[n - 1 := s.kept], f, cb, s.work);
        EndsAsReturned(bs[n - 1 := s.kept], f, cb, s.work);
      } else {
        LastHalts(b, m, f, cb);
      }
    }
  }

  lemma LastHalts(b: Bucket, m: nat, f: Flags, cb: Callback)
    requires Shown(b, m, f, cb) && Verdict(b[..m], f, cb) != Through
    ensures exists e :: e in b && Halts(cb(e), f)
  {
    assert b[m - 1] in b;
  }

  lemma LastQuiet(b: Bucket, m: nat, f: Flags, cb: Callback)
    requires Shown(b, m, f, cb) && Verdict(b[..m], f, cb) == Through
    ensures forall e :: e in b ==> !Halts(cb(e), f)
  {
  }

  lemma EndsAsReturned(bs: seq<Bucket>, f: Flags, cb: Callback, w: Work)
    requires |bs| > 0 && |w.multi.buckets| == 1
    ensures !Returns(f) ==> !Search(bs, Upto(0, |bs| - 1), f, cb, w).outcome.Returned?
  {
    hide Search, Upto, KeptIn, FirstHaltingIn;
    SearchEnds(bs, 0, |bs| - 1, f, cb, w);
  }

  /** Every search that ends comes to that, and the two counters of the container record exactly
      how many entries went. */
  lemma FullTakes(bs: seq<Bucket>, f: Flags, hash: int, cb: Callback, w: Work)
    requires |bs| > 0 && |w.multi.buckets| == 1 && Results(w) == [] && FullSearch(bs, f, hash, cb, w).Some?
    ensures var r := FullSearch(bs, f, hash, cb, w).value;
      && |r.work.multi.buckets| == 1 && Takes(bs, f, hash, cb, r.buckets, Results(r.work), RetOf(r.outcome))
      && r.work.version == w.version + (Count(bs) - Count(r.buckets))
      && r.work.elements == w.elements - (Count(bs) - Count(r.buckets))
  {
    hide FullSearch, LeftIn, Collected, Results, Order, Concat;
    if ComesBack(bs, f, hash, cb) && f.unlink {
      RoundsAll(bs, f, hash, cb, w);
      var r, order := FullSearch(bs, f, hash, cb, w).value, Order(f, hash, |bs|);
      var es := Concat(bs, order);
      assert es[..|es|] == es && [] + Collected(es, f, cb) == Collected(es, f, cb);
      assert TakesUpTo(es, order, |es|, bs, f, hash, cb, r.buckets, Results(r.work), RetOf(r.outcome));
    } else {
      FullIsOneRound(bs, f, hash, cb, w);
      OneRound(bs, f, hash, cb, w);
    }
  }
}
