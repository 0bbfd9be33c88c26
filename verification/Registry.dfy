/** The task queue registry of taskqueue.c: named queues in a hash container, found without
    regard to case, created on demand and destroyed by the last unreference. */
module Registry {

  import opened Common
  import opened RefCounts
  import opened Container
  import opened ContainerSearch
  import Strings

  const TPS_MAX_BUCKETS := 7

  // ---------- the hash ----------

  /** A byte as an int: plain char is signed. */
  function Widened(c: char): bv32
    requires c as int < 256
  {
    (c as int as bv32) | (if c as int < 128 then 0 else 0xFFFF_FF00)
  }

  /** One step of spd_str_case_hash, on an int that wraps. */
  function HashStep(h: bv32, c: char): bv32
    requires c as int < 256
  {
    (h * 33) ^ Widened(Strings.Lower(c))
  }

  predicate Bytes(s: string) {
    forall i :: 0 <= i < |s| ==> s[i] as int < 256
  }

  function HashFrom(h: bv32, s: string): bv32
    requires Bytes(s)
    decreases |s|
  {
    if s == "" then h else HashFrom(HashStep(h, s[0]), s[1..])
  }

  function CaseHash(s: string): CInt
    requires Bytes(s)
  {
    CAbs(ToInt32(HashFrom(5381, s) as int))
  }

  /** The hash is the int that the loop arrives at, or its negation, and not negative but for the
      one int that has no counterpart. */
  lemma CaseHashSign(s: string)
    requires Bytes(s)
    ensures var h := ToInt32(HashFrom(5381, s) as int);
      (CaseHash(s) == h || CaseHash(s) == -h) && (CaseHash(s) >= 0 || CaseHash(s) == h == INT32_MIN)
  {
  }

  /** A byte above 127 comes in as a negative number. */
  lemma SignedByte()
    ensures HashFrom(5381, [0xE9 as char]) == 0xFFFD_4A4C
  {
    assert [0xE9 as char][1..] == [];
  }

  method StrCaseHash(name: string) returns (hash: CInt)
    requires Bytes(name)
    ensures hash == CaseHash(name)
  {
    var h: bv32 := 5381;
    var i := 0;
    assert name[0..] == name;
    while i < |name|
      invariant i <= |name| && HashFrom(h, name[i..]) == HashFrom(5381, name)
    {
      assert name[i..][0] == name[i] && name[i..][1..] == name[i + 1..];
      h := HashStep(h, name[i]);
      i := i + 1;
    }
    hash := CAbs(ToInt32(h as int));
  }

  lemma {:induction false} HashFolds(h: bv32, a: string, b: string)
    requires Bytes(a) && Bytes(b) && Strings.CaseEq(a, b)
    ensures HashFrom(h, a) == HashFrom(h, b)
    decreases |a|
  {
    hide Widened;
    if a != "" && b != "" {
      assert Strings.Folded(a)[0] == Strings.Folded(b)[0];
      assert Strings.Folded(a)[1..] == Strings.Folded(b)[1..];
      HashFolds(HashStep(h, a[0]), a[1..], b[1..]);
    }
  }

  /** Names that strcasecmp cannot tell apart have the same hash. */
  lemma CaseHashRespects(a: string, b: string)
    requires Bytes(a) && Bytes(b) && Strings.CaseEq(a, b)
    ensures CaseHash(a) == CaseHash(b)
  {
    HashFolds(5381, a, b);
  }

  /** The names whose hash lets a queue be linked. */
  predicate NameOk(name: string) {
    Bytes(name) && Linkable(CaseHash(name), TPS_MAX_BUCKETS)
  }

  // ---------- searching ----------

  const FIND := Flags(false, false, false, true, false)
  const UNLINK := Flags(true, true, false, true, false)

  /** tps_cmp_cb against a name. */
  function ByName(names: map<ObjId, string>, name: string): Callback {
    (e: Entry) => var same := e.obj in names && Strings.CaseEq(names[e.obj], name); Answer(same, same)
  }

  /** obj_match_by_addr. */
  function ByAddr(o: ObjId): Callback {
    (e: Entry) => Answer(e.obj == o, e.obj == o)
  }

  /** A callback that stops at the first match and nowhere else. */
  ghost predicate StopsAtMatch(cb: Callback) {
    forall e :: cb(e).matches == cb(e).stop
  }

  /** A search that only looks: either nothing visited matches and nothing changes, or one
      matching entry is returned with a new reference. */
  ghost predicate Looked(visited: Entry -> bool, cb: Callback, w: Work, w': Work, out: Outcome) {
    match out
    case Through => w' == w && forall e :: visited(e) ==> !cb(e).matches
    case Returned(o) =>
      w' == w.(refs := AddRef(w.refs, o, 1)) && exists e :: visited(e) && cb(e).matches && e.obj == o
    case Stopped => false
  }

  lemma {:induction false} FindScan(b: Bucket, cb: Callback, w: Work)
    requires |w.multi.buckets| > 0 && StopsAtMatch(cb)
    ensures var r := ScanBucket(b, FIND, cb, w);
      r.kept == b && Looked(e => e in b, cb, w, r.work, r.outcome)
    decreases |b|
  {
    if b != [] {
      assert b == [b[0]] + b[1..] && b[0] in b;
      if !cb(b[0]).matches {
        FindScan(b[1..], cb, w);
      }
    }
  }

  ghost predicate InOrder(bs: seq<Bucket>, order: seq<nat>, e: Entry)
    requires forall k :: 0 <= k < |order| ==> order[k] < |bs|
  {
    exists k :: 0 <= k < |order| && e in bs[order[k]]
  }

  lemma {:induction false} FindSearch(bs: seq<Bucket>, order: seq<nat>, cb: Callback, w: Work)
    requires |w.multi.buckets| > 0 && StopsAtMatch(cb)
    requires forall k :: 0 <= k < |order| ==> order[k] < |bs|
    ensures var r := Search(bs, order, FIND, cb, w);
      r.buckets == bs && Looked(e => InOrder(bs, order, e), cb, w, r.work, r.outcome)
    decreases |order|
  {
    if order != [] {
      FindScan(bs[order[0]], cb, w);
      assert bs[order[0] := bs[order[0]]] == bs;
      var out := ScanBucket(bs[order[0]], FIND, cb, w).outcome;
      if out == Through {
        FindSearch(bs, order[1..], cb, w);
        FoundLater(bs, order);
      }
    }
  }

  lemma FoundLater(bs: seq<Bucket>, order: seq<nat>)
    requires order != [] && forall k :: 0 <= k < |order| ==> order[k] < |bs|
    ensures forall e :: InOrder(bs, order, e) <==> e in bs[order[0]] || InOrder(bs, order[1..], e)
  {
    forall e | InOrder(bs, order[1..], e)
      ensures InOrder(bs, order, e)
    {
      var k :| 0 <= k < |order[1..]| && e in bs[order[1..][k]];
      assert order[k + 1] == order[1..][k];
    }
    forall e | InOrder(bs, order, e)
      ensures e in bs[order[0]] || InOrder(bs, order[1..], e)
    {
      var k :| 0 <= k < |order| && e in bs[order[k]];
      if k > 0 { assert order[1..][k - 1] == order[k]; }
    }
  }

  // ---------- occurrences ----------

  lemma {:induction false} OccMember(b: Bucket, e: Entry)
    requires e in b
    ensures Occ(b, e.obj) > 0
    decreases |b|
  {
    assert b == [b[0]] + b[1..];
    if b[0] != e { OccMember(b[1..], e); }
  }

  lemma {:induction false} OccWitness(b: Bucket, o: ObjId) returns (e: Entry)
    requires Occ(b, o) > 0
    ensures e in b && e.obj == o
    decreases |b|
  {
    assert b == [b[0]] + b[1..];
    if b[0].obj == o { e := b[0]; } else { e := OccWitness(b[1..], o); }
  }

  lemma {:induction false} OccInMember(bs: seq<Bucket>, i: nat, e: Entry)
    requires i < |bs| && e in bs[i]
    ensures OccIn(bs, e.obj) > 0
  {
    if i == 0 { OccMember(bs[0], e); } else { OccInMember(bs[1..], i - 1, e); }
  }

  lemma {:induction false} OccInWitness(bs: seq<Bucket>, o: ObjId) returns (i: nat, e: Entry)
    requires OccIn(bs, o) > 0
    ensures i < |bs| && e in bs[i] && e.obj == o
  {
    if Occ(bs[0], o) > 0 {
      i := 0;
      e := OccWitness(bs[0], o);
    } else {
      var j;
      j, e := OccInWitness(bs[1..], o);
      i := j + 1;
    }
  }

  /** What a search by address takes away. */
  lemma {:induction false} UnlinkScan(b: Bucket, o: ObjId, w: Work, p: ObjId)
    requires |w.multi.buckets| > 0
    ensures var r := ScanBucket(b, UNLINK, ByAddr(o), w);
      && Occ(r.kept, p) == Occ(b, p) - (if p == o && Occ(b, o) > 0 then 1 else 0)
      && (forall e :: e in r.kept ==> e in b)
      && (Occ(b, o) == 0 ==> r == Scan(b, w, Through))
      && (Occ(b, o) > 0 ==> r.outcome == Stopped)
    decreases |b|
  {
    if b != [] {
      assert b == [b[0]] + b[1..];
      if b[0].obj != o {
        UnlinkScan(b[1..], o, w, p);
        var kept := ScanBucket(b[1..], UNLINK, ByAddr(o), w).kept;
        assert ([b[0]] + kept)[1..] == kept;
      } else {
        assert [] + b[1..] == b[1..];
      }
    }
  }

  ghost predicate AnyIn(bs: seq<Bucket>, order: seq<nat>, o: ObjId)
    requires forall k :: 0 <= k < |order| ==> order[k] < |bs|
  {
    exists k :: 0 <= k < |order| && Occ(bs[order[k]], o) > 0
  }

  ghost predicate Within(bs: seq<Bucket>, bs': seq<Bucket>) {
    |bs'| == |bs| && forall i, e :: 0 <= i < |bs| && e in bs'[i] ==> e in bs[i]
  }

  lemma {:induction false} UnlinkSearch(bs: seq<Bucket>, order: seq<nat>, o: ObjId, w: Work, p: ObjId)
    requires |w.multi.buckets| > 0
    requires forall k :: 0 <= k < |order| ==> order[k] < |bs|
    ensures var r := Search(bs, order, UNLINK, ByAddr(o), w);
      && Within(bs, r.buckets) && !r.outcome.Returned?
      && OccIn(r.buckets, p) == OccIn(bs, p) - (if p == o && AnyIn(bs, order, o) then 1 else 0)
    decreases |order|
  {
    if order != [] {
      var r := ScanBucket(bs[order[0]], UNLINK, ByAddr(o), w);
      UnlinkScan(bs[order[0]], o, w, p);
      OccUpdate(bs, order[0], r.kept, p);
      if r.outcome == Through {
        assert bs[order[0] := r.kept] == bs;
        UnlinkSearch(bs, order[1..], o, w, p);
        AnyLater(bs, order, o);
      }
    }
  }

  lemma AnyLater(bs: seq<Bucket>, order: seq<nat>, o: ObjId)
    requires order != [] && forall k :: 0 <= k < |order| ==> order[k] < |bs|
    ensures AnyIn(bs, order, o) <==> Occ(bs[order[0]], o) > 0 || AnyIn(bs, order[1..], o)
  {
    if AnyIn(bs, order[1..], o) {
      var k :| 0 <= k < |order[1..]| && Occ(bs[order[1..][k]], o) > 0;
      assert order[k + 1] == order[1..][k];
    }
    if AnyIn(bs, order, o) {
      var k :| 0 <= k < |order| && Occ(bs[order[k]], o) > 0;
      if k > 0 { assert order[1..][k - 1] == order[k]; }
    }
  }

  // ---------- the registry ----------

  /** `held` counts the references that callers of spd_taskqueue_get still have to give back;
      every queue ever created has a name. */
  datatype Reg = Reg(store: Store, refs: Refs, names: map<ObjId, string>, held: map<ObjId, nat>, next: ObjId)

  const EMPTY := Reg(NewStore(TPS_MAX_BUCKETS), Refs(map[], []), map[], map[], 0)

  function Held(r: Reg, o: ObjId): nat {
    if o in r.held then r.held[o] else 0
  }

  /** tps_hash_cb, as far as names are known. */
  function HashOf(names: map<ObjId, string>): ObjId -> CInt {
    o => if o in names && Bytes(names[o]) then CaseHash(names[o]) else 0
  }

  /** Linked exactly while it has holders, and once. */
  ghost predicate LinkedWhileHeld(store: Store, held: map<ObjId, nat>) {
    forall o :: OccIn(store.buckets, o) == if o in held && held[o] > 0 then 1 else 0
  }

  /** The counter of every queue is the number of its holders plus one for the registry; a
      queue without holders has been destroyed, once. */
  ghost predicate Counted(r: Reg) {
    forall o :: Balanced(r.refs, o, if Held(r, o) > 0 then Held(r, o) + 1 else 0, o in r.names)
  }

  predicate SameName(names: map<ObjId, string>, o: ObjId, p: ObjId) {
    o in names && p in names && Strings.CaseEq(names[o], names[p])
  }

  /** At most one live queue for names that differ only in case. */
  ghost predicate OnePerName(names: map<ObjId, string>, held: map<ObjId, nat>) {
    forall o, p :: o in held && p in held && held[o] > 0 && held[p] > 0 && SameName(names, o, p) ==> o == p
  }

  ghost predicate Named(r: Reg) {
    && (forall o :: o in r.names ==> o < r.next && r.names[o] != "" && NameOk(r.names[o]))
    && (forall o :: o in r.held ==> o in r.names)
  }

  ghost predicate Inv(r: Reg) {
    && Wf(r.store) && |r.store.buckets| == TPS_MAX_BUCKETS && Placed(r.store, HashOf(r.names))
    && Named(r) && LinkedWhileHeld(r.store, r.held) && Counted(r) && OnePerName(r.names, r.held)
  }

  /** obj_find for a name. */
  function Lookup(r: Reg, name: string): Found
    requires |r.store.buckets| > 0 && Bytes(name)
  {
    SearchStore(r.store, FIND, CaseHash(name), ByName(r.names, name), r.refs)
  }

  /** How get ends: with an answer, or with a new queue written outside the bucket array. */
  datatype GetResult = Got(reg: Reg, queue: Option<ObjId>) | Outside

  /** spd_taskqueue_get; `ifExists` is the option TPS_REF_IF_EXISTS. */
  function Get(r: Reg, name: string, ifExists: bool): GetResult
    requires |r.store.buckets| > 0 && Bytes(name)
  {
    if name == "" then Got(r, None)
    else
      var f := Lookup(r, name);
      var r1 := r.(store := After(f), refs := f.work.refs);
      match f.outcome
      case Returned(o) => Got(r1.(held := r.held[o := Held(r, o) + 1]), Some(o))
      case _ =>
        if ifExists then Got(r1, None)
        else if Linkable(CaseHash(name), |r.store.buckets|) then Got(Create(r1, name), Some(r.next))
        else Outside
  }

  /** A new queue: one reference for the caller and one for the registry. */
  function Create(r: Reg, name: string): Reg
    requires |r.store.buckets| > 0 && Bytes(name) && Linkable(CaseHash(name), |r.store.buckets|)
  {
    Reg(Link(r.store, CaseHash(name), r.next), AddRef(Alloc(r.refs, r.next), r.next, 1),
        r.names[r.next := name], r.held[r.next := 1], r.next + 1)
  }

  /** spd_taskqueue_unreference: unlink, drop the caller's reference, and link again if that
      was not the last one. */
  function Unreference(r: Reg, o: ObjId): Reg
    requires |r.store.buckets| == TPS_MAX_BUCKETS && o in r.names && NameOk(r.names[o])
  {
    var h := CaseHash(r.names[o]);
    var f := SearchStore(r.store, UNLINK, h, ByAddr(o), r.refs);
    var before := if o in f.work.refs.count then f.work.refs.count[o] else -1;
    var refs := AddRef(f.work.refs, o, -1);
    var held := r.held[o := if Held(r, o) > 0 then Held(r, o) - 1 else 0];
    if before > 1 then r.(store := Link(After(f), h, o), refs := AddRef(refs, o, 1), held := held)
    else r.(store := After(f), refs := refs, held := held)
  }

  // ---------- lookup ----------

  /** A live queue of that name. */
  ghost predicate Live(r: Reg, o: ObjId, name: string) {
    Held(r, o) > 0 && o in r.names && Strings.CaseEq(r.names[o], name)
  }

  /** The hashed search of the registry sees what a scan of all buckets would see. */
  lemma LookupScansAll(r: Reg, name: string)
    requires Inv(r) && Bytes(name)
    ensures Lookup(r, name) == Search(r.store.buckets, Upto(0, TPS_MAX_BUCKETS), FIND, ByName(r.names, name),
                                      Work(r.refs, r.store.version, r.store.elements, NewStore(1)))
  {
    var h, cb, w := CaseHash(name), ByName(r.names, name), Work(r.refs, r.store.version, r.store.elements, NewStore(1));
    forall i, e | 0 <= i < |r.store.buckets| && e in r.store.buckets[i] && cb(e) != Answer(false, false)
      ensures HashOf(r.names)(e.obj) == h
    {
      CaseHashRespects(r.names[e.obj], name);
    }
    HashedSearchAgrees(r.store, HashOf(r.names), h, FIND, cb, w);
  }

  lemma FoundIsLive(r: Reg, name: string, order: seq<nat>, e: Entry)
    requires LinkedWhileHeld(r.store, r.held) && forall k :: 0 <= k < |order| ==> order[k] < |r.store.buckets|
    requires InOrder(r.store.buckets, order, e) && ByName(r.names, name)(e).matches
    ensures Live(r, e.obj, name)
  {
    var k :| 0 <= k < |order| && e in r.store.buckets[order[k]];
    OccInMember(r.store.buckets, order[k], e);
  }

  lemma LiveIsFound(r: Reg, name: string, o: ObjId)
    requires LinkedWhileHeld(r.store, r.held) && |r.store.buckets| == TPS_MAX_BUCKETS && Live(r, o, name)
    ensures exists e :: InOrder(r.store.buckets, Upto(0, TPS_MAX_BUCKETS), e) && ByName(r.names, name)(e).matches
  {
    var i, e := OccInWitness(r.store.buckets, o);
    var order := Upto(0, TPS_MAX_BUCKETS);
    assert order[i] == i && e in r.store.buckets[order[i]];
    assert InOrder(r.store.buckets, order, e);
  }

  /** The registry finds a name exactly if a live queue has it, and then that queue, with one
      reference more; looking changes nothing else. */
  lemma LookupExact(r: Reg, name: string)
    requires Inv(r) && Bytes(name)
    ensures var f := Lookup(r, name);
      && After(f) == r.store
      && match f.outcome
         case Returned(o) => Live(r, o, name) && f.work.refs == AddRef(r.refs, o, 1)
         case _ => f.work.refs == r.refs && forall o :: !Live(r, o, name)
  {
    hide Live, LinkedWhileHeld, Counted, OnePerName, Placed, Wf, Named, Search;
    var w := Work(r.refs, r.store.version, r.store.elements, NewStore(1));
    var bs, order, cb := r.store.buckets, Upto(0, TPS_MAX_BUCKETS), ByName(r.names, name);
    LookupScansAll(r, name);
    FindSearch(bs, order, cb, w);
    var f := Search(bs, order, FIND, cb, w);
    if f.outcome.Returned? {
      var e :| InOrder(bs, order, e) && cb(e).matches && e.obj == f.outcome.obj;
      FoundIsLive(r, name, order, e);
    } else {
      forall o
        ensures !Live(r, o, name)
      {
        if Live(r, o, name) {
          LiveIsFound(r, name, o);
        }
      }
    }
  }

  // ---------- what get keeps ----------

  lemma TakeCounts(r: Reg, o: ObjId, r': Reg)
    requires Counted(r) && Held(r, o) > 0
    requires r' == r.(refs := AddRef(r.refs, o, 1), held := r.held[o := Held(r, o) + 1])
    ensures Counted(r')
  {
    forall p
      ensures Balanced(r'.refs, p, if Held(r', p) > 0 then Held(r', p) + 1 else 0, p in r'.names)
    {
      RefBalanced(r.refs, p, o, 1, if Held(r, p) > 0 then Held(r, p) + 1 else 0, p in r.names);
    }
  }

  /** One more holder of a queue that has one already. */
  lemma TakeKeeps(r: Reg, o: ObjId, r': Reg)
    requires Inv(r) && Held(r, o) > 0
    requires r' == r.(refs := AddRef(r.refs, o, 1), held := r.held[o := Held(r, o) + 1])
    ensures Inv(r')
  {
    hide CaseHash, Wf, Placed, NameOk, OccIn, SameName, Counted;
    TakeCounts(r, o, r');
    assert LinkedWhileHeld(r'.store, r'.held);
  }

  /** A new name does not move what is linked already. */
  lemma PlacedStays(r: Reg, names: map<ObjId, string>)
    requires Placed(r.store, HashOf(r.names)) && LinkedWhileHeld(r.store, r.held) && Named(r)
    requires forall o :: o in r.names ==> o in names && names[o] == r.names[o]
    ensures Placed(r.store, HashOf(names))
  {
    hide Belongs, CaseHash, NameOk;
    forall i, e | 0 <= i < |r.store.buckets| && e in r.store.buckets[i]
      ensures Belongs(HashOf(names)(e.obj), |r.store.buckets|, i)
    {
      OccInMember(r.store.buckets, i, e);
      assert HashOf(names)(e.obj) == HashOf(r.names)(e.obj);
    }
  }

  lemma CreateCounts(r: Reg, name: string)
    requires Inv(r) && NameOk(name)
    ensures Counted(Create(r, name))
  {
    hide CaseHash;
    var r', x := Create(r, name), r.next;
    forall o
      ensures Balanced(r'.refs, o, if Held(r', o) > 0 then Held(r', o) + 1 else 0, o in r'.names)
    {
      var n := if Held(r, o) > 0 then Held(r, o) + 1 else 0;
      AllocBalanced(r.refs, o, x, n, o in r.names);
      RefBalanced(Alloc(r.refs, x), o, x, 1, if o == x then 1 else n, o in r'.names);
    }
  }

  lemma CreateLinks(r: Reg, name: string)
    requires Inv(r) && NameOk(name)
    ensures LinkedWhileHeld(Create(r, name).store, Create(r, name).held)
  {
    forall o
      ensures OccIn(Create(r, name).store.buckets, o) ==
        var held := Create(r, name).held; if o in held && held[o] > 0 then 1 else 0
    {
      LinkOcc(r.store, CaseHash(name), r.next, o);
    }
  }

  lemma CreateKeeps(r: Reg, name: string)
    requires Inv(r) && NameOk(name) && name != "" && forall o :: !Live(r, o, name)
    ensures Inv(Create(r, name))
  {
    hide CaseHash, Wf, Placed, Counted, LinkedWhileHeld, Link, AddRef;
    var r', x := Create(r, name), r.next;
    CreateCounts(r, name);
    CreateLinks(r, name);
    LinkKeepsWf(r.store, CaseHash(name), x);
    PlacedStays(r, r'.names);
    assert HashOf(r'.names)(x) == CaseHash(name);
    LinkKeepsPlaced(r.store, HashOf(r'.names), x);
    forall o, p | o in r'.held && p in r'.held && r'.held[o] > 0 && r'.held[p] > 0 && SameName(r'.names, o, p)
      ensures o == p
    {
      assert p != x ==> !Live(r, p, name);
      assert o != x ==> !Live(r, o, name);
      assert p != x && o != x ==> SameName(r.names, o, p);
    }
  }

  /** What get promises: a live queue of that name is handed out again, whatever the case of
      the letters; otherwise a queue is created, unless the caller asked only for an existing
      one. Nothing is destroyed. */
  ghost predicate Answered(r: Reg, name: string, ifExists: bool, r': Reg, o: Option<ObjId>) {
    && r'.refs.destroyed == r.refs.destroyed
    && (o == None <==> name == "" || (ifExists && forall p :: !Live(r, p, name)))
    && (o == None ==> r' == r)
    && (o.Some? ==> Live(r', o.value, name) && OneMore(r, r', o.value))
    && (forall p: ObjId :: Live(r, p, name) && name != "" ==> o == Some(p))
  }

  ghost predicate OneMore(r: Reg, r': Reg, o: ObjId) {
    Held(r', o) == Held(r, o) + 1 && forall p :: p != o ==> Held(r', p) == Held(r, p)
  }

  lemma GetFound(r: Reg, name: string, ifExists: bool, o: ObjId, r': Reg)
    requires Inv(r) && Live(r, o, name) && name != ""
    requires r' == r.(refs := AddRef(r.refs, o, 1), held := r.held[o := Held(r, o) + 1])
    ensures Inv(r') && Answered(r, name, ifExists, r', Some(o))
  {
    hide Wf, Placed, LinkedWhileHeld, OnePerName, Named;
    TakeKeeps(r, o, r');
    OnlyLive(r, name, o);
    assert Balanced(r.refs, o, Held(r, o) + 1, o in r.names);
  }

  lemma GetNew(r: Reg, name: string, r': Reg)
    requires Inv(r) && NameOk(name) && name != "" && r' == Create(r, name) && forall o :: !Live(r, o, name)
    ensures Inv(r') && Answered(r, name, false, r', Some(r.next))
  {
    hide Wf, Placed, LinkedWhileHeld, OnePerName, Counted, CaseHash, NameOk, Link;
    CreateKeeps(r, name);
    SameItself(name);
  }

  /** What a caller can check before asking. */
  predicate MayGet(name: string, ifExists: bool) {
    name == "" || ifExists || NameOk(name)
  }

  /** A name that cannot be linked is not that of a live queue. */
  lemma LiveNameOk(r: Reg, o: ObjId, name: string)
    requires Named(r) && Bytes(name) && Live(r, o, name)
    ensures NameOk(name)
  {
    CaseHashRespects(r.names[o], name);
  }

  lemma GetKeeps(r: Reg, name: string, ifExists: bool)
    requires Inv(r) && Bytes(name)
    ensures var g := Get(r, name, ifExists);
      && (g.Got? <==> MayGet(name, ifExists))
      && (g.Got? ==> Inv(g.reg) && Answered(r, name, ifExists, g.reg, g.queue))
  {
    hide CaseHash, Inv, Create, Lookup, Live, Linkable;
    InvBuckets(r);
    if name != "" {
      LookupExact(r, name);
      var f, g := Lookup(r, name), Get(r, name, ifExists);
      assert r.(store := After(f)) == r;
      if f.outcome.Returned? {
        LiveNameOk(r, f.outcome.obj, name);
        GetFound(r, name, ifExists, f.outcome.obj, g.reg);
      } else if ifExists {
        assert g.reg == r;
      } else if NameOk(name) {
        GetNew(r, name, g.reg);
      }
    }
  }

  /** The hash of this name is the smallest int: get writes its new queue in front of the
      bucket array. */
  lemma UnlinkableName()
    ensures var name := "fzlvjp9";
      && Bytes(name) && CaseHash(name) == INT32_MIN && LinkIndex(CaseHash(name), TPS_MAX_BUCKETS) == -2
      && Get(EMPTY, name, false) == Outside
  {
    hide Inv, HashFrom, Get, EMPTY;
    HashSteps();
    EmptyInv();
    GetKeeps(EMPTY, "fzlvjp9", false);
  }

  lemma FirstStep()
    ensures HashStep(5381, 'f') == 0x2b5c3
  {
  }

  lemma SecondStep()
    ensures HashStep(0x2b5c3, 'z') == 0x596e59
  {
  }

  lemma ThirdStep()
    ensures HashStep(0x596e59, 'l') == 0xb873915
  {
  }

  lemma FourthStep()
    ensures HashStep(0xb873915, 'v') == 0x7c6e5bc3
  {
  }

  lemma FifthStep()
    ensures HashStep(0x7c6e5bc3, 'j') == 0xa39d449
  {
  }

  lemma SixthStep()
    ensures HashStep(0xa39d449, 'p') == 0x51745d19
  {
  }

  lemma SeventhStep()
    ensures HashStep(0x51745d19, '9') == 0x80000000
  {
  }

  lemma HashSteps()
    ensures Bytes("fzlvjp9") && HashFrom(5381, "fzlvjp9") == 0x8000_0000
  {
    hide HashStep, HashFrom;
    FirstStep();
    SecondStep();
    ThirdStep();
    FourthStep();
    FifthStep();
    SixthStep();
    SeventhStep();
    HashEnds(0x80000000);
    HashTail(0x51745d19, '9', "", "9");
    HashTail(0xa39d449, 'p', "9", "p9");
    HashTail(0x7c6e5bc3, 'j', "p9", "jp9");
    HashTail(0xb873915, 'v', "jp9", "vjp9");
    HashTail(0x596e59, 'l', "vjp9", "lvjp9");
    HashTail(0x2b5c3, 'z', "lvjp9", "zlvjp9");
    HashTail(5381, 'f', "zlvjp9", "fzlvjp9");
  }

  lemma HashEnds(h: bv32)
    ensures HashFrom(h, "") == h
  {
  }

  lemma HashTail(h: bv32, c: char, rest: string, s: string)
    requires c as int < 256 && Bytes(rest) && s == [c] + rest
    ensures Bytes(s) && HashFrom(h, s) == HashFrom(HashStep(h, c), rest)
  {
    assert s[1..] == rest;
  }

  lemma InvBuckets(r: Reg)
    requires Inv(r)
    ensures |r.store.buckets| == TPS_MAX_BUCKETS && Named(r)
  {
  }

  lemma SameItself(name: string)
    ensures Strings.CaseEq(name, name)
  {
  }

  lemma OnlyLive(r: Reg, name: string, o: ObjId)
    requires Inv(r) && Live(r, o, name)
    ensures forall p :: Live(r, p, name) ==> p == o
  {
    hide CaseHash;
    forall p | Live(r, p, name)
      ensures p == o
    {
      assert SameName(r.names, o, p);
    }
  }

  // ---------- what unreference keeps ----------

  function Unlinked(r: Reg, o: ObjId): Found
    requires |r.store.buckets| > 0 && o in r.names && NameOk(r.names[o])
  {
    SearchStore(r.store, UNLINK, CaseHash(r.names[o]), ByAddr(o), r.refs)
  }

  lemma LinkedIsSearched(r: Reg, o: ObjId)
    requires Inv(r) && Held(r, o) > 0
    ensures AnyIn(r.store.buckets, Order(UNLINK, CaseHash(r.names[o]), TPS_MAX_BUCKETS), o)
  {
    var i, e := OccInWitness(r.store.buckets, o);
    var order := Order(UNLINK, CaseHash(r.names[o]), TPS_MAX_BUCKETS);
    HomeIsSearched(UNLINK, CaseHash(r.names[o]), TPS_MAX_BUCKETS);
    assert HashOf(r.names)(o) == CaseHash(r.names[o]);
    var k :| 0 <= k < |order| && order[k] == i;
    OccMember(r.store.buckets[i], e);
  }

  lemma UnlinkedOcc(r: Reg, o: ObjId, p: ObjId)
    requires Inv(r) && Held(r, o) > 0
    ensures OccIn(Unlinked(r, o).buckets, p) == OccIn(r.store.buckets, p) - (if p == o then 1 else 0)
    ensures !Unlinked(r, o).outcome.Returned? && Unlinked(r, o).work.multi == NewStore(1)
  {
    hide Wf, Placed, OnePerName, Counted, Search, CaseHash, Order;
    var h, w := CaseHash(r.names[o]), Work(r.refs, r.store.version, r.store.elements, NewStore(1));
    var order := Order(UNLINK, h, TPS_MAX_BUCKETS);
    LinkedIsSearched(r, o);
    UnlinkSearch(r.store.buckets, order, o, w, p);
    NewStoreWf();
    SearchMulti(r.store.buckets, order, UNLINK, ByAddr(o), w);
  }

  /** Between the unlink and the rest: the queue is out of the container, and the books are
      balanced without the registry's reference. */
  lemma UnlinkedShape(r: Reg, o: ObjId, p: ObjId)
    requires Inv(r) && Held(r, o) > 0
    ensures var f := Unlinked(r, o);
      && OccIn(f.buckets, p) == OccIn(r.store.buckets, p) - (if p == o then 1 else 0)
      && Balanced(f.work.refs, p, Held(r, p) + OccIn(f.buckets, p), p in r.names)
  {
    hide Wf, Placed, OnePerName, Search, CaseHash, Order, Balanced;
    var h, w := CaseHash(r.names[o]), Work(r.refs, r.store.version, r.store.elements, NewStore(1));
    var order := Order(UNLINK, h, TPS_MAX_BUCKETS);
    EmptyBuckets(NewStore(1).buckets, p);
    UnlinkedOcc(r, o, p);
    assert OccIn(r.store.buckets, p) == if Held(r, p) > 0 then 1 else 0;
    SearchConserves(r.store.buckets, order, UNLINK, ByAddr(o), w, p, Held(r, p), p in r.names);
  }

  lemma UnlinkedStore(r: Reg, o: ObjId)
    requires Inv(r) && Held(r, o) > 0
    ensures var s := After(Unlinked(r, o));
      Wf(s) && |s.buckets| == TPS_MAX_BUCKETS && Placed(s, HashOf(r.names))
  {
    hide CaseHash;
    var h, w := CaseHash(r.names[o]), Work(r.refs, r.store.version, r.store.elements, NewStore(1));
    var order := Order(UNLINK, h, TPS_MAX_BUCKETS);
    SearchEvolves(r.store.buckets, order, UNLINK, ByAddr(o), w);
    UnlinkSearch(r.store.buckets, order, o, w, o);
  }

  /** The counter seen by the last step is the number of holders. */
  lemma UnlinkedCount(r: Reg, o: ObjId)
    requires Inv(r) && Held(r, o) > 0
    ensures var refs := Unlinked(r, o).work.refs; o in refs.count && refs.count[o] == Held(r, o)
    ensures Times(Unlinked(r, o).work.refs.destroyed, o) == 0
  {
    hide CaseHash, Wf, Placed, OnePerName, Counted, Unlinked;
    UnlinkedShape(r, o, o);
    assert OccIn(r.store.buckets, o) == 1;
  }

  lemma UnreferenceBooks(r: Reg, o: ObjId, p: ObjId)
    requires Inv(r) && Held(r, o) > 0
    ensures var r' := Unreference(r, o);
      && Balanced(r'.refs, p, if Held(r', p) > 0 then Held(r', p) + 1 else 0, p in r.names)
      && OccIn(r'.store.buckets, p) == if Held(r', p) > 0 then 1 else 0
  {
    hide Wf, Placed, OnePerName, Counted, Search, CaseHash;
    var f, h := Unlinked(r, o), CaseHash(r.names[o]);
    UnlinkedShape(r, o, p);
    UnlinkedCount(r, o);
    assert OccIn(r.store.buckets, p) == if Held(r, p) > 0 then 1 else 0;
    var n := Held(r, p) + OccIn(f.buckets, p);
    RefBalanced(f.work.refs, p, o, -1, n, p in r.names);
    LinkOcc(After(f), h, o, p);
    var refs := AddRef(f.work.refs, o, -1);
    if Held(r, o) > 1 {
      RefBalanced(refs, p, o, 1, if p == o then n - 1 else n, p in r.names);
    }
  }

  lemma UnreferenceStore(r: Reg, o: ObjId)
    requires Inv(r) && Held(r, o) > 0
    ensures var s := Unreference(r, o).store;
      Wf(s) && |s.buckets| == TPS_MAX_BUCKETS && Placed(s, HashOf(r.names))
  {
    hide CaseHash;
    var f, h := Unlinked(r, o), CaseHash(r.names[o]);
    UnlinkedStore(r, o);
    assert HashOf(r.names)(o) == h;
    LinkKeepsWf(After(f), h, o);
    LinkKeepsPlaced(After(f), HashOf(r.names), o);
  }

  lemma HolderGone(r: Reg, o: ObjId)
    requires Inv(r) && Held(r, o) > 0
    ensures var r' := Unreference(r, o);
      && r'.names == r.names && r'.next == r.next && r'.held == r.held[o := Held(r, o) - 1]
  {
    hide Wf, Placed, OnePerName, Counted, LinkedWhileHeld, NameOk, SearchStore, Link, AddRef;
  }

  lemma UnreferenceCounts(r: Reg, o: ObjId)
    requires Inv(r) && Held(r, o) > 0
    ensures Counted(Unreference(r, o))
    ensures LinkedWhileHeld(Unreference(r, o).store, Unreference(r, o).held)
  {
    hide Wf, Placed, Unreference, CaseHash, NameOk, Balanced, OnePerName;
    var r' := Unreference(r, o);
    HolderGone(r, o);
    forall p
      ensures Balanced(r'.refs, p, if Held(r', p) > 0 then Held(r', p) + 1 else 0, p in r.names)
      ensures OccIn(r'.store.buckets, p) == if Held(r', p) > 0 then 1 else 0
    {
      UnreferenceBooks(r, o, p);
    }
  }

  /** unreference: one holder less. */
  lemma UnreferenceKeeps(r: Reg, o: ObjId)
    requires Inv(r) && Held(r, o) > 0
    ensures var r' := Unreference(r, o);
      && Inv(r') && r'.names == r.names
      && Held(r', o) == Held(r, o) - 1 && (forall p :: p != o ==> Held(r', p) == Held(r, p))
  {
    hide Wf, Placed, Unreference, CaseHash, NameOk, Counted, LinkedWhileHeld, OnePerName;
    UnreferenceStore(r, o);
    UnreferenceCounts(r, o);
    HolderGone(r, o);
    FewerHolders(r.names, r.held, Unreference(r, o).held);
  }

  /** The destructor runs exactly for the queue that has lost its last holder. */
  lemma UnreferenceDestroys(r: Reg, o: ObjId, p: ObjId)
    requires Inv(r) && Held(r, o) > 0
    ensures Times(Unreference(r, o).refs.destroyed, p)
         == Times(r.refs.destroyed, p) + if p == o && Held(r, o) == 1 then 1 else 0
  {
    hide Wf, Placed, Search, CaseHash, Unreference;
    UnreferenceKeeps(r, o);
    UnreferenceBooks(r, o, p);
    assert Balanced(r.refs, p, if Held(r, p) > 0 then Held(r, p) + 1 else 0, p in r.names);
  }

  lemma FewerHolders(names: map<ObjId, string>, held: map<ObjId, nat>, held': map<ObjId, nat>)
    requires OnePerName(names, held) && forall p :: p in held' && held'[p] > 0 ==> p in held && held[p] > 0
    ensures OnePerName(names, held')
  {
  }

  // ---------- every run ----------

  datatype Op = GetOp(name: string, ifExists: bool) | UnreferenceOp(o: ObjId)

  /** A caller gives back only what it holds, and asks for new queues only under names that can
      be linked. */
  ghost predicate Enabled(r: Reg, op: Op) {
    && |r.store.buckets| == TPS_MAX_BUCKETS
    && match op
       case GetOp(name, ifExists) => Bytes(name) && MayGet(name, ifExists)
       case UnreferenceOp(o) => Held(r, o) > 0 && o in r.names && NameOk(r.names[o])
  }

  function Apply(r: Reg, op: Op): Reg
    requires Enabled(r, op)
  {
    match op
    case GetOp(name, ifExists) => Get(r, name, ifExists).reg
    case UnreferenceOp(o) => Unreference(r, o)
  }

  ghost predicate RunFrom(r: Reg, ops: seq<Op>, r': Reg)
    decreases |ops|
  {
    if ops == [] then r' == r else Enabled(r, ops[0]) && RunFrom(Apply(r, ops[0]), ops[1..], r')
  }

  lemma StepKeeps(r: Reg, op: Op)
    requires Inv(r) && Enabled(r, op)
    ensures Inv(Apply(r, op))
  {
    match op
    case GetOp(name, ifExists) => GetKeeps(r, name, ifExists);
    case UnreferenceOp(o) => UnreferenceKeeps(r, o);
  }

  lemma EmptyInv()
    ensures Inv(EMPTY)
  {
    EmptyBuckets(EMPTY.store.buckets, 0);
    forall o
      ensures OccIn(EMPTY.store.buckets, o) == 0
    {
      EmptyBuckets(EMPTY.store.buckets, o);
    }
  }

  lemma {:induction false} RunKeeps(r: Reg, ops: seq<Op>, r': Reg)
    requires Inv(r) && RunFrom(r, ops, r')
    ensures Inv(r')
    decreases |ops|
  {
    if ops != [] {
      StepKeeps(r, ops[0]);
      RunKeeps(Apply(r, ops[0]), ops[1..], r');
    }
  }

  /** After every run of get and unreference: a queue is linked exactly while it has holders,
      and then its counter is their number plus one; without holders it has been destroyed
      once; and no two live queues have names that differ only in case. */
  lemma EveryRun(ops: seq<Op>, r: Reg, o: ObjId, p: ObjId)
    requires RunFrom(EMPTY, ops, r) && o in r.names
    ensures if Held(r, o) > 0
            then OccIn(r.store.buckets, o) == 1 && o in r.refs.count && r.refs.count[o] == Held(r, o) + 1
                 && Times(r.refs.destroyed, o) == 0
            else OccIn(r.store.buckets, o) == 0 && o !in r.refs.count && Times(r.refs.destroyed, o) == 1
    ensures Held(r, o) > 0 && Held(r, p) > 0 && SameName(r.names, o, p) ==> o == p
  {
    EmptyInv();
    RunKeeps(EMPTY, ops, r);
  }
}
