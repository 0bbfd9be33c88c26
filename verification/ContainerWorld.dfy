/** Reference conservation over every run of obj.c's operations: allocation, taking and
    dropping references, linking, searching with any flags, both kinds of iterator,
    and the destruction of containers by their last reference. */
module ContainerWorld {

  import opened Common
  import opened RefCounts
  import opened Container
  import opened ContainerRounds
  import opened ContainerSearch
  import opened ContainerIter

  /** `held` are the references in the hands of callers and iterators, `conts` the
      containers that are alive, `kinds` the addresses allocated as containers and
      `known` every address ever allocated. */
  datatype World = World(refs: Refs, held: multiset<ObjId>, conts: map<ObjId, Store>, kinds: set<ObjId>,
                         known: set<ObjId>)

  datatype Op =
    | NewObject(o: ObjId)
    | NewContainer(c: ObjId, n: nat)
    | TakeHandle(o: ObjId)
    | DropHandle(o: ObjId)
    | LinkObj(c: ObjId, hash: CInt, o: ObjId)
    | SearchIn(c: ObjId, orders: seq<seq<nat>>, f: Flags, cb: Callback, results: ObjId)
    | Next(c: ObjId, it: Iter)
    | NextUnlink(c: ObjId, it: Iter)

  // ---------- the references held by all containers ----------

  ghost function Total(conts: map<ObjId, Store>, o: ObjId): nat
    decreases |conts|
  {
    if conts == map[] then 0
    else
      var c :| c in conts;
      OccIn(conts[c].buckets, o) + Total(conts - {c}, o)
  }

  lemma {:induction false} TotalWithout(conts: map<ObjId, Store>, c: ObjId, o: ObjId)
    requires c in conts
    ensures Total(conts, o) == OccIn(conts[c].buckets, o) + Total(conts - {c}, o)
    decreases |conts|
  {
    var d :| d in conts && Total(conts, o) == OccIn(conts[d].buckets, o) + Total(conts - {d}, o);
    if d != c {
      TotalWithout(conts - {d}, c, o);
      TotalWithout(conts - {c}, d, o);
      assert conts - {d} - {c} == conts - {c} - {d};
    }
  }

  lemma TotalPut(conts: map<ObjId, Store>, c: ObjId, s: Store, o: ObjId)
    ensures Total(conts[c := s], o)
         == Total(conts, o) + OccIn(s.buckets, o) - if c in conts then OccIn(conts[c].buckets, o) else 0
  {
    TotalWithout(conts[c := s], c, o);
    assert conts[c := s] - {c} == conts - {c};
    if c in conts {
      TotalWithout(conts, c, o);
    } else {
      assert conts - {c} == conts;
    }
  }

  lemma {:induction false} FlattenOcc(bs: seq<Bucket>, o: ObjId)
    ensures Times(Flatten(bs), o) == OccIn(bs, o)
  {
    if bs != [] {
      FlattenOcc(bs[1..], o);
      ObjsOcc(bs[0], o);
      TimesAppend(Objs(bs[0]), Flatten(bs[1..]), o);
    }
  }

  lemma {:induction false} ObjsOcc(b: Bucket, o: ObjId)
    ensures Times(Objs(b), o) == Occ(b, o)
    decreases |b|
  {
    if b != [] {
      assert Objs(b)[1..] == Objs(b[1..]);
      ObjsOcc(b[1..], o);
    }
  }

  // ---------- the invariant ----------

  /** All references to an address that anybody holds. */
  ghost function Outstanding(w: World, o: ObjId): nat {
    w.held[o] + Total(w.conts, o)
  }

  /** The books balance for every address. */
  ghost predicate Books(w: World) {
    forall o :: Balanced(w.refs, o, Outstanding(w, o), o in w.known)
  }

  ghost predicate AllWf(conts: map<ObjId, Store>) {
    forall c :: c in conts ==> Wf(conts[c])
  }

  /** Every container is well formed, and alive exactly while somebody holds it. */
  ghost predicate Shape(w: World) {
    && AllWf(w.conts)
    && w.conts.Keys <= w.kinds <= w.known
    && (forall c :: c in w.kinds ==> (c in w.held <==> c in w.conts))
    && (forall c :: c in w.kinds ==> Total(w.conts, c) == 0)
  }

  ghost predicate Inv(w: World) {
    Books(w) && Shape(w)
  }

  const EMPTY := World(Refs(map[], []), multiset{}, map[], {}, {})

  lemma EmptyInv()
    ensures Inv(EMPTY)
  {
  }

  /** What a program that follows the rules may do next: it uses only what it holds a
      reference to, links only plain objects, and its iterators come from the calls
      that obj.h provides. The rounds of a search and the order in which they visit buckets
      are left open. */
  ghost predicate Enabled(w: World, op: Op) {
    match op
    case NewObject(o) => o !in w.known
    case NewContainer(c, n) => c !in w.known && n > 0
    case TakeHandle(o) => o in w.held
    case DropHandle(o) => o in w.held
    case LinkObj(c, hash, o) =>
      && c in w.conts && o in w.held && o !in w.kinds
      && |w.conts[c].buckets| > 0 && Linkable(hash, |w.conts[c].buckets|)
    case SearchIn(c, orders, f, cb, results) =>
      c in w.conts && results !in w.known && OrdersOk(orders, |w.conts[c].buckets|)
    case Next(c, it) => c in w.conts && IterOk(w.conts[c], it)
    case NextUnlink(c, it) => c in w.conts && IterOk(w.conts[c], it)
  }

  // ---------- the operations ----------

  function AddContainer(w: World, c: ObjId, s: Store): World {
    World(Alloc(w.refs, c), w.held + multiset{c}, w.conts[c := s], w.kinds + {c}, w.known + {c})
  }

  /** obj_ref(o, -1). The last reference to a container runs container_destruct, which
      drops one reference per entry and then frees the entries. */
  ghost function Drop(w: World, o: ObjId): World {
    var refs, held := AddRef(w.refs, o, -1), w.held - multiset{o};
    if o in w.conts && w.held[o] == 1 then
      w.(refs := DropAll(refs, Flatten(w.conts[o].buckets)), held := held, conts := w.conts - {o})
    else w.(refs := refs, held := held)
  }

  ghost function DoLink(w: World, c: ObjId, hash: CInt, o: ObjId): World
    requires c in w.conts && |w.conts[c].buckets| > 0 && Linkable(hash, |w.conts[c].buckets|)
  {
    w.(refs := AddRef(w.refs, o, 1), conts := w.conts[c := Link(w.conts[c], hash, o)])
  }

  function SearchWork(w: World, c: ObjId): Work
    requires c in w.conts
  {
    Work(w.refs, w.conts[c].version, w.conts[c].elements, NewStore(1))
  }

  function HandedSet(r: Outcome): multiset<ObjId> {
    if r.Returned? then multiset{r.obj} else multiset{}
  }

  /** The world after a search, before its results are wrapped up. */
  function Settle(w: World, c: ObjId, r: Found): World {
    World(r.work.refs, w.held + HandedSet(r.outcome), w.conts[c := After(r)], w.kinds, w.known)
  }

  ghost function DoSearch(w: World, c: ObjId, orders: seq<seq<nat>>, f: Flags, cb: Callback, results: ObjId): World
    requires c in w.conts && OrdersOk(orders, |w.conts[c].buckets|)
  {
    var r := Repeat(w.conts[c].buckets, orders, f, cb, SearchWork(w, c));
    if Collects(f) then AddContainer(Settle(w, c, r), results, r.work.multi) else Settle(w, c, r)
  }

  ghost function DoNext(w: World, c: ObjId, it: Iter): World
    requires Enabled(w, Next(c, it))
  {
    match Locate(w.conts[c], it)
    case None => w
    case Some(h) => w.(refs := AddRef(w.refs, h.entry.obj, 1), held := w.held + multiset{h.entry.obj})
  }

  ghost function DoNextUnlink(w: World, c: ObjId, it: Iter): World
    requires Enabled(w, NextUnlink(c, it)) && Wf(w.conts[c])
  {
    AdvancePosition(w.conts[c], it);
    match Locate(w.conts[c], it)
    case None => w
    case Some(h) => w.(held := w.held + multiset{h.entry.obj}, conts := w.conts[c := TakeOut(w.conts[c], h)])
  }

  ghost function Apply(w: World, op: Op): World
    requires Inv(w) && Enabled(w, op)
  {
    match op
    case NewObject(o) =>
      w.(refs := Alloc(w.refs, o), held := w.held + multiset{o}, known := w.known + {o})
    case NewContainer(c, n) => AddContainer(w, c, NewStore(n))
    case TakeHandle(o) => w.(refs := AddRef(w.refs, o, 1), held := w.held + multiset{o})
    case DropHandle(o) => Drop(w, o)
    case LinkObj(c, hash, o) => DoLink(w, c, hash, o)
    case SearchIn(c, orders, f, cb, results) => DoSearch(w, c, orders, f, cb, results)
    case Next(c, it) => DoNext(w, c, it)
    case NextUnlink(c, it) => DoNextUnlink(w, c, it)
  }

  // ---------- the invariant, operation by operation ----------

  lemma ShapeWf(w: World, c: ObjId)
    requires Shape(w) && c in w.conts
    ensures Wf(w.conts[c])
  {
  }

  lemma PutShape(w: World, c: ObjId, s: Store, refs: Refs, held: multiset<ObjId>)
    requires Shape(w) && c in w.conts && Wf(s)
    requires forall d :: d in w.kinds ==> OccIn(s.buckets, d) == 0 && held[d] == w.held[d]
    ensures Shape(w.(refs := refs, held := held, conts := w.conts[c := s]))
  {
    forall d | d in w.kinds
      ensures Total(w.conts[c := s], d) == 0
    {
      TotalPut(w.conts, c, s, d);
    }
  }

  lemma AddContainerKeeps(w: World, c: ObjId, s: Store)
    requires forall o :: Balanced(w.refs, o, Outstanding(w, o) + OccIn(s.buckets, o), o in w.known)
    requires Shape(w) && c !in w.known && Wf(s)
    requires forall d :: d in w.kinds ==> OccIn(s.buckets, d) == 0
    ensures Inv(AddContainer(w, c, s))
  {
    var w' := AddContainer(w, c, s);
    forall o
      ensures Balanced(w'.refs, o, Outstanding(w', o), o in w'.known)
      ensures o in w'.kinds ==> Total(w'.conts, o) == 0
    {
      TotalPut(w.conts, c, s, o);
      AllocBalanced(w.refs, o, c, Outstanding(w, o) + OccIn(s.buckets, o), o in w.known);
    }
  }

  lemma NewContainerKeeps(w: World, c: ObjId, n: nat)
    requires Inv(w) && Enabled(w, NewContainer(c, n))
    ensures Inv(AddContainer(w, c, NewStore(n)))
  {
    forall o
      ensures OccIn(NewStore(n).buckets, o) == 0 && Count(NewStore(n).buckets) == 0
    {
      EmptyBuckets(NewStore(n).buckets, o);
    }
    AddContainerKeeps(w, c, NewStore(n));
  }

  lemma NewObjectKeeps(w: World, x: ObjId)
    requires Inv(w) && Enabled(w, NewObject(x))
    ensures Inv(Apply(w, NewObject(x)))
  {
    var w' := Apply(w, NewObject(x));
    forall o
      ensures Balanced(w'.refs, o, Outstanding(w', o), o in w'.known)
    {
      AllocBalanced(w.refs, o, x, Outstanding(w, o), o in w.known);
    }
  }

  lemma TakeKeeps(w: World, x: ObjId)
    requires Inv(w) && Outstanding(w, x) > 0
    ensures Inv(w.(refs := AddRef(w.refs, x, 1), held := w.held + multiset{x}))
  {
    var w' := w.(refs := AddRef(w.refs, x, 1), held := w.held + multiset{x});
    forall o
      ensures Balanced(w'.refs, o, Outstanding(w', o), o in w'.known)
    {
      RefBalanced(w.refs, o, x, 1, Outstanding(w, o), o in w.known);
    }
    if x in w.kinds {
      assert Total(w.conts, x) == 0;
    }
  }

  lemma DropBooks(w: World, x: ObjId)
    requires Books(w) && x in w.held
    ensures Books(w.(refs := AddRef(w.refs, x, -1), held := w.held - multiset{x}))
  {
    var w' := w.(refs := AddRef(w.refs, x, -1), held := w.held - multiset{x});
    forall o
      ensures Balanced(w'.refs, o, Outstanding(w', o), o in w'.known)
    {
      RefBalanced(w.refs, o, x, -1, Outstanding(w, o), o in w.known);
    }
  }

  /** container_destruct: the entries' references go with the container. */
  lemma DestroyBooks(w: World, c: ObjId)
    requires Books(w) && c in w.conts
    ensures Books(w.(refs := DropAll(w.refs, Flatten(w.conts[c].buckets)), conts := w.conts - {c}))
  {
    var objs := Flatten(w.conts[c].buckets);
    var w' := w.(refs := DropAll(w.refs, objs), conts := w.conts - {c});
    forall o
      ensures Balanced(w'.refs, o, Outstanding(w', o), o in w'.known)
    {
      TotalWithout(w.conts, c, o);
      FlattenOcc(w.conts[c].buckets, o);
      DropAllBalanced(w.refs, objs, o, Outstanding(w', o), o in w.known);
    }
  }

  lemma DropShape(w: World, x: ObjId)
    requires Shape(w) && x in w.held
    ensures Shape(Drop(w, x))
  {
    if x in w.conts && w.held[x] == 1 {
      forall d | d in w.kinds
        ensures Total(w.conts - {x}, d) == 0
      {
        TotalWithout(w.conts, x, d);
      }
    }
    assert forall d :: d in w.kinds && d != x ==> (w.held - multiset{x})[d] == w.held[d];
  }

  lemma DropKeeps(w: World, x: ObjId)
    requires Inv(w) && x in w.held
    ensures Inv(Drop(w, x))
  {
    DropBooks(w, x);
    DropShape(w, x);
    if x in w.conts && w.held[x] == 1 {
      DestroyBooks(w.(refs := AddRef(w.refs, x, -1), held := w.held - multiset{x}), x);
    }
  }

  lemma LinkKeeps(w: World, c: ObjId, hash: CInt, x: ObjId)
    requires Inv(w) && Enabled(w, LinkObj(c, hash, x))
    ensures Inv(DoLink(w, c, hash, x))
  {
    var s, w' := Link(w.conts[c], hash, x), DoLink(w, c, hash, x);
    LinkKeepsWf(w.conts[c], hash, x);
    forall o
      ensures Balanced(w'.refs, o, Outstanding(w', o), o in w'.known)
      ensures o in w.kinds ==> OccIn(s.buckets, o) == 0
    {
      LinkOcc(w.conts[c], hash, x, o);
      TotalPut(w.conts, c, s, o);
      TotalWithout(w.conts, c, o);
      RefBalanced(w.refs, o, x, 1, Outstanding(w, o), o in w.known);
    }
    PutShape(w, c, s, w'.refs, w.held);
  }

  lemma LinkedIsHeld(w: World, c: ObjId, h: Hit)
    requires Inv(w) && c in w.conts && Linked(w.conts[c], h.bucket, h.entry)
    ensures Outstanding(w, h.entry.obj) > 0 && h.entry.obj !in w.kinds
  {
    TakeOutEvolves(w.conts[c], h, h.entry.obj);
    TotalWithout(w.conts, c, h.entry.obj);
  }

  lemma NextKeeps(w: World, c: ObjId, it: Iter)
    requires Inv(w) && Enabled(w, Next(c, it))
    ensures Inv(DoNext(w, c, it))
  {
    AdvancePosition(w.conts[c], it);
    if Locate(w.conts[c], it).Some? {
      LinkedIsHeld(w, c, Locate(w.conts[c], it).value);
      TakeKeeps(w, Locate(w.conts[c], it).value.entry.obj);
    }
  }

  lemma TakeOutKeeps(w: World, c: ObjId, h: Hit)
    requires Inv(w) && c in w.conts && Linked(w.conts[c], h.bucket, h.entry)
    ensures Inv(w.(held := w.held + multiset{h.entry.obj}, conts := w.conts[c := TakeOut(w.conts[c], h)]))
  {
    var s, held := TakeOut(w.conts[c], h), w.held + multiset{h.entry.obj};
    var w' := w.(held := held, conts := w.conts[c := s]);
    LinkedIsHeld(w, c, h);
    forall o
      ensures Wf(s)
      ensures Balanced(w'.refs, o, Outstanding(w', o), o in w'.known)
      ensures o in w.kinds ==> OccIn(s.buckets, o) == 0
    {
      TakeOutEvolves(w.conts[c], h, o);
      TotalPut(w.conts, c, s, o);
      TotalWithout(w.conts, c, o);
    }
    PutShape(w, c, s, w.refs, held);
  }

  lemma NextUnlinkKeeps(w: World, c: ObjId, it: Iter)
    requires Inv(w) && Enabled(w, NextUnlink(c, it))
    ensures Inv(DoNextUnlink(w, c, it))
  {
    AdvancePosition(w.conts[c], it);
    if Locate(w.conts[c], it).Some? {
      TakeOutKeeps(w, c, Locate(w.conts[c], it).value);
    }
  }

  /** One address's books after a search that leaves the store `s`. */
  lemma SearchBooks(w: World, c: ObjId, orders: seq<seq<nat>>, f: Flags, cb: Callback, r: Found, s: Store, o: ObjId)
    requires Inv(w) && c in w.conts && OrdersOk(orders, |w.conts[c].buckets|)
    requires r == Repeat(w.conts[c].buckets, orders, f, cb, SearchWork(w, c)) && s == After(r)
    ensures Balanced(r.work.refs, o, w.held[o] + Handed(r.outcome, o) + Total(w.conts[c := s], o)
                                     + OccIn(r.work.multi.buckets, o), o in w.known)
    ensures o in w.kinds ==> SearchTotal(r, o, 0) == 0
  {
    hide Repeat, Balanced, Total, Wf;
    var bs, work := w.conts[c].buckets, SearchWork(w, c);
    EmptyBuckets(NewStore(1).buckets, o);
    TotalWithout(w.conts, c, o);
    TotalPut(w.conts, c, s, o);
    RepeatConserves(bs, orders, f, cb, work, o, w.held[o] + Total(w.conts - {c}, o), o in w.known);
    if o in w.kinds {
      RepeatStranger(bs, orders, f, cb, work, o);
    }
  }

  /** The same books, read off the world that the search leaves. */
  lemma SettledBooks(w: World, c: ObjId, orders: seq<seq<nat>>, f: Flags, cb: Callback, r: Found, w1: World, o: ObjId)
    requires Inv(w) && c in w.conts && OrdersOk(orders, |w.conts[c].buckets|)
    requires r == Repeat(w.conts[c].buckets, orders, f, cb, SearchWork(w, c)) && w1 == Settle(w, c, r)
    ensures Balanced(w1.refs, o, Outstanding(w1, o) + OccIn(r.work.multi.buckets, o), o in w1.known)
    ensures o in w.kinds ==>
      OccIn(r.work.multi.buckets, o) == 0 && OccIn(After(r).buckets, o) == 0 && w1.held[o] == w.held[o]
  {
    hide Inv, Repeat, Balanced, Total, OccIn;
    SearchBooks(w, c, orders, f, cb, r, After(r), o);
    assert w1.held[o] == w.held[o] + Handed(r.outcome, o);
  }

  /** What a search does to the books and the shape, up to the result container. */
  lemma SearchEffect(w: World, c: ObjId, orders: seq<seq<nat>>, f: Flags, cb: Callback, r: Found, w1: World)
    requires Inv(w) && c in w.conts && OrdersOk(orders, |w.conts[c].buckets|)
    requires r == Repeat(w.conts[c].buckets, orders, f, cb, SearchWork(w, c)) && w1 == Settle(w, c, r)
    ensures Shape(w1)
    ensures forall o :: Balanced(w1.refs, o, Outstanding(w1, o) + OccIn(r.work.multi.buckets, o), o in w1.known)
    ensures forall d :: d in w.kinds ==> OccIn(r.work.multi.buckets, d) == 0
  {
    hide Books, Shape, Repeat, Balanced, Outstanding, Total, OccIn, Wf;
    var s := After(r);
    assert Wf(s) by {
      ShapeWf(w, c);
      RepeatEvolves(w.conts[c].buckets, orders, f, cb, SearchWork(w, c));
    }
    forall o
      ensures Balanced(w1.refs, o, Outstanding(w1, o) + OccIn(r.work.multi.buckets, o), o in w1.known)
      ensures o in w.kinds ==>
        OccIn(r.work.multi.buckets, o) == 0 && OccIn(s.buckets, o) == 0 && w1.held[o] == w.held[o]
    {
      SettledBooks(w, c, orders, f, cb, r, w1, o);
    }
    PutShape(w, c, s, r.work.refs, w1.held);
  }

  /** The results of OBJ_MULTIPLE are a container of their own, held by the iterator. */
  lemma WrapUp(w1: World, f: Flags, multi: Store, results: ObjId)
    requires Shape(w1) && Wf(multi) && results !in w1.known
    requires forall o :: Balanced(w1.refs, o, Outstanding(w1, o) + OccIn(multi.buckets, o), o in w1.known)
    requires forall d :: d in w1.kinds ==> OccIn(multi.buckets, d) == 0
    requires !Collects(f) ==> forall o :: OccIn(multi.buckets, o) == 0
    ensures Inv(if Collects(f) then AddContainer(w1, results, multi) else w1)
  {
    if Collects(f) {
      AddContainerKeeps(w1, results, multi);
    }
  }

  lemma SearchKeeps(w: World, c: ObjId, orders: seq<seq<nat>>, f: Flags, cb: Callback, results: ObjId)
    requires Inv(w) && Enabled(w, SearchIn(c, orders, f, cb, results))
    ensures Inv(DoSearch(w, c, orders, f, cb, results))
  {
    hide Repeat, Balanced, Shape, Wf, Total;
    var r := Repeat(w.conts[c].buckets, orders, f, cb, SearchWork(w, c));
    var w1 := Settle(w, c, r);
    SearchEffect(w, c, orders, f, cb, r, w1);
    NewStoreWf();
    RepeatMulti(w.conts[c].buckets, orders, f, cb, SearchWork(w, c));
    WrapUp(w1, f, r.work.multi, results);
  }

  /** Conservation, step by step. */
  lemma StepKeeps(w: World, op: Op)
    requires Inv(w) && Enabled(w, op)
    ensures Inv(Apply(w, op))
  {
    match op {
      case NewObject(o) => NewObjectKeeps(w, o);
      case NewContainer(c, n) => NewContainerKeeps(w, c, n);
      case TakeHandle(o) => TakeKeeps(w, o);
      case DropHandle(o) => DropKeeps(w, o);
      case LinkObj(c, hash, o) => LinkKeeps(w, c, hash, o);
      case SearchIn(c, orders, f, cb, results) => SearchKeeps(w, c, orders, f, cb, results);
      case Next(c, it) => NextKeeps(w, c, it);
      case NextUnlink(c, it) => NextUnlinkKeeps(w, c, it);
    }
  }

  // ---------- whole runs ----------

  ghost predicate IsRun(w: World, ops: seq<Op>, w': World)
    requires Inv(w)
    decreases |ops|
  {
    if ops == [] then w == w'
    else
      Enabled(w, ops[0]) && (StepKeeps(w, ops[0]); IsRun(Apply(w, ops[0]), ops[1..], w'))
  }

  /** Over every run from the empty program: an object with references is alive and its
      counter is their exact number; an object that was allocated and to which nobody
      refers any more has had its destructor run exactly once. */
  lemma {:induction false} RunsConserve(w: World, ops: seq<Op>, w': World, o: ObjId)
    requires Inv(w) && IsRun(w, ops, w')
    ensures Outstanding(w', o) > 0 ==>
      o in w'.refs.count && w'.refs.count[o] == Outstanding(w', o) && Times(w'.refs.destroyed, o) == 0
    ensures Outstanding(w', o) == 0 ==>
      o !in w'.refs.count && Times(w'.refs.destroyed, o) == if o in w'.known then 1 else 0
    decreases |ops|
  {
    if ops == [] {
      assert Balanced(w'.refs, o, Outstanding(w', o), o in w'.known);
    } else {
      StepKeeps(w, ops[0]);
      RunsConserve(Apply(w, ops[0]), ops[1..], w', o);
    }
  }

  /** A container lives exactly as long as somebody holds it. */
  lemma {:induction false} ContainersLiveWhileHeld(w: World, ops: seq<Op>, w': World, c: ObjId)
    requires Inv(w) && IsRun(w, ops, w') && c in w'.kinds
    ensures c in w'.conts <==> c in w'.held
    decreases |ops|
  {
    if ops != [] {
      StepKeeps(w, ops[0]);
      ContainersLiveWhileHeld(Apply(w, ops[0]), ops[1..], w', c);
    }
  }
}
