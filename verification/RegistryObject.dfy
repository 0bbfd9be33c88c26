/** The registry as taskqueue.c keeps it: a container object, reference counters that are
    updated in place, and queues that come and go. Proved against Registry. */
module RegistryObject {

  import opened Common
  import opened RefCounts
  import opened Container
  import opened ContainerObjects
  import opened Registry

  /** The container tps_singletons, the reference counters, and the names of the queues. */
  class Singletons {
    const heap: ObjHeap
    const container: HashContainer
    var names: map<ObjId, string>
    ghost var held: map<ObjId, nat>
    var next: ObjId

    ghost predicate Valid()
      reads this, heap, container
    {
      container.heap == heap && Inv(View())
    }

    ghost function View(): Reg
      reads this, heap, container
    {
      Reg(container.View(), heap.View(), names, held, next)
    }

    constructor ()
      ensures Valid() && fresh(heap) && fresh(container) && View() == EMPTY
    {
      var refs := new ObjHeap();
      heap := refs;
      container := new HashContainer(TPS_MAX_BUCKETS, refs);
      names, held, next := map[], map[], 0;
      new;
      EmptyInv();
    }

    /** obj_find: a search by name that starts from the hash of the name. */
    method Find(name: string) returns (p: Option<ObjId>)
      requires Valid() && Bytes(name)
      modifies heap, container
      ensures var f := Lookup(old(View()), name);
        && p == (if f.outcome.Returned? then Some(f.outcome.obj) else None)
        && container.View() == After(f) && heap.View() == f.work.refs
    {
      hide Inv, Search, Order;
      InvBuckets(View());
      var hash := StrCaseHash(name);
      var results;
      p, results := container.Callback(FIND, hash, ByName(names, name));
    }

    /** A queue with the reference of its creator and the one of the registry. */
    method Create(name: string) returns (o: ObjId)
      requires container.heap == heap && |container.buckets| == TPS_MAX_BUCKETS && NameOk(name)
      modifies this, heap, container
      ensures o == old(next) && View() == Registry.Create(old(View()), name)
    {
      hide Link, AddRef, RefCounts.Alloc, CaseHash;
      o := next;
      heap.Alloc(o);
      names, held, next := names[o := name], held[o := 1], next + 1;
      var hash := StrCaseHash(name);
      container.Link(o, hash);
    }

    /** spd_taskqueue_get, for a name whose queue can be linked if one has to be created. */
    method Get(name: string, ifExists: bool) returns (p: Option<ObjId>)
      requires Valid() && Bytes(name) && MayGet(name, ifExists)
      modifies this, heap, container
      ensures Valid() && Got(View(), p) == Registry.Get(old(View()), name, ifExists)
    {
      hide Inv, Lookup, Registry.Create, Live;
      InvBuckets(View());
      GetKeeps(View(), name, ifExists);
      if name == "" {
        return None;
      }
      LookupExact(View(), name);
      p := Find(name);
      if p.Some? {
        held := held[p.value := (if p.value in held then held[p.value] else 0) + 1];
      } else if !ifExists {
        var o := Create(name);
        p := Some(o);
      }
    }

    /** spd_taskqueue_unreference, by a caller that holds the queue. */
    method Unreference(o: ObjId)
      requires Valid() && Held(View(), o) > 0
      modifies this, heap, container
      ensures Valid() && View() == Registry.Unreference(old(View()), o)
    {
      hide Inv, Link, AddRef, Search, Order, CaseHash;
      InvBuckets(View());
      InvHolder(View(), o);
      UnreferenceKeeps(View(), o);
      var hash := StrCaseHash(names[o]);
      container.Unlink(o, hash);
      var before := heap.Ref(o, -1);
      if before > 1 {
        container.Link(o, hash);
      }
      held := held[o := held[o] - 1];
    }
  }

  lemma InvHolder(r: Reg, o: ObjId)
    requires Inv(r) && Held(r, o) > 0
    ensures o in r.names && NameOk(r.names[o])
  {
  }
}
