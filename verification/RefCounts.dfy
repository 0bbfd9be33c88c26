/** Reference counts of the objects of obj.c.

    An object is an address that is never reused. `count` holds the counter of
    every object that is still alive; `destroyed` records, in order, the objects
    whose destructor has run. */
module RefCounts {

  type ObjId = nat

  datatype Refs = Refs(count: map<ObjId, int>, destroyed: seq<ObjId>)

  /** A new object starts with the one reference that its creator holds. */
  function Alloc(r: Refs, o: ObjId): Refs {
    r.(count := r.count[o := 1])
  }

  /** The effect of internal_obj_ref. A pointer whose magic number is gone is
      rejected, and a counter that reaches zero destroys the object. */
  function AddRef(r: Refs, o: ObjId, delta: int): Refs {
    if o !in r.count || delta == 0 then r
    else if r.count[o] + delta <= 0 then Refs(r.count - {o}, r.destroyed + [o])
    else r.(count := r.count[o := r.count[o] + delta])
  }

  /** Dropping one reference for each member of a list, from left to right. */
  function DropAll(r: Refs, objs: seq<ObjId>): Refs
    decreases |objs|
  {
    if objs == [] then r else DropAll(AddRef(r, objs[0], -1), objs[1..])
  }

  /** The number of occurrences of an object in a list. */
  function Times(s: seq<ObjId>, o: ObjId): nat {
    if s == [] then 0 else (if s[0] == o then 1 else 0) + Times(s[1..], o)
  }

  lemma {:induction false} TimesAppend(a: seq<ObjId>, b: seq<ObjId>, o: ObjId)
    ensures Times(a + b, o) == Times(a, o) + Times(b, o)
  {
    if a == [] {
      assert a + b == b;
    } else {
      assert (a + b)[1..] == a[1..] + b;
      TimesAppend(a[1..], b, o);
    }
  }

  /** The books for one address, `n` being the number of references to it that anybody
      holds and `known` whether it was ever allocated. While there are references the
      object is alive and its counter is their number; afterwards its destructor has
      run exactly once. */
  ghost predicate Balanced(r: Refs, o: ObjId, n: int, known: bool) {
    if n > 0 then
      known && o in r.count && r.count[o] == n && Times(r.destroyed, o) == 0
    else
      n == 0 && o !in r.count && Times(r.destroyed, o) == if known then 1 else 0
  }

  lemma AllocBalanced(r: Refs, o: ObjId, x: ObjId, n: int, known: bool)
    requires Balanced(r, o, n, known) && (x == o ==> !known)
    ensures if x == o then Balanced(Alloc(r, x), o, 1, true) else Balanced(Alloc(r, x), o, n, known)
  {
  }

  /** Taking or releasing one reference keeps the books; releasing the last one runs the
      destructor, and nothing else does. */
  lemma RefBalanced(r: Refs, o: ObjId, x: ObjId, delta: int, n: int, known: bool)
    requires Balanced(r, o, n, known) && (delta == 1 || delta == -1) && (x == o ==> n > 0)
    ensures Balanced(AddRef(r, x, delta), o, n + (if x == o then delta else 0), known)
    ensures Times(AddRef(r, x, delta).destroyed, o)
         == Times(r.destroyed, o) + if x == o && n + delta == 0 then 1 else 0
  {
    TimesAppend(r.destroyed, [x], o);
  }

  lemma {:induction false} DropAllBalanced(r: Refs, objs: seq<ObjId>, o: ObjId, n: int, known: bool)
    requires Balanced(r, o, n + Times(objs, o), known) && n >= 0
    ensures Balanced(DropAll(r, objs), o, n, known)
    decreases |objs|
  {
    if objs != [] {
      RefBalanced(r, o, objs[0], -1, n + Times(objs, o), known);
      DropAllBalanced(AddRef(r, objs[0], -1), objs[1..], o, n, known);
    }
  }
}
