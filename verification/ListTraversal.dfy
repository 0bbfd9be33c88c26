/** The safe traversal of linkedlist.h: SPD_LIST_TRAVERSE_SAFE_BEGIN with the macros that may be
    used inside it. */
module ListTraversal {

  import opened LinkedLists

  lemma ApartNodes(done: seq<Node>, mid: seq<Node>, todo: seq<Node>)
    requires Distinct(done + mid + todo)
    ensures forall n :: n in mid ==> n !in done && n !in todo
    ensures done != [] ==> var k := |done| - 1; done[k] !in done[..k] && done[k] !in mid + todo
  {
    var ns := done + mid + todo;
    assert forall i :: 0 <= i < |mid| ==> ns[|done| + i] == mid[i];
    assert forall i :: 0 <= i < |todo| ==> ns[|done| + |mid| + i] == todo[i];
    assert forall i :: 0 <= i < |done| ==> ns[i] == done[i];
  }

  /** A list in three stretches: what is known of each before its links are changed. */
  lemma Apart(done: seq<Node>, mid: seq<Node>, todo: seq<Node>)
    requires Distinct(done + mid + todo) && Leads(done + mid + todo, null)
    ensures forall n :: n in mid ==> n !in done && n !in todo
    ensures Leads(mid + todo, null) && Leads(todo, null)
    ensures done != [] ==>
      var k := |done| - 1;
      Leads(done[..k], done[k]) && done[k] !in done[..k] && done[k] !in mid + todo
  {
    hide Leads, Distinct;
    ApartNodes(done, mid, todo);
    assert done + mid + todo == done + (mid + todo);
    LeadsSplit(done, mid + todo, null);
    LeadsSplit(mid, todo, null);
    if done != [] {
      var k := |done| - 1;
      assert done[..k] + [done[k]] == done;
      LeadsSplit(done[..k], [done[k]], Head(mid + todo, null));
    }
  }

  /** The links after the change: the last node of `done` leads to the rest. */
  lemma Relinked(done: seq<Node>, rest: seq<Node>)
    requires Leads(rest, null)
    requires done != [] ==>
      var k := |done| - 1; Leads(done[..k], done[k]) && done[k].next == Head(rest, null)
    ensures Leads(done + rest, null)
  {
    if done == [] {
      assert done + rest == rest;
    } else {
      var k := |done| - 1;
      LeadsThrough(done[..k], done[k], rest);
      assert done[..k] + [done[k]] + rest == done + rest;
    }
  }

  /** The sequences before and after the insertion of n. */
  lemma Inserted(ns: seq<Node>, done: seq<Node>, rest: seq<Node>, n: Node, tail: seq<Node>, more: seq<Node>)
    requires ns == done + rest && Distinct(ns) && n !in ns && tail == [n] + rest && more == done + [n] + rest
    ensures done + [] + rest == ns && [] + rest == rest && [] + [n] + rest == tail && done + tail == more
    ensures Distinct(more)
    ensures n !in rest && (done != [] ==> n != done[|done| - 1] && n !in done[..|done| - 1])
    ensures Head(tail, null) == n && Head(rest, null) == NodeAt(rest, 0)
    ensures NodeAt(ns, 0) == if done == [] then NodeAt(rest, 0) else done[0]
    ensures NodeAt(more, 0) == if done == [] then n else done[0]
    ensures if done == [] then NodeAt(done, |done| - 1) == null
            else NodeAt(done, |done| - 1) == done[|done| - 1] == ns[|done| - 1]
    ensures if rest != [] then NodeAt(more, |more| - 1) == NodeAt(ns, |ns| - 1)
            else NodeAt(more, |more| - 1) == n && NodeAt(ns, |ns| - 1) == NodeAt(done, |done| - 1) != n
  {
    hide Distinct;
    SingleDistinct(n);
    DistinctInsert(ns, |done|, [n]);
    assert ns[..|done|] == done && ns[|done|..] == rest;
    assert [] + rest == rest && done + [] == done && [] + [n] == [n] && done + tail == more;
    assert done != [] ==> done[|done| - 1] == ns[|done| - 1];
  }

  lemma SingleDistinct(n: Node)
    ensures Distinct([n])
  {
  }

  lemma Ends(done: seq<Node>, rest: seq<Node>)
    ensures NodeAt(done + rest, 0) == if done == [] then NodeAt(rest, 0) else done[0]
    ensures NodeAt(done + rest, |done + rest| - 1) ==
      if rest == [] then NodeAt(done, |done| - 1) else rest[|rest| - 1]
    ensures NodeAt(rest, 0) == Head(rest, null)
  {
  }

  lemma DistinctDrop(done: seq<Node>, mid: seq<Node>, todo: seq<Node>)
    requires Distinct(done + mid + todo)
    ensures Distinct(done + todo)
  {
    var ns, less := done + mid + todo, done + todo;
    assert forall i :: 0 <= i < |less| ==> less[i] == ns[if i < |done| then i else i + |mid|];
  }

  /** The change to the list when cur, and what lies between it and prev, is taken out. */
  method Unlink(list: List, prev: Node?, cur: Node, next: Node?, ghost done: seq<Node>, ghost mid: seq<Node>,
                ghost todo: seq<Node>)
    requires list.Valid() && list.nodes == done + mid + todo && mid != [] && mid[|mid| - 1] == cur
    requires prev == NodeAt(done, |done| - 1) && next == NodeAt(todo, 0)
    modifies list, list.nodes
    ensures list.Valid() && list.nodes == done + todo && cur.next == null
  {
    hide Leads, Distinct;
    ghost var less := done + todo;
    Apart(done, mid, todo);
    DistinctDrop(done, mid, todo);
    Ends(done, mid + todo);
    assert done + (mid + todo) == list.nodes;
    Ends(done, todo);
    assert mid[|mid| - 1] in mid && list.nodes[|done| + |mid| - 1] == cur;
    assert prev != null ==> list.nodes[|done| - 1] == prev;
    cur.next := null;
    if prev != null {
      prev.next := next;
    } else {
      list.first := next;
    }
    if next == null {
      list.last := prev;
    }
    Relinked(done, todo);
    list.nodes := less;
  }

  /** The change to the list when a node is put behind prev, or in front of all: the last
      pointer stays as it is. */
  method LinkIn(list: List, prev: Node?, n: Node, ghost done: seq<Node>, ghost rest: seq<Node>)
    requires list.Valid() && list.nodes == done + rest && n !in list.nodes
    requires prev == NodeAt(done, |done| - 1)
    modifies list, list.nodes, n
    ensures list.nodes == done + [n] + rest && list.Linked(list.nodes) && list.last == old(list.last)
    ensures list.Valid() <==> rest != []
  {
    hide Leads, Distinct, Head, NodeAt;
    ghost var tail, more := [n] + rest, done + [n] + rest;
    Inserted(list.nodes, done, rest, n, tail, more);
    Apart(done, [], rest);
    if prev != null {
      Neighbours(done, rest);
      n.next := prev.next;
      prev.next := n;
    } else {
      n.next := list.first;
      list.first := n;
    }
    LeadsThrough([], n, rest);
    Relinked(done, tail);
    list.nodes := more;
  }

  /** The local variables of the traversal. `done` are the nodes up to __list_prev, or, when the
      current node has been removed, those up to __new_prev; `late` are nodes that were put
      in after such a removal; `todo` lies ahead. cur is NULL at the end. */
  class Cursor {
    const list: List
    var cur: Node?
    var listNext: Node?
    var listPrev: Node?
    var newPrev: Node?
    ghost var done: seq<Node>
    ghost var late: seq<Node>
    ghost var todo: seq<Node>
    ghost var removed: bool

    ghost function Current(): seq<Node>
      reads this
    {
      if cur == null || removed then [] else [cur]
    }

    ghost predicate Valid()
      reads this, list, list.nodes
    {
      list.Valid() && Variables()
    }

    ghost predicate Variables()
      reads this, list
    {
      && list.nodes == done + late + Current() + todo
      && listNext == NodeAt(todo, 0) && (cur == null ==> todo == [])
      && if removed then
           newPrev == NodeAt(done, |done| - 1) && listPrev == NodeAt(done + late, |done + late| - 1)
         else
           newPrev == cur && listPrev == NodeAt(done, |done| - 1)
    }

    constructor (list: List)
      requires list.Valid()
      ensures this.list == list && Valid() && !removed
      ensures done == late == [] && Current() + todo == list.nodes && (cur == null <==> list.nodes == [])
    {
      this.list := list;
      cur, listPrev := list.first, null;
      newPrev := list.first;
      listNext := if list.first != null then list.first.next else null;
      done, late, removed := [], [], false;
      todo := if list.nodes == [] then [] else list.nodes[1..];
    }

    /** SPD_LIST_REMOVE_CURRENT: with the current node goes what was put in late before it. */
    method RemoveCurrent()
      requires Valid() && cur != null && !removed
      modifies this`newPrev, this`removed, this`late, list, list.nodes
      ensures Valid() && removed && late == [] && old(cur).next == null
      ensures list.nodes == old(done + todo)
    {
      hide List.Valid;
      assert late + [cur] + todo == late + ([cur] + todo) && done + late + [cur] == done + (late + [cur]);
      Unlink(list, listPrev, cur, listNext, done, late + [cur], todo);
      newPrev, removed, late := listPrev, true, [];
      assert done + late == done && done + late + Current() + todo == done + todo;
    }

    /** SPD_LIST_INSERT_BEFORE_CURRENT. It leaves a list exactly if the current node is still in
        it or a node lies ahead; otherwise the last pointer stays behind. */
    method InsertBeforeCurrent(n: Node)
      requires Valid() && cur != null && n !in list.nodes
      modifies this`listPrev, this`done, this`late, list, list.nodes, n
      ensures Variables() && list.Linked(list.nodes) && list.last == old(list.last)
      ensures list.Valid() <==> !removed || todo != []
      ensures if removed then done == old(done) && late == old(late) + [n]
              else done == old(done) + [n] && late == old(late)
    {
      hide List.Valid, List.Linked;
      ghost var front := if removed then done + late else done;
      ghost var rest := if removed then todo else late + [cur] + todo;
      Split(list.nodes, done, late, Current(), todo, front, rest, removed);
      LinkIn(list, listPrev, n, front, rest);
      listPrev := n;
      Joined(list.nodes, done, late, Current(), todo, front, rest, removed, n);
      if removed { late := late + [n]; } else { done := done + [n]; }
    }

    /** The step of the for loop. */
    method Step()
      requires Valid() && cur != null
      modifies this
      ensures Valid() && !removed && Current() + todo == old(todo) && cur == NodeAt(old(todo), 0)
      ensures if old(removed) then done == old(done) && late == old(late)
              else done == old(done + late + Current()) && late == []
    {
      hide Leads, List.Valid, NodeAt;
      ghost var all, now := todo, Current();
      ghost var d, l := if removed then done else done + late + now, if removed then late else [];
      ghost var first, rest := if all == [] then [] else [all[0]], if all == [] then [] else all[1..];
      list.Links();
      AtHead(all);
      Moved(list.nodes, done, late, now, all, removed, d, l, first, rest);
      if listNext != null {
        NextOf(list.nodes, done + late + now, all);
      }
      AtLast(done + late, cur);
      listPrev, cur := newPrev, listNext;
      newPrev := cur;
      listNext := if cur != null then cur.next else null;
      done, late, todo, removed := d, l, rest, false;
      assert Current() == first;
    }

    lemma AtEnd()
      requires Valid() && cur == null
      ensures list.Valid() && list.nodes == done + late && todo == []
    {
    }
  }

  lemma Split(ns: seq<Node>, done: seq<Node>, late: seq<Node>, cur: seq<Node>, todo: seq<Node>, front: seq<Node>,
              rest: seq<Node>, removed: bool)
    requires ns == done + late + cur + todo && (removed ==> cur == [])
    requires front == (if removed then done + late else done)
    requires rest == (if removed then todo else late + cur + todo)
    ensures ns == front + rest
  {
    assert done + late + [] == done + late;
    assert done + late + cur + todo == done + (late + cur + todo);
  }

  lemma Joined(ns: seq<Node>, done: seq<Node>, late: seq<Node>, cur: seq<Node>, todo: seq<Node>, front: seq<Node>,
               rest: seq<Node>, removed: bool, n: Node)
    requires ns == front + [n] + rest && (removed ==> cur == [])
    requires front == (if removed then done + late else done)
    requires rest == (if removed then todo else late + cur + todo)
    ensures removed ==> ns == done + (late + [n]) + cur + todo && NodeAt(done + (late + [n]), |done| + |late|) == n
    ensures !removed ==> ns == done + [n] + late + cur + todo && NodeAt(done + [n], |done|) == n
  {
    if removed {
      assert done + late + [n] == done + (late + [n]) == done + (late + [n]) + [];
    } else {
      assert done + [n] + (late + cur + todo) == done + [n] + late + cur + todo;
    }
  }

  lemma Moved(ns: seq<Node>, done: seq<Node>, late: seq<Node>, now: seq<Node>, todo: seq<Node>, removed: bool,
              d: seq<Node>, l: seq<Node>, first: seq<Node>, rest: seq<Node>)
    requires ns == done + late + now + todo && (removed ==> now == [])
    requires d == (if removed then done else done + late + now) && l == (if removed then late else [])
    requires if todo == [] then first == rest == [] else first == [todo[0]] && rest == todo[1..]
    ensures first + rest == todo && ns == d + l + first + rest
  {
    assert done + late + [] == done + late && done + late + now + [] == done + late + now;
    assert d + l + (first + rest) == d + l + first + rest;
  }

  lemma AtHead(ns: seq<Node>)
    ensures NodeAt(ns, 0) == null <==> ns == []
    ensures ns != [] ==> NodeAt(ns, 0) == ns[0]
    ensures NodeAt([], 0) == null
  {
  }

  lemma AtLast(before: seq<Node>, n: Node?)
    ensures n != null ==> NodeAt(before + [n], |before + [n]| - 1) == n
  {
  }

  lemma NextOf(ns: seq<Node>, before: seq<Node>, todo: seq<Node>)
    requires Leads(ns, null) && ns == before + todo && todo != []
    ensures todo[0].next == NodeAt(todo[1..], 0)
  {
    assert before + [todo[0]] + todo[1..] == ns;
    Neighbours(before + [todo[0]], todo[1..]);
  }

  lemma Neighbours(a: seq<Node>, b: seq<Node>)
    requires Leads(a + b, null) && a != []
    ensures a[|a| - 1].next == NodeAt(b, 0)
  {
    assert (a + b)[|a| - 1] == a[|a| - 1];
  }

  function Without(ns: seq<Node>, drop: set<Node>): seq<Node> {
    if ns == [] then [] else (if ns[0] in drop then [] else [ns[0]]) + Without(ns[1..], drop)
  }

  ghost predicate Within(a: seq<Node>, b: seq<Node>) {
    forall i :: 0 <= i < |a| ==> a[i] in b
  }

  lemma {:induction false} WithoutSnoc(ns: seq<Node>, drop: set<Node>, x: Node)
    ensures Without(ns + [x], drop) == Without(ns, drop) + if x in drop then [] else [x]
  {
    if ns == [] {
      assert [x][1..] == [];
    } else {
      assert (ns + [x])[0] == ns[0] && (ns + [x])[1..] == ns[1..] + [x];
      WithoutSnoc(ns[1..], drop, x);
      var head, last := if ns[0] in drop then [] else [ns[0]], if x in drop then [] else [x];
      assert head + (Without(ns[1..], drop) + last) == head + Without(ns[1..], drop) + last;
    }
  }

  /** The bookkeeping of one visit. */
  lemma Visit(visited: seq<Node>, x: Node, todo: seq<Node>, ns: seq<Node>, done: seq<Node>, drop: set<Node>,
              visited': seq<Node>, done': seq<Node>)
    requires visited + ([x] + todo) == ns && Within(done, ns) && done == Without(visited, drop)
    requires visited' == visited + [x] && done' == done + if x in drop then [] else [x]
    ensures Within(done + [x] + todo, ns) && Within(done', ns)
    ensures done' == Without(visited', drop) && visited' + todo == ns
  {
    WithoutSnoc(visited, drop, x);
    assert ns[|visited|] == x;
    forall i | 0 <= i < |todo|
      ensures todo[i] in ns
    {
      assert ns[|visited| + 1 + i] == todo[i];
    }
  }

  /** A traversal that removes the current node whenever it is in the set visits every node of
      the list once, in order, and leaves the others, in order. */
  method RemoveAll(list: List, drop: set<Node>) returns (visited: seq<Node>)
    requires list.Valid()
    modifies list, list.nodes
    ensures list.Valid() && visited == old(list.nodes)
    ensures list.nodes == Without(old(list.nodes), drop)
  {
    hide Cursor.Valid, List.Valid, Without;
    ghost var ns := list.nodes;
    var c := new Cursor(list);
    visited := [];
    NothingYet(ns, drop);
    while c.cur != null
      invariant c.Valid() && !c.removed && c.list == list && fresh(c)
      invariant c.late == [] && list.nodes == c.done + c.Current() + c.todo
      invariant Within(list.nodes, ns) && Within(c.done, ns)
      invariant visited + (c.Current() + c.todo) == ns && c.done == Without(visited, drop)
      decreases |c.Current() + c.todo|
    {
      var x := c.cur;
      ghost var todo, done := c.todo, c.done;
      if c.cur in drop {
        c.RemoveCurrent();
      }
      c.Step();
      Visit(visited, x, todo, ns, done, drop, visited + [x], c.done);
      visited := visited + [x];
    }
    c.AtEnd();
  }

  lemma NothingYet(ns: seq<Node>, drop: set<Node>)
    ensures Without([], drop) == [] && Within(ns, ns) && Within([], ns)
  {
  }

  lemma {:induction false} WithoutIsComplement(ns: seq<Node>, drop: set<Node>)
    ensures forall n :: n in Without(ns, drop) <==> n in ns && n !in drop
    ensures Distinct(ns) ==> Distinct(Without(ns, drop))
  {
    if ns != [] {
      WithoutIsComplement(ns[1..], drop);
      assert ns == [ns[0]] + ns[1..];
    }
  }

  /** Removal of the last node, then an insertion before it: the list has a first node that leads
      to the end, but no sequence fits its pointers any more. */
  method LateInsertLosesLast(c: Cursor, n: Node, ghost ns: seq<Node>)
    requires c.Valid() && c.cur != null && !c.removed && c.todo == [] && n !in c.list.nodes
    modifies c, c.list, c.list.nodes, n
    ensures c.list.Linked(c.list.nodes) && c.list.nodes == old(c.done) + [n] && !c.list.Shows(ns)
  {
    hide List.Valid, List.Shows, List.Linked;
    ghost var was, done := c.list.nodes, c.done;
    NotInParts(was, done, c.late + [c.cur], [], n);
    assert done + (c.late + [c.cur]) + [] == was;
    c.RemoveCurrent();
    assert c.list.nodes == done + [] == done;
    c.InsertBeforeCurrent(n);
    assert c.list.nodes == done + [n];
    c.list.NothingFits(ns);
  }

  /** Removal, insertion, and removal of the next node: __list_prev has fallen back to the node in
      front of the inserted one, which is therefore dropped. */
  method LateInsertIsDropped(c: Cursor, n: Node)
    requires c.Valid() && c.cur != null && !c.removed && c.todo != [] && n !in c.list.nodes
    modifies c, c.list, c.list.nodes, n
    ensures c.Valid() && c.list.nodes == old(c.done) + old(c.todo)[1..] && n !in c.list.nodes
  {
    hide List.Valid, List.Shows, List.Linked;
    ghost var was, done, todo := c.list.nodes, c.done, c.todo;
    NotInParts(was, done, c.late + [c.cur], todo, n);
    assert done + (c.late + [c.cur]) + todo == was;
    c.RemoveCurrent();
    c.InsertBeforeCurrent(n);
    assert c.list.nodes == done + [n] + todo;
    InParts(c.list.nodes, was, done, todo, n);
    c.Step();
    assert c.todo == todo[1..];
    c.RemoveCurrent();
  }

  lemma NotInParts(ns: seq<Node>, done: seq<Node>, mid: seq<Node>, todo: seq<Node>, n: Node)
    requires n !in ns && ns == done + mid + todo
    ensures n !in done + todo && (todo != [] ==> n !in done + todo[1..]) && Within(done + todo, ns)
  {
    assert forall i :: 0 <= i < |todo| ==> ns[|done| + |mid| + i] == todo[i];
    assert forall i :: 0 <= i < |done| ==> ns[i] == done[i];
  }

  lemma InParts(ns: seq<Node>, was: seq<Node>, done: seq<Node>, todo: seq<Node>, n: Node)
    requires Within(done + todo, was) && ns == done + [n] + todo
    ensures forall i :: 0 <= i < |ns| ==> ns[i] in was || ns[i] == n
  {
    var less := done + todo;
    forall i | 0 <= i < |ns| && i != |done|
      ensures ns[i] in was
    {
      assert ns[i] == less[if i < |done| then i else i - 1];
    }
  }
}
