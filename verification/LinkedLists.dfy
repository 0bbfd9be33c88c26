/** The list macros of linkedlist.h: a head with first and last pointers, nodes with a next
    pointer, and a traversal that survives removal of and insertion before the current node.
    `nodes` is the sequence a list stands for. */
module LinkedLists {

  // ---------- strcmp ----------

  function Compare(a: string, b: string): int {
    if a == "" || b == "" then |a| - |b|
    else if a[0] != b[0] then a[0] as int - b[0] as int
    else Compare(a[1..], b[1..])
  }

  predicate Less(a: string, b: string) {
    Compare(a, b) < 0
  }

  /** Dictionary order: b goes on where a ends, or has the greater character where they part. */
  ghost predicate Before(a: string, b: string) {
    exists k :: 0 <= k <= |a| && PartAt(a, b, k)
  }

  ghost predicate PartAt(a: string, b: string, k: int)
    requires 0 <= k <= |a|
  {
    k < |b| && a[..k] == b[..k] && (k == |a| || a[k] < b[k])
  }

  lemma PartHeads(a: string, b: string)
    requires a != "" && b != ""
    ensures Before(a, b) ==> a[0] <= b[0]
  {
    if k :| 0 <= k <= |a| && PartAt(a, b, k) {
      if k > 0 { assert a[0] == a[..k][0] && b[0] == b[..k][0]; }
    }
  }

  lemma {:induction false} LessIs(a: string, b: string)
    ensures Less(a, b) <==> Before(a, b)
    decreases |a|
  {
    if a == "" {
      if b != "" { assert PartAt(a, b, 0); }
    } else if b != "" {
      if a[0] < b[0] {
        assert PartAt(a, b, 0);
      } else if a[0] == b[0] {
        LessIs(a[1..], b[1..]);
        if k :| 0 <= k <= |a[1..]| && PartAt(a[1..], b[1..], k) {
          assert a[..k + 1] == [a[0]] + a[1..][..k] && b[..k + 1] == [b[0]] + b[1..][..k];
          assert PartAt(a, b, k + 1);
        }
        if k :| 0 <= k <= |a| && PartAt(a, b, k) {
          assert a[1..][..k - 1] == a[..k][1..] && b[1..][..k - 1] == b[..k][1..];
          assert PartAt(a[1..], b[1..], k - 1);
        }
      } else {
        PartHeads(a, b);
      }
    }
  }

  lemma {:induction false} CompareAntisymmetric(a: string, b: string)
    ensures Compare(a, b) == -Compare(b, a)
  {
    if a != "" && b != "" && a[0] == b[0] {
      CompareAntisymmetric(a[1..], b[1..]);
    }
  }

  /** If b is not below a and c is not below b, then c is not below a. */
  lemma {:induction false} CompareTransitive(a: string, b: string, c: string)
    requires !Less(b, a) && !Less(c, b)
    ensures !Less(c, a)
    decreases |a|
  {
    if a != "" && b != "" && c != "" && a[0] == b[0] && b[0] == c[0] {
      CompareTransitive(a[1..], b[1..], c[1..]);
    }
  }

  // ---------- nodes and lists ----------

  class Node {
    const key: string
    var next: Node?

    constructor (key: string)
      ensures this.key == key && next == null
    {
      this.key, next := key, null;
    }
  }

  function NodeOr(ns: seq<Node>, i: int, to: Node?): Node? {
    if 0 <= i < |ns| then ns[i] else to
  }

  function NodeAt(ns: seq<Node>, i: int): Node? {
    NodeOr(ns, i, null)
  }

  ghost predicate Distinct(ns: seq<Node>) {
    forall i, j :: 0 <= i < j < |ns| ==> ns[i] != ns[j]
  }

  /** Each node's next pointer leads to its neighbour, the last one's to `to`. */
  ghost predicate Leads(ns: seq<Node>, to: Node?)
    reads ns
  {
    forall i :: 0 <= i < |ns| ==> ns[i].next == NodeOr(ns, i + 1, to)
  }

  function Head(ns: seq<Node>, to: Node?): Node? {
    if ns == [] then to else ns[0]
  }

  lemma LeadsJoin(a: seq<Node>, b: seq<Node>, to: Node?)
    requires Leads(a, Head(b, to)) && Leads(b, to)
    ensures Leads(a + b, to)
  {
  }

  /** One node between two stretches of a list. */
  lemma LeadsThrough(a: seq<Node>, n: Node, b: seq<Node>)
    requires (a == [] || Leads(a, n)) && n.next == Head(b, null) && Leads(b, null)
    ensures Leads(a + [n] + b, null)
  {
    LeadsJoin([n], b, null);
    LeadsJoin(a, [n] + b, null);
    assert a + [n] + b == a + ([n] + b);
  }

  lemma LeadsSplit(a: seq<Node>, b: seq<Node>, to: Node?)
    requires Leads(a + b, to)
    ensures Leads(a, Head(b, to)) && Leads(b, to)
  {
    var ns := a + b;
    forall i | 0 <= i < |a|
      ensures a[i].next == NodeOr(a, i + 1, Head(b, to))
    {
      assert ns[i] == a[i];
    }
    forall i | 0 <= i < |b|
      ensures b[i].next == NodeOr(b, i + 1, to)
    {
      assert ns[|a| + i] == b[i];
    }
  }

  /** The node at k with its neighbours: what comes before, and what comes after. */
  lemma Around(ns: seq<Node>, k: nat)
    requires Distinct(ns) && Leads(ns, null) && k < |ns|
    ensures ns[k] !in ns[..k] && ns[k] !in ns[k + 1..]
    ensures Leads(ns[..k], ns[k]) && ns[k].next == Head(ns[k + 1..], null) && Leads(ns[k + 1..], null)
  {
    assert ns == ns[..k] + ns[k..] && ns[k..] == [ns[k]] + ns[k + 1..];
    LeadsSplit(ns[..k], ns[k..], null);
    LeadsSplit([ns[k]], ns[k + 1..], null);
    assert [ns[k]][0] == ns[k];
  }

  lemma DistinctRemove(ns: seq<Node>, k: nat)
    requires Distinct(ns) && k < |ns|
    ensures Distinct(ns[..k] + ns[k + 1..]) && ns[k] !in ns[..k] + ns[k + 1..]
  {
    var less := ns[..k] + ns[k + 1..];
    assert forall i :: 0 <= i < |less| ==> less[i] == ns[if i < k then i else i + 1];
  }

  lemma DistinctInsert(ns: seq<Node>, k: nat, m: seq<Node>)
    requires Distinct(ns) && Distinct(m) && k <= |ns| && forall n :: n in m ==> n !in ns
    ensures Distinct(ns[..k] + m + ns[k..])
  {
    var more := ns[..k] + m + ns[k..];
    forall i, j | 0 <= i < j < |more|
      ensures more[i] != more[j]
    {
      if k <= i < k + |m| { assert more[i] in m; }
      if k <= j < k + |m| { assert more[j] in m; }
    }
  }

  ghost predicate Sorted(ns: seq<Node>) {
    forall i, j :: 0 <= i < j < |ns| ==> !Less(ns[j].key, ns[i].key)
  }

  /** Inserting before the first node that is not smaller keeps a list sorted. */
  lemma InsertSorted(ns: seq<Node>, k: nat, elm: Node)
    requires Sorted(ns) && k <= |ns|
    requires (k > 0 ==> Less(ns[k - 1].key, elm.key)) && (k < |ns| ==> !Less(ns[k].key, elm.key))
    ensures Sorted(ns[..k] + [elm] + ns[k..])
  {
    var more := ns[..k] + [elm] + ns[k..];
    forall i, j | 0 <= i < j < |more|
      ensures !Less(more[j].key, more[i].key)
    {
      hide Less;
      if j == k {
        BelowInserted(ns, k, elm, i);
      } else if i == k {
        AboveInserted(ns, k, elm, j - 1);
      }
    }
  }

  lemma InsertPermutes(ns: seq<Node>, k: nat, elm: Node)
    requires k <= |ns|
    ensures multiset(ns[..k] + [elm] + ns[k..]) == multiset(ns) + multiset{elm}
  {
    assert ns == ns[..k] + ns[k..];
  }

  lemma BelowInserted(ns: seq<Node>, k: nat, elm: Node, i: nat)
    requires Sorted(ns) && i < k <= |ns| && Less(ns[k - 1].key, elm.key)
    ensures !Less(elm.key, ns[i].key)
  {
    CompareAntisymmetric(ns[k - 1].key, elm.key);
    if i < k - 1 { CompareTransitive(ns[i].key, ns[k - 1].key, elm.key); }
  }

  lemma AboveInserted(ns: seq<Node>, k: nat, elm: Node, j: nat)
    requires Sorted(ns) && k <= j < |ns| && !Less(ns[k].key, elm.key)
    ensures !Less(ns[j].key, elm.key)
  {
    if j > k { CompareTransitive(elm.key, ns[k].key, ns[j].key); }
  }

  /** A list put in behind the k-th node. */
  lemma Spliced(ns: seq<Node>, k: nat, m: seq<Node>, tail: seq<Node>, more: seq<Node>)
    requires Distinct(ns) && k < |ns| && m != [] && tail == m + ns[k + 1..] && more == ns[..k + 1] + m + ns[k + 1..]
    ensures more == ns[..k] + [ns[k]] + tail
    ensures var l := |m| - 1; m[..l] + [m[l]] + ns[k + 1..] == tail && m[l] in m && NodeAt(m, l) == m[l]
    ensures ns[k] in ns && NodeAt(m, 0) == m[0] == Head(tail, null)
    ensures NodeAt(more, 0) == NodeAt(ns, 0)
    ensures NodeAt(more, |more| - 1) == if NodeAt(ns, |ns| - 1) == ns[k] then m[|m| - 1] else NodeAt(ns, |ns| - 1)
  {
    assert ns[..k + 1] == ns[..k] + [ns[k]];
  }

  /** A list with one more node at its end. */
  lemma Extended(ns: seq<Node>, n: Node)
    requires Distinct(ns) && n !in ns
    ensures Distinct(ns + [n]) && NodeAt(ns + [n], |ns|) == n
    ensures ns != [] ==> NodeAt(ns + [n], 0) == NodeAt(ns, 0) && ns[|ns| - 1] !in ns[..|ns| - 1]
  {
  }

  lemma EmptyList()
    ensures Distinct([]) && Leads([], null) && NodeAt([], 0) == null == NodeAt([], -1)
  {
  }

  lemma {:induction false} SameChain(a: seq<Node>, b: seq<Node>)
    requires Leads(a, null) && Leads(b, null) && NodeAt(a, 0) == NodeAt(b, 0)
    ensures a == b
    decreases |a|
  {
    if a != [] && b != [] {
      assert a == [a[0]] + a[1..] && b == [b[0]] + b[1..];
      LeadsSplit([a[0]], a[1..], null);
      LeadsSplit([b[0]], b[1..], null);
      assert a[0].next == NodeAt(a, 1) && b[0].next == NodeAt(b, 1);
      SameChain(a[1..], b[1..]);
    }
  }

  class List {
    var first: Node?
    var last: Node?
    ghost var nodes: seq<Node>

    /** Do the pointers of the list and its nodes show this sequence? */
    ghost predicate Shows(ns: seq<Node>)
      reads this, ns
    {
      Linked(ns) && last == NodeAt(ns, |ns| - 1)
    }

    /** The same, but for the last pointer. */
    ghost predicate Linked(ns: seq<Node>)
      reads this, ns
    {
      Distinct(ns) && Leads(ns, null) && first == NodeAt(ns, 0)
    }

    ghost predicate Valid()
      reads this, nodes
    {
      Shows(nodes)
    }

    lemma Links()
      requires Valid()
      ensures Leads(nodes, null)
    {
    }

    /** The first pointer and the links admit one sequence only: if the last pointer does not fit
        that one, it fits none. */
    lemma NothingFits(ns: seq<Node>)
      requires Linked(nodes) && !Valid()
      ensures !Shows(ns)
    {
      if Shows(ns) {
        SameChain(nodes, ns);
      }
    }

    constructor ()
      ensures Valid() && nodes == []
    {
      first, last, nodes := null, null, [];
    }

    method InsertHead(cur: Node)
      requires Valid() && cur !in nodes
      modifies this, cur
      ensures Valid() && nodes == [cur] + old(nodes)
    {
      cur.next := first;
      first := cur;
      if last == null {
        last := cur;
      }
      nodes := [cur] + nodes;
    }

    /** The new last node is taken over as it is: it must not lead anywhere. */
    method InsertTail(cur: Node)
      requires Valid() && cur !in nodes && cur.next == null
      modifies this, nodes
      ensures Valid() && nodes == old(nodes) + [cur]
    {
      ghost var ns, more := nodes, nodes + [cur];
      Extended(ns, cur);
      if first == null {
        first, last := cur, cur;
      } else {
        last.next := cur;
        last := cur;
      }
      nodes := more;
    }

    method InsertAfter(cur: Node, elm: Node, ghost k: nat)
      requires Valid() && k < |nodes| && nodes[k] == cur && elm !in nodes
      modifies this, cur, elm
      ensures Valid() && nodes == old(nodes)[..k + 1] + [elm] + old(nodes)[k + 1..]
    {
      hide Leads;
      ghost var before, after := nodes[..k], nodes[k + 1..];
      Around(nodes, k);
      DistinctInsert(nodes, k + 1, [elm]);
      elm.next := cur.next;
      cur.next := elm;
      if last == cur {
        last := elm;
      }
      nodes := nodes[..k + 1] + [elm] + nodes[k + 1..];
      LeadsThrough([], elm, after);
      assert [] + [elm] + after == [elm] + after;
      LeadsThrough(before, cur, [elm] + after);
      assert nodes == before + [cur] + ([elm] + after);
    }

    /** The node goes before the first one whose key is not smaller, and so before its equals; a
        sorted list stays sorted. A node that ends up last must not lead anywhere. */
    method InsertSortAlpha(elm: Node) returns (ghost k: nat)
      requires Valid() && elm !in nodes
      requires elm.next == null || exists i :: 0 <= i < |nodes| && !Less(nodes[i].key, elm.key)
      modifies this, nodes, elm
      ensures Valid() && k <= |old(nodes)| && nodes == old(nodes)[..k] + [elm] + old(nodes)[k..]
      ensures forall i :: 0 <= i < k ==> Less(old(nodes)[i].key, elm.key)
      ensures k < |old(nodes)| ==> !Less(old(nodes)[k].key, elm.key)
      ensures old(Sorted(nodes)) ==> Sorted(nodes)
      ensures multiset(nodes) == multiset(old(nodes)) + multiset{elm}
    {
      hide Less, Sorted;
      ghost var was := nodes;
      k := 0;
      if first == null {
        first, last := elm, elm;
        nodes := [elm];
      } else {
        var cur, prev: Node? := first, null;
        while cur != null && Less(cur.key, elm.key)
          invariant k <= |nodes| && cur == NodeAt(nodes, k) && prev == NodeAt(nodes, k - 1)
          invariant forall i :: 0 <= i < k ==> Less(nodes[i].key, elm.key)
          decreases |nodes| - k
        {
          prev, cur, k := cur, cur.next, k + 1;
        }
        if prev == null {
          InsertHead(elm);
        } else if cur == null {
          InsertTail(elm);
        } else {
          InsertAfter(prev, elm, k - 1);
        }
      }
      InsertPermutes(was, k, elm);
      if Sorted(was) {
        InsertSorted(was, k, elm);
      }
    }

    /** All nodes of the other list move to the end of this one. */
    method AppendList(list: List)
      requires Valid() && list.Valid() && list != this && (forall n :: n in nodes ==> n !in list.nodes)
      modifies this, list, nodes
      ensures Valid() && nodes == old(nodes) + old(list.nodes)
      ensures list.Valid() && list.nodes == []
    {
      hide Leads;
      if list.first == null {
        return;
      }
      DistinctInsert(nodes, |nodes|, list.nodes);
      ghost var m, ns := list.nodes, nodes;
      assert ns[..|ns|] + m + ns[|ns|..] == ns + m;
      if first == null {
        first, last := list.first, list.last;
        assert ns + m == m;
      } else {
        ghost var k := |nodes| - 1;
        Around(nodes, k);
        assert ns[k] in ns;
        last.next := list.first;
        last := list.last;
        LeadsThrough(ns[..k], ns[k], m);
        assert ns + m == ns[..k] + [ns[k]] + m;
      }
      nodes := nodes + list.nodes;
      list.first, list.last, list.nodes := null, null, [];
    }

    /** The other list must not be empty: its last node is followed without a test. */
    method InsertListAfter(list: List, elm: Node, ghost k: nat)
      requires Valid() && list.Valid() && list != this && (forall n :: n in nodes ==> n !in list.nodes)
      requires list.nodes != [] && k < |nodes| && nodes[k] == elm
      modifies this, list, nodes, list.nodes
      ensures Valid() && nodes == old(nodes)[..k + 1] + old(list.nodes) + old(nodes)[k + 1..]
      ensures list.Valid() && list.nodes == []
    {
      hide Leads, Distinct, NodeAt;
      ghost var ns, m, l := nodes, list.nodes, |list.nodes| - 1;
      ghost var tail, more := m + ns[k + 1..], ns[..k + 1] + m + ns[k + 1..];
      EmptyList();
      Around(ns, k);
      Around(m, l);
      DistinctInsert(ns, k + 1, m);
      Spliced(ns, k, m, tail, more);
      list.last.next := elm.next;
      elm.next := list.first;
      if last == elm {
        last := list.last;
      }
      LeadsThrough(m[..l], m[l], ns[k + 1..]);
      LeadsThrough(ns[..k], elm, tail);
      nodes := more;
      list.first, list.last, list.nodes := null, null, [];
    }

    method RemoveHead() returns (cur: Node?)
      requires Valid()
      modifies this, nodes
      ensures Valid() && cur == NodeAt(old(nodes), 0)
      ensures cur == null ==> nodes == []
      ensures cur != null ==> cur.next == null && nodes == old(nodes)[1..]
    {
      cur := first;
      if cur != null {
        first := cur.next;
        cur.next := null;
        if last == cur {
          last := null;
        }
        nodes := nodes[1..];
      }
    }

    /** The node in front of elm; NULL if elm is not among the later nodes. */
    method FindBefore(elm: Node) returns (cur: Node?, ghost k: nat)
      requires Valid() && first != elm
      ensures k <= |nodes| && cur == NodeAt(nodes, k)
      ensures cur == null <==> elm !in nodes
      ensures cur != null ==> k + 1 < |nodes| && nodes[k + 1] == elm
    {
      cur, k := first, 0;
      while cur != null && cur.next != elm
        invariant k <= |nodes| && cur == NodeAt(nodes, k)
        invariant forall i :: 0 <= i <= k && i < |nodes| ==> nodes[i] != elm
        decreases |nodes| - k
      {
        cur, k := cur.next, k + 1;
      }
    }

    method UnlinkFirst(elm: Node)
      requires Valid() && first == elm
      modifies this
      ensures Valid() && nodes == old(nodes)[1..] && elm !in nodes
    {
      hide Leads;
      ghost var ns := nodes;
      Around(ns, 0);
      DistinctRemove(ns, 0);
      assert ns[..0] + ns[1..] == ns[1..];
      first := elm.next;
      if last == elm {
        last := null;
      }
      nodes := ns[1..];
    }

    method UnlinkAfter(cur: Node, elm: Node, ghost k: nat)
      requires Valid() && k + 1 < |nodes| && nodes[k] == cur && nodes[k + 1] == elm
      modifies this, cur
      ensures Valid() && nodes == old(nodes)[..k + 1] + old(nodes)[k + 2..] && elm !in nodes
    {
      hide Leads;
      ghost var ns := nodes;
      Around(ns, k);
      Around(ns, k + 1);
      DistinctRemove(ns, k + 1);
      cur.next := elm.next;
      if last == elm {
        last := cur;
      }
      nodes := ns[..k + 1] + ns[k + 2..];
      LeadsThrough(ns[..k], cur, ns[k + 2..]);
      assert nodes == ns[..k] + [cur] + ns[k + 2..];
    }

    /** Takes the node out wherever it is; a node of no list is reported by NULL. Either way its
        next pointer is cleared. */
    method Remove(elm: Node) returns (res: Node?, ghost k: nat)
      requires Valid()
      modifies this, nodes, elm
      ensures Valid() && elm.next == null && (res == null || res == elm) && (res == elm <==> elm in old(nodes))
      ensures res == null ==> nodes == old(nodes)
      ensures res == elm ==>
        k < |old(nodes)| && old(nodes)[k] == elm && nodes == old(nodes)[..k] + old(nodes)[k + 1..]
    {
      hide Leads;
      res, k := null, 0;
      ghost var ns := nodes;
      if first == elm {
        res := first;
        UnlinkFirst(elm);
        assert ns[..0] + ns[1..] == ns[1..];
      } else {
        var cur;
        cur, k := FindBefore(elm);
        if cur != null {
          res := elm;
          UnlinkAfter(cur, elm, k);
          k := k + 1;
        }
      }
      elm.next := null;
    }
  }
}
