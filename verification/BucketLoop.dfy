/** The control of the search engine's outer loop in obj.c, with its two loop
    variables and its wrap-around under OBJ_CONTINUE, separated from what scanning a
    bucket does. An oracle says how each scan ends; it may depend on the number of
    scans made before, so it stands for every callback and every effect. */
module BucketLoop {

  import opened Common
  import opened Container

  type Oracle = (nat, nat) -> Outcome

  datatype Loop = Loop(i: int, last: int, visited: seq<nat>)

  /** Does the loop wrap from the last bucket to the first? */
  predicate Wraps(f: Flags) {
    f.pointer && f.cont
  }

  function Begin(f: Flags, hash: int, n: nat): Loop
    requires n > 0
  {
    var start := Start(f, hash, n);
    Loop(start, if !f.pointer || CRem(hash, n) < 0 || f.cont then n else start + 1, [])
  }

  /** One turn of the loop: scan bucket i, then the stop, return and wrap tests in the
      order in which the code makes them, then i++. */
  function Turn(l: Loop, f: Flags, start: nat, n: nat, o: Outcome): Loop
    requires 0 <= l.i
  {
    var visited := l.visited + [l.i];
    var i := if o.Stopped? then l.last else l.i;
    if o.Returned? then Loop(l.last, l.last, visited)
    else if i == n - 1 && Wraps(f) then Loop(0, start, visited)
    else Loop(i + 1, l.last, visited)
  }

  function Run(l: Loop, f: Flags, start: nat, n: nat, oracle: Oracle, turns: nat): Loop
    requires 0 <= l.i
    decreases turns
  {
    if turns == 0 || l.i >= l.last then l
    else Run(Turn(l, f, start, n, oracle(|l.visited|, l.i)), f, start, n, oracle, turns - 1)
  }

  /** Scanning the given buckets once each from the k-th scan on: how it ends. */
  function EndOf(oracle: Oracle, k: nat, order: seq<nat>): Outcome
    decreases |order|
  {
    if order == [] then Through
    else if oracle(k, order[0]) != Through then oracle(k, order[0])
    else EndOf(oracle, k + 1, order[1..])
  }

  /** The buckets scanned until then, the one that ends it included. */
  function Covered(oracle: Oracle, k: nat, order: seq<nat>): (r: seq<nat>)
    ensures r <= order
    decreases |order|
  {
    if order == [] then []
    else if oracle(k, order[0]) != Through then [order[0]]
    else [order[0]] + Covered(oracle, k + 1, order[1..])
  }

  /** The searches that go wrong: the hash selects the very last bucket, nothing stops
      there, and after the wrap a scan stops without an object to return. */
  predicate Rescans(f: Flags, hash: int, n: nat, oracle: Oracle)
    requires n > 0
  {
    && Wraps(f)
    && Start(f, hash, n) == n - 1
    && oracle(0, n - 1) == Through
    && EndOf(oracle, 1, Upto(0, n - 1)) == Stopped
  }

  /** An upward stretch of the loop that ends where it should: `last` is not the last
      bucket of a wrapping search, or nothing stops the stretch. */
  lemma {:induction false} Stretch(l: Loop, f: Flags, start: nat, n: nat, oracle: Oracle, turns: nat)
    requires 0 <= l.i <= l.last <= n && turns >= l.last - l.i
    requires Wraps(f) ==> l.last < n
    requires Wraps(f) && l.last == n - 1 ==> !EndOf(oracle, |l.visited|, Upto(l.i, l.last)).Stopped?
    ensures var r := Run(l, f, start, n, oracle, turns);
      r.i >= r.last && r.visited == l.visited + Covered(oracle, |l.visited|, Upto(l.i, l.last))
    decreases l.last - l.i
  {
    if l.i < l.last {
      var o := oracle(|l.visited|, l.i);
      var l' := Turn(l, f, start, n, o);
      assert Upto(l.i, l.last)[1..] == Upto(l.i + 1, l.last);
      if o == Through {
        Stretch(l', f, start, n, oracle, turns - 1);
        assert l'.visited == l.visited + [l.i];
      } else {
        assert Run(l', f, start, n, oracle, turns - 1) == l';
      }
    } else {
      assert Upto(l.i, l.last) == [];
    }
  }

  lemma OrderCons(oracle: Oracle, k: nat, order: seq<nat>, v: seq<int>)
    requires order != []
    ensures oracle(k, order[0]) == Through ==>
      && EndOf(oracle, k, order) == EndOf(oracle, k + 1, order[1..])
      && v + Covered(oracle, k, order) == (v + [order[0]]) + Covered(oracle, k + 1, order[1..])
      && |Covered(oracle, k, order)| == 1 + |Covered(oracle, k + 1, order[1..])|
    ensures oracle(k, order[0]) != Through ==>
      EndOf(oracle, k, order) == oracle(k, order[0]) && Covered(oracle, k, order) == [order[0]]
  {
    if oracle(k, order[0]) == Through {
      var c := Covered(oracle, k + 1, order[1..]);
      assert Covered(oracle, k, order) == [order[0]] + c;
      assert v + ([order[0]] + c) == (v + [order[0]]) + c;
    }
  }

  /** The turn that scans the last bucket of a wrapping search, and all that follows. */
  lemma LastBucket(l: Loop, f: Flags, start: nat, n: nat, oracle: Oracle, turns: nat, order: seq<nat>)
    requires 0 <= l.i == n - 1 && l.last == n && Wraps(f) && start < n
    requires turns >= 1 + start && order != [] && order[0] == n - 1 && order[1..] == Upto(0, start)
    requires start == n - 1 && oracle(|l.visited|, n - 1) == Through ==>
      !EndOf(oracle, |l.visited| + 1, Upto(0, start)).Stopped?
    ensures var r := Run(l, f, start, n, oracle, turns);
      r.i >= r.last && r.visited == l.visited + Covered(oracle, |l.visited|, order)
  {
    hide Covered, EndOf, Upto;
    var o := oracle(|l.visited|, l.i);
    var l' := Turn(l, f, start, n, o);
    OrderCons(oracle, |l.visited|, order, l.visited);
    if o == Through {
      Stretch(l', f, start, n, oracle, turns - 1);
    } else {
      assert Run(l', f, start, n, oracle, turns - 1) == l';
    }
  }

  /** A wrapping search that does not begin at the last bucket. */
  lemma {:induction false} FirstStretch(l: Loop, f: Flags, start: nat, n: nat, oracle: Oracle, turns: nat,
                                        order: seq<nat>)
    requires 0 <= l.i < n && l.last == n && Wraps(f) && start < n - 1
    requires turns >= (n - l.i) + start
    requires order == Upto(l.i, n) + Upto(0, start)
    ensures var r := Run(l, f, start, n, oracle, turns);
      r.i >= r.last && r.visited == l.visited + Covered(oracle, |l.visited|, order)
    decreases n - l.i
  {
    UptoHead(l.i, n, Upto(0, start));
    if l.i == n - 1 {
      assert order[1..] == Upto(0, start);
      LastBucket(l, f, start, n, oracle, turns, order);
    } else {
      OrderCons(oracle, |l.visited|, order, l.visited);
      var o := oracle(|l.visited|, l.i);
      var l' := Turn(l, f, start, n, o);
      if o == Through {
        FirstStretch(l', f, start, n, oracle, turns - 1, order[1..]);
      } else {
        assert Run(l', f, start, n, oracle, turns - 1) == l';
      }
    }
  }

  lemma UptoHead(i: nat, n: nat, rest: seq<nat>)
    requires i < n
    ensures Upto(i, n) + rest == [i] + (Upto(i + 1, n) + rest)
    ensures (Upto(i, n) + rest)[1..] == Upto(i + 1, n) + rest
  {
  }

  /** Every search that does not rescan makes at most n turns and visits a prefix of the
      rotated order, each bucket once, up to the scan that stops it. */
  lemma VisitsInOrder(f: Flags, hash: int, n: nat, oracle: Oracle)
    requires n > 0 && !Rescans(f, hash, n, oracle)
    ensures var r := Run(Begin(f, hash, n), f, Start(f, hash, n), n, oracle, n);
      r.i >= r.last && r.visited == Covered(oracle, 0, Order(f, hash, n))
  {
    var start := Start(f, hash, n);
    var l := Begin(f, hash, n);
    if Wraps(f) {
      if start == n - 1 {
        assert Upto(start, n) == [start];
        LastBucket(l, f, start, n, oracle, n, Upto(start, n) + Upto(0, start));
      } else {
        FirstStretch(l, f, start, n, oracle, n, Upto(start, n) + Upto(0, start));
      }
      if CRem(hash, n) < 0 {
        assert Upto(0, n) + Upto(0, 0) == Upto(0, n);
      }
    } else {
      Stretch(l, f, start, n, oracle, n);
      if f.pointer && CRem(hash, n) >= 0 {
        assert Upto(start, start + 1) == [start];
      }
    }
  }

  /** In a rescanning search the wrapped stretch leads back to bucket 0. */
  lemma {:induction false} WrapsAgain(l: Loop, f: Flags, n: nat, oracle: Oracle)
    requires 0 <= l.i <= l.last == n - 1 && Wraps(f) && n > 0
    requires EndOf(oracle, |l.visited|, Upto(l.i, n - 1)) == Stopped
    ensures var c := Covered(oracle, |l.visited|, Upto(l.i, n - 1));
      && c != []
      && Run(l, f, n - 1, n, oracle, |c|) == Loop(0, n - 1, l.visited + c)
    decreases n - 1 - l.i
  {
    var k, o := |l.visited|, oracle(|l.visited|, l.i);
    var l' := Turn(l, f, n - 1, n, o);
    var rest := Upto(l.i + 1, n - 1);
    assert Upto(l.i, n - 1) == [l.i] + rest;
    OrderCons(oracle, k, Upto(l.i, n - 1), l.visited);
    if o == Through {
      WrapsAgain(l', f, n, oracle);
    } else {
      assert Run(l', f, n - 1, n, oracle, 0) == l';
    }
  }

  /** A rescanning search is still running after the whole round, about to scan
      bucket 0 although that bucket has been visited: the loop visits each bucket
      at most once if and only if it does not rescan. */
  lemma RescanRepeats(f: Flags, hash: int, n: nat, oracle: Oracle)
    requires n > 0 && Rescans(f, hash, n, oracle)
    ensures var turns := 1 + |Covered(oracle, 1, Upto(0, n - 1))|;
      var r := Run(Begin(f, hash, n), f, Start(f, hash, n), n, oracle, turns);
      turns <= n && r.i == 0 && r.i < r.last && 0 in r.visited
  {
    var l := Begin(f, hash, n);
    var l1 := Turn(l, f, n - 1, n, Through);
    var c := Covered(oracle, 1, Upto(0, n - 1));
    WrapsAgain(l1, f, n, oracle);
    assert c[0] == Upto(0, n - 1)[0] == 0;
    var r := Run(l, f, n - 1, n, oracle, 1 + |c|);
    assert r.visited == [n - 1] + c && r.visited[1] == 0;
    assert |c| <= n - 1;
  }
}
