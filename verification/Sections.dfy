/** A configuration section of config.c: the chain of variables from `root`, and the `last`
    pointer that appending follows. */
module Sections {

  import opened Strings

  /** `arrow` (the field object of the source) tells `name => value` from `name = value`. */
  datatype Var = Var(name: string, value: string, arrow: bool)

  /** The tests of spd_variable_delete and spd_variable_update; an empty match fits every value. */
  predicate Matches(v: Var, name: string, wanted: string) {
    CaseEq(v.name, name) && (wanted == "" || CaseEq(v.value, wanted))
  }

  /** The same string but for the case of letters. */
  ghost predicate SameButCase(a: string, b: string) {
    |a| == |b| && forall i :: 0 <= i < |a| ==> SameLetter(a[i], b[i])
  }

  /** A variable matches by its name, and by its value if one is asked for. */
  lemma MatchesIs(v: Var, name: string, wanted: string)
    ensures Matches(v, name, wanted) <==>
      SameButCase(v.name, name) && (wanted != "" ==> SameButCase(v.value, wanted))
  {
    hide SameLetter;
    CaseEqIs(v.name, name);
    CaseEqIs(v.value, wanted);
  }

  function FirstMatch(vars: seq<Var>, name: string, wanted: string): (k: nat)
    ensures k <= |vars| && (k < |vars| ==> Matches(vars[k], name, wanted))
    ensures forall i :: 0 <= i < k ==> !Matches(vars[i], name, wanted)
  {
    if vars == [] || Matches(vars[0], name, wanted) then 0 else 1 + FirstMatch(vars[1..], name, wanted)
  }

  function Survivors(vars: seq<Var>, name: string, wanted: string): seq<Var> {
    if vars == [] then []
    else (if Matches(vars[0], name, wanted) then [] else [vars[0]]) + Survivors(vars[1..], name, wanted)
  }

  lemma {:induction false} SurvivorsSnoc(vars: seq<Var>, v: Var, name: string, wanted: string)
    ensures Survivors(vars + [v], name, wanted)
         == Survivors(vars, name, wanted) + if Matches(v, name, wanted) then [] else [v]
  {
    if vars == [] {
      assert [v][1..] == [] && [] + [v] == [v];
    } else {
      assert (vars + [v])[1..] == vars[1..] + [v];
      SurvivorsSnoc(vars[1..], v, name, wanted);
    }
  }

  lemma SurvivorsOfNone(name: string, wanted: string)
    ensures Survivors([], name, wanted) == []
  {
  }

  /** What survives keeps its order and its number: a deletion treats every part of the chain by
      itself. */
  lemma {:induction false} SurvivorsJoin(a: seq<Var>, b: seq<Var>, name: string, wanted: string)
    ensures Survivors(a + b, name, wanted) == Survivors(a, name, wanted) + Survivors(b, name, wanted)
    ensures |a| == 1 ==> Survivors(a, name, wanted) == if Matches(a[0], name, wanted) then [] else a
  {
    hide Matches;
    if a == [] {
      assert a + b == b;
    } else {
      assert (a + b)[1..] == a[1..] + b;
      SurvivorsJoin(a[1..], b, name, wanted);
    }
  }

  lemma {:induction false} SurvivorsAre(vars: seq<Var>, name: string, wanted: string)
    ensures forall v :: v in Survivors(vars, name, wanted) <==> v in vars && !Matches(v, name, wanted)
    ensures Survivors(vars, name, wanted) == vars <==> FirstMatch(vars, name, wanted) == |vars|
    ensures |Survivors(vars, name, wanted)| <= |vars|
  {
    if vars != [] {
      SurvivorsAre(vars[1..], name, wanted);
      assert vars == [vars[0]] + vars[1..];
    }
  }

  class Section {
    var vars: seq<Var>
    /** The index of the variable that `last` points to, -1 for NULL. */
    var last: int

    ghost predicate Valid()
      reads this
    {
      -1 <= last < |vars|
    }

    /** `last` points to the end of the chain. */
    predicate Tidy()
      reads this
    {
      last == |vars| - 1
    }

    constructor ()
      ensures Valid() && Tidy() && vars == []
    {
      vars, last := [], -1;
    }

    /** spd_variable_append: the chain is hung behind `last`, and what followed there is lost. */
    method Append(chain: seq<Var>)
      requires Valid()
      modifies this
      ensures Valid()
      ensures chain == [] ==> vars == old(vars) && last == old(last)
      ensures chain != [] ==> vars == old(vars)[..old(last) + 1] + chain && Tidy()
    {
      if chain == [] {
        return;
      }
      vars, last := vars[..last + 1] + chain, last + 1;
      while last + 1 < |vars|
        invariant Valid() && vars == old(vars)[..old(last) + 1] + chain
      {
        last := last + 1;
      }
    }

    /** spd_variable_delete: the variable whose own name pointer was passed (`ident`, -1 if it
        is none of this section's) or else all that match. */
    method Delete(ident: int, name: string, wanted: string) returns (res: int)
      requires Valid() && -1 <= ident < |vars|
      modifies this
      ensures Valid() && (old(Tidy()) ==> Tidy())
      ensures ident >= 0 ==> res == 0 && vars == old(vars)[..ident] + old(vars)[ident + 1..]
      ensures ident < 0 ==> vars == Survivors(old(vars), name, wanted) && (res == 0 <==> vars != old(vars))
      ensures res == 0 || res == -1
    {
      hide Matches, Survivors, CaseEq;
      if ident >= 0 {
        Unlink(ident);
        return 0;
      }
      res := -1;
      ghost var n := 0;
      var cur := 0;
      SurvivorsAre(vars, name, wanted);
      SurvivorsOfNone(name, wanted);
      while cur < |vars|
        invariant 0 <= n <= |old(vars)| && 0 <= cur <= |vars| && Valid() && (old(Tidy()) ==> Tidy())
        invariant vars[..cur] == Survivors(old(vars)[..n], name, wanted) && vars[cur..] == old(vars)[n..]
        invariant if res == 0 then FirstMatch(old(vars), name, wanted) < |old(vars)|
                  else res == -1 && n <= FirstMatch(old(vars), name, wanted)
        decreases |old(vars)| - n
      {
        assert vars[cur] == old(vars)[n] && old(vars)[..n + 1] == old(vars)[..n] + [vars[cur]];
        assert vars[cur..][1..] == old(vars)[n..][1..];
        SurvivorsSnoc(old(vars)[..n], vars[cur], name, wanted);
        if Matches(vars[cur], name, wanted) {
          Unlink(cur);
          res := 0;
        } else {
          cur := cur + 1;
        }
        n := n + 1;
      }
      assert old(vars)[..n] == old(vars) && vars[..cur] == vars;
    }

    method Unlink(k: nat)
      requires Valid() && k < |vars|
      modifies this
      ensures Valid() && (old(Tidy()) ==> Tidy())
      ensures vars == old(vars)[..k] + old(vars)[k + 1..]
      ensures last == if old(last) >= k then old(last) - 1 else old(last)
    {
      vars := vars[..k] + vars[k + 1..];
      if last >= k {
        last := last - 1;
      }
    }

    /** spd_variable_update: the first match is replaced; without a match the variable is hung
        at the end of the chain, and `last` is not moved there. */
    method Update(name: string, value: string, wanted: string, arrow: bool)
      requires Valid()
      modifies this`vars
      ensures Valid()
      ensures var k := FirstMatch(old(vars), name, wanted);
        if k < |old(vars)| then vars == old(vars)[k := Var(name, value, old(vars)[k].arrow || arrow)]
        else vars == old(vars) + [Var(name, value, arrow)]
      ensures old(Tidy()) ==> (Tidy() <==> FirstMatch(old(vars), name, wanted) < |old(vars)|)
    {
      var cur := 0;
      while cur < |vars|
        invariant 0 <= cur <= |vars| && forall i :: 0 <= i < cur ==> !Matches(vars[i], name, wanted)
      {
        if Matches(vars[cur], name, wanted) {
          assert FirstMatch(vars, name, wanted) == cur;
          vars := vars[cur := Var(name, value, vars[cur].arrow || arrow)];
          return;
        }
        cur := cur + 1;
      }
      vars := vars + [Var(name, value, arrow)];
    }
  }

  /** What a later append makes of the chain: nothing is lost exactly when `last` is the end. */
  lemma AppendKeepsAll(vars: seq<Var>, last: int, chain: seq<Var>)
    requires -1 <= last < |vars|
    ensures vars[..last + 1] + chain == vars + chain <==> last == |vars| - 1
  {
    assert last < |vars| - 1 ==> |vars[..last + 1] + chain| < |vars + chain|;
  }

  /** An update that adds a variable, followed by an append, loses what the update added. */
  method UpdateThenAppend(s: Section, name: string, value: string, arrow: bool, v: Var)
    requires s.Valid() && s.Tidy() && FirstMatch(s.vars, name, "") == |s.vars|
    modifies s
    ensures s.vars == old(s.vars) + [v]
  {
    s.Update(name, value, "", arrow);
    s.Append([v]);
    assert (old(s.vars) + [Var(name, value, arrow)])[..|old(s.vars)|] == old(s.vars);
  }
}
