/**
 * The two Davis–Putnam simplifications that `resolution` applies before
 * each round (resolution.py:108-128): one-literal (unit) elimination and
 * pure-literal elimination. Both rewrite the caller's list in place.
 */
module Elimination {
  import opened Syntax
  import opened Semantics
  import opened Clauses

  /** Every literal that occurs in some clause of `cs`. */
  function AllLiterals(cs: seq<Clause>): (r: set<string>)
    ensures forall l :: l in r <==> exists i :: 0 <= i < |cs| && l in cs[i]
  {
    set i, l | 0 <= i < |cs| && l in cs[i] :: l
  }

  /** The literals of `cs` whose negation does not occur in `cs`. */
  function PureLiterals(cs: seq<Clause>): set<string>
  {
    set l | l in AllLiterals(cs) && (Negate(l).None? || Negate(l).value !in AllLiterals(cs))
  }

  /** The clauses of `cs` that share no literal with `pure`, in order. */
  function KeepImpure(cs: seq<Clause>, pure: set<string>): (r: seq<Clause>)
    ensures |r| <= |cs|
    ensures forall c :: c in r <==> c in cs && c * pure == {}
    decreases cs
  {
    if cs == [] then []
    else (if cs[0] * pure == {} then [cs[0]] else []) + KeepImpure(cs[1..], pure)
  }

  /** `list.remove`: the first element equal to `x` is taken out. */
  function ListRemove(xs: seq<Clause>, x: Clause): (r: seq<Clause>)
    ensures x in xs ==> |r| + 1 == |xs|
    ensures x !in xs ==> r == xs
    decreases xs
  {
    if xs == [] then []
    else if xs[0] == x then xs[1..]
    else [xs[0]] + ListRemove(xs[1..], x)
  }

  /**
   * resolution.py:120-128 `pure_literal_elimination`: every clause that
   * holds a pure literal is removed from the list.
   */
  method PureLiteralElimination(clauses: seq<Clause>) returns (result: seq<Clause>)
    ensures result == KeepImpure(clauses, PureLiterals(clauses))
  {
    var pure := PureLiterals(clauses);
    result := clauses;
    var k := 0;
    while k < |clauses|
      invariant 0 <= k <= |clauses|
      invariant result == KeepImpure(clauses[..k], pure) + clauses[k..]
    {
      PureStep(clauses, k, pure);
      if clauses[k] * pure != {} {
        result := ListRemove(result, clauses[k]);
      }
      k := k + 1;
    }
    assert clauses[..k] == clauses;
  }

  /** One turn of the loop of `pure_literal_elimination`. */
  lemma PureStep(clauses: seq<Clause>, k: nat, pure: set<string>)
    requires k < |clauses|
    ensures var before := KeepImpure(clauses[..k], pure) + clauses[k..];
      (if clauses[k] * pure != {} then ListRemove(before, clauses[k]) else before)
      == KeepImpure(clauses[..k + 1], pure) + clauses[k + 1..]
  {
    var x, rest := clauses[k], clauses[k + 1..];
    assert clauses[..k + 1] == clauses[..k] + [x];
    assert clauses[k..] == [x] + rest;
    KeepImpureSnoc(clauses[..k], x, pure);
    PureStepSplit(KeepImpure(clauses[..k], pure), x, rest, pure);
  }

  lemma PureStepSplit(kept: seq<Clause>, x: Clause, rest: seq<Clause>, pure: set<string>)
    requires forall c :: c in kept ==> c * pure == {}
    ensures (if x * pure != {} then ListRemove(kept + ([x] + rest), x) else kept + ([x] + rest))
      == kept + (if x * pure == {} then [x] else []) + rest
  {
    if x * pure != {} {
      RemoveSkipsKept(kept, [x] + rest, pure);
      assert ([x] + rest)[1..] == rest;
    } else {
      assert kept + ([x] + rest) == (kept + [x]) + rest;
    }
  }

  lemma {:induction false} KeepImpureSnoc(xs: seq<Clause>, x: Clause, pure: set<string>)
    ensures KeepImpure(xs + [x], pure) == KeepImpure(xs, pure) + (if x * pure == {} then [x] else [])
    decreases xs
  {
    if xs != [] {
      assert (xs + [x])[1..] == xs[1..] + [x];
      KeepImpureSnoc(xs[1..], x, pure);
    } else {
      assert KeepImpure([x][1..], pure) == [];
    }
  }

  /**
   * Removing a clause that holds a pure literal takes out that very clause:
   * every clause before it in the list holds none.
   */
  lemma {:induction false} RemoveSkipsKept(kept: seq<Clause>, rest: seq<Clause>, pure: set<string>)
    requires rest != [] && rest[0] * pure != {}
    requires forall c :: c in kept ==> c * pure == {}
    ensures ListRemove(kept + rest, rest[0]) == kept + rest[1..]
    decreases kept
  {
    if kept == [] {
      assert kept + rest == rest;
    } else {
      assert (kept + rest)[1..] == kept[1..] + rest;
      RemoveSkipsKept(kept[1..], rest, pure);
    }
  }

  /** Pure-literal elimination only drops clauses, so every model of the input is a model of the result. */
  lemma PureKeepsModels(clauses: seq<Clause>, v: Valuation)
    requires AllHold(clauses, v)
    ensures AllHold(KeepImpure(clauses, PureLiterals(clauses)), v)
  {
    var r := KeepImpure(clauses, PureLiterals(clauses));
    forall i | 0 <= i < |r|
      ensures ClauseHolds(r[i], v)
    {
      assert r[i] in clauses;
    }
  }

  /** Every literal is a plain name or negated name. */
  predicate AllPlain(cs: seq<Clause>) {
    forall i, l :: 0 <= i < |cs| && l in cs[i] ==> Plain(l)
  }

  /** The name a plain literal speaks about. */
  function Atom(l: string): string
    requires Plain(l)
  {
    if l[0] == '¬' then l[1..] else l
  }

  /** A plain literal reads its atom, negated when it starts with `¬`. */
  lemma PlainHolds(l: string, v: Valuation)
    requires Plain(l)
    ensures LitHolds(l, v) == if l[0] == '¬' then !(Atom(l) in v && v[Atom(l)]) else (l in v && v[l])
  {
  }

  /** The valuation `v` with every pure literal made true. */
  function MakePure(v: Valuation, pure: set<string>): Valuation
  {
    map x | x in v.Keys + pure :: if x in pure then true else if "¬" + x in pure then false else x in v && v[x]
  }

  /**
   * Over plain literals, pure-literal elimination keeps satisfiability in
   * both directions: a model of the result, with every pure literal made
   * true, is a model of the input.
   */
  lemma PureEquisatisfiable(clauses: seq<Clause>)
    requires AllPlain(clauses)
    ensures Satisfiable(KeepImpure(clauses, PureLiterals(clauses))) <==> Satisfiable(clauses)
  {
    var pure := PureLiterals(clauses);
    var all := AllLiterals(clauses);
    var r := KeepImpure(clauses, pure);
    if Satisfiable(clauses) {
      var v :| AllHold(clauses, v);
      PureKeepsModels(clauses, v);
    }
    if Satisfiable(r) {
      var v :| AllHold(r, v);
      var w := MakePure(v, pure);
      forall i | 0 <= i < |clauses|
        ensures ClauseHolds(clauses[i], w)
      {
        var c := clauses[i];
        if c * pure != {} {
          var p :| p in c * pure;
          PureMadeTrue(clauses, v, p);
        } else {
          assert c in r;
          var j :| 0 <= j < |r| && r[j] == c;
          assert ClauseHolds(r[j], v);
          var l :| l in c && LitHolds(l, v);
          assert l !in c * pure;
          assert l in AllLiterals(clauses);
          ImpureUnchanged(clauses, v, l);
        }
      }
      assert AllHold(clauses, w);
    }
  }

  /** A pure literal holds once every pure literal is made true. */
  lemma PureMadeTrue(clauses: seq<Clause>, v: Valuation, p: string)
    requires AllPlain(clauses)
    requires p in PureLiterals(clauses)
    ensures LitHolds(p, MakePure(v, PureLiterals(clauses)))
  {
    var pure := PureLiterals(clauses);
    var all := AllLiterals(clauses);
    var w := MakePure(v, pure);
    var i :| 0 <= i < |clauses| && p in clauses[i];
    assert Plain(p);
    PlainHolds(p, w);
    if p[0] == '¬' {
      var x := Atom(p);
      NegateInvolution(p);
      assert Negate(x) == Some(p);
      assert x !in pure;
      assert "¬" + x == p;
    }
  }

  /** A literal of a kept clause reads the same before and after the pure literals are made true. */
  lemma ImpureUnchanged(clauses: seq<Clause>, v: Valuation, l: string)
    requires AllPlain(clauses)
    requires l in AllLiterals(clauses) && l !in PureLiterals(clauses)
    ensures LitHolds(l, MakePure(v, PureLiterals(clauses))) == LitHolds(l, v)
  {
    var pure := PureLiterals(clauses);
    var all := AllLiterals(clauses);
    var w := MakePure(v, pure);
    var i :| 0 <= i < |clauses| && l in clauses[i];
    assert Plain(l);
    PlainHolds(l, w);
    PlainHolds(l, v);
    NegateInvolution(l);
    var n := Negate(l).value;
    assert n !in pure;
    if l[0] == '¬' {
      assert Atom(l) == n;
      assert "¬" + n == l;
    } else {
      assert n == "¬" + l;
    }
  }

  // ---------------------------------------------------------------------
  // one_literal_elimination

  /**
   * The state of `one_literal_elimination`: the current value of each
   * clause of the list it was called with (the clause sets are updated in
   * place, also after they leave the list), and the positions of the
   * clauses still in the list, in order.
   */
  datatype Pass = Pass(objs: seq<Clause>, live: seq<nat>)

  predicate InRange(todo: seq<nat>, n: nat) {
    forall i :: 0 <= i < |todo| ==> todo[i] < n
  }

  predicate Sane(p: Pass) {
    InRange(p.live, |p.objs|)
  }

  /** The list that the state stands for. */
  function Listed(p: Pass): (r: seq<Clause>)
    requires Sane(p)
    ensures |r| == |p.live|
  {
    seq(|p.live|, i requires 0 <= i < |p.live| => p.objs[p.live[i]])
  }

  /** The positions of `live` other than `x`. */
  function Drop(live: seq<nat>, x: nat): (r: seq<nat>)
    ensures forall y :: y in r <==> y in live && y != x
    ensures |r| <= |live|
    decreases live
  {
    if live == [] then []
    else (if live[0] == x then [] else [live[0]]) + Drop(live[1..], x)
  }

  lemma {:induction false} DropInRange(live: seq<nat>, x: nat, n: nat)
    requires InRange(live, n)
    ensures InRange(Drop(live, x), n)
    decreases live
  {
    if live != [] {
      DropInRange(live[1..], x, n);
    }
  }

  /** The positions `0, 1, ..., n - 1`. */
  function Positions(n: nat): (r: seq<nat>)
    ensures |r| == n && forall i :: 0 <= i < n ==> r[i] == i
  {
    if n == 0 then [] else Positions(n - 1) + [n - 1]
  }

  /**
   * The inner loop for the unit literal `l` with negation `n`, over the
   * positions `todo`: a clause holding `l` leaves the list, and `n` is
   * deleted from the clause (even from one that just left).
   */
  ghost function Strike(p: Pass, l: string, n: Option<string>, todo: seq<nat>): (r: Pass)
    requires Sane(p) && InRange(todo, |p.objs|)
    ensures |r.objs| == |p.objs| && Sane(r)
    ensures forall i :: 0 <= i < |p.objs| ==> r.objs[i] <= p.objs[i]
    ensures forall x :: x in r.live ==> x in p.live
    ensures |r.live| <= |p.live|
    decreases |todo|
  {
    if todo == [] then p
    else
      var t := todo[0];
      var c := p.objs[t];
      var live := if l in c then Drop(p.live, t) else p.live;
      var objs := if n.Some? && n.value in c then p.objs[t := c - {n.value}] else p.objs;
      DropInRange(p.live, t, |p.objs|);
      Strike(Pass(objs, live), l, n, todo[1..])
  }

  /** The only element of a one-element set. */
  ghost function Only(s: Clause): (x: string)
    requires |s| == 1
    ensures x in s && s == {x}
  {
    var x :| x in s;
    assert |s - {x}| == 0;
    x
  }

  /** The outer loop from position `k` on: each clause that is a unit clause when visited is propagated. */
  ghost function Sweep(p: Pass, k: nat): (r: Pass)
    requires Sane(p) && k <= |p.objs|
    ensures |r.objs| == |p.objs| && Sane(r)
    ensures forall i :: 0 <= i < |p.objs| ==> r.objs[i] <= p.objs[i]
    ensures |r.live| <= |p.live|
    decreases |p.objs| - k
  {
    if k == |p.objs| then p
    else if |p.objs[k]| == 1 then
      var l := Only(p.objs[k]);
      Sweep(Strike(p, l, Negate(l), p.live), k + 1)
    else Sweep(p, k + 1)
  }

  /** The state on entry: every clause in the list, in order. */
  function Start(clauses: seq<Clause>): (p: Pass)
    ensures Sane(p) && Listed(p) == clauses
  {
    Pass(clauses, Positions(|clauses|))
  }

  /** What `one_literal_elimination` returns for `clauses`. */
  ghost function OneLiteral(clauses: seq<Clause>): seq<Clause>
  {
    Listed(Sweep(Start(clauses), 0))
  }

  /**
   * resolution.py:108-117 `one_literal_elimination`. `list.remove` takes
   * out the first clause equal to the visited one; that is the visited
   * clause itself, since an equal clause before it holds the unit literal
   * too and has already left.
   */
  method OneLiteralElimination(clauses: seq<Clause>) returns (result: seq<Clause>)
    ensures result == OneLiteral(clauses)
  {
    var objs := clauses;
    var live := Positions(|clauses|);
    var k := 0;
    while k < |objs|
      invariant k <= |objs| == |clauses|
      invariant Sane(Pass(objs, live))
      invariant Sweep(Pass(objs, live), k) == Sweep(Start(clauses), 0)
    {
      if |objs[k]| == 1 {
        var l :| l in objs[k];
        assert l == Only(objs[k]);
        objs, live := Propagate(objs, live, l);
      }
      k := k + 1;
    }
    result := seq(|live|, i requires 0 <= i < |live| => objs[live[i]]);
  }

  /** The inner loop of `one_literal_elimination` for the unit literal `l`. */
  method Propagate(objs0: seq<Clause>, live0: seq<nat>, l: string) returns (objs: seq<Clause>, live: seq<nat>)
    requires Sane(Pass(objs0, live0))
    ensures Pass(objs, live) == Strike(Pass(objs0, live0), l, Negate(l), live0)
  {
    var n := Negate(l);
    objs, live := objs0, live0;
    var todo := live0;
    var t := 0;
    while t < |todo|
      invariant t <= |todo| && |objs| == |objs0|
      invariant Sane(Pass(objs, live))
      invariant Strike(Pass(objs, live), l, n, todo[t..]) == Strike(Pass(objs0, live0), l, n, todo)
    {
      var idx := todo[t];
      var c := objs[idx];
      assert todo[t..][1..] == todo[t + 1..];
      if l in c {
        DropInRange(live, idx, |objs|);
        live := Drop(live, idx);
      }
      if n.Some? && n.value in c {
        objs := objs[idx := c - {n.value}];
      }
      t := t + 1;
    }
  }

  /** Every clause value, in the list or out of it, holds under `v`. */
  predicate ObjsHold(p: Pass, v: Valuation) {
    forall i :: 0 <= i < |p.objs| ==> ClauseHolds(p.objs[i], v)
  }

  /** Propagating a literal that holds keeps every clause true: only its false negation is deleted. */
  lemma {:induction false} StrikeHolds(p: Pass, l: string, todo: seq<nat>, v: Valuation)
    requires Sane(p) && InRange(todo, |p.objs|)
    requires ObjsHold(p, v) && LitHolds(l, v)
    ensures ObjsHold(Strike(p, l, Negate(l), todo), v)
    decreases |todo|
  {
    if todo != [] {
      var t := todo[0];
      var c := p.objs[t];
      var n := Negate(l);
      var live := if l in c then Drop(p.live, t) else p.live;
      var objs := if n.Some? && n.value in c then p.objs[t := c - {n.value}] else p.objs;
      DropInRange(p.live, t, |p.objs|);
      if n.Some? && n.value in c {
        NegateFlips(l, v);
        var w :| w in c && LitHolds(w, v);
        assert w in objs[t];
      }
      assert ObjsHold(Pass(objs, live), v);
      StrikeHolds(Pass(objs, live), l, todo[1..], v);
    }
  }

  lemma {:induction false} SweepHolds(p: Pass, k: nat, v: Valuation)
    requires Sane(p) && k <= |p.objs|
    requires ObjsHold(p, v)
    ensures ObjsHold(Sweep(p, k), v)
    decreases |p.objs| - k
  {
    if k < |p.objs| {
      if |p.objs[k]| == 1 {
        var l := Only(p.objs[k]);
        assert LitHolds(l, v);
        StrikeHolds(p, l, p.live, v);
        SweepHolds(Strike(p, l, Negate(l), p.live), k + 1, v);
      } else {
        SweepHolds(p, k + 1, v);
      }
    }
  }

  /** Every model of the input is a model of what one-literal elimination leaves. */
  lemma OneLiteralKeepsModels(clauses: seq<Clause>, v: Valuation)
    requires AllHold(clauses, v)
    ensures AllHold(OneLiteral(clauses), v)
  {
    SweepHolds(Start(clauses), 0, v);
  }

  /** One-literal elimination never adds a literal and never adds a clause. */
  lemma OneLiteralNeverAdds(clauses: seq<Clause>)
    ensures |OneLiteral(clauses)| <= |clauses|
    ensures AllLiterals(OneLiteral(clauses)) <= AllLiterals(clauses)
  {
    var p := Sweep(Start(clauses), 0);
    forall l | l in AllLiterals(OneLiteral(clauses))
      ensures l in AllLiterals(clauses)
    {
      var i :| 0 <= i < |p.live| && l in Listed(p)[i];
      assert l in clauses[p.live[i]];
    }
  }

  /**
   * Once the unit literal `l` has been propagated over the whole list, no
   * clause left in the list holds `l` or its negation `n`.
   */
  lemma StrikeClears(p: Pass, l: string, n: Option<string>)
    requires Sane(p)
    ensures var r := Strike(p, l, n, p.live);
      forall x :: x in r.live ==> l !in r.objs[x] && (n.Some? ==> n.value !in r.objs[x])
  {
    StrikeClearsFrom(p, l, n, p.live);
  }

  lemma {:induction false} StrikeClearsFrom(p: Pass, l: string, n: Option<string>, todo: seq<nat>)
    requires Sane(p) && InRange(todo, |p.objs|)
    ensures var r := Strike(p, l, n, todo);
      forall x :: x in r.live && x in todo ==> l !in r.objs[x] && (n.Some? ==> n.value !in r.objs[x])
    decreases |todo|
  {
    if todo != [] {
      var t := todo[0];
      var c := p.objs[t];
      var live := if l in c then Drop(p.live, t) else p.live;
      var objs := if n.Some? && n.value in c then p.objs[t := c - {n.value}] else p.objs;
      DropInRange(p.live, t, |p.objs|);
      var q := Pass(objs, live);
      StrikeClearsFrom(q, l, n, todo[1..]);
      var r := Strike(q, l, n, todo[1..]);
      assert r == Strike(p, l, n, todo);
      forall x | x in r.live && x in todo
        ensures l !in r.objs[x] && (n.Some? ==> n.value !in r.objs[x])
      {
        if x !in todo[1..] {
          assert x == t;
          assert x in q.live;
        }
      }
    }
  }
}
