/**
 * Propositional resolution over clause lists (resolution.py:81-105): each
 * round optionally applies the Davis–Putnam eliminations, resolves every
 * pair of clauses, and stops when a pair resolves to the empty clause
 * (unsatisfiable) or when no resolvent is new (saturated).
 */
module Resolution {
  import opened Syntax
  import opened Semantics
  import opened Clauses
  import opened Elimination

  /** Some literal of `c1` has its negation in `c2`. */
  predicate Clashes(c1: Clause, c2: Clause) {
    exists l :: l in c1 && Negate(l).Some? && Negate(l).value in c2
  }

  /** `r` is what resolving `c1` and `c2` on one clashing literal of `c1` leaves. */
  predicate IsResolvent(c1: Clause, c2: Clause, r: Clause) {
    exists l :: l in c1 && Negate(l).Some? && Negate(l).value in c2 && r == (c1 - {l}) + (c2 - {Negate(l).value})
  }

  /**
   * resolution.py:81-87 `resolve`: the literals of `clause1` are tried in
   * the set's iteration order, which the source leaves unspecified; the
   * first one whose negation is in `clause2` is resolved on. No clash gives
   * None; an empty resolvent is returned as an empty collection.
   */
  method Resolve(clause1: Clause, clause2: Clause) returns (r: Option<Clause>)
    ensures r.None? <==> !Clashes(clause1, clause2)
    ensures r.Some? ==> IsResolvent(clause1, clause2, r.value)
  {
    var rest := clause1;
    while rest != {}
      invariant rest <= clause1
      invariant forall l :: l in clause1 - rest ==> !(Negate(l).Some? && Negate(l).value in clause2)
      decreases |rest|
    {
      var l :| l in rest;
      var negation := Negate(l);
      if negation.Some? && negation.value in clause2 {
        return Some((clause1 - {l}) + (clause2 - {negation.value}));
      }
      rest := rest - {l};
    }
    return None;
  }

  /** A resolvent holds under every valuation that makes both of its parents hold. */
  lemma ResolventSound(c1: Clause, c2: Clause, r: Clause, v: Valuation)
    requires IsResolvent(c1, c2, r)
    requires ClauseHolds(c1, v) && ClauseHolds(c2, v)
    ensures ClauseHolds(r, v)
  {
    var l :| l in c1 && Negate(l).Some? && Negate(l).value in c2 && r == (c1 - {l}) + (c2 - {Negate(l).value});
    NegateFlips(l, v);
    if LitHolds(l, v) {
      var w :| w in c2 && LitHolds(w, v);
      assert w in r;
    } else {
      var w :| w in c1 && LitHolds(w, v);
      assert w in r;
    }
  }

  /** `c` holds under every model of `cs`. */
  ghost predicate Implied(cs: seq<Clause>, c: Clause) {
    forall v: Valuation :: AllHold(cs, v) ==> ClauseHolds(c, v)
  }

  /** Every model of `a` is a model of `b`. */
  ghost predicate Entails(a: seq<Clause>, b: seq<Clause>) {
    forall v: Valuation :: AllHold(a, v) ==> AllHold(b, v)
  }

  lemma ResolventImplied(cs: seq<Clause>, i: nat, j: nat, r: Clause)
    requires i < |cs| && j < |cs| && IsResolvent(cs[i], cs[j], r)
    ensures Implied(cs, r)
  {
    forall v: Valuation | AllHold(cs, v)
      ensures ClauseHolds(r, v)
    {
      ResolventSound(cs[i], cs[j], r, v);
    }
  }

  /** A list that implies the empty clause, or is entailed by one that does, has no model. */
  lemma Refuted(clauses: seq<Clause>, cs: seq<Clause>)
    requires Entails(clauses, cs) && Implied(cs, {})
    ensures !Satisfiable(clauses)
  {
  }

  /**
   * The list holds the empty clause, written `{}` or as the one-literal
   * clause `{""}` that `create_clause_list("{}")` makes for it.
   */
  predicate HasEmpty(cs: seq<Clause>) {
    {} in cs || {""} in cs
  }

  /** A list that holds the empty clause, in either spelling, has no model. */
  lemma EmptyImplied(cs: seq<Clause>)
    requires HasEmpty(cs)
    ensures Implied(cs, {})
  {
    forall v: Valuation
      ensures !AllHold(cs, v)
    {
      var i :| 0 <= i < |cs| && (cs[i] == {} || cs[i] == {""});
      assert !LitHolds("", v);
      assert !ClauseHolds(cs[i], v);
    }
  }

  /** An entailed list with the empty clause refutes the input. */
  lemma EmptyRefutes(clauses: seq<Clause>, cs: seq<Clause>)
    requires Entails(clauses, cs) && HasEmpty(cs)
    ensures !Satisfiable(clauses)
  {
    EmptyImplied(cs);
    Refuted(clauses, cs);
  }

  /** The pair `i`, `j` has, if it clashes, one of its resolvents in `collected`. */
  ghost predicate Covers(cs: seq<Clause>, collected: set<Clause>, i: nat, j: nat)
    requires i < |cs| && j < |cs|
  {
    Clashes(cs[i], cs[j]) ==> exists r :: r in collected && IsResolvent(cs[i], cs[j], r)
  }

  lemma CoversGrow(cs: seq<Clause>, a: set<Clause>, b: set<Clause>, i: nat, j: nat)
    requires i < |cs| && j < |cs| && a <= b && Covers(cs, a, i, j)
    ensures Covers(cs, b, i, j)
  {
    if Clashes(cs[i], cs[j]) {
      var r :| r in a && IsResolvent(cs[i], cs[j], r);
      assert r in b;
    }
  }

  /**
   * Saturation: every clashing pair, first clause first in the list, has
   * one of its resolvents in the list.
   */
  ghost predicate Saturated(cs: seq<Clause>) {
    forall i, j :: 0 <= i < j < |cs| && Clashes(cs[i], cs[j]) ==> exists r :: r in cs && IsResolvent(cs[i], cs[j], r)
  }

  /** The pairs that start at clause `i` (the inner loop of resolution.py:96-102). */
  method ResolveRow(cs: seq<Clause>, i: nat, known: set<Clause>) returns (found: bool, collected: set<Clause>)
    requires i < |cs|
    ensures found ==> Implied(cs, {})
    ensures !found ==> known <= collected && (forall c :: c in collected - known ==> Implied(cs, c))
    ensures !found ==> forall k :: i < k < |cs| ==> Covers(cs, collected, i, k)
    ensures i + 1 == |cs| ==> !found && collected == known
  {
    collected := known;
    var j := i + 1;
    while j < |cs|
      invariant i + 1 <= j <= |cs|
      invariant known <= collected && forall c :: c in collected - known ==> Implied(cs, c)
      invariant forall k :: i < k < j ==> Covers(cs, collected, i, k)
      invariant i + 1 == |cs| ==> collected == known
    {
      var resolvent := Resolve(cs[i], cs[j]);
      if resolvent.Some? {
        ResolventImplied(cs, i, j, resolvent.value);
        if resolvent.value == {} {
          return true, collected;
        }
        forall k | i < k < j
          ensures Covers(cs, collected + {resolvent.value}, i, k)
        {
          CoversGrow(cs, collected, collected + {resolvent.value}, i, k);
        }
        collected := collected + {resolvent.value};
      }
      j := j + 1;
    }
    found := false;
  }

  /**
   * resolution.py:96-102: every pair `i < j` is resolved in order; an
   * empty resolvent ends the search, other resolvents are collected.
   */
  method ResolvePairs(cs: seq<Clause>, known: set<Clause>) returns (found: bool, collected: set<Clause>)
    ensures found ==> Implied(cs, {})
    ensures !found ==> known <= collected && (forall c :: c in collected - known ==> Implied(cs, c))
    ensures !found ==> forall a, b :: 0 <= a < b < |cs| ==> Covers(cs, collected, a, b)
    ensures |cs| < 2 ==> !found && collected == known
  {
    collected := known;
    var i := 0;
    while i < |cs|
      invariant i <= |cs| || |cs| == 0
      invariant known <= collected && forall c :: c in collected - known ==> Implied(cs, c)
      invariant forall a, b :: 0 <= a < i && a < b < |cs| ==> Covers(cs, collected, a, b)
      invariant |cs| < 2 ==> collected == known
    {
      var rowFound, rowNew := ResolveRow(cs, i, collected);
      if rowFound {
        return true, collected;
      }
      forall a, b | 0 <= a < i && a < b < |cs|
        ensures Covers(cs, rowNew, a, b)
      {
        CoversGrow(cs, collected, rowNew, a, b);
      }
      collected := rowNew;
      i := i + 1;
    }
    found := false;
  }

  /** Saturation follows once every pair is covered and the collected resolvents are all in the list. */
  lemma SaturatedFrom(cs: seq<Clause>, collected: set<Clause>)
    requires forall a, b :: 0 <= a < b < |cs| ==> Covers(cs, collected, a, b)
    requires forall c :: c in collected ==> c in cs
    ensures Saturated(cs)
  {
    forall i, j | 0 <= i < j < |cs| && Clashes(cs[i], cs[j])
      ensures exists r :: r in cs && IsResolvent(cs[i], cs[j], r)
    {
      assert Covers(cs, collected, i, j);
      var r :| r in collected && IsResolvent(cs[i], cs[j], r);
      assert r in cs;
    }
  }

  /** `list(map(set, new))`: the members of `s` in some order, each once. */
  method Enumerate(s: set<Clause>) returns (xs: seq<Clause>)
    ensures forall c :: c in xs <==> c in s
    ensures |xs| == |s|
  {
    xs := [];
    var rest := s;
    while rest != {}
      invariant rest <= s
      invariant forall c :: c in xs <==> c in s - rest
      invariant |xs| + |rest| == |s|
      decreases |rest|
    {
      var c :| c in rest;
      xs := xs + [c];
      rest := rest - {c};
    }
  }

  /** What the two eliminations leave of `clauses` in the first round. */
  ghost function Eliminated(clauses: seq<Clause>): seq<Clause>
  {
    var units := OneLiteral(clauses);
    KeepImpure(units, PureLiterals(units))
  }

  lemma EliminatedEntails(clauses: seq<Clause>)
    ensures Entails(clauses, Eliminated(clauses))
  {
    forall v: Valuation | AllHold(clauses, v)
      ensures AllHold(Eliminated(clauses), v)
    {
      OneLiteralKeepsModels(clauses, v);
      PureKeepsModels(OneLiteral(clauses), v);
    }
  }

  lemma EntailsTrans(a: seq<Clause>, b: seq<Clause>, c: seq<Clause>)
    requires Entails(a, b) && Entails(b, c)
    ensures Entails(a, c)
  {
  }

  /** Appending clauses implied by the original keeps the list entailed by it. */
  lemma ExtendEntails(clauses: seq<Clause>, cs: seq<Clause>, added: seq<Clause>)
    requires Entails(clauses, cs)
    requires forall c :: c in added ==> Implied(clauses, c)
    ensures Entails(clauses, cs + added)
  {
    forall v: Valuation | AllHold(clauses, v)
      ensures AllHold(cs + added, v)
    {
      forall i | 0 <= i < |cs + added|
        ensures ClauseHolds((cs + added)[i], v)
      {
        if i >= |cs| {
          assert (cs + added)[i] in added;
        }
      }
    }
  }

  lemma ImpliedTrans(clauses: seq<Clause>, cs: seq<Clause>, c: Clause)
    requires Entails(clauses, cs) && Implied(cs, c)
    ensures Implied(clauses, c)
  {
  }

  /**
   * resolution.py:90-105 `resolution`, with at most `fuel` rounds (None
   * when they run out). `stopOnEmpty` adds the test for the empty clause
   * that the source lacks, once before and once after the eliminations
   * (one-literal elimination would otherwise drop the `{""}` marker); the
   * source is `stopOnEmpty == false`. `final` is the list when the search
   * stops; without the eliminations it starts with the input.
   */
  method Saturate(clauses: seq<Clause>, dp: bool, fuel: nat, stopOnEmpty: bool)
    returns (answer: Option<bool>, ghost final: seq<Clause>)
    ensures answer == Some(false) ==> !Satisfiable(clauses)
    ensures answer == Some(true) ==> Saturated(final) && Entails(clauses, final)
    ensures answer == Some(true) && stopOnEmpty ==> !HasEmpty(final)
    ensures !dp ==> |clauses| <= |final| && final[..|clauses|] == clauses
    ensures stopOnEmpty && fuel > 0 && HasEmpty(clauses) ==> answer == Some(false)
    ensures dp && fuel > 0 && |Eliminated(clauses)| < 2 ==>
      answer == Some(!(stopOnEmpty && (HasEmpty(clauses) || HasEmpty(Eliminated(clauses)))))
  {
    var cs := clauses;
    var collected: set<Clause> := {};
    var round := 0;
    ghost var grown: seq<Clause> := [];
    while round < fuel
      invariant Entails(clauses, cs)
      invariant forall c :: c in collected ==> Implied(clauses, c)
      invariant round == 0 ==> cs == clauses && collected == {}
      invariant round > 0 ==> !(dp && |Eliminated(clauses)| < 2)
      invariant round > 0 ==> !(stopOnEmpty && HasEmpty(clauses))
      invariant !dp ==> cs == clauses + grown
    {
      if stopOnEmpty && HasEmpty(cs) {
        EmptyRefutes(clauses, cs);
        return Some(false), cs;
      }
      if dp {
        ghost var before := cs;
        cs := OneLiteralElimination(cs);
        cs := PureLiteralElimination(cs);
        EliminatedEntails(before);
        EntailsTrans(clauses, before, cs);
      }
      if stopOnEmpty && HasEmpty(cs) {
        EmptyRefutes(clauses, cs);
        return Some(false), cs;
      }
      var found, next := ResolvePairs(cs, collected);
      if found {
        Refuted(clauses, cs);
        return Some(false), cs;
      }
      forall c | c in next
        ensures Implied(clauses, c)
      {
        if c !in collected {
          ImpliedTrans(clauses, cs, c);
        }
      }
      if next <= set c | c in cs {
        SaturatedFrom(cs, next);
        return Some(true), cs;
      }
      var added := Enumerate(next);
      ExtendEntails(clauses, cs, added);
      cs := cs + added;
      grown := grown + added;
      collected := next;
      round := round + 1;
    }
    return None, cs;
  }

  /**
   * resolution.py:90-105 as written: an empty clause that the eliminations
   * leave in the list is never looked at, so a list that they reduce to a
   * single clause is reported satisfiable even when that clause is empty.
   */
  method ResolutionAsWritten(clauses: seq<Clause>, dp: bool, fuel: nat)
    returns (answer: Option<bool>, ghost final: seq<Clause>)
    ensures answer == Some(false) ==> !Satisfiable(clauses)
    ensures answer == Some(true) ==> Saturated(final) && Entails(clauses, final)
    ensures !dp ==> |clauses| <= |final| && final[..|clauses|] == clauses
    ensures dp && fuel > 0 && |Eliminated(clauses)| < 2 ==> answer == Some(true)
  {
    answer, final := Saturate(clauses, dp, fuel, false);
  }

  /**
   * `resolution` with an empty clause in the list, `{}` or the `{""}`
   * marker, answering False: True now certifies a saturated list without
   * the empty clause that every model of the input satisfies (and that
   * starts with the input when there are no eliminations), and False
   * still means unsatisfiable.
   */
  method Resolution(clauses: seq<Clause>, dp: bool, fuel: nat)
    returns (answer: Option<bool>, ghost final: seq<Clause>)
    ensures answer == Some(false) ==> !Satisfiable(clauses)
    ensures answer == Some(true) ==> Saturated(final) && Entails(clauses, final)
    ensures answer == Some(true) ==> !HasEmpty(final)
    ensures !dp ==> |clauses| <= |final| && final[..|clauses|] == clauses
    ensures fuel > 0 && HasEmpty(clauses) ==> answer == Some(false)
    ensures dp && fuel > 0 && |Eliminated(clauses)| < 2 ==>
      answer == Some(!HasEmpty(clauses) && !HasEmpty(Eliminated(clauses)))
  {
    answer, final := Saturate(clauses, dp, fuel, true);
  }

  // ---------------------------------------------------------------------
  // The unit clash {A}, {¬A}

  /** `{a}` and `{¬a}` for a name `a`. */
  function UnitClash(a: string): seq<Clause>
  {
    [{a}, {"¬" + a}]
  }

  lemma UnitClashUnsatisfiable(a: string)
    requires a != "" && a[0] != '¬'
    ensures !Satisfiable(UnitClash(a))
  {
    var n := "¬" + a;
    assert n[0] == '¬' && n[1..] == a;
    forall v: Valuation
      ensures !AllHold(UnitClash(a), v)
    {
      assert LitHolds(n, v) == !LitHolds(a, v);
      UnitHolds(a, v);
      UnitHolds(n, v);
      assert UnitClash(a)[0] == {a} && UnitClash(a)[1] == {n};
    }
  }

  /** A unit clause holds exactly when its literal does. */
  lemma UnitHolds(l: string, v: Valuation)
    ensures ClauseHolds({l}, v) == LitHolds(l, v)
  {
    if ClauseHolds({l}, v) {
      var x :| x in {l} && LitHolds(x, v);
    }
  }

  /** One-literal elimination propagates `a` and empties the second clause. */
  lemma UnitClashOneLiteral(a: string)
    requires a != "" && a[0] != '¬'
    ensures OneLiteral(UnitClash(a)) == [{}]
  {
    var n := "¬" + a;
    assert n != a by {
      assert |n| == |a| + 1;
    }
    var p0 := Start(UnitClash(a));
    assert p0.live == [0, 1];
    assert Only({a}) == a;
    assert Negate(a) == Some(n);
    var p1 := Pass([{a}, {n}], [1]);
    assert Drop([0, 1], 0) == [1];
    assert Strike(p0, a, Some(n), [0, 1]) == Strike(p1, a, Some(n), [1]);
    var p2 := Pass([{a}, {}], [1]);
    assert {n} - {n} == {};
    assert Strike(p1, a, Some(n), [1]) == Strike(p2, a, Some(n), []);
    assert Sweep(p0, 0) == Sweep(p2, 1);
    assert Sweep(p2, 1) == p2;
  }

  /** Both eliminations leave exactly the empty clause. */
  lemma UnitClashEliminated(a: string)
    requires a != "" && a[0] != '¬'
    ensures Eliminated(UnitClash(a)) == [{}]
  {
    UnitClashOneLiteral(a);
    var none: seq<Clause> := [{}];
    forall l
      ensures l !in AllLiterals(none)
    {
    }
    assert AllLiterals(none) == {};
    assert PureLiterals(none) == {};
    assert KeepImpure([{}], {}) == [{}];
  }

  /**
   * `resolution([{A}, {¬A}])`: one-literal elimination leaves the empty
   * clause alone, no pair is left to resolve, and the source answers True
   * for a list that has no model.
   */
  method ResolutionCounterexample() returns (answer: Option<bool>, corrected: Option<bool>)
    ensures !Satisfiable(UnitClash("A"))
    ensures answer == Some(true)
    ensures corrected == Some(false)
  {
    UnitClashUnsatisfiable("A");
    UnitClashEliminated("A");
    ghost var final;
    answer, final := ResolutionAsWritten(UnitClash("A"), true, 1);
    corrected, final := Resolution(UnitClash("A"), true, 1);
  }

  /**
   * The clause list of `{}`, `[{""}]`, has no model, and the corrected
   * search refutes it in its first round.
   */
  method EmptyMarkerRefuted() returns (answer: Option<bool>)
    ensures !Satisfiable([{""}])
    ensures answer == Some(false)
  {
    EmptyImplied([{""}]);
    ghost var final;
    answer, final := Resolution([{""}], false, 1);
  }
}
