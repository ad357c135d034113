/**
 * The DPLL search of resolution.py:131-177 `find_satisfying_interpretation`.
 * The assignment is a dictionary shared by every level of the recursion:
 * a literal (or the negation of the empty literal, which the source writes
 * as None) is stored with the value True, and a failed branch deletes what
 * it stored.
 */
module Dpll {
  import opened Syntax
  import opened Semantics
  import opened Clauses
  import opened Elimination
  import Resolution

  type Assignment = map<Option<string>, bool>

  /** What the search ends with: an assignment, None, or an exception. */
  datatype Outcome = Found(assignment: Assignment) | NoModel | Raised

  /** `lit in assignment and assignment[lit]`. */
  predicate Assigned(a: Assignment, l: string) {
    Some(l) in a && a[Some(l)]
  }

  /** Some literal of `c` is assigned True. */
  predicate Satisfied(c: Clause, a: Assignment) {
    exists l :: l in c && Assigned(a, l)
  }

  predicate AllSatisfied(cs: seq<Clause>, a: Assignment) {
    forall i :: 0 <= i < |cs| ==> Satisfied(cs[i], a)
  }

  /** The clauses that no assigned literal satisfies yet (resolution.py:141). */
  function Unsatisfied(cs: seq<Clause>, a: Assignment): (r: seq<Clause>)
    ensures forall c :: c in r <==> c in cs && !Satisfied(c, a)
    decreases cs
  {
    if cs == [] then []
    else (if Satisfied(cs[0], a) then [] else [cs[0]]) + Unsatisfied(cs[1..], a)
  }

  /** The literals of `cs` such that neither they nor their negation is a key (resolution.py:153-154). */
  function Unassigned(cs: seq<Clause>, a: Assignment): (r: set<string>)
    ensures forall l :: l in r <==> l in AllLiterals(cs) && Some(l) !in a && Negate(l) !in a
  {
    set l | l in AllLiterals(cs) && Some(l) !in a && Negate(l) !in a
  }

  /** The keys the search can ever store for `cs`: its literals and their negations. */
  function Universe(cs: seq<Clause>): set<Option<string>>
  {
    Keys(AllLiterals(cs))
  }

  function Keys(lits: set<string>): (r: set<Option<string>>)
    ensures forall l :: l in lits ==> Some(l) in r && Negate(l) in r
  {
    (set l | l in lits :: Some(l)) + (set l | l in lits :: Negate(l))
  }

  /** Every value stored is True. */
  predicate AllTrue(a: Assignment) {
    forall k :: k in a ==> a[k]
  }

  /** `b` keeps every entry of `a`. */
  predicate Extends(b: Assignment, a: Assignment) {
    forall k :: k in a ==> k in b && b[k] == a[k]
  }

  /** No literal is a key together with its negation. */
  predicate Consistent(a: Assignment) {
    forall k :: k in a && k.Some? ==> Negate(k.value) !in a
  }

  /** Every key is a plain literal. */
  predicate PlainKeys(a: Assignment) {
    forall k :: k in a ==> k.Some? && Plain(k.value)
  }

  /** The key of the empty literal's negation reads as true, any other key as its literal. */
  predicate KeyHolds(k: Option<string>, v: Valuation) {
    k.None? || LitHolds(k.value, v)
  }

  /** `v` makes every key stored as True hold. */
  predicate Agrees(v: Valuation, a: Assignment) {
    forall k :: k in a && a[k] ==> KeyHolds(k, v)
  }

  /**
   * The search over `cs` under `a` reaches `next(iter(unassigned))` with
   * nothing to pick: no clause is empty, some clause is unsatisfied, and
   * every literal of the unsatisfied clauses or its negation is a key.
   */
  predicate NothingToPick(cs: seq<Clause>, a: Assignment) {
    {} !in cs && Unsatisfied(cs, a) != [] && Unassigned(Unsatisfied(cs, a), a) == {}
  }

  /** Some model of `cs` makes every key of `a` hold. */
  ghost predicate ModelAgrees(cs: seq<Clause>, a: Assignment) {
    exists v: Valuation :: Agrees(v, a) && AllHold(cs, v)
  }

  class Search {
    var assignment: Assignment

    constructor ()
      ensures assignment == map[]
    {
      assignment := map[];
    }

    /**
     * resolution.py:139-174 `dpll`. The unassigned literal is picked in the
     * set's iteration order, which the source leaves unspecified. When no
     * literal is left unassigned the source raises (`next` on an empty
     * iterator); `stopWhenStuck` answers None there instead.
     */
    method Search(clauses: seq<Clause>, stopWhenStuck: bool) returns (r: Outcome)
      requires AllTrue(assignment)
      modifies this
      ensures r.NoModel? ==> assignment == old(assignment)
      ensures r.Found? ==> r.assignment == assignment && AllTrue(assignment)
      ensures r.Found? ==> Extends(assignment, old(assignment)) && AllSatisfied(clauses, assignment)
      ensures r.Found? && Consistent(old(assignment)) && PlainKeys(old(assignment)) && AllPlain(clauses) ==>
        Consistent(assignment) && PlainKeys(assignment)
      ensures {} in clauses ==> r.NoModel?
      ensures r.NoModel? && !stopWhenStuck ==> {} in clauses
      ensures stopWhenStuck ==> !r.Raised?
      ensures stopWhenStuck && r.NoModel? ==> !ModelAgrees(clauses, old(assignment))
      ensures !stopWhenStuck && NothingToPick(clauses, old(assignment)) ==> r.Raised?
      decreases Universe(clauses) - assignment.Keys, 1
    {
      var cs := Unsatisfied(clauses, assignment);
      if {} in cs {
        NoEmptyModel(clauses);
        return NoModel;
      }
      if cs == [] {
        UnsatisfiedEmpty(clauses, assignment);
        return Found(assignment);
      }
      var unassigned := Unassigned(cs, assignment);
      if unassigned == {} {
        if stopWhenStuck {
          Stuck(clauses, assignment);
          return NoModel;
        }
        return Raised;
      }
      var literal :| literal in unassigned;
      var result := Branch(clauses, literal, Some(literal), stopWhenStuck);
      if !result.NoModel? {
        return result;
      }
      result := Branch(clauses, literal, Negate(literal), stopWhenStuck);
      if !result.NoModel? {
        return result;
      }
      if stopWhenStuck {
        BothBranches(clauses, assignment, literal);
      }
      return NoModel;
    }

    /**
     * One branch of `dpll`: store `key` as True, search the clauses left
     * unsatisfied, and delete `key` again when that search finds nothing.
     */
    method Branch(clauses: seq<Clause>, l: string, key: Option<string>, stopWhenStuck: bool) returns (r: Outcome)
      requires AllTrue(assignment)
      requires {} !in Unsatisfied(clauses, assignment)
      requires l in Unassigned(Unsatisfied(clauses, assignment), assignment)
      requires key == Some(l) || key == Negate(l)
      modifies this
      ensures r.NoModel? ==> assignment == old(assignment)
      ensures r.Found? ==> r.assignment == assignment && AllTrue(assignment)
      ensures r.Found? ==> Extends(assignment, old(assignment)) && AllSatisfied(clauses, assignment)
      ensures r.Found? && Consistent(old(assignment)) && PlainKeys(old(assignment)) && AllPlain(clauses) ==>
        Consistent(assignment) && PlainKeys(assignment)
      ensures !stopWhenStuck ==> !r.NoModel?
      ensures stopWhenStuck ==> !r.Raised?
      ensures stopWhenStuck && r.NoModel? ==>
        !ModelAgrees(Unsatisfied(clauses, old(assignment)), old(assignment)[key := true])
      ensures !stopWhenStuck && NothingToPick(Unsatisfied(clauses, old(assignment)), old(assignment)[key := true]) ==>
        r.Raised?
      decreases Universe(clauses) - assignment.Keys, 0
    {
      var cs := Unsatisfied(clauses, assignment);
      ghost var a0 := assignment;
      UniverseShrinks(clauses, cs, a0, key);
      StoreKeepsConsistent(clauses, a0, l, key);
      assignment := assignment[key := true];
      r := Search(cs, stopWhenStuck);
      if r.NoModel? {
        assignment := assignment - {key};
      } else if r.Found? {
        FoundAfter(clauses, a0, key, assignment);
      }
    }
  }

  /** Storing either value of an unassigned literal keeps a consistent assignment of plain literals so. */
  lemma StoreKeepsConsistent(clauses: seq<Clause>, a0: Assignment, l: string, key: Option<string>)
    requires l in Unassigned(Unsatisfied(clauses, a0), a0)
    requires key == Some(l) || key == Negate(l)
    ensures Consistent(a0) && PlainKeys(a0) && AllPlain(clauses) ==>
      Consistent(a0[key := true]) && PlainKeys(a0[key := true]) && AllPlain(Unsatisfied(clauses, a0))
  {
    if Consistent(a0) && PlainKeys(a0) && AllPlain(clauses) {
      UnsatisfiedPlain(clauses, a0);
      if key == Some(l) {
        AddConsistent(a0, l);
      } else {
        NegateInvolution(l);
        NegatePlain(l);
        AddConsistent(a0, Negate(l).value);
      }
    }
  }

  lemma NoEmptyModel(clauses: seq<Clause>)
    requires {} in clauses
    ensures forall a :: !ModelAgrees(clauses, a)
  {
  }

  lemma UnsatisfiedEmpty(clauses: seq<Clause>, a: Assignment)
    requires Unsatisfied(clauses, a) == []
    ensures AllSatisfied(clauses, a)
  {
    forall i | 0 <= i < |clauses|
      ensures Satisfied(clauses[i], a)
    {
      assert clauses[i] in clauses;
    }
  }

  /** The clauses left to satisfy are plain when all clauses are. */
  lemma UnsatisfiedPlain(clauses: seq<Clause>, a: Assignment)
    requires AllPlain(clauses)
    ensures AllPlain(Unsatisfied(clauses, a))
  {
    var cs := Unsatisfied(clauses, a);
    forall i, l | 0 <= i < |cs| && l in cs[i]
      ensures Plain(l)
    {
      assert cs[i] in clauses;
    }
  }

  /**
   * The keys still free shrink when a key of the remaining clauses'
   * universe is stored: the remaining clauses are among `clauses`.
   */
  lemma UniverseShrinks(clauses: seq<Clause>, cs: seq<Clause>, a: Assignment, k: Option<string>)
    requires cs == Unsatisfied(clauses, a)
    requires k in Universe(cs) && k !in a
    ensures Universe(cs) - a[k := true].Keys < Universe(clauses) - a.Keys
    ensures a[k := true] - {k} == a
  {
    StoreKey(a, k);
    var lits := AllLiterals(cs);
    forall l | l in lits
      ensures l in AllLiterals(clauses)
    {
      var i :| 0 <= i < |cs| && l in cs[i];
      assert cs[i] in clauses;
    }
    KeysMono(lits, AllLiterals(clauses));
  }

  /** Storing a new key and deleting it again gives the map back. */
  lemma StoreKey(a: Assignment, k: Option<string>)
    requires k !in a
    ensures a[k := true].Keys == a.Keys + {k}
    ensures a[k := true] - {k} == a
  {
    var b := a[k := true] - {k};
    assert b.Keys == a.Keys;
    forall x | x in b
      ensures b[x] == a[x]
    {
    }
  }

  lemma KeysMono(small: set<string>, big: set<string>)
    requires small <= big
    ensures Keys(small) <= Keys(big)
  {
  }

  /**
   * A search below a stored key that succeeds extends the assignment on
   * entry and satisfies every clause: the ones it was given, and the ones
   * that were already satisfied.
   */
  lemma FoundAfter(clauses: seq<Clause>, a0: Assignment, k: Option<string>, a: Assignment)
    requires k !in a0
    requires Extends(a, a0[k := true]) && AllSatisfied(Unsatisfied(clauses, a0), a)
    ensures Extends(a, a0) && AllSatisfied(clauses, a)
  {
    var cs := Unsatisfied(clauses, a0);
    forall i | 0 <= i < |clauses|
      ensures Satisfied(clauses[i], a)
    {
      if Satisfied(clauses[i], a0) {
        var l :| l in clauses[i] && Assigned(a0, l);
        assert Assigned(a, l);
      } else {
        assert clauses[i] in cs;
        var j :| 0 <= j < |cs| && cs[j] == clauses[i];
        assert Satisfied(cs[j], a);
      }
    }
  }

  /** Storing a plain literal that is not a key, and whose negation is not one, keeps the assignment consistent. */
  lemma AddConsistent(a: Assignment, l: string)
    requires Consistent(a) && PlainKeys(a) && Plain(l)
    requires Some(l) !in a && Negate(l) !in a
    ensures Consistent(a[Some(l) := true]) && PlainKeys(a[Some(l) := true])
  {
    var b := a[Some(l) := true];
    NegateInvolution(l);
    forall k | k in b && k.Some?
      ensures Negate(k.value) !in b
    {
      if k != Some(l) {
        NegateInvolution(k.value);
      }
    }
  }

  /**
   * When a model agrees with the assignment, some clause left to satisfy
   * has a literal that is neither a key nor has its negation as a key.
   */
  lemma Stuck(clauses: seq<Clause>, a: Assignment)
    requires AllTrue(a)
    requires Unsatisfied(clauses, a) != [] && Unassigned(Unsatisfied(clauses, a), a) == {}
    ensures !ModelAgrees(clauses, a)
  {
    var cs := Unsatisfied(clauses, a);
    if ModelAgrees(clauses, a) {
      var v :| Agrees(v, a) && AllHold(clauses, v);
      assert cs[0] in clauses;
      var j :| 0 <= j < |clauses| && clauses[j] == cs[0];
      assert ClauseHolds(clauses[j], v);
      var l :| l in cs[0] && LitHolds(l, v);
      FreeLiteral(cs, a, v, 0, l);
    }
  }

  /** A true literal of an unsatisfied clause is unassigned under an agreeing model. */
  lemma FreeLiteral(cs: seq<Clause>, a: Assignment, v: Valuation, i: nat, l: string)
    requires AllTrue(a) && Agrees(v, a)
    requires i < |cs| && l in cs[i] && LitHolds(l, v) && !Satisfied(cs[i], a)
    ensures l in Unassigned(cs, a)
  {
    assert Some(l) !in a;
    NegateFlips(l, v);
  }

  /**
   * A model that agrees with the assignment agrees with one of the two
   * extensions the search tries for an unassigned literal.
   */
  lemma BothBranches(clauses: seq<Clause>, a: Assignment, l: string)
    requires AllTrue(a)
    requires l in Unassigned(Unsatisfied(clauses, a), a)
    requires !ModelAgrees(Unsatisfied(clauses, a), a[Some(l) := true])
    requires !ModelAgrees(Unsatisfied(clauses, a), a[Negate(l) := true])
    ensures !ModelAgrees(clauses, a)
  {
    var cs := Unsatisfied(clauses, a);
    if ModelAgrees(clauses, a) {
      var v :| Agrees(v, a) && AllHold(clauses, v);
      assert AllHold(cs, v) by {
        forall i | 0 <= i < |cs|
          ensures ClauseHolds(cs[i], v)
        {
          assert cs[i] in clauses;
        }
      }
      if !LitHolds(l, v) && l != "" {
        NegateFlips(l, v);
      }
    }
  }

  /** The valuation read off an assignment: each stored literal's string is true. */
  function ModelOf(a: Assignment): (v: Valuation)
    ensures forall x :: x in v <==> Some(x) in a
    ensures forall x :: x in v ==> v[x] == a[Some(x)]
  {
    map k | k in a.Keys && k.Some? :: k.value := a[k]
  }

  /**
   * A consistent assignment of plain literals that satisfies every clause
   * yields a model: each stored positive literal is made true, and the
   * name under each stored negative literal is left out, hence false.
   */
  lemma AssignmentModel(cs: seq<Clause>, a: Assignment)
    requires AllPlain(cs) && Consistent(a) && AllTrue(a) && AllSatisfied(cs, a)
    ensures AllHold(cs, ModelOf(a))
  {
    var v := ModelOf(a);
    forall i | 0 <= i < |cs|
      ensures ClauseHolds(cs[i], v)
    {
      var l :| l in cs[i] && Assigned(a, l);
      assert Plain(l);
      if l[0] == '¬' {
        var x := l[1..];
        assert x != "" && x[0] != '¬';
        assert Negate(l) == Some(x);
        assert x !in v;
        assert LitHolds(l, v);
      } else {
        assert LitHolds(l, v);
      }
    }
  }

  /**
   * resolution.py:131-177 `find_satisfying_interpretation` with None in
   * place of the exception when no literal is left to try: None exactly
   * when the clauses have no model, and for plain literals a returned
   * assignment is consistent and describes a model.
   */
  method FindSatisfyingInterpretation(clauses: seq<Clause>) returns (r: Outcome)
    ensures !r.Raised?
    ensures {} in clauses ==> r.NoModel?
    ensures r.NoModel? ==> !Satisfiable(clauses)
    ensures r.Found? ==> AllSatisfied(clauses, r.assignment) && AllTrue(r.assignment)
    ensures r.Found? && AllPlain(clauses) ==>
      Consistent(r.assignment) && AllHold(clauses, ModelOf(r.assignment))
    ensures AllPlain(clauses) ==> (r.Found? <==> Satisfiable(clauses))
  {
    var search := new Search();
    r := search.Search(clauses, true);
    if r.NoModel? {
      assert forall v: Valuation :: Agrees(v, map[]);
    }
    if r.Found? && AllPlain(clauses) {
      AssignmentModel(clauses, r.assignment);
    }
  }

  /**
   * resolution.py:131-177 as written: None only when a clause is empty, so
   * an unsatisfiable list without an empty clause makes it raise.
   */
  method FindSatisfyingInterpretationAsWritten(clauses: seq<Clause>) returns (r: Outcome)
    ensures {} in clauses <==> r.NoModel?
    ensures r.Found? ==> AllSatisfied(clauses, r.assignment) && AllTrue(r.assignment)
    ensures r.Found? && AllPlain(clauses) ==>
      Consistent(r.assignment) && AllHold(clauses, ModelOf(r.assignment))
  {
    var search := new Search();
    r := search.Search(clauses, false);
    if r.Found? && AllPlain(clauses) {
      AssignmentModel(clauses, r.assignment);
    }
  }

  /**
   * `find_satisfying_interpretation([{A}, {¬A}])`: whichever literal is
   * tried first, the other clause is left with no unassigned literal, and
   * the source raises instead of returning None.
   */
  method InterpretationCounterexample() returns (r: Outcome, corrected: Outcome)
    ensures r == Raised
    ensures corrected == NoModel
  {
    var clauses := Resolution.UnitClash("A");
    Resolution.UnitClashUnsatisfiable("A");
    assert "¬A"[0] == '¬' && "¬A"[1..] == "A";
    assert AllPlain(clauses);
    r := FindSatisfyingInterpretationAsWritten(clauses);
    corrected := FindSatisfyingInterpretation(clauses);
  }

  /** B := True, A := False satisfies `[{A, B}, {¬A}]`. */
  lemma SecondChoiceModel()
    ensures Satisfiable([{"A", "B"}, {"¬A"}])
  {
    var model: Valuation := map["A" := false, "B" := true];
    assert "¬A"[0] == '¬' && "¬A"[1..] == "A";
    assert "B" in {"A", "B"} && LitHolds("B", model);
    assert "¬A" in {"¬A"} && LitHolds("¬A", model);
    assert AllHold([{"A", "B"}, {"¬A"}], model);
  }

  /** On `[{A, B}, {¬A}]`, A can be picked first, and after A := True nothing is left to pick. */
  lemma StuckAfterA()
    ensures var clauses: seq<Clause> := [{"A", "B"}, {"¬A"}];
      && {} !in Unsatisfied(clauses, map[])
      && "A" in Unassigned(Unsatisfied(clauses, map[]), map[])
      && NothingToPick(Unsatisfied(clauses, map[]), map[Some("A") := true])
  {
    var clauses: seq<Clause> := [{"A", "B"}, {"¬A"}];
    assert "¬A"[0] == '¬' && "¬A"[1..] == "A";
    assert Unsatisfied(clauses, map[]) == clauses;
    var a1: Assignment := map[Some("A") := true];
    assert Assigned(a1, "A") && !Assigned(a1, "¬A");
    assert Unsatisfied(clauses, a1) == [{"¬A"}];
    assert AllLiterals([{"¬A"}]) == {"¬A"};
  }

  /**
   * `find_satisfying_interpretation([{A, B}, {¬A}])` when the search tries
   * A first: after A := True only `{¬A}` is left, ¬A is not unassigned
   * because its negation A is a key, and the source raises although
   * B := True, A := False is a model. The exception leaves every level,
   * so the branch ¬A is never tried.
   */
  method SatisfiableCounterexample() returns (r: Outcome)
    ensures Satisfiable([{"A", "B"}, {"¬A"}])
    ensures r == Raised
  {
    var clauses: seq<Clause> := [{"A", "B"}, {"¬A"}];
    SecondChoiceModel();
    StuckAfterA();
    var search := new Search();
    r := search.Branch(clauses, "A", Some("A"), false);
  }

}
