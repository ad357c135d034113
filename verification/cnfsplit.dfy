/**
 * The grouping of normal_form.py line 127 as written, on a concrete tree: a
 * disjunction that `check_simplified_integrity` has lifted under another
 * disjunction is split as if it were a conjunction, and the conjunctive
 * normal form that comes out means something else.
 */
module CnfSplit {
  import opened Syntax
  import opened Semantics
  import opened Trees
  import opened Nnf
  import opened Simplifier
  import opened NormalForm

  function Var(name: string): Node
  {
    Node(name, [])
  }

  lemma WithoutAbsent(cs: seq<Node>, drop: string)
    requires forall i :: 0 <= i < |cs| ==> cs[i].name != drop
    ensures Without(cs, drop) == cs
    decreases cs
  {
    if cs != [] {
      WithoutAbsent(cs[1..], drop);
      assert [cs[0]] + cs[1..] == cs;
    }
  }

  lemma NoNegations(cs: seq<Node>)
    requires forall i :: 0 <= i < |cs| ==> cs[i].name != NOT
    ensures NegatedNames(cs) == {}
    decreases cs
  {
    if cs != [] {
      NoNegations(cs[1..]);
    }
  }

  /**
   * A junction of at least two simplified children with distinct
   * renderings, no constant, no negation and no child of its own label is
   * left as it is by the second phase of `simplify_tree`.
   */
  lemma SettlePlain(j: string, cs: seq<Node>)
    requires IsJunction(j) && |cs| >= 2 && DistinctRenderings(cs)
    requires forall i :: 0 <= i < |cs| ==> cs[i].name !in {j, NOT, TOP, BOT}
    ensures Settle(j, cs) == Simplified(Node(j, cs), Node(j, cs))
    ensures Finish(Node(j, cs)) == Simplified(Node(j, cs), Node(j, cs))
  {
    LabelsDistinct();
    SpliceOfOthers(j, cs);
    DedupOfDistinct(cs, {});
    NoNegations(cs);
    WithoutAbsent(cs, Unit(j));
    assert !AllLabelled(cs, Unit(j)) by {
      assert cs[0].name != Unit(j);
    }
    assert !AnyLabelled(cs, Zero(j));
  }

  /** The same for a whole junction whose children `simplify_tree` leaves as they are. */
  lemma SimplifyPlain(j: string, cs: seq<Node>)
    requires IsJunction(j) && |cs| >= 2 && DistinctRenderings(cs)
    requires forall i :: 0 <= i < |cs| ==> Simplify(cs[i]).kept == cs[i]
    requires forall i :: 0 <= i < |cs| ==> cs[i].name !in {j, NOT, TOP, BOT}
    ensures Simplify(Node(j, cs)) == Simplified(Node(j, cs), Node(j, cs))
    ensures Finish(Node(j, cs)) == Simplified(Node(j, cs), Node(j, cs))
  {
    assert KeptAll(cs) == cs;
    SettlePlain(j, cs);
  }

  /** Four distinct variable names. */
  predicate Names(b: string, c: string, d: string, e: string)
  {
    && IsVariableName(b) && IsVariableName(c) && IsVariableName(d) && IsVariableName(e)
    && b != c && b != d && b != e && c != d && c != e && d != e
  }

  function Pair(j: string, x: string, y: string): Node
  {
    Node(j, [Var(x), Var(y)])
  }

  /** ∨[∧[b ∨ c, b ∨ c], d ∧ e]: the conjunction of a repeated clause, or d and e. */
  function Input(b: string, c: string, d: string, e: string): Node
  {
    Node(OR, [Node(AND, [Pair(OR, b, c), Pair(OR, b, c)]), Pair(AND, d, e)])
  }

  /** ∨[b ∨ c, d ∧ e]: what the negation normal form stage makes of `Input`. */
  function Lifted(b: string, c: string, d: string, e: string): Node
  {
    Node(OR, [Pair(OR, b, c), Pair(AND, d, e)])
  }

  /** ∧[b ∨ d, b ∨ e, c ∨ d, c ∨ e]: what `convert` as written makes of `Lifted`. */
  function Split(b: string, c: string, d: string, e: string): Node
  {
    Node(AND, [Pair(OR, b, d), Pair(OR, b, e), Pair(OR, c, d), Pair(OR, c, e)])
  }

  lemma SimplifyVar(name: string)
    requires IsVariableName(name)
    ensures Simplify(Var(name)) == Simplified(Var(name), Var(name))
  {
    SimplifyName(Var(name));
  }

  /** A junction of two distinct variables is left as it is. */
  lemma SimplifyPair(j: string, x: string, y: string)
    requires IsJunction(j) && IsVariableName(x) && IsVariableName(y) && x != y
    ensures Simplify(Pair(j, x, y)) == Simplified(Pair(j, x, y), Pair(j, x, y))
    ensures Finish(Pair(j, x, y)) == Simplified(Pair(j, x, y), Pair(j, x, y))
  {
    LabelsDistinct();
    Nnf.ConnectivesAreNotNames();
    SimplifyVar(x);
    SimplifyVar(y);
    SimplifyPlain(j, [Var(x), Var(y)]);
  }

  lemma RepeatedClause(b: string, c: string)
    requires IsVariableName(b) && IsVariableName(c) && b != c
    ensures var bc := Pair(OR, b, c);
      Simplify(Node(AND, [bc, bc])) == Simplified(Node(AND, [bc]), bc)
  {
    LabelsDistinct();
    var bc := Pair(OR, b, c);
    SimplifyPair(OR, b, c);
    var kids := [bc, bc];
    assert KeptAll(kids) == kids;
    SpliceOfOthers(AND, kids);
    DedupTwice(bc);
  }

  lemma DedupTwice(x: Node)
    ensures Dedup([x, x]) == [x]
  {
    var seen: set<string> := {};
    assert Expression([x, x][0]) !in seen;
    assert [x, x][1..] == [x] && [x][1..] == [];
    assert DedupFrom([x], seen + {Expression(x)}) == [];
  }

  lemma SettlePair(j: string, a: Node, b: Node)
    requires IsJunction(j) && Expression(a) != Expression(b)
    requires a.name == DualJunction(j) && b.name == DualJunction(j)
    ensures Settle(j, [a, b]) == Simplified(Node(j, [a, b]), Node(j, [a, b]))
  {
    LabelsDistinct();
    SettlePlain(j, [a, b]);
  }

  lemma LoneClauseRendering(b: string, c: string, d: string, e: string)
    requires Names(b, c, d, e)
    ensures Expression(Node(AND, [Pair(OR, b, c)])) != Expression(Pair(AND, d, e))
  {
    LabelsDistinct();
    Nnf.ConnectivesAreNotNames();
    var bc := Pair(OR, b, c);
    assert JoinExpressions([bc], " " + AND + " ") == Expression(bc);
    assert Expression(Node(AND, [bc])) == "(" + Expression(bc) + ")";
    assert Expression(bc)[0] == '(';
    assert Expression(Node(AND, [bc]))[1] == '(';
    var de := Pair(AND, d, e);
    assert Expression(Var(d)) == d;
    assert de.children[1..] == [Var(e)];
    assert JoinExpressions(de.children, " " + AND + " ") == d + " " + AND + " " + JoinExpressions([Var(e)], " " + AND + " ");
    assert Expression(de) == "(" + JoinExpressions(de.children, " " + AND + " ") + ")";
    assert Expression(de)[1] == d[0];
  }

  lemma InputSimplified(b: string, c: string, d: string, e: string)
    requires Names(b, c, d, e)
    ensures Simplify(Input(b, c, d, e)).result == Node(OR, [Node(AND, [Pair(OR, b, c)]), Pair(AND, d, e)])
  {
    LabelsDistinct();
    var kids := [Node(AND, [Pair(OR, b, c)]), Pair(AND, d, e)];
    RepeatedClause(b, c);
    SimplifyPair(AND, d, e);
    assert KeptAll(Input(b, c, d, e).children) == kids;
    LoneClauseRendering(b, c, d, e);
    SettlePair(OR, kids[0], kids[1]);
  }

  lemma InputIsNnf(b: string, c: string, d: string, e: string)
    requires Names(b, c, d, e)
    ensures ToNnf(Input(b, c, d, e)) == Input(b, c, d, e)
  {
    LabelsDistinct();
    PairNnf(OR, b, c);
    PairNnf(AND, d, e);
    assert IsNnf(Node(AND, [Pair(OR, b, c), Pair(OR, b, c)]));
    NnfFixesNnf(Input(b, c, d, e), Weight(Input(b, c, d, e)));
  }

  lemma PairNnf(j: string, x: string, y: string)
    requires IsJunction(j) && IsVariableName(x) && IsVariableName(y)
    ensures WellShaped(Pair(j, x, y)) && IsNnf(Pair(j, x, y))
  {
    LabelsDistinct();
    Nnf.ConnectivesAreNotNames();
    assert IsPropName(x) && IsPropName(y);
    assert IsNnf(Var(x)) && IsNnf(Var(y));
    assert WellShaped(Var(x)) && WellShaped(Var(y));
  }

  lemma PairCheck(j: string, x: string, y: string)
    requires IsVariableName(x) && IsVariableName(y)
    ensures CheckIntegrity(Pair(j, x, y)) == Pair(j, x, y)
  {
    LabelsDistinct();
    Nnf.ConnectivesAreNotNames();
    assert CheckIntegrity(Var(x)) == Var(x);
    assert CheckIntegrity(Var(y)) == Var(y);
  }

  lemma LiftedCheck(b: string, c: string, d: string, e: string)
    requires Names(b, c, d, e)
    ensures CheckIntegrity(Node(OR, [Node(AND, [Pair(OR, b, c)]), Pair(AND, d, e)])) == Lifted(b, c, d, e)
  {
    LabelsDistinct();
    PairCheck(OR, b, c);
    PairCheck(AND, d, e);
    assert CheckIntegrity(Node(AND, [Pair(OR, b, c)])) == Pair(OR, b, c);
  }

  /** The negation normal form stage lifts the lone clause under the outer disjunction. */
  lemma InputStage(b: string, c: string, d: string, e: string)
    requires Names(b, c, d, e)
    ensures NnfStage(Input(b, c, d, e)) == Lifted(b, c, d, e)
  {
    InputIsNnf(b, c, d, e);
    InputSimplified(b, c, d, e);
    LiftedCheck(b, c, d, e);
  }

  lemma {:induction false} ConvertAllFixed(cs: seq<Node>, outer: string, fuel: nat)
    requires IsJunction(outer)
    requires forall i :: 0 <= i < |cs| ==> ConvertAsWritten(cs[i], outer, fuel) == Some(cs[i])
    ensures ConvertAllAsWritten(cs, outer, fuel) == Some(cs)
    decreases cs
  {
    if cs != [] {
      ConvertAllFixed(cs[1..], outer, fuel);
      assert [cs[0]] + cs[1..] == cs;
    }
  }

  /** A clause of two variables passes `convert` unchanged. */
  lemma ClauseFixed(x: string, y: string)
    requires IsVariableName(x) && IsVariableName(y)
    ensures ConvertAsWritten(Pair(OR, x, y), OR, 2) == Some(Pair(OR, x, y))
  {
    LabelsDistinct();
    Nnf.ConnectivesAreNotNames();
    assert ConvertAllAsWritten([], OR, 0) == Some([]);
    assert ConvertAsWritten(Var(x), OR, 1) == Some(Var(x));
    assert ConvertAsWritten(Var(y), OR, 1) == Some(Var(y));
    ConvertAllFixed([Var(x), Var(y)], OR, 1);
  }

  lemma PairProduct(a: Node, b: Node, c: Node, d: Node)
    ensures Product([[a, b], [c, d]]) == [[a, c], [a, d], [b, c], [b, d]]
  {
    var gs := [[a, b], [c, d]];
    assert gs[1..] == [[c, d]] && gs[1..][1..] == [];
    assert Product([]) == [[]];
    assert [c] + [] == [c] && [d] + [] == [d];
    assert Attach(c, [[]]) == [[c]] && Attach(d, [[]]) == [[d]];
    assert [c, d][1..] == [d] && [d][1..] == [];
    assert Prepend([d], [[]]) == [[d]];
    assert Product([[c, d]]) == [[c], [d]];
    var p1 := [[c], [d]];
    assert [a] + [c] == [a, c] && [a] + [d] == [a, d] && [b] + [c] == [b, c] && [b] + [d] == [b, d];
    assert Attach(a, p1) == [[a, c], [a, d]];
    assert Attach(b, p1) == [[b, c], [b, d]];
    assert [a, b][1..] == [b] && [b][1..] == [];
    assert Prepend([b], p1) == [[b, c], [b, d]];
  }

  lemma LiftedPicks(b: string, c: string, d: string, e: string)
    ensures Product(GroupsAsWritten(Lifted(b, c, d, e).children))
         == [[Var(b), Var(d)], [Var(b), Var(e)], [Var(c), Var(d)], [Var(c), Var(e)]]
  {
    var gs := GroupsAsWritten(Lifted(b, c, d, e).children);
    assert gs == [[Var(b), Var(c)], [Var(d), Var(e)]];
    PairProduct(Var(b), Var(c), Var(d), Var(e));
  }

  lemma DistributeAppend(outer: string, ps: seq<seq<Node>>, qs: seq<seq<Node>>)
    ensures Distribute(outer, ps + qs) == Distribute(outer, ps) + Distribute(outer, qs)
  {
  }

  /** Two clauses of two variables each stay as they are. */
  lemma TwoClauses(x1: string, y1: string, x2: string, y2: string)
    requires IsVariableName(x1) && IsVariableName(y1) && x1 != y1
    requires IsVariableName(x2) && IsVariableName(y2) && x2 != y2
    ensures Distribute(OR, [[Var(x1), Var(y1)], [Var(x2), Var(y2)]]) == [Pair(OR, x1, y1), Pair(OR, x2, y2)]
  {
    var ps := [[Var(x1), Var(y1)], [Var(x2), Var(y2)]];
    DistributedAt(ps, 0, x1, y1);
    DistributedAt(ps, 1, x2, y2);
  }

  lemma FourClauses(ps: seq<seq<Node>>, b: string, c: string, d: string, e: string)
    requires Names(b, c, d, e)
    requires ps == [[Var(b), Var(d)], [Var(b), Var(e)], [Var(c), Var(d)], [Var(c), Var(e)]]
    ensures Distribute(OR, ps) == Split(b, c, d, e).children
  {
    TwoClauses(b, d, b, e);
    TwoClauses(c, d, c, e);
    DistributeAppend(OR, ps[..2], ps[2..]);
    assert ps == ps[..2] + ps[2..];
  }

  lemma LiftedDistributed(b: string, c: string, d: string, e: string)
    requires Names(b, c, d, e)
    ensures Distribute(OR, Product(GroupsAsWritten(Lifted(b, c, d, e).children))) == Split(b, c, d, e).children
  {
    LiftedPicks(b, c, d, e);
    FourClauses(Product(GroupsAsWritten(Lifted(b, c, d, e).children)), b, c, d, e);
  }

  lemma DistributedAt(ps: seq<seq<Node>>, k: nat, x: string, y: string)
    requires k < |ps| && ps[k] == [Var(x), Var(y)]
    requires IsVariableName(x) && IsVariableName(y) && x != y
    ensures Distribute(OR, ps)[k] == Pair(OR, x, y)
  {
    SimplifyPair(OR, x, y);
  }

  /** `convert` as written turns `Lifted` into `Split`. */
  lemma LiftedConverted(b: string, c: string, d: string, e: string)
    requires Names(b, c, d, e)
    ensures ConvertAsWritten(Lifted(b, c, d, e), OR, 3) == Some(Split(b, c, d, e))
  {
    LabelsDistinct();
    assert Distributes(Lifted(b, c, d, e), OR) by {
      assert Lifted(b, c, d, e).children[1].name == AND;
    }
    LiftedDistributed(b, c, d, e);
    SplitFixed(b, c, d, e);
  }

  lemma SplitFixed(b: string, c: string, d: string, e: string)
    requires Names(b, c, d, e)
    ensures ConvertAllAsWritten(Split(b, c, d, e).children, OR, 2) == Some(Split(b, c, d, e).children)
  {
    ClauseFixed(b, d);
    ClauseFixed(b, e);
    ClauseFixed(c, d);
    ClauseFixed(c, e);
    ConvertAllFixed(Split(b, c, d, e).children, OR, 2);
  }

  /** Under b true and c, d, e false, the input holds and the split conjunction does not. */
  lemma SplitChangesTruth(b: string, c: string, d: string, e: string, v: Valuation)
    requires Names(b, c, d, e)
    requires b in v && c in v && d in v && e in v && v[b] && !v[c] && !v[d] && !v[e]
    ensures Holds(Input(b, c, d, e), v) && !Holds(Split(b, c, d, e), v)
  {
    LabelsDistinct();
    Nnf.ConnectivesAreNotNames();
    assert IsPropName(b) && IsPropName(c) && IsPropName(d) && IsPropName(e);
    assert Holds(Var(b), v) && !Holds(Var(c), v) && !Holds(Var(d), v);
    var bc := Pair(OR, b, c);
    assert Holds(bc, v) by {
      assert Holds(bc.children[0], v);
    }
    assert Holds(Node(AND, [bc, bc]), v);
    assert Holds(Input(b, c, d, e), v) by {
      assert Holds(Input(b, c, d, e).children[0], v);
    }
    assert !Holds(Pair(OR, c, d), v);
    assert !Holds(Split(b, c, d, e), v) by {
      assert !Holds(Split(b, c, d, e).children[2], v);
    }
  }

  /**
   * The source's `cnf` conversion of ∨[∧[b ∨ c, b ∨ c], d ∧ e] means
   * something else: under b true and c, d, e false the formula holds and the
   * returned conjunctive normal form does not. The corrected conversion
   * keeps the meaning.
   */
  lemma SplitCounterexample(b: string, c: string, d: string, e: string, v: Valuation)
    requires Names(b, c, d, e)
    requires b in v && c in v && d in v && e in v && v[b] && !v[c] && !v[d] && !v[e]
    ensures var t := Input(b, c, d, e);
      && NnfStage(t) == Lifted(b, c, d, e)
      && ConvertAsWritten(NnfStage(t), OR, 3) == Some(Split(b, c, d, e))
      && TransformAsWritten(t, "cnf", 3).Some?
      && Holds(t, v) && !Holds(TransformAsWritten(t, "cnf", 3).value, v)
      && TransformToNormalForm(t, "cnf").Some? && Holds(TransformToNormalForm(t, "cnf").value, v)
  {
    SplitAsWritten(b, c, d, e, v);
    SplitCorrected(b, c, d, e, v);
  }

  /** The source's conversion of the sample is false under `v`. */
  lemma SplitAsWritten(b: string, c: string, d: string, e: string, v: Valuation)
    requires Names(b, c, d, e)
    requires b in v && c in v && d in v && e in v && v[b] && !v[c] && !v[d] && !v[e]
    ensures var t := Input(b, c, d, e);
      && NnfStage(t) == Lifted(b, c, d, e)
      && ConvertAsWritten(NnfStage(t), OR, 3) == Some(Split(b, c, d, e))
      && TransformAsWritten(t, "cnf", 3).Some?
      && Holds(t, v) && !Holds(TransformAsWritten(t, "cnf", 3).value, v)
  {
    var split := Split(b, c, d, e);
    SplitTransformed(b, c, d, e);
    SplitChangesTruth(b, c, d, e, v);
    SplitShape(b, c, d, e);
    SimplifySound(split, v);
  }

  lemma SplitTransformed(b: string, c: string, d: string, e: string)
    requires Names(b, c, d, e)
    ensures var t := Input(b, c, d, e);
      && NnfStage(t) == Lifted(b, c, d, e)
      && ConvertAsWritten(NnfStage(t), OR, 3) == Some(Split(b, c, d, e))
      && TransformAsWritten(t, "cnf", 3) == Some(Simplify(Split(b, c, d, e)).result)
  {
    InputStage(b, c, d, e);
    LiftedConverted(b, c, d, e);
    LowerCnf();
  }

  /** The corrected conversion of the sample keeps its meaning. */
  lemma SplitCorrected(b: string, c: string, d: string, e: string, v: Valuation)
    requires Names(b, c, d, e)
    requires b in v && c in v && d in v && e in v && v[b] && !v[c] && !v[d] && !v[e]
    ensures var t := Input(b, c, d, e);
      Holds(t, v) && TransformToNormalForm(t, "cnf").Some? && Holds(TransformToNormalForm(t, "cnf").value, v)
  {
    var t := Input(b, c, d, e);
    SplitChangesTruth(b, c, d, e, v);
    LowerCnf();
    InputShape(b, c, d, e);
    TransformSound(t, "cnf", v);
  }

  lemma LowerCnf()
    ensures Lower("cnf") == "cnf"
  {
  }

  /** The same with B, C, D and E. */
  lemma CnfSplitCounterexample()
    ensures var t := Input("B", "C", "D", "E");
      var v := map["B" := true, "C" := false, "D" := false, "E" := false];
      && TransformAsWritten(t, "cnf", 3).Some?
      && Holds(t, v) && !Holds(TransformAsWritten(t, "cnf", 3).value, v)
  {
    var v := map["B" := true, "C" := false, "D" := false, "E" := false];
    SplitCounterexample("B", "C", "D", "E", v);
  }

  lemma SplitShape(b: string, c: string, d: string, e: string)
    requires Names(b, c, d, e)
    ensures WellShaped(Split(b, c, d, e)) && IsNnf(Split(b, c, d, e))
  {
    LabelsDistinct();
    PairNnf(OR, b, d);
    PairNnf(OR, b, e);
    PairNnf(OR, c, d);
    PairNnf(OR, c, e);
  }

  lemma InputShape(b: string, c: string, d: string, e: string)
    requires Names(b, c, d, e)
    ensures WellShaped(Input(b, c, d, e))
  {
    LabelsDistinct();
    PairNnf(OR, b, c);
    PairNnf(AND, d, e);
    assert WellShaped(Node(AND, [Pair(OR, b, c), Pair(OR, b, c)]));
  }
}
