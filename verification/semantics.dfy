/**
 * Truth-functional meaning of formula trees (utility.py
 * `evaluate_truth_table`): ⊤ and ⊥ are constants, ¬ negates, ∧ and ∨ range
 * over every child, ⇒ and ⇔ are the usual binary functions and any other
 * label is looked up in the valuation.
 */
module Semantics {
  import opened Syntax

  type Valuation = map<string, bool>

  /** The truth value of `n` under `v`, total: a label missing from `v` reads as false. */
  predicate Holds(n: Node, v: Valuation)
  {
    if n.name == TOP then true
    else if n.name == BOT then false
    else if n.name == NOT then |n.children| > 0 && !Holds(n.children[0], v)
    else if n.name == AND then forall i :: 0 <= i < |n.children| ==> Holds(n.children[i], v)
    else if n.name == OR then exists i :: 0 <= i < |n.children| && Holds(n.children[i], v)
    else if n.name == IMP then
      |n.children| >= 2 && (!Holds(n.children[0], v) || Holds(n.children[1], v))
    else if n.name == IFF then
      |n.children| >= 2 && (Holds(n.children[0], v) == Holds(n.children[1], v))
    else n.name in v && v[n.name]
  }

  /**
   * The source's evaluator: it refuses a valuation that misses a variable of
   * the tree, and evaluates the children of ∧ and ∨ left to right with the
   * short-circuit of Python's `all` and `any`.
   */
  function Evaluate(n: Node, v: Valuation): Result<bool>
  {
    if Variables(n) - v.Keys != {} then Err("Missing truth value")
    else if n.name == TOP then Ok(true)
    else if n.name == BOT then Ok(false)
    else if n.name == NOT then
      if n.children == [] then Err("list index out of range")
      else match Evaluate(n.children[0], v)
        case Ok(b) => Ok(!b)
        case Err(m) => Err(m)
    else if n.name == AND then EvaluateAll(n.children, v)
    else if n.name == OR then EvaluateAny(n.children, v)
    else if n.name == IMP || n.name == IFF then
      if |n.children| < 2 then Err("list index out of range")
      else match Evaluate(n.children[0], v)
        case Err(m) => Err(m)
        case Ok(l) =>
          match Evaluate(n.children[1], v)
          case Err(m) => Err(m)
          case Ok(r) => Ok(if n.name == IMP then !l || r else l == r)
    else if n.name in v then Ok(v[n.name])
    else Err("Missing truth value")
  }

  function EvaluateAll(cs: seq<Node>, v: Valuation): Result<bool>
    decreases cs
  {
    if cs == [] then Ok(true)
    else match Evaluate(cs[0], v)
      case Err(m) => Err(m)
      case Ok(b) => if !b then Ok(false) else EvaluateAll(cs[1..], v)
  }

  function EvaluateAny(cs: seq<Node>, v: Valuation): Result<bool>
    decreases cs
  {
    if cs == [] then Ok(false)
    else match Evaluate(cs[0], v)
      case Err(m) => Err(m)
      case Ok(b) => if b then Ok(true) else EvaluateAny(cs[1..], v)
  }

  lemma {:induction false} VariablesOfElement(cs: seq<Node>, i: nat)
    requires i < |cs|
    ensures Variables(cs[i]) <= VariablesOf(cs)
  {
    if i > 0 { VariablesOfElement(cs[1..], i - 1); }
  }

  /**
   * The evaluator succeeds exactly on valuations that cover the tree's
   * variables, and then its answer is the truth value `Holds`.
   */
  lemma {:induction false} EvaluateMeansHolds(n: Node, v: Valuation)
    requires WellShaped(n)
    ensures Evaluate(n, v).Ok? <==> Variables(n) <= v.Keys
    ensures Variables(n) <= v.Keys ==> Evaluate(n, v) == Ok(Holds(n, v))
  {
    if Variables(n) <= v.Keys && IsPropName(n.name) {
      assert n.name != NOT && n.name != AND && n.name != OR && n.name != IMP && n.name != IFF;
    } else if Variables(n) <= v.Keys {
      forall i | 0 <= i < |n.children| ensures Variables(n.children[i]) <= v.Keys {
        VariablesOfElement(n.children, i);
      }
      if n.name == NOT {
        EvaluateMeansHolds(n.children[0], v);
      } else if n.name == AND {
        EvaluateAllMeansHolds(n.children, v);
      } else if n.name == OR {
        EvaluateAnyMeansHolds(n.children, v);
      } else {
        EvaluateMeansHolds(n.children[0], v);
        EvaluateMeansHolds(n.children[1], v);
      }
    } else {
      var x :| x in Variables(n) && x !in v.Keys;
      assert x in Variables(n) - v.Keys;
    }
  }

  lemma {:induction false} EvaluateAllMeansHolds(cs: seq<Node>, v: Valuation)
    requires AllWellShaped(cs)
    requires forall i :: 0 <= i < |cs| ==> Variables(cs[i]) <= v.Keys
    ensures EvaluateAll(cs, v) == Ok(forall i :: 0 <= i < |cs| ==> Holds(cs[i], v))
  {
    if cs != [] {
      EvaluateMeansHolds(cs[0], v);
      EvaluateAllMeansHolds(cs[1..], v);
      assert forall i :: 1 <= i < |cs| ==> cs[1..][i - 1] == cs[i];
    }
  }

  lemma {:induction false} EvaluateAnyMeansHolds(cs: seq<Node>, v: Valuation)
    requires AllWellShaped(cs)
    requires forall i :: 0 <= i < |cs| ==> Variables(cs[i]) <= v.Keys
    ensures EvaluateAny(cs, v) == Ok(exists i :: 0 <= i < |cs| && Holds(cs[i], v))
  {
    if cs != [] {
      EvaluateMeansHolds(cs[0], v);
      EvaluateAnyMeansHolds(cs[1..], v);
      assert forall i :: 1 <= i < |cs| ==> cs[1..][i - 1] == cs[i];
    }
  }

  /** Two valuations that agree on the variables of a well-shaped tree give it the same truth value. */
  lemma {:induction false} HoldsAgree(n: Node, v: Valuation, w: Valuation)
    requires WellShaped(n)
    requires forall x :: x in Variables(n) ==> (x in v <==> x in w) && (x in v ==> v[x] == w[x])
    ensures Holds(n, v) == Holds(n, w)
  {
    if !IsPropName(n.name) {
      forall i | 0 <= i < |n.children| ensures Holds(n.children[i], v) == Holds(n.children[i], w) {
        VariablesOfElement(n.children, i);
        HoldsAgree(n.children[i], v, w);
      }
    }
  }
}
