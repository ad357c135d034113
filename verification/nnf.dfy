/**
 * normal_form.py `transform_to_nnf`: eliminate ⇒ and ⇔ and push every
 * negation down to a proposition name, by De Morgan's laws and double
 * negation. The rewrite is followed exactly, including the order in which
 * the source rewrites a subtree before wrapping it again.
 */
module Nnf {
  import opened Syntax
  import opened Semantics

  /**
   * A measure that every rewrite step lowers: a negation doubles the weight
   * of its operand, so pushing it inward (where it is paid once per operand)
   * is cheaper, and ⇒ and ⇔ are priced above their expansions.
   */
  function Weight(n: Node): (w: nat)
    ensures w >= 1
  {
    if n.name == NOT && |n.children| == 1 then 2 * Weight(n.children[0])
    else if n.name == IMP && |n.children| == 2 then 2 * Weight(n.children[0]) + Weight(n.children[1]) + 2
    else if n.name == IFF && |n.children| == 2 then 3 * Weight(n.children[0]) + 3 * Weight(n.children[1]) + 6
    else 1 + WeightOf(n.children)
  }

  /** The total weight of a list. */
  function WeightOf(cs: seq<Node>): (w: nat)
    decreases cs
  {
    if cs == [] then 0 else Weight(cs[0]) + WeightOf(cs[1..])
  }

  lemma {:induction false} WeightOfElement(cs: seq<Node>, i: nat)
    requires i < |cs|
    ensures Weight(cs[i]) <= WeightOf(cs)
  {
    if i > 0 {
      WeightOfElement(cs[1..], i - 1);
    }
  }

  lemma WeightOfPair(a: Node, b: Node)
    ensures WeightOf([a, b]) == Weight(a) + Weight(b)
  {
    assert [a, b][1..] == [b];
    assert [b][1..] == [];
  }

  /**
   * Negation normal form: no ⇒ or ⇔ anywhere, and the one operand of every
   * ¬ carries a label that is not a connective (in a well-shaped tree, a
   * proposition name on a leaf).
   */
  predicate IsNnf(n: Node)
  {
    && n.name != IMP && n.name != IFF
    && (n.name == NOT ==> forall i :: 0 <= i < |n.children| ==> !IsConnective(n.children[i].name))
    && forall i :: 0 <= i < |n.children| ==> IsNnf(n.children[i])
  }

  /** No connective is a proposition name. */
  lemma ConnectivesAreNotNames()
    ensures !IsPropName(NOT) && !IsPropName(AND) && !IsPropName(OR) && !IsPropName(IMP) && !IsPropName(IFF)
  {
    assert !IsUpper(NOT[0]) && !IsUpper(AND[0]) && !IsUpper(OR[0]) && !IsUpper(IMP[0]) && !IsUpper(IFF[0]);
  }

  /** A connective applied to well-shaped operands of the right number is well shaped. */
  lemma ShapedNode(name: string, cs: seq<Node>)
    requires IsConnective(name) && AllWellShaped(cs)
    requires name == NOT ==> |cs| == 1
    requires name == IMP || name == IFF ==> |cs| == 2
    requires IsJunction(name) ==> |cs| >= 1
    ensures WellShaped(Node(name, cs))
  {
    ConnectivesAreNotNames();
  }

  lemma ShapedNot(a: Node)
    requires WellShaped(a)
    ensures WellShaped(Node(NOT, [a]))
  {
    ShapedNode(NOT, [a]);
  }

  lemma ShapedPair(name: string, a: Node, b: Node)
    requires name == AND || name == OR || name == IMP
    requires WellShaped(a) && WellShaped(b)
    ensures WellShaped(Node(name, [a, b]))
  {
    ShapedNode(name, [a, b]);
  }

  /** The weight of a node, by its label. */
  lemma WeightUnfold(n: Node)
    ensures n.name == NOT && |n.children| == 1 ==> Weight(n) == 2 * Weight(n.children[0])
    ensures n.name == IMP && |n.children| == 2 ==> Weight(n) == 2 * Weight(n.children[0]) + Weight(n.children[1]) + 2
    ensures n.name == IFF && |n.children| == 2 ==> Weight(n) == 3 * Weight(n.children[0]) + 3 * Weight(n.children[1]) + 6
    ensures IsJunction(n.name) ==> Weight(n) == 1 + WeightOf(n.children)
  {
    LabelsDistinct();
  }

  /** The truth value of a node with a connective label and the usual number of operands. */
  lemma HoldsUnfold(n: Node, v: Valuation)
    ensures n.name == NOT && |n.children| == 1 ==> Holds(n, v) == !Holds(n.children[0], v)
    ensures n.name == IMP && |n.children| == 2 ==>
      Holds(n, v) == (!Holds(n.children[0], v) || Holds(n.children[1], v))
    ensures n.name == IFF && |n.children| == 2 ==>
      Holds(n, v) == (Holds(n.children[0], v) == Holds(n.children[1], v))
    ensures n.name == AND && |n.children| == 2 ==>
      Holds(n, v) == (Holds(n.children[0], v) && Holds(n.children[1], v))
    ensures n.name == OR && |n.children| == 2 ==>
      Holds(n, v) == (Holds(n.children[0], v) || Holds(n.children[1], v))
  {
    LabelsDistinct();
    if n.name == OR && |n.children| == 2 && Holds(n, v) {
      var i :| 0 <= i < 2 && Holds(n.children[i], v);
      assert i == 0 || i == 1;
    }
  }

  /**
   * normal_form.py `transform_to_nnf` (lines 5-92), with a bound on the
   * depth of nested calls: each call of the source spends one unit of
   * `fuel`, and with none left the node is returned as it is.
   * `RewriteFuelEnough` shows that `Weight(n)` units always suffice, so
   * `ToNnf` below is the unbounded rewrite. A node whose label and number
   * of children match no rule is returned as it is.
   */
  function Rewrite(n: Node, fuel: nat): Node
    decreases fuel, 4
  {
    if fuel == 0 then n
    else if n.name == NOT && |n.children| == 1 then RewriteNegation(n, fuel)
    else if n.name == IMP && |n.children| == 2 then RewriteImplication(n, fuel)
    else if n.name == IFF && |n.children| == 2 then RewriteEquivalence(n, fuel)
    else if IsJunction(n.name) then Node(n.name, RewriteAll(n.children, fuel - 1))
    else n
  }

  /** Lines 66-75: `a ⇒ b` becomes `¬a' ∨ b'` over the rewritten operands, which is rewritten again. */
  function RewriteImplication(n: Node, fuel: nat): Node
    requires fuel >= 1 && n.name == IMP && |n.children| == 2
    decreases fuel, 3
  {
    Rewrite(ImplicationStep(n, fuel), fuel - 1)
  }

  function ImplicationStep(n: Node, fuel: nat): Node
    requires fuel >= 1 && n.name == IMP && |n.children| == 2
    decreases fuel, 2
  {
    Node(OR, [Node(NOT, [Rewrite(n.children[0], fuel - 1)]), Rewrite(n.children[1], fuel - 1)])
  }

  /** Lines 77-86: `a ⇔ b` becomes `(a ⇒ b) ∧ (b ⇒ a)`, which is rewritten. */
  function RewriteEquivalence(n: Node, fuel: nat): Node
    requires fuel >= 1 && n.name == IFF && |n.children| == 2
    decreases fuel, 3
  {
    Rewrite(EquivalenceStep(n), fuel - 1)
  }

  function EquivalenceStep(n: Node): Node
    requires |n.children| == 2
  {
    var left, right := n.children[0], n.children[1];
    Node(AND, [Node(IMP, [left, right]), Node(IMP, [right, left])])
  }

  /** The ¬ branch (lines 6-65), chosen by the label of the operand. */
  function RewriteNegation(n: Node, fuel: nat): Node
    requires fuel >= 1 && n.name == NOT && |n.children| == 1
    decreases fuel, 3
  {
    var c := n.children[0];
    if c.name == NOT && |c.children| == 1 then Rewrite(c.children[0], fuel - 1) // lines 9-14
    else if IsJunction(c.name) then Rewrite(NegatedJunctionStep(n, fuel), fuel - 1)
    else if c.name == IMP && |c.children| == 2 then Rewrite(NegatedImplicationStep(n, fuel), fuel - 1)
    else if c.name == IFF && |c.children| == 2 then Rewrite(NegatedEquivalenceStep(n, fuel), fuel - 1)
    else n
  }

  /** Lines 16-37 (De Morgan): the dual junction of the negated, rewritten operands. */
  function NegatedJunctionStep(n: Node, fuel: nat): Node
    requires fuel >= 1 && n.name == NOT && |n.children| == 1 && IsJunction(n.children[0].name)
    decreases fuel, 2
  {
    var c := n.children[0];
    Node(DualJunction(c.name), NegateAll(c.children, fuel - 1))
  }

  /** Lines 38-48: `¬(a ⇒ b)` becomes `a' ∧ ¬b'`. */
  function NegatedImplicationStep(n: Node, fuel: nat): Node
    requires fuel >= 1 && n.name == NOT && |n.children| == 1
    requires n.children[0].name == IMP && |n.children[0].children| == 2
    decreases fuel, 2
  {
    var c := n.children[0];
    Node(AND, [Rewrite(c.children[0], fuel - 1), Node(NOT, [Rewrite(c.children[1], fuel - 1)])])
  }

  /** Lines 49-65: `¬(a ⇔ b)` becomes the exclusive disjunction of `a'` and `b'`. */
  function NegatedEquivalenceStep(n: Node, fuel: nat): Node
    requires fuel >= 1 && n.name == NOT && |n.children| == 1
    requires n.children[0].name == IFF && |n.children[0].children| == 2
    decreases fuel, 2
  {
    var c := n.children[0];
    Exclusive(Rewrite(c.children[0], fuel - 1), Rewrite(c.children[1], fuel - 1))
  }

  /** The disjunction of the two ways in which exactly one of `a` and `b` holds. */
  function Exclusive(a: Node, b: Node): Node
  {
    Node(OR, [Node(AND, [a, Node(NOT, [b])]), Node(AND, [Node(NOT, [a]), b])])
  }

  /** Every child rewritten, in order (the comprehension of line 90). */
  function RewriteAll(cs: seq<Node>, fuel: nat): (r: seq<Node>)
    ensures |r| == |cs|
    ensures forall i {:trigger RewriteAll(cs, fuel)[i]} :: 0 <= i < |cs| ==> r[i] == Rewrite(cs[i], fuel)
    decreases fuel, 5 + |cs|
  {
    if cs == [] then []
    else
      var r := [Rewrite(cs[0], fuel)] + RewriteAll(cs[1..], fuel);
      assert r[1..] == RewriteAll(cs[1..], fuel);
      r
  }

  /** Each operand rewritten and then negated (lines 20-22 and 31-33). */
  function NegateAll(cs: seq<Node>, fuel: nat): (r: seq<Node>)
    ensures |r| == |cs|
    ensures forall i {:trigger NegateAll(cs, fuel)[i]} :: 0 <= i < |cs| ==> r[i] == Node(NOT, [Rewrite(cs[i], fuel)])
    decreases fuel, 5 + |cs|
  {
    if cs == [] then []
    else
      var r := [Node(NOT, [Rewrite(cs[0], fuel)])] + NegateAll(cs[1..], fuel);
      assert r[1..] == NegateAll(cs[1..], fuel);
      r
  }

  /** normal_form.py `transform_to_nnf`: the rewrite with enough fuel never to run out. */
  function ToNnf(n: Node): Node
  {
    Rewrite(n, Weight(n))
  }

  /** The operands of ⇒ or ⇔ are lighter than it. */
  lemma PairWeights(n: Node)
    requires (n.name == IMP || n.name == IFF) && |n.children| == 2
    ensures Weight(n.children[0]) < Weight(n) && Weight(n.children[1]) < Weight(n)
  {
    WeightUnfold(n);
  }

  /** The operands of ¬(a ⇒ b) or ¬(a ⇔ b) are lighter than it. */
  lemma NegatedPairWeights(n: Node)
    requires n.name == NOT && |n.children| == 1
    requires (n.children[0].name == IMP || n.children[0].name == IFF) && |n.children[0].children| == 2
    ensures Weight(n.children[0].children[0]) < Weight(n) && Weight(n.children[0].children[1]) < Weight(n)
  {
    WeightUnfold(n);
    PairWeights(n.children[0]);
  }

  /** The operands of ¬(a ∧ …) or ¬(a ∨ …) are lighter than it. */
  lemma NegatedJunctionWeights(n: Node, i: nat)
    requires n.name == NOT && |n.children| == 1 && IsJunction(n.children[0].name)
    requires i < |n.children[0].children|
    ensures Weight(n.children[0].children[i]) < Weight(n)
  {
    LabelsDistinct();
    WeightUnfold(n);
    WeightUnfold(n.children[0]);
    WeightOfElement(n.children[0].children, i);
  }

  /** No rewrite makes a tree heavier, whatever the fuel. */
  lemma {:induction false} RewriteWeight(n: Node, fuel: nat)
    ensures Weight(Rewrite(n, fuel)) <= Weight(n)
    decreases fuel, 4
  {
    LabelsDistinct();
    if fuel == 0 {
    } else if n.name == NOT && |n.children| == 1 {
      NegationWeight(n, fuel);
    } else if n.name == IMP && |n.children| == 2 {
      ImplicationWeight(n, fuel);
    } else if n.name == IFF && |n.children| == 2 {
      EquivalenceWeight(n, fuel);
    } else if IsJunction(n.name) {
      RewriteAllWeight(n.children, fuel - 1);
      WeightUnfold(n);
      WeightUnfold(Node(n.name, RewriteAll(n.children, fuel - 1)));
    }
  }

  lemma {:induction false} ImplicationWeight(n: Node, fuel: nat)
    requires fuel >= 1 && n.name == IMP && |n.children| == 2
    ensures Weight(RewriteImplication(n, fuel)) <= Weight(n)
    decreases fuel, 3
  {
    ImplicationStepWeight(n, fuel);
    RewriteWeight(ImplicationStep(n, fuel), fuel - 1);
  }

  lemma {:induction false} EquivalenceWeight(n: Node, fuel: nat)
    requires fuel >= 1 && n.name == IFF && |n.children| == 2
    ensures Weight(RewriteEquivalence(n, fuel)) <= Weight(n)
    decreases fuel, 3
  {
    EquivalenceStepWeight(n);
    RewriteWeight(EquivalenceStep(n), fuel - 1);
  }

  lemma {:induction false} NegationWeight(n: Node, fuel: nat)
    requires fuel >= 1 && n.name == NOT && |n.children| == 1
    ensures Weight(RewriteNegation(n, fuel)) <= Weight(n)
    decreases fuel, 3
  {
    LabelsDistinct();
    var c := n.children[0];
    if c.name == NOT && |c.children| == 1 {
      WeightUnfold(n);
      WeightUnfold(c);
      RewriteWeight(c.children[0], fuel - 1);
    } else if IsJunction(c.name) {
      NegatedJunctionWeight(n, fuel);
    } else if c.name == IMP && |c.children| == 2 {
      NegatedImplicationWeight(n, fuel);
    } else if c.name == IFF && |c.children| == 2 {
      NegatedEquivalenceWeight(n, fuel);
    }
  }

  lemma {:induction false} NegatedJunctionWeight(n: Node, fuel: nat)
    requires fuel >= 1 && n.name == NOT && |n.children| == 1 && IsJunction(n.children[0].name)
    ensures Weight(Rewrite(NegatedJunctionStep(n, fuel), fuel - 1)) < Weight(n)
    decreases fuel, 2
  {
    NegatedJunctionStepWeight(n, fuel);
    RewriteWeight(NegatedJunctionStep(n, fuel), fuel - 1);
  }

  lemma {:induction false} NegatedImplicationWeight(n: Node, fuel: nat)
    requires fuel >= 1 && n.name == NOT && |n.children| == 1
    requires n.children[0].name == IMP && |n.children[0].children| == 2
    ensures Weight(Rewrite(NegatedImplicationStep(n, fuel), fuel - 1)) < Weight(n)
    decreases fuel, 2
  {
    NegatedImplicationStepWeight(n, fuel);
    RewriteWeight(NegatedImplicationStep(n, fuel), fuel - 1);
  }

  lemma {:induction false} NegatedEquivalenceWeight(n: Node, fuel: nat)
    requires fuel >= 1 && n.name == NOT && |n.children| == 1
    requires n.children[0].name == IFF && |n.children[0].children| == 2
    ensures Weight(Rewrite(NegatedEquivalenceStep(n, fuel), fuel - 1)) < Weight(n)
    decreases fuel, 2
  {
    NegatedEquivalenceStepWeight(n, fuel);
    RewriteWeight(NegatedEquivalenceStep(n, fuel), fuel - 1);
  }

  /** Each rule lowers the weight: this is why `Weight(n)` fuel suffices. */
  lemma {:induction false} ImplicationStepWeight(n: Node, fuel: nat)
    requires fuel >= 1 && n.name == IMP && |n.children| == 2
    ensures Weight(ImplicationStep(n, fuel)) < Weight(n)
    decreases fuel, 2
  {
    RewriteWeight(n.children[0], fuel - 1);
    RewriteWeight(n.children[1], fuel - 1);
    ImplicationShrinks(n, Rewrite(n.children[0], fuel - 1), Rewrite(n.children[1], fuel - 1));
  }

  lemma ImplicationShrinks(n: Node, left: Node, right: Node)
    requires n.name == IMP && |n.children| == 2
    requires Weight(left) <= Weight(n.children[0]) && Weight(right) <= Weight(n.children[1])
    ensures Weight(Node(OR, [Node(NOT, [left]), right])) < Weight(n)
  {
    LabelsDistinct();
    WeightUnfold(n);
    WeightUnfold(Node(NOT, [left]));
    WeightUnfold(Node(OR, [Node(NOT, [left]), right]));
    WeightOfPair(Node(NOT, [left]), right);
  }

  lemma EquivalenceStepWeight(n: Node)
    requires n.name == IFF && |n.children| == 2
    ensures Weight(EquivalenceStep(n)) < Weight(n)
  {
    LabelsDistinct();
    var m := EquivalenceStep(n);
    WeightUnfold(n);
    WeightUnfold(m.children[0]);
    WeightUnfold(m.children[1]);
    WeightUnfold(m);
    WeightOfPair(m.children[0], m.children[1]);
  }

  lemma {:induction false} NegatedJunctionStepWeight(n: Node, fuel: nat)
    requires fuel >= 1 && n.name == NOT && |n.children| == 1 && IsJunction(n.children[0].name)
    ensures Weight(NegatedJunctionStep(n, fuel)) < Weight(n)
    decreases fuel, 1
  {
    var c := n.children[0];
    NegateAllWeight(c.children, fuel - 1);
    NegatedJunctionShrinks(n, NegateAll(c.children, fuel - 1));
  }

  lemma NegatedJunctionShrinks(n: Node, negated: seq<Node>)
    requires n.name == NOT && |n.children| == 1 && IsJunction(n.children[0].name)
    requires WeightOf(negated) <= 2 * WeightOf(n.children[0].children)
    ensures Weight(Node(DualJunction(n.children[0].name), negated)) < Weight(n)
  {
    LabelsDistinct();
    WeightUnfold(n);
    WeightUnfold(n.children[0]);
    WeightUnfold(Node(DualJunction(n.children[0].name), negated));
  }

  lemma {:induction false} NegatedImplicationStepWeight(n: Node, fuel: nat)
    requires fuel >= 1 && n.name == NOT && |n.children| == 1
    requires n.children[0].name == IMP && |n.children[0].children| == 2
    ensures Weight(NegatedImplicationStep(n, fuel)) < Weight(n)
    decreases fuel, 1
  {
    var c := n.children[0];
    RewriteWeight(c.children[0], fuel - 1);
    RewriteWeight(c.children[1], fuel - 1);
    NegatedImplicationShrinks(n, Rewrite(c.children[0], fuel - 1), Rewrite(c.children[1], fuel - 1));
  }

  lemma NegatedImplicationShrinks(n: Node, left: Node, right: Node)
    requires n.name == NOT && |n.children| == 1
    requires n.children[0].name == IMP && |n.children[0].children| == 2
    requires Weight(left) <= Weight(n.children[0].children[0])
    requires Weight(right) <= Weight(n.children[0].children[1])
    ensures Weight(Node(AND, [left, Node(NOT, [right])])) < Weight(n)
  {
    LabelsDistinct();
    WeightUnfold(n);
    WeightUnfold(n.children[0]);
    WeightUnfold(Node(NOT, [right]));
    WeightUnfold(Node(AND, [left, Node(NOT, [right])]));
    WeightOfPair(left, Node(NOT, [right]));
  }

  lemma {:induction false} NegatedEquivalenceStepWeight(n: Node, fuel: nat)
    requires fuel >= 1 && n.name == NOT && |n.children| == 1
    requires n.children[0].name == IFF && |n.children[0].children| == 2
    ensures Weight(NegatedEquivalenceStep(n, fuel)) < Weight(n)
    decreases fuel, 1
  {
    var c := n.children[0];
    RewriteWeight(c.children[0], fuel - 1);
    RewriteWeight(c.children[1], fuel - 1);
    NegatedEquivalenceShrinks(n, Rewrite(c.children[0], fuel - 1), Rewrite(c.children[1], fuel - 1));
  }

  lemma NegatedEquivalenceShrinks(n: Node, left: Node, right: Node)
    requires n.name == NOT && |n.children| == 1
    requires n.children[0].name == IFF && |n.children[0].children| == 2
    requires Weight(left) <= Weight(n.children[0].children[0])
    requires Weight(right) <= Weight(n.children[0].children[1])
    ensures Weight(Exclusive(left, right)) < Weight(n)
  {
    LabelsDistinct();
    WeightUnfold(n);
    WeightUnfold(n.children[0]);
    ExclusiveWeight(left, right);
  }

  lemma ExclusiveWeight(a: Node, b: Node)
    ensures Weight(Exclusive(a, b)) == 3 * Weight(a) + 3 * Weight(b) + 3
  {
    var first, second := Node(AND, [a, Node(NOT, [b])]), Node(AND, [Node(NOT, [a]), b]);
    WeightUnfold(Node(NOT, [a]));
    WeightUnfold(Node(NOT, [b]));
    WeightUnfold(first);
    WeightUnfold(second);
    WeightUnfold(Exclusive(a, b));
    WeightOfPair(first, second);
    WeightOfPair(a, Node(NOT, [b]));
    WeightOfPair(Node(NOT, [a]), b);
  }

  lemma {:induction false} RewriteAllWeight(cs: seq<Node>, fuel: nat)
    ensures WeightOf(RewriteAll(cs, fuel)) <= WeightOf(cs)
    decreases fuel, 5 + |cs|
  {
    if cs != [] {
      RewriteWeight(cs[0], fuel);
      RewriteAllWeight(cs[1..], fuel);
      assert RewriteAll(cs, fuel)[1..] == RewriteAll(cs[1..], fuel);
    }
  }

  lemma {:induction false} NegateAllWeight(cs: seq<Node>, fuel: nat)
    ensures WeightOf(NegateAll(cs, fuel)) <= 2 * WeightOf(cs)
    decreases fuel, 5 + |cs|
  {
    if cs != [] {
      RewriteWeight(cs[0], fuel);
      NegateAllWeight(cs[1..], fuel);
      WeightUnfold(Node(NOT, [Rewrite(cs[0], fuel)]));
      assert NegateAll(cs, fuel)[1..] == NegateAll(cs[1..], fuel);
    }
  }

  /** Corresponding operands with the same truth values make junctions with the same truth value. */
  lemma JunctionOfMapped(j: string, a: seq<Node>, b: seq<Node>, v: Valuation)
    requires IsJunction(j) && |a| == |b|
    requires forall i :: 0 <= i < |a| ==> Holds(a[i], v) == Holds(b[i], v)
    ensures Holds(Node(j, a), v) == Holds(Node(j, b), v)
  {
    if j == OR && Holds(Node(j, a), v) {
      var i :| 0 <= i < |a| && Holds(a[i], v);
      assert Holds(b[i], v);
    }
    if j == OR && Holds(Node(j, b), v) {
      var i :| 0 <= i < |b| && Holds(b[i], v);
      assert Holds(a[i], v);
    }
  }

  /** De Morgan over a whole list: the dual junction of the negated operands is the negated junction. */
  lemma DeMorganList(j: string, cs: seq<Node>, ns: seq<Node>, v: Valuation)
    requires IsJunction(j) && |ns| == |cs|
    requires forall i :: 0 <= i < |cs| ==> Holds(ns[i], v) == !Holds(cs[i], v)
    ensures Holds(Node(DualJunction(j), ns), v) == !Holds(Node(j, cs), v)
  {
    if j == AND && !Holds(Node(j, cs), v) {
      var i :| 0 <= i < |cs| && !Holds(cs[i], v);
      assert Holds(ns[i], v);
    }
    if j == OR && Holds(Node(j, cs), v) {
      var i :| 0 <= i < |cs| && Holds(cs[i], v);
      assert !Holds(ns[i], v);
    }
  }

  /** Exactly one side of the exclusive disjunction holds when the sides differ. */
  lemma ExclusiveTruth(a: Node, b: Node, v: Valuation)
    ensures Holds(Exclusive(a, b), v) == (Holds(a, v) != Holds(b, v))
  {
    var first, second := Node(AND, [a, Node(NOT, [b])]), Node(AND, [Node(NOT, [a]), b]);
    HoldsUnfold(Node(NOT, [a]), v);
    HoldsUnfold(Node(NOT, [b]), v);
    HoldsUnfold(first, v);
    HoldsUnfold(second, v);
    HoldsUnfold(Node(OR, [first, second]), v);
  }

  /**
   * The rewrite keeps the truth value under every valuation, whatever the
   * tree and however little fuel is left.
   */
  lemma {:induction false} RewriteTruth(n: Node, fuel: nat, v: Valuation)
    ensures Holds(Rewrite(n, fuel), v) == Holds(n, v)
    decreases fuel, 4
  {
    LabelsDistinct();
    if fuel == 0 {
    } else if n.name == NOT && |n.children| == 1 {
      NegationTruth(n, fuel, v);
    } else if n.name == IMP && |n.children| == 2 {
      ImplicationTruth(n, fuel, v);
    } else if n.name == IFF && |n.children| == 2 {
      EquivalenceTruth(n, fuel, v);
    } else if IsJunction(n.name) {
      var rs := RewriteAll(n.children, fuel - 1);
      forall i | 0 <= i < |rs| ensures Holds(rs[i], v) == Holds(n.children[i], v) {
        RewriteTruth(n.children[i], fuel - 1, v);
      }
      JunctionOfMapped(n.name, rs, n.children, v);
    }
  }

  lemma {:induction false} ImplicationTruth(n: Node, fuel: nat, v: Valuation)
    requires fuel >= 1 && n.name == IMP && |n.children| == 2
    ensures Holds(RewriteImplication(n, fuel), v) == Holds(n, v)
    decreases fuel, 3
  {
    ImplicationStepTruth(n, fuel, v);
    RewriteTruth(ImplicationStep(n, fuel), fuel - 1, v);
  }

  lemma {:induction false} EquivalenceTruth(n: Node, fuel: nat, v: Valuation)
    requires fuel >= 1 && n.name == IFF && |n.children| == 2
    ensures Holds(RewriteEquivalence(n, fuel), v) == Holds(n, v)
    decreases fuel, 3
  {
    EquivalenceStepTruth(n, v);
    RewriteTruth(EquivalenceStep(n), fuel - 1, v);
  }

  lemma {:induction false} NegationTruth(n: Node, fuel: nat, v: Valuation)
    requires fuel >= 1 && n.name == NOT && |n.children| == 1
    ensures Holds(RewriteNegation(n, fuel), v) == Holds(n, v)
    decreases fuel, 3
  {
    LabelsDistinct();
    var c := n.children[0];
    if c.name == NOT && |c.children| == 1 {
      HoldsUnfold(n, v);
      HoldsUnfold(c, v);
      RewriteTruth(c.children[0], fuel - 1, v);
    } else if IsJunction(c.name) {
      NegatedJunctionTruth(n, fuel, v);
    } else if c.name == IMP && |c.children| == 2 {
      NegatedImplicationTruth(n, fuel, v);
    } else if c.name == IFF && |c.children| == 2 {
      NegatedEquivalenceTruth(n, fuel, v);
    }
  }

  lemma {:induction false} NegatedJunctionTruth(n: Node, fuel: nat, v: Valuation)
    requires fuel >= 1 && n.name == NOT && |n.children| == 1 && IsJunction(n.children[0].name)
    ensures Holds(Rewrite(NegatedJunctionStep(n, fuel), fuel - 1), v) == Holds(n, v)
    decreases fuel, 2
  {
    NegatedJunctionStepTruth(n, fuel, v);
    RewriteTruth(NegatedJunctionStep(n, fuel), fuel - 1, v);
  }

  lemma {:induction false} NegatedImplicationTruth(n: Node, fuel: nat, v: Valuation)
    requires fuel >= 1 && n.name == NOT && |n.children| == 1
    requires n.children[0].name == IMP && |n.children[0].children| == 2
    ensures Holds(Rewrite(NegatedImplicationStep(n, fuel), fuel - 1), v) == Holds(n, v)
    decreases fuel, 2
  {
    NegatedImplicationStepTruth(n, fuel, v);
    RewriteTruth(NegatedImplicationStep(n, fuel), fuel - 1, v);
  }

  lemma {:induction false} NegatedEquivalenceTruth(n: Node, fuel: nat, v: Valuation)
    requires fuel >= 1 && n.name == NOT && |n.children| == 1
    requires n.children[0].name == IFF && |n.children[0].children| == 2
    ensures Holds(Rewrite(NegatedEquivalenceStep(n, fuel), fuel - 1), v) == Holds(n, v)
    decreases fuel, 2
  {
    NegatedEquivalenceStepTruth(n, fuel, v);
    RewriteTruth(NegatedEquivalenceStep(n, fuel), fuel - 1, v);
  }

  /** Each rule replaces a node by an equivalent one. */
  lemma {:induction false} ImplicationStepTruth(n: Node, fuel: nat, v: Valuation)
    requires fuel >= 1 && n.name == IMP && |n.children| == 2
    ensures Holds(ImplicationStep(n, fuel), v) == Holds(n, v)
    decreases fuel, 1
  {
    RewriteTruth(n.children[0], fuel - 1, v);
    RewriteTruth(n.children[1], fuel - 1, v);
    ImplicationMeaning(n, Rewrite(n.children[0], fuel - 1), Rewrite(n.children[1], fuel - 1), v);
  }

  lemma ImplicationMeaning(n: Node, left: Node, right: Node, v: Valuation)
    requires n.name == IMP && |n.children| == 2
    requires Holds(left, v) == Holds(n.children[0], v) && Holds(right, v) == Holds(n.children[1], v)
    ensures Holds(Node(OR, [Node(NOT, [left]), right]), v) == Holds(n, v)
  {
    HoldsUnfold(n, v);
    HoldsUnfold(Node(NOT, [left]), v);
    HoldsUnfold(Node(OR, [Node(NOT, [left]), right]), v);
  }

  lemma EquivalenceStepTruth(n: Node, v: Valuation)
    requires n.name == IFF && |n.children| == 2
    ensures Holds(EquivalenceStep(n), v) == Holds(n, v)
  {
    var m := EquivalenceStep(n);
    HoldsUnfold(n, v);
    HoldsUnfold(m, v);
    HoldsUnfold(m.children[0], v);
    HoldsUnfold(m.children[1], v);
  }

  lemma {:induction false} NegatedJunctionStepTruth(n: Node, fuel: nat, v: Valuation)
    requires fuel >= 1 && n.name == NOT && |n.children| == 1 && IsJunction(n.children[0].name)
    ensures Holds(NegatedJunctionStep(n, fuel), v) == Holds(n, v)
    decreases fuel, 1
  {
    var c := n.children[0];
    NegateAllTruth(c.children, fuel - 1, v);
    DeMorganList(c.name, c.children, NegateAll(c.children, fuel - 1), v);
    HoldsUnfold(n, v);
  }

  lemma {:induction false} NegateAllTruth(cs: seq<Node>, fuel: nat, v: Valuation)
    ensures forall i :: 0 <= i < |cs| ==> Holds(NegateAll(cs, fuel)[i], v) == !Holds(cs[i], v)
    decreases fuel, 5 + |cs|
  {
    forall i | 0 <= i < |cs| ensures Holds(NegateAll(cs, fuel)[i], v) == !Holds(cs[i], v) {
      RewriteTruth(cs[i], fuel, v);
      HoldsUnfold(NegateAll(cs, fuel)[i], v);
    }
  }

  lemma {:induction false} NegatedImplicationStepTruth(n: Node, fuel: nat, v: Valuation)
    requires fuel >= 1 && n.name == NOT && |n.children| == 1
    requires n.children[0].name == IMP && |n.children[0].children| == 2
    ensures Holds(NegatedImplicationStep(n, fuel), v) == Holds(n, v)
    decreases fuel, 1
  {
    var c := n.children[0];
    RewriteTruth(c.children[0], fuel - 1, v);
    RewriteTruth(c.children[1], fuel - 1, v);
    NegatedImplicationMeaning(n, Rewrite(c.children[0], fuel - 1), Rewrite(c.children[1], fuel - 1), v);
  }

  lemma NegatedImplicationMeaning(n: Node, left: Node, right: Node, v: Valuation)
    requires n.name == NOT && |n.children| == 1
    requires n.children[0].name == IMP && |n.children[0].children| == 2
    requires Holds(left, v) == Holds(n.children[0].children[0], v)
    requires Holds(right, v) == Holds(n.children[0].children[1], v)
    ensures Holds(Node(AND, [left, Node(NOT, [right])]), v) == Holds(n, v)
  {
    HoldsUnfold(n, v);
    HoldsUnfold(n.children[0], v);
    HoldsUnfold(Node(NOT, [right]), v);
    HoldsUnfold(Node(AND, [left, Node(NOT, [right])]), v);
  }

  lemma {:induction false} NegatedEquivalenceStepTruth(n: Node, fuel: nat, v: Valuation)
    requires fuel >= 1 && n.name == NOT && |n.children| == 1
    requires n.children[0].name == IFF && |n.children[0].children| == 2
    ensures Holds(NegatedEquivalenceStep(n, fuel), v) == Holds(n, v)
    decreases fuel, 1
  {
    var c := n.children[0];
    RewriteTruth(c.children[0], fuel - 1, v);
    RewriteTruth(c.children[1], fuel - 1, v);
    NegatedEquivalenceMeaning(n, Rewrite(c.children[0], fuel - 1), Rewrite(c.children[1], fuel - 1), v);
  }

  lemma NegatedEquivalenceMeaning(n: Node, left: Node, right: Node, v: Valuation)
    requires n.name == NOT && |n.children| == 1
    requires n.children[0].name == IFF && |n.children[0].children| == 2
    requires Holds(left, v) == Holds(n.children[0].children[0], v)
    requires Holds(right, v) == Holds(n.children[0].children[1], v)
    ensures Holds(Exclusive(left, right), v) == Holds(n, v)
  {
    HoldsUnfold(n, v);
    HoldsUnfold(n.children[0], v);
    ExclusiveTruth(left, right, v);
  }

  /** The operands of a well-shaped ⇒ or ⇔ are well shaped. */
  lemma PairOperands(n: Node)
    requires WellShaped(n) && (n.name == IMP || n.name == IFF)
    ensures |n.children| == 2 && WellShaped(n.children[0]) && WellShaped(n.children[1])
  {
  }

  /** The operands of a well-shaped ¬(a ⇒ b) or ¬(a ⇔ b) are well shaped. */
  lemma NegatedPairOperands(n: Node)
    requires WellShaped(n) && n.name == NOT
    requires n.children[0].name == IMP || n.children[0].name == IFF
    ensures |n.children| == 1 && |n.children[0].children| == 2
    ensures WellShaped(n.children[0].children[0]) && WellShaped(n.children[0].children[1])
  {
    PairOperands(n.children[0]);
  }

  /** The disjunction built for ¬(a ⇔ b) is well shaped when its sides are. */
  lemma ExclusiveShape(a: Node, b: Node)
    requires WellShaped(a) && WellShaped(b)
    ensures WellShaped(Exclusive(a, b))
  {
    ShapedNot(b);
    ShapedNot(a);
    ShapedPair(AND, a, Node(NOT, [b]));
    ShapedPair(AND, Node(NOT, [a]), b);
    ShapedPair(OR, Node(AND, [a, Node(NOT, [b])]), Node(AND, [Node(NOT, [a]), b]));
  }

  /**
   * With at least `Weight(n)` fuel, a well-shaped tree is rewritten into a
   * well-shaped tree in negation normal form.
   */
  lemma {:induction false} RewriteShape(n: Node, fuel: nat)
    requires WellShaped(n) && Weight(n) <= fuel
    ensures WellShaped(Rewrite(n, fuel)) && IsNnf(Rewrite(n, fuel))
    decreases fuel, 4
  {
    LabelsDistinct();
    if n.name == NOT {
      NegationShape(n, fuel);
    } else if n.name == IMP {
      PairOperands(n);
      ImplicationShape(n, fuel);
    } else if n.name == IFF {
      PairOperands(n);
      EquivalenceShape(n, fuel);
    } else if IsJunction(n.name) {
      JunctionShape(n, fuel);
    }
  }

  lemma {:induction false} JunctionShape(n: Node, fuel: nat)
    requires WellShaped(n) && IsJunction(n.name) && 1 <= Weight(n) <= fuel
    ensures WellShaped(Node(n.name, RewriteAll(n.children, fuel - 1)))
    ensures IsNnf(Node(n.name, RewriteAll(n.children, fuel - 1)))
    decreases fuel, 3
  {
    LabelsDistinct();
    var rs := RewriteAll(n.children, fuel - 1);
    WeightUnfold(n);
    forall i | 0 <= i < |rs| ensures WellShaped(rs[i]) && IsNnf(rs[i]) {
      WeightOfElement(n.children, i);
      RewriteShape(n.children[i], fuel - 1);
    }
    ShapedNode(n.name, rs);
  }

  lemma {:induction false} ImplicationShape(n: Node, fuel: nat)
    requires WellShaped(n) && n.name == IMP && |n.children| == 2 && 1 <= Weight(n) <= fuel
    ensures WellShaped(RewriteImplication(n, fuel)) && IsNnf(RewriteImplication(n, fuel))
    decreases fuel, 3
  {
    ImplicationStepWeight(n, fuel);
    ImplicationStepShape(n, fuel);
    RewriteShape(ImplicationStep(n, fuel), fuel - 1);
  }

  lemma {:induction false} EquivalenceShape(n: Node, fuel: nat)
    requires WellShaped(n) && n.name == IFF && |n.children| == 2 && 1 <= Weight(n) <= fuel
    ensures WellShaped(RewriteEquivalence(n, fuel)) && IsNnf(RewriteEquivalence(n, fuel))
    decreases fuel, 3
  {
    EquivalenceStepWeight(n);
    EquivalenceStepShape(n);
    RewriteShape(EquivalenceStep(n), fuel - 1);
  }

  lemma {:induction false} NegationShape(n: Node, fuel: nat)
    requires WellShaped(n) && n.name == NOT && Weight(n) <= fuel
    ensures WellShaped(Rewrite(n, fuel)) && IsNnf(Rewrite(n, fuel))
    decreases fuel, 3
  {
    LabelsDistinct();
    var c := n.children[0];
    WeightUnfold(n);
    assert Rewrite(n, fuel) == RewriteNegation(n, fuel);
    if c.name == NOT {
      WeightUnfold(c);
      RewriteShape(c.children[0], fuel - 1);
    } else if IsJunction(c.name) {
      NegatedJunctionShape(n, fuel);
    } else if c.name == IMP {
      NegatedPairOperands(n);
      NegatedImplicationShape(n, fuel);
    } else if c.name == IFF {
      NegatedPairOperands(n);
      NegatedEquivalenceShape(n, fuel);
    } else {
      ConnectivesAreNotNames();
      assert c.children == [];
    }
  }

  lemma {:induction false} NegatedJunctionShape(n: Node, fuel: nat)
    requires WellShaped(n) && n.name == NOT && |n.children| == 1 && IsJunction(n.children[0].name)
    requires 1 <= Weight(n) <= fuel
    ensures WellShaped(Rewrite(NegatedJunctionStep(n, fuel), fuel - 1))
    ensures IsNnf(Rewrite(NegatedJunctionStep(n, fuel), fuel - 1))
    decreases fuel, 2
  {
    NegatedJunctionStepWeight(n, fuel);
    NegatedJunctionStepShape(n, fuel);
    RewriteShape(NegatedJunctionStep(n, fuel), fuel - 1);
  }

  lemma {:induction false} NegatedImplicationShape(n: Node, fuel: nat)
    requires WellShaped(n) && n.name == NOT && |n.children| == 1
    requires n.children[0].name == IMP && |n.children[0].children| == 2 && 1 <= Weight(n) <= fuel
    ensures WellShaped(Rewrite(NegatedImplicationStep(n, fuel), fuel - 1))
    ensures IsNnf(Rewrite(NegatedImplicationStep(n, fuel), fuel - 1))
    decreases fuel, 2
  {
    NegatedImplicationStepWeight(n, fuel);
    NegatedImplicationStepShape(n, fuel);
    RewriteShape(NegatedImplicationStep(n, fuel), fuel - 1);
  }

  lemma {:induction false} NegatedEquivalenceShape(n: Node, fuel: nat)
    requires WellShaped(n) && n.name == NOT && |n.children| == 1
    requires n.children[0].name == IFF && |n.children[0].children| == 2 && 1 <= Weight(n) <= fuel
    ensures WellShaped(Rewrite(NegatedEquivalenceStep(n, fuel), fuel - 1))
    ensures IsNnf(Rewrite(NegatedEquivalenceStep(n, fuel), fuel - 1))
    decreases fuel, 2
  {
    NegatedEquivalenceStepWeight(n, fuel);
    NegatedEquivalenceStepShape(n, fuel);
    RewriteShape(NegatedEquivalenceStep(n, fuel), fuel - 1);
  }

  /** Each rule builds a well-shaped node from a well-shaped one. */
  lemma {:induction false} ImplicationStepShape(n: Node, fuel: nat)
    requires WellShaped(n) && n.name == IMP && |n.children| == 2 && 1 <= Weight(n) <= fuel
    ensures WellShaped(ImplicationStep(n, fuel))
    decreases fuel, 1
  {
    PairOperands(n);
    PairWeights(n);
    var left, right := Rewrite(n.children[0], fuel - 1), Rewrite(n.children[1], fuel - 1);
    RewriteShape(n.children[0], fuel - 1);
    RewriteShape(n.children[1], fuel - 1);
    ShapedNot(left);
    ShapedPair(OR, Node(NOT, [left]), right);
  }

  lemma EquivalenceStepShape(n: Node)
    requires WellShaped(n) && n.name == IFF && |n.children| == 2
    ensures WellShaped(EquivalenceStep(n))
  {
    PairOperands(n);
    var left, right := n.children[0], n.children[1];
    ShapedPair(IMP, left, right);
    ShapedPair(IMP, right, left);
    ShapedPair(AND, Node(IMP, [left, right]), Node(IMP, [right, left]));
  }

  lemma {:induction false} NegatedJunctionStepShape(n: Node, fuel: nat)
    requires WellShaped(n) && n.name == NOT && |n.children| == 1 && IsJunction(n.children[0].name)
    requires 1 <= Weight(n) <= fuel
    ensures WellShaped(NegatedJunctionStep(n, fuel))
    decreases fuel, 1
  {
    var c := n.children[0];
    var ns := NegateAll(c.children, fuel - 1);
    forall i | 0 <= i < |ns| ensures WellShaped(ns[i]) {
      NegatedJunctionWeights(n, i);
      RewriteShape(c.children[i], fuel - 1);
      ShapedNot(Rewrite(c.children[i], fuel - 1));
    }
    ShapedNode(DualJunction(c.name), ns);
  }

  lemma {:induction false} NegatedImplicationStepShape(n: Node, fuel: nat)
    requires WellShaped(n) && n.name == NOT && |n.children| == 1
    requires n.children[0].name == IMP && |n.children[0].children| == 2 && 1 <= Weight(n) <= fuel
    ensures WellShaped(NegatedImplicationStep(n, fuel))
    decreases fuel, 1
  {
    NegatedPairOperands(n);
    NegatedPairWeights(n);
    var c := n.children[0];
    var left, right := Rewrite(c.children[0], fuel - 1), Rewrite(c.children[1], fuel - 1);
    RewriteShape(c.children[0], fuel - 1);
    RewriteShape(c.children[1], fuel - 1);
    ShapedNot(right);
    ShapedPair(AND, left, Node(NOT, [right]));
  }

  lemma {:induction false} NegatedEquivalenceStepShape(n: Node, fuel: nat)
    requires WellShaped(n) && n.name == NOT && |n.children| == 1
    requires n.children[0].name == IFF && |n.children[0].children| == 2 && 1 <= Weight(n) <= fuel
    ensures WellShaped(NegatedEquivalenceStep(n, fuel))
    decreases fuel, 1
  {
    NegatedPairOperands(n);
    NegatedPairWeights(n);
    var c := n.children[0];
    RewriteShape(c.children[0], fuel - 1);
    RewriteShape(c.children[1], fuel - 1);
    ExclusiveShape(Rewrite(c.children[0], fuel - 1), Rewrite(c.children[1], fuel - 1));
  }

  /**
   * Once the fuel reaches the weight of the tree, one more unit changes
   * nothing: the rewrite has finished before the fuel runs out.
   */
  lemma {:induction false} RewriteFuel(n: Node, fuel: nat)
    requires Weight(n) <= fuel
    ensures Rewrite(n, fuel + 1) == Rewrite(n, fuel)
    decreases fuel, 4
  {
    LabelsDistinct();
    if n.name == NOT && |n.children| == 1 {
      NegationFuel(n, fuel);
    } else if n.name == IMP && |n.children| == 2 {
      ImplicationFuel(n, fuel);
    } else if n.name == IFF && |n.children| == 2 {
      EquivalenceFuel(n, fuel);
    } else if IsJunction(n.name) {
      JunctionFuel(n, fuel);
    }
  }

  lemma {:induction false} JunctionFuel(n: Node, fuel: nat)
    requires IsJunction(n.name) && 1 <= Weight(n) <= fuel
    ensures RewriteAll(n.children, fuel) == RewriteAll(n.children, fuel - 1)
    decreases fuel, 3
  {
    LabelsDistinct();
    WeightUnfold(n);
    forall i | 0 <= i < |n.children|
      ensures RewriteAll(n.children, fuel)[i] == RewriteAll(n.children, fuel - 1)[i]
    {
      WeightOfElement(n.children, i);
      RewriteFuel(n.children[i], fuel - 1);
    }
  }

  lemma {:induction false} ImplicationFuel(n: Node, fuel: nat)
    requires n.name == IMP && |n.children| == 2 && 1 <= Weight(n) <= fuel
    ensures RewriteImplication(n, fuel + 1) == RewriteImplication(n, fuel)
    decreases fuel, 3
  {
    ImplicationStepFuel(n, fuel);
    ImplicationStepWeight(n, fuel);
    RewriteFuel(ImplicationStep(n, fuel), fuel - 1);
  }

  lemma {:induction false} EquivalenceFuel(n: Node, fuel: nat)
    requires n.name == IFF && |n.children| == 2 && 1 <= Weight(n) <= fuel
    ensures RewriteEquivalence(n, fuel + 1) == RewriteEquivalence(n, fuel)
    decreases fuel, 3
  {
    EquivalenceStepWeight(n);
    RewriteFuel(EquivalenceStep(n), fuel - 1);
  }

  lemma {:induction false} NegationFuel(n: Node, fuel: nat)
    requires n.name == NOT && |n.children| == 1 && 1 <= Weight(n) <= fuel
    ensures RewriteNegation(n, fuel + 1) == RewriteNegation(n, fuel)
    decreases fuel, 3
  {
    LabelsDistinct();
    var c := n.children[0];
    if c.name == NOT && |c.children| == 1 {
      WeightUnfold(n);
      WeightUnfold(c);
      RewriteFuel(c.children[0], fuel - 1);
    } else if IsJunction(c.name) {
      NegatedJunctionFuel(n, fuel);
    } else if c.name == IMP && |c.children| == 2 {
      NegatedImplicationFuel(n, fuel);
    } else if c.name == IFF && |c.children| == 2 {
      NegatedEquivalenceFuel(n, fuel);
    }
  }

  lemma {:induction false} NegatedJunctionFuel(n: Node, fuel: nat)
    requires n.name == NOT && |n.children| == 1 && IsJunction(n.children[0].name) && 1 <= Weight(n) <= fuel
    ensures Rewrite(NegatedJunctionStep(n, fuel + 1), fuel) == Rewrite(NegatedJunctionStep(n, fuel), fuel - 1)
    decreases fuel, 2
  {
    NegatedJunctionStepFuel(n, fuel);
    NegatedJunctionStepWeight(n, fuel);
    RewriteFuel(NegatedJunctionStep(n, fuel), fuel - 1);
  }

  lemma {:induction false} NegatedImplicationFuel(n: Node, fuel: nat)
    requires n.name == NOT && |n.children| == 1
    requires n.children[0].name == IMP && |n.children[0].children| == 2 && 1 <= Weight(n) <= fuel
    ensures Rewrite(NegatedImplicationStep(n, fuel + 1), fuel) == Rewrite(NegatedImplicationStep(n, fuel), fuel - 1)
    decreases fuel, 2
  {
    NegatedImplicationStepFuel(n, fuel);
    NegatedImplicationStepWeight(n, fuel);
    RewriteFuel(NegatedImplicationStep(n, fuel), fuel - 1);
  }

  lemma {:induction false} NegatedEquivalenceFuel(n: Node, fuel: nat)
    requires n.name == NOT && |n.children| == 1
    requires n.children[0].name == IFF && |n.children[0].children| == 2 && 1 <= Weight(n) <= fuel
    ensures Rewrite(NegatedEquivalenceStep(n, fuel + 1), fuel) == Rewrite(NegatedEquivalenceStep(n, fuel), fuel - 1)
    decreases fuel, 2
  {
    NegatedEquivalenceStepFuel(n, fuel);
    NegatedEquivalenceStepWeight(n, fuel);
    RewriteFuel(NegatedEquivalenceStep(n, fuel), fuel - 1);
  }

  /** Each rule builds the same node from any fuel above the weight. */
  lemma {:induction false} ImplicationStepFuel(n: Node, fuel: nat)
    requires n.name == IMP && |n.children| == 2 && 1 <= Weight(n) <= fuel
    ensures ImplicationStep(n, fuel + 1) == ImplicationStep(n, fuel)
    decreases fuel, 1
  {
    PairWeights(n);
    RewriteFuel(n.children[0], fuel - 1);
    RewriteFuel(n.children[1], fuel - 1);
  }

  lemma {:induction false} NegatedJunctionStepFuel(n: Node, fuel: nat)
    requires n.name == NOT && |n.children| == 1 && IsJunction(n.children[0].name) && 1 <= Weight(n) <= fuel
    ensures NegatedJunctionStep(n, fuel + 1) == NegatedJunctionStep(n, fuel)
    decreases fuel, 1
  {
    var cs := n.children[0].children;
    forall i | 0 <= i < |cs| ensures NegateAll(cs, fuel)[i] == NegateAll(cs, fuel - 1)[i] {
      NegatedJunctionWeights(n, i);
      RewriteFuel(cs[i], fuel - 1);
    }
  }

  lemma {:induction false} NegatedImplicationStepFuel(n: Node, fuel: nat)
    requires n.name == NOT && |n.children| == 1
    requires n.children[0].name == IMP && |n.children[0].children| == 2 && 1 <= Weight(n) <= fuel
    ensures NegatedImplicationStep(n, fuel + 1) == NegatedImplicationStep(n, fuel)
    decreases fuel, 1
  {
    NegatedPairWeights(n);
    RewriteFuel(n.children[0].children[0], fuel - 1);
    RewriteFuel(n.children[0].children[1], fuel - 1);
  }

  lemma {:induction false} NegatedEquivalenceStepFuel(n: Node, fuel: nat)
    requires n.name == NOT && |n.children| == 1
    requires n.children[0].name == IFF && |n.children[0].children| == 2 && 1 <= Weight(n) <= fuel
    ensures NegatedEquivalenceStep(n, fuel + 1) == NegatedEquivalenceStep(n, fuel)
    decreases fuel, 1
  {
    NegatedPairWeights(n);
    RewriteFuel(n.children[0].children[0], fuel - 1);
    RewriteFuel(n.children[0].children[1], fuel - 1);
  }

  /** Any fuel from the weight of the tree upward gives the result of `ToNnf`. */
  lemma {:induction false} RewriteFuelEnough(n: Node, fuel: nat)
    requires Weight(n) <= fuel
    ensures Rewrite(n, fuel) == ToNnf(n)
    decreases fuel
  {
    if fuel > Weight(n) {
      RewriteFuel(n, fuel - 1);
      RewriteFuelEnough(n, fuel - 1);
    }
  }

  /**
   * The rewrite of a well-shaped tree is a well-shaped tree in negation
   * normal form with the same truth value under every valuation.
   */
  lemma NnfSound(n: Node, v: Valuation)
    requires WellShaped(n)
    ensures WellShaped(ToNnf(n)) && IsNnf(ToNnf(n))
    ensures Holds(ToNnf(n), v) == Holds(n, v)
  {
    RewriteShape(n, Weight(n));
    RewriteTruth(n, Weight(n), v);
  }

  /** A tree already in negation normal form is returned unchanged, with any fuel. */
  lemma {:induction false} NnfFixesNnf(n: Node, fuel: nat)
    requires IsNnf(n)
    ensures Rewrite(n, fuel) == n
    decreases fuel
  {
    LabelsDistinct();
    if fuel > 0 && IsJunction(n.name) {
      forall i | 0 <= i < |n.children| ensures RewriteAll(n.children, fuel - 1)[i] == n.children[i] {
        NnfFixesNnf(n.children[i], fuel - 1);
      }
      assert RewriteAll(n.children, fuel - 1) == n.children;
    }
  }

  /** Rewriting twice gives what rewriting once gives. */
  lemma NnfIdempotent(n: Node)
    requires WellShaped(n)
    ensures ToNnf(ToNnf(n)) == ToNnf(n)
  {
    RewriteShape(n, Weight(n));
    NnfFixesNnf(ToNnf(n), Weight(ToNnf(n)));
  }

  /**
   * De Morgan's laws (lines 16-37): the negation of a junction becomes the
   * dual junction over as many operands, each of which holds exactly when
   * the matching operand of the original junction does not.
   */
  lemma NnfDeMorgan(n: Node, v: Valuation)
    requires n.name == NOT && |n.children| == 1 && IsJunction(n.children[0].name)
    ensures ToNnf(n).name == DualJunction(n.children[0].name)
    ensures |ToNnf(n).children| == |n.children[0].children|
    ensures forall i :: 0 <= i < |n.children[0].children| ==>
      (Holds(ToNnf(n).children[i], v) <==> !Holds(n.children[0].children[i], v))
  {
    LabelsDistinct();
    var cs := n.children[0].children;
    var w := Weight(n);
    WeightUnfold(n);
    assert w >= 2;
    var s := NegatedJunctionStep(n, w);
    assert ToNnf(n) == RewriteNegation(n, w);
    assert RewriteNegation(n, w) == Rewrite(s, w - 1);
    assert Rewrite(s, w - 1) == Node(s.name, RewriteAll(s.children, w - 2));
    forall i | 0 <= i < |cs|
      ensures Holds(ToNnf(n).children[i], v) <==> !Holds(cs[i], v)
    {
      var m := Node(NOT, [Rewrite(cs[i], w - 1)]);
      assert ToNnf(n).children[i] == Rewrite(m, w - 2);
      RewriteTruth(m, w - 2, v);
      RewriteTruth(cs[i], w - 1, v);
    }
  }

}
