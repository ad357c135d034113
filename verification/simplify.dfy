/**
 * normal_form.py `simplify_tree` and `check_simplified_integrity`.
 *
 * `simplify_tree` works in place on a tree of linked nodes and returns a
 * node: usually the one it was given, but when a junction is left with a
 * single child it returns that child while the given node keeps its new,
 * one-child state inside its parent. Both matter: the parent goes on with
 * the kept state of each child, the caller with the returned node. The
 * model therefore computes the pair on immutable values.
 */
module Simplifier {
  import opened Syntax
  import opened Semantics
  import opened Trees
  import opened Nnf

  /** The state a node keeps after `simplify_tree`, and the node that call returns. */
  datatype Simplified = Simplified(kept: Node, result: Node)

  /** A node rewritten in place into a constant leaf and returned. */
  function Leaf(name: string): Simplified
  {
    Simplified(Node(name, []), Node(name, []))
  }

  /** The labels under the children that are negations with an operand (lines 193-194, 207-208). */
  function NegatedNames(cs: seq<Node>): set<string>
    decreases cs
  {
    if cs == [] then {}
    else (if cs[0].name == NOT && |cs[0].children| > 0 then {cs[0].children[0].name} else {}) + NegatedNames(cs[1..])
  }

  /** The non-empty labels of the other children (lines 195-196, 209-210). */
  function LiteralNames(cs: seq<Node>): set<string>
    decreases cs
  {
    if cs == [] then {}
    else (if !(cs[0].name == NOT && |cs[0].children| > 0) && cs[0].name != "" then {cs[0].name} else {}) + LiteralNames(cs[1..])
  }

  /** Some label occurs both as a child and under a negated child (lines 198, 212). */
  predicate Clash(cs: seq<Node>)
  {
    LiteralNames(cs) * NegatedNames(cs) != {}
  }

  /** The children whose label is not `drop`, in order. */
  function Without(cs: seq<Node>, drop: string): seq<Node>
    decreases cs
  {
    if cs == [] then [] else (if cs[0].name == drop then [] else [cs[0]]) + Without(cs[1..], drop)
  }

  /** Every child carries `name` (true of an empty list). */
  predicate AllLabelled(cs: seq<Node>, name: string)
  {
    forall i :: 0 <= i < |cs| ==> cs[i].name == name
  }

  /** Some child carries `name`. */
  predicate AnyLabelled(cs: seq<Node>, name: string)
  {
    exists i :: 0 <= i < |cs| && cs[i].name == name
  }

  /** The unit of a junction, which it drops: ⊤ for ∧ and ⊥ for ∨. */
  function Unit(j: string): string
  {
    if j == AND then TOP else BOT
  }

  /** The zero of a junction, which absorbs it: ⊥ for ∧ and ⊤ for ∨. */
  function Zero(j: string): string
  {
    if j == AND then BOT else TOP
  }

  /**
   * Lines 226-273: under ∧, ⊤ is dropped and ⊥ absorbs the node; under ∨
   * the other way round. A junction whose children are all the unit (or
   * that has none) becomes the unit. The remaining children are
   * deduplicated and a single survivor is returned in place of the node.
   */
  function Absorb(m: Node): Simplified
    requires IsJunction(m.name)
  {
    if AllLabelled(m.children, Unit(m.name)) then Leaf(Unit(m.name))
    else if AnyLabelled(m.children, Zero(m.name)) then Leaf(Zero(m.name))
    else
      var d := Dedup(Without(m.children, Unit(m.name)));
      if |d| == 1 then Simplified(Node(m.name, d), d[0]) else Simplified(Node(m.name, d), Node(m.name, d))
  }

  /** Lines 189-275: what happens to the node reached after splicing and deduplication. */
  function Finish(m: Node): Simplified
  {
    if m.name == OR && Clash(m.children) then Leaf(TOP)
    else if m.name == AND && Clash(m.children) then Leaf(BOT)
    else if m.name == NOT && |m.children| > 0 then
      if m.children[0].name == TOP then Leaf(BOT)
      else if m.children[0].name == BOT then Leaf(TOP)
      else Simplified(m, m)
    else if IsJunction(m.name) then Absorb(m)
    else Simplified(m, m)
  }

  /**
   * normal_form.py `simplify_tree` (lines 165-275). The children are
   * simplified first and keep their new state; under ∧ and ∨ a child with
   * the same label is replaced by its children and the list deduplicated
   * (lines 178-185). A single surviving child is then processed in place
   * of the node (lines 186-187), and the node keeps that child's new state
   * as its only child.
   */
  function Simplify(n: Node): Simplified
    decreases n, 1
  {
    Settle(n.name, KeptAll(n.children))
  }

  /** What `simplify_tree` does to a node once its children have been simplified into `kids`. */
  function Settle(name: string, kids: seq<Node>): Simplified
  {
    if IsJunction(name) then
      var d := Dedup(Splice(name, kids));
      if |d| == 1 then
        var f := Finish(d[0]);
        Simplified(Node(name, [f.kept]), f.result)
      else Finish(Node(name, d))
    else Finish(Node(name, kids))
  }

  /** The kept state of each child, in order. */
  function KeptAll(cs: seq<Node>): (r: seq<Node>)
    ensures |r| == |cs| && forall i :: 0 <= i < |cs| ==> r[i] == Simplify(cs[i]).kept
    decreases cs, 0
  {
    if cs == [] then [] else [Simplify(cs[0]).kept] + KeptAll(cs[1..])
  }

  lemma {:induction false} KeptAllAppend(a: seq<Node>, b: seq<Node>)
    ensures KeptAll(a + b) == KeptAll(a) + KeptAll(b)
    decreases a
  {
    if a == [] {
      assert a + b == b;
    } else {
      assert (a + b)[1..] == a[1..] + b;
      KeptAllAppend(a[1..], b);
    }
  }

  /**
   * normal_form.py `check_simplified_integrity` (lines 278-285): a junction
   * with one child is replaced by that child, once per level, and the
   * children of whatever node results are treated the same way.
   */
  function CheckIntegrity(n: Node): Node
    decreases n, 1
  {
    var m := Lift(n);
    Node(m.name, CheckAll(m.children))
  }

  /** Lines 282-283: a junction with one child gives way to that child. */
  function Lift(n: Node): (m: Node)
    ensures m == n || (|n.children| == 1 && m == n.children[0])
  {
    if IsJunction(n.name) && |n.children| == 1 then n.children[0] else n
  }

  /** Each child checked, in order. */
  function CheckAll(cs: seq<Node>): (r: seq<Node>)
    ensures |r| == |cs| && forall i :: 0 <= i < |cs| ==> r[i] == CheckIntegrity(cs[i])
    decreases cs, 0
  {
    if cs == [] then [] else [CheckIntegrity(cs[0])] + CheckAll(cs[1..])
  }

  /** A label that is not a connective decides the truth value on its own. */
  lemma NameDecidesTruth(a: Node, b: Node, v: Valuation)
    requires a.name == b.name && !IsConnective(a.name)
    ensures Holds(a, v) == Holds(b, v)
  {
  }

  /** Where the names in the two sets come from. */
  lemma {:induction false} NamesOrigin(cs: seq<Node>)
    ensures forall x :: x in NegatedNames(cs) ==>
      exists i :: 0 <= i < |cs| && cs[i].name == NOT && |cs[i].children| > 0 && cs[i].children[0].name == x
    ensures forall x :: x in LiteralNames(cs) ==>
      exists i :: 0 <= i < |cs| && cs[i].name == x && !(cs[i].name == NOT && |cs[i].children| > 0)
    decreases cs
  {
    if cs != [] {
      NamesOrigin(cs[1..]);
      forall x | x in NegatedNames(cs[1..])
        ensures exists i :: 0 <= i < |cs| && cs[i].name == NOT && |cs[i].children| > 0 && cs[i].children[0].name == x
      {
        var i :| 0 <= i < |cs[1..]| && cs[1..][i].name == NOT && |cs[1..][i].children| > 0 && cs[1..][i].children[0].name == x;
        assert cs[i + 1] == cs[1..][i];
      }
      forall x | x in LiteralNames(cs[1..])
        ensures exists i :: 0 <= i < |cs| && cs[i].name == x && !(cs[i].name == NOT && |cs[i].children| > 0)
      {
        var i :| 0 <= i < |cs[1..]| && cs[1..][i].name == x && !(cs[1..][i].name == NOT && |cs[1..][i].children| > 0);
        assert cs[i + 1] == cs[1..][i];
      }
    }
  }

  /**
   * When every negated child negates a proposition name, a clash makes a
   * disjunction true and a conjunction false: one of the two children is
   * the name and the other its negation.
   */
  lemma ClashDecides(cs: seq<Node>, v: Valuation)
    requires forall i :: 0 <= i < |cs| && cs[i].name == NOT && |cs[i].children| > 0 ==> !IsConnective(cs[i].children[0].name)
    requires Clash(cs)
    ensures Holds(Node(OR, cs), v) && !Holds(Node(AND, cs), v)
  {
    var i, j := ClashWitnesses(cs);
    NameDecidesTruth(cs[i], cs[j].children[0], v);
    LabelsDistinct();
    assert Holds(cs[j], v) == !Holds(cs[i], v);
  }

  /** A clash names a child and a negated child over the same label. */
  lemma ClashWitnesses(cs: seq<Node>) returns (i: nat, j: nat)
    requires Clash(cs)
    ensures i < |cs| && j < |cs|
    ensures !(cs[i].name == NOT && |cs[i].children| > 0)
    ensures cs[j].name == NOT && |cs[j].children| > 0 && cs[j].children[0].name == cs[i].name
  {
    NamesOrigin(cs);
    var x :| x in LiteralNames(cs) * NegatedNames(cs);
    i :| 0 <= i < |cs| && cs[i].name == x && !(cs[i].name == NOT && |cs[i].children| > 0);
    j :| 0 <= j < |cs| && cs[j].name == NOT && |cs[j].children| > 0 && cs[j].children[0].name == x;
  }

  lemma {:induction false} WithoutMembers(cs: seq<Node>, drop: string)
    ensures forall k :: 0 <= k < |Without(cs, drop)| ==> Without(cs, drop)[k] in cs && Without(cs, drop)[k].name != drop
    ensures (exists i :: 0 <= i < |cs| && cs[i].name != drop) ==> |Without(cs, drop)| > 0
    ensures SizeOf(Without(cs, drop)) <= SizeOf(cs)
    decreases cs
  {
    if cs != [] {
      WithoutMembers(cs[1..], drop);
      var head := if cs[0].name == drop then [] else [cs[0]];
      var w := Without(cs, drop);
      assert w == head + Without(cs[1..], drop);
      SizeOfAppend(head, Without(cs[1..], drop));
      forall k | 0 <= k < |w| ensures w[k] in cs && w[k].name != drop {
        if k >= |head| {
          assert w[k] == Without(cs[1..], drop)[k - |head|];
          assert w[k] in cs[1..];
        }
      }
      if exists i :: 0 <= i < |cs| && cs[i].name != drop {
        var i :| 0 <= i < |cs| && cs[i].name != drop;
        if i > 0 { assert cs[1..][i - 1] == cs[i]; }
      }
    }
  }

  /** Dropping the unit of a junction (⊤ under ∧, ⊥ under ∨) keeps its truth value. */
  lemma {:induction false} WithoutUnitTruth(j: string, cs: seq<Node>, v: Valuation)
    requires IsJunction(j)
    ensures Holds(Node(j, Without(cs, Unit(j))), v) == Holds(Node(j, cs), v)
    decreases cs
  {
    LabelsDistinct();
    if cs != [] {
      var unit := Unit(j);
      WithoutUnitTruth(j, cs[1..], v);
      var head := if cs[0].name == unit then [] else [cs[0]];
      assert Without(cs, unit) == head + Without(cs[1..], unit);
      JunctionAppend(j, head, Without(cs[1..], unit), v);
      JunctionAppend(j, [cs[0]], cs[1..], v);
      assert [cs[0]] + cs[1..] == cs;
    }
  }

  lemma {:induction false} SizeOfAppend(a: seq<Node>, b: seq<Node>)
    ensures SizeOf(a + b) == SizeOf(a) + SizeOf(b)
    decreases a
  {
    if a != [] {
      assert (a + b)[1..] == a[1..] + b;
      SizeOfAppend(a[1..], b);
    } else {
      assert a + b == b;
    }
  }

  lemma {:induction false} SizeOfElement(cs: seq<Node>, i: nat)
    requires i < |cs|
    ensures Size(cs[i]) <= SizeOf(cs)
    decreases cs
  {
    if i > 0 { SizeOfElement(cs[1..], i - 1); }
  }

  lemma {:induction false} SubsequenceSize(a: seq<Node>, b: seq<Node>)
    requires IsSubsequence(a, b)
    ensures SizeOf(a) <= SizeOf(b)
    decreases b
  {
    if a != [] {
      if a[0] == b[0] && IsSubsequence(a[1..], b[1..]) {
        SubsequenceSize(a[1..], b[1..]);
      } else {
        SubsequenceSize(a, b[1..]);
      }
    }
  }

  /** Splicing never grows a list, and keeps its members in negation normal form. */
  lemma {:induction false} SpliceFacts(j: string, cs: seq<Node>)
    requires IsJunction(j)
    ensures SizeOf(Splice(j, cs)) <= SizeOf(cs)
    ensures (forall i :: 0 <= i < |cs| ==> IsNnf(cs[i])) ==> forall k :: 0 <= k < |Splice(j, cs)| ==> IsNnf(Splice(j, cs)[k])
    decreases cs
  {
    if cs != [] {
      SpliceFacts(j, cs[1..]);
      var head := if cs[0].name == j then cs[0].children else [cs[0]];
      var r := Splice(j, cs);
      assert r == head + Splice(j, cs[1..]);
      SizeOfAppend(head, Splice(j, cs[1..]));
      assert [cs[0]][1..] == [];
      if forall i :: 0 <= i < |cs| ==> IsNnf(cs[i]) {
        assert forall i :: 0 <= i < |cs[1..]| ==> IsNnf(cs[1..][i]) by {
          forall i | 0 <= i < |cs[1..]| ensures IsNnf(cs[1..][i]) { assert cs[1..][i] == cs[i + 1]; }
        }
        forall k | 0 <= k < |r| ensures IsNnf(r[k]) {
          if k >= |head| {
            assert r[k] == Splice(j, cs[1..])[k - |head|];
          } else {
            assert IsNnf(cs[0]);
          }
        }
      }
    }
  }

  /** Deduplication keeps a list in negation normal form and never grows it. */
  lemma DedupFacts(cs: seq<Node>)
    ensures SizeOf(Dedup(cs)) <= SizeOf(cs)
    ensures (forall i :: 0 <= i < |cs| ==> IsNnf(cs[i])) ==> forall k :: 0 <= k < |Dedup(cs)| ==> IsNnf(Dedup(cs)[k])
  {
    DedupIsSubsequence(cs, {});
    SubsequenceSize(Dedup(cs), cs);
    DedupFromProperties(cs, {});
  }

  /** A junction with one child means what that child means. */
  lemma SingleJunction(j: string, c: Node, v: Valuation)
    requires IsJunction(j)
    ensures Holds(Node(j, [c]), v) == Holds(c, v)
  {
    LabelsDistinct();
    assert [c][0] == c;
  }

  /** A list all of whose members are in a well-shaped list in negation normal form is one too. */
  lemma SublistFacts(a: seq<Node>, b: seq<Node>)
    requires forall k :: 0 <= k < |a| ==> a[k] in b
    requires forall i :: 0 <= i < |b| ==> WellShaped(b[i]) && IsNnf(b[i])
    ensures forall k :: 0 <= k < |a| ==> WellShaped(a[k]) && IsNnf(a[k])
  {
    forall k | 0 <= k < |a| ensures WellShaped(a[k]) && IsNnf(a[k]) {
      var i :| 0 <= i < |b| && b[i] == a[k];
    }
  }

  /** A junction all of whose children are its unit holds exactly when the unit does. */
  lemma AllUnits(j: string, cs: seq<Node>, v: Valuation)
    requires IsJunction(j) && AllLabelled(cs, Unit(j))
    ensures Holds(Node(j, cs), v) == (j == AND)
  {
    LabelsDistinct();
  }

  /** A junction with a child that is its zero holds exactly when the zero does. */
  lemma SomeZero(j: string, cs: seq<Node>, v: Valuation)
    requires IsJunction(j) && AnyLabelled(cs, Zero(j))
    ensures Holds(Node(j, cs), v) == (j == OR)
  {
    LabelsDistinct();
    var i :| 0 <= i < |cs| && cs[i].name == Zero(j);
    assert Holds(cs[i], v) == (j == OR);
  }

  /** Dropping the units and deduplicating the rest keeps a junction's meaning and shape. */
  lemma PruneSound(j: string, cs: seq<Node>, v: Valuation)
    requires IsJunction(j) && !AllLabelled(cs, Unit(j))
    requires forall i :: 0 <= i < |cs| ==> WellShaped(cs[i]) && IsNnf(cs[i])
    ensures var d := Dedup(Without(cs, Unit(j)));
      && |d| > 0 && (forall k :: 0 <= k < |d| ==> WellShaped(d[k]) && IsNnf(d[k]))
      && Holds(Node(j, d), v) == Holds(Node(j, cs), v)
  {
    var w := Without(cs, Unit(j));
    WithoutMembers(cs, Unit(j));
    WithoutUnitTruth(j, cs, v);
    SublistFacts(w, cs);
    DedupKeepsTruth(j, w, v);
    DedupKeepsShape(w);
    DedupFacts(w);
  }

  /**
   * `s` is a faithful outcome of simplifying `m`: both the kept state and
   * the returned node are well shaped, in negation normal form, and mean
   * what `m` means under `v`.
   */
  predicate Preserves(s: Simplified, m: Node, v: Valuation)
  {
    && WellShaped(s.kept) && IsNnf(s.kept) && WellShaped(s.result) && IsNnf(s.result)
    && Holds(s.kept, v) == Holds(m, v) && Holds(s.result, v) == Holds(m, v)
  }

  /** A constant leaf is a faithful outcome for a node that always has the constant's value. */
  lemma LeafPreserves(name: string, m: Node, v: Valuation)
    requires name == TOP || name == BOT
    requires Holds(m, v) == (name == TOP)
    ensures Preserves(Leaf(name), m, v)
  {
    LabelsDistinct();
    assert IsPropName(name);
  }

  /**
   * Dropping units, absorbing into the zero and deduplicating keep the
   * truth value of a junction in negation normal form, and keep it well
   * shaped and in negation normal form.
   */
  lemma AbsorbSound(m: Node, v: Valuation)
    requires IsJunction(m.name) && WellShaped(m) && IsNnf(m)
    ensures Preserves(Absorb(m), m, v)
  {
    LabelsDistinct();
    var cs := m.children;
    assert m == Node(m.name, cs);
    if AllLabelled(cs, Unit(m.name)) {
      AllUnits(m.name, cs, v);
      LeafPreserves(Unit(m.name), m, v);
    } else if AnyLabelled(cs, Zero(m.name)) {
      SomeZero(m.name, cs, v);
      LeafPreserves(Zero(m.name), m, v);
    } else {
      PruneSound(m.name, cs, v);
      var d := Dedup(Without(cs, Unit(m.name)));
      if |d| == 1 {
        SingleJunction(m.name, d[0], v);
        assert d == [d[0]];
      }
    }
  }

  /** `Absorb` never grows a node. */
  lemma AbsorbSize(m: Node)
    requires IsJunction(m.name)
    ensures Size(Absorb(m).kept) <= Size(m) && Size(Absorb(m).result) <= Size(m)
  {
    var w := Without(m.children, Unit(m.name));
    WithoutMembers(m.children, Unit(m.name));
    DedupFacts(w);
    var d := Dedup(w);
    if |d| == 1 {
      SizeOfElement(d, 0);
    }
  }

  /** The second half of `simplify_tree` keeps the truth value and the shape of a tree in negation normal form. */
  lemma FinishSound(m: Node, v: Valuation)
    requires WellShaped(m) && IsNnf(m)
    ensures Preserves(Finish(m), m, v)
  {
    LabelsDistinct();
    if (m.name == OR || m.name == AND) && Clash(m.children) {
      forall i | 0 <= i < |m.children| && m.children[i].name == NOT && |m.children[i].children| > 0
        ensures !IsConnective(m.children[i].children[0].name)
      {
        assert IsNnf(m.children[i]);
      }
      ClashDecides(m.children, v);
      LeafPreserves(if m.name == OR then TOP else BOT, m, v);
    } else if m.name == NOT && |m.children| > 0 && (m.children[0].name == TOP || m.children[0].name == BOT) {
      LeafPreserves(if m.children[0].name == TOP then BOT else TOP, m, v);
    } else if IsJunction(m.name) {
      AbsorbSound(m, v);
    } else {
      assert Finish(m) == Simplified(m, m);
    }
  }

  lemma FinishSize(m: Node)
    ensures Size(Finish(m).kept) <= Size(m) && Size(Finish(m).result) <= Size(m)
  {
    if IsJunction(m.name) {
      AbsorbSize(m);
    }
  }

  /** Replacing the children of a node by children that mean the same keeps what the node means. */
  lemma RebuildTruth(n: Node, kids: seq<Node>, v: Valuation)
    requires |kids| == |n.children|
    requires forall i :: 0 <= i < |kids| ==> Holds(kids[i], v) == Holds(n.children[i], v)
    ensures Holds(Node(n.name, kids), v) == Holds(n, v)
  {
    LabelsDistinct();
    if n.name == OR && Holds(n, v) {
      var i :| 0 <= i < |n.children| && Holds(n.children[i], v);
      assert Holds(kids[i], v);
    }
    if n.name == OR && Holds(Node(n.name, kids), v) {
      var i :| 0 <= i < |kids| && Holds(kids[i], v);
      assert Holds(n.children[i], v);
    }
  }

  /**
   * Replacing the children of a well-shaped node in negation normal form by
   * well-shaped children in negation normal form, keeping the operand of a
   * negation, keeps both properties.
   */
  lemma RebuildShape(n: Node, kids: seq<Node>)
    requires WellShaped(n) && |kids| == |n.children|
    requires forall i :: 0 <= i < |kids| ==> WellShaped(kids[i])
    ensures WellShaped(Node(n.name, kids))
    ensures (&& IsNnf(n) && (forall i :: 0 <= i < |kids| ==> IsNnf(kids[i]))
             && (n.name == NOT ==> kids[0].name == n.children[0].name)) ==> IsNnf(Node(n.name, kids))
  {
  }

  /** A proposition name keeps its leaf through `simplify_tree`. */
  lemma SimplifyName(n: Node)
    requires WellShaped(n) && IsPropName(n.name)
    ensures Simplify(n) == Simplified(n, n)
  {
    LabelsDistinct();
    Nnf.ConnectivesAreNotNames();
    assert KeptAll(n.children) == [];
  }

  /**
   * `simplify_tree` keeps the meaning of a well-shaped tree in negation
   * normal form under every valuation, and keeps it well shaped and in
   * negation normal form: both the returned node and the state the given
   * node is left in.
   */
  lemma {:induction false} SimplifySound(n: Node, v: Valuation)
    requires WellShaped(n) && IsNnf(n)
    ensures Preserves(Simplify(n), n, v)
    decreases n
  {
    var kids := KeptAll(n.children);
    forall i | 0 <= i < |n.children|
      ensures WellShaped(kids[i]) && IsNnf(kids[i]) && Holds(kids[i], v) == Holds(n.children[i], v)
    {
      SimplifySound(n.children[i], v);
    }
    if n.name == NOT {
      Nnf.ConnectivesAreNotNames();
      SimplifyName(n.children[0]);
    }
    RebuildTruth(n, kids, v);
    RebuildShape(n, kids);
    SettleSound(n.name, kids, v);
  }

  /** The second phase keeps the meaning and shape of a node whose children are already simplified. */
  lemma SettleSound(name: string, kids: seq<Node>, v: Valuation)
    requires WellShaped(Node(name, kids)) && IsNnf(Node(name, kids))
    ensures Preserves(Settle(name, kids), Node(name, kids), v)
  {
    if IsJunction(name) {
      JunctionStage(name, kids, v);
      var d := Dedup(Splice(name, kids));
      if |d| == 1 {
        FinishSound(d[0], v);
        SingleJunction(name, d[0], v);
        SingleJunction(name, Finish(d[0]).kept, v);
        assert d == [d[0]];
      } else {
        FinishSound(Node(name, d), v);
      }
    } else {
      FinishSound(Node(name, kids), v);
    }
  }

  /** Splicing and deduplicating simplified children keep the junction's meaning and shape. */
  lemma JunctionStage(j: string, kids: seq<Node>, v: Valuation)
    requires IsJunction(j) && |kids| > 0
    requires forall i :: 0 <= i < |kids| ==> WellShaped(kids[i]) && IsNnf(kids[i])
    ensures var d := Dedup(Splice(j, kids));
      && WellShaped(Node(j, d)) && IsNnf(Node(j, d))
      && Holds(Node(j, d), v) == Holds(Node(j, kids), v)
  {
    LabelsDistinct();
    SpliceSound(j, kids, v);
    SpliceFacts(j, kids);
    var sp := Splice(j, kids);
    DedupKeepsTruth(j, sp, v);
    DedupKeepsShape(sp);
    DedupFacts(sp);
    Nnf.ConnectivesAreNotNames();
  }

  /** `simplify_tree` never grows a tree, in what it returns or in what it leaves behind. */
  lemma {:induction false} SimplifySize(n: Node)
    ensures Size(Simplify(n).kept) <= Size(n) && Size(Simplify(n).result) <= Size(n)
    decreases n, 1
  {
    var kids := KeptAll(n.children);
    KeptAllSize(n.children);
    if IsJunction(n.name) {
      SpliceFacts(n.name, kids);
      DedupFacts(Splice(n.name, kids));
      var d := Dedup(Splice(n.name, kids));
      if |d| == 1 {
        FinishSize(d[0]);
        SizeOfElement(d, 0);
        assert [Finish(d[0]).kept][1..] == [];
      } else {
        FinishSize(Node(n.name, d));
      }
    } else {
      FinishSize(Node(n.name, kids));
    }
  }

  lemma {:induction false} KeptAllSize(cs: seq<Node>)
    ensures SizeOf(KeptAll(cs)) <= SizeOf(cs)
    decreases cs, 0
  {
    if cs != [] {
      SimplifySize(cs[0]);
      KeptAllSize(cs[1..]);
      assert KeptAll(cs)[1..] == KeptAll(cs[1..]);
    }
  }

  /**
   * `check_simplified_integrity` keeps the meaning and the shape of a
   * well-shaped tree, and negation normal form.
   */
  lemma {:induction false} CheckIntegritySound(n: Node, v: Valuation)
    requires WellShaped(n)
    ensures WellShaped(CheckIntegrity(n))
    ensures Holds(CheckIntegrity(n), v) == Holds(n, v)
    ensures IsNnf(n) ==> IsNnf(CheckIntegrity(n))
    decreases n
  {
    var m := Lift(n);
    LiftSound(n, v);
    var kids := CheckAll(m.children);
    forall i | 0 <= i < |m.children|
      ensures WellShaped(kids[i]) && Holds(kids[i], v) == Holds(m.children[i], v)
      ensures IsNnf(m.children[i]) ==> IsNnf(kids[i])
    {
      CheckIntegritySound(m.children[i], v);
    }
    if m.name == NOT && IsNnf(n) {
      LiftName(m.children[0]);
    }
    RebuildTruth(m, kids, v);
    RebuildShape(m, kids);
  }

  lemma LiftSound(n: Node, v: Valuation)
    requires WellShaped(n)
    ensures WellShaped(Lift(n)) && Holds(Lift(n), v) == Holds(n, v)
    ensures IsNnf(n) ==> IsNnf(Lift(n))
  {
    if Lift(n) != n {
      assert n == Node(n.name, [Lift(n)]);
      SingleJunction(n.name, Lift(n), v);
    }
  }

  /** A node whose label is not a connective keeps its label through the check. */
  lemma LiftName(c: Node)
    requires !IsConnective(c.name)
    ensures CheckIntegrity(c).name == c.name
  {
  }

  /** No ∧ or ∨ anywhere in the tree has exactly one child. */
  predicate NoLoneJunction(n: Node)
  {
    && !(IsJunction(n.name) && |n.children| == 1)
    && forall i :: 0 <= i < |n.children| ==> NoLoneJunction(n.children[i])
  }

  /** A tree without a one-child junction passes `check_simplified_integrity` unchanged. */
  lemma {:induction false} CheckIntegrityFixes(n: Node)
    requires NoLoneJunction(n)
    ensures CheckIntegrity(n) == n
    decreases n
  {
    forall i | 0 <= i < |n.children| ensures CheckIntegrity(n.children[i]) == n.children[i] {
      CheckIntegrityFixes(n.children[i]);
    }
    assert CheckIntegrity(n).children == n.children;
  }

  /** A child list with no truth constant and no two children rendered alike. */
  predicate Reduced(cs: seq<Node>)
  {
    && (forall k :: 0 <= k < |cs| ==> cs[k].name != TOP && cs[k].name != BOT)
    && DistinctRenderings(cs)
  }

  /** A junction that keeps its label after absorption is left with a reduced child list. */
  lemma AbsorbReduced(m: Node)
    requires IsJunction(m.name)
    ensures Absorb(m).kept.name == m.name ==> Reduced(Absorb(m).kept.children)
  {
    var unit, zero := Unit(m.name), Zero(m.name);
    if !AllLabelled(m.children, unit) && !AnyLabelled(m.children, zero) {
      var w := Without(m.children, unit);
      WithoutMembers(m.children, unit);
      DedupFromProperties(w, {});
      var d := Dedup(w);
      forall k | 0 <= k < |d| ensures d[k].name != TOP && d[k].name != BOT {
        assert d[k] in w;
        assert d[k] in m.children;
      }
    }
  }

  /**
   * After `simplify_tree`, a junction that keeps its label and does not
   * end with exactly one child holds no ⊤ or ⊥ child and no two children
   * with the same rendering.
   */
  lemma SimplifiedJunction(n: Node)
    requires IsJunction(n.name)
    ensures var s := Simplify(n).kept;
      s.name == n.name && |s.children| != 1 ==> Reduced(s.children)
  {
    var d := Dedup(Splice(n.name, KeptAll(n.children)));
    if |d| != 1 {
      AbsorbReduced(Node(n.name, d));
    }
  }

  /** The loops of lines 192-196 and 206-210, which sort the children's labels into two sets. */
  method CollectNames(children: seq<Node>) returns (literals: set<string>, negations: set<string>)
    ensures literals == LiteralNames(children) && negations == NegatedNames(children)
  {
    literals, negations := {}, {};
    var i := 0;
    while i < |children|
      invariant 0 <= i <= |children|
      invariant literals + LiteralNames(children[i..]) == LiteralNames(children)
      invariant negations + NegatedNames(children[i..]) == NegatedNames(children)
    {
      assert children[i..][1..] == children[i + 1..];
      var child := children[i];
      if child.name == NOT && |child.children| > 0 {
        negations := negations + {child.children[0].name};
      } else if child.name != "" {
        literals := literals + {child.name};
      }
      i := i + 1;
    }
  }

  /** The loops of lines 228-232 and 253-257, which stop at the first child with another label. */
  method AllChildrenLabelled(children: seq<Node>, name: string) returns (all: bool)
    ensures all == AllLabelled(children, name)
  {
    all := true;
    var i := 0;
    while i < |children|
      invariant 0 <= i <= |children|
      invariant AllLabelled(children[..i], name)
    {
      if children[i].name != name {
        all := false;
        return;
      }
      i := i + 1;
    }
    assert children[..i] == children;
  }

  /**
   * The loops of lines 237-245 and 262-270: drop the units, and stop at the
   * first zero, which absorbs the junction.
   */
  method DropUnits(children: seq<Node>, unit: string, zero: string) returns (newChildren: seq<Node>, absorbed: bool)
    requires unit != zero
    ensures absorbed == AnyLabelled(children, zero)
    ensures !absorbed ==> newChildren == Without(children, unit)
  {
    newChildren := [];
    var i := 0;
    while i < |children|
      invariant 0 <= i <= |children|
      invariant newChildren + Without(children[i..], unit) == Without(children, unit)
      invariant forall k :: 0 <= k < i ==> children[k].name != zero
    {
      var child := children[i];
      assert children[i..][1..] == children[i + 1..];
      assert Without(children[i..], unit) ==
        (if child.name == unit then [] else [child]) + Without(children[i + 1..], unit);
      if child.name == unit {
        assert [] + Without(children[i + 1..], unit) == Without(children[i + 1..], unit);
      } else if child.name == zero {
        absorbed := true;
        return;
      } else {
        assert (newChildren + [child]) + Without(children[i + 1..], unit)
          == newChildren + ([child] + Without(children[i + 1..], unit));
        newChildren := newChildren + [child];
      }
      i := i + 1;
    }
    absorbed := false;
    assert children[i..] == [];
    assert newChildren + [] == newChildren;
  }

  /**
   * Lines 226-273 for a junction: the unit loop, then the loop that drops
   * units and absorbs into the zero, then deduplication and the collapse
   * of a single survivor.
   */
  method AbsorbConstants(node: Node) returns (state: Node, result: Node)
    requires IsJunction(node.name)
    ensures Simplified(state, result) == Absorb(node)
  {
    var unit := if node.name == AND then TOP else BOT;
    var zero := if node.name == AND then BOT else TOP;
    LabelsDistinct();
    var allUnits := AllChildrenLabelled(node.children, unit);
    if allUnits {
      state := Node(unit, []);
      result := state;
      return;
    }
    var newChildren, absorbed := DropUnits(node.children, unit, zero);
    if absorbed {
      state := Node(zero, []);
      result := state;
      return;
    }
    var unique := DeduplicateChildren(newChildren);
    state := Node(node.name, unique);
    result := if |unique| == 1 then unique[0] else state;
  }

  /** Lines 189-275: the clash test, the negation of a constant, and the units and zeros of a junction. */
  method FinishNode(node: Node) returns (state: Node, result: Node)
    ensures Simplified(state, result) == Finish(node)
  {
    if node.name == OR || node.name == AND {
      var literals, negations := CollectNames(node.children);
      if literals * negations != {} {
        state := Node(if node.name == OR then TOP else BOT, []);
        result := state;
        return;
      }
    }
    if node.name == NOT && |node.children| > 0 {
      var child := node.children[0];
      if child.name == TOP {
        state := Node(BOT, []);
      } else if child.name == BOT {
        state := Node(TOP, []);
      } else {
        state := node;
      }
      result := state;
    } else if node.name == AND || node.name == OR {
      state, result := AbsorbConstants(node);
    } else {
      state, result := node, node;
    }
  }

  /**
   * normal_form.py `simplify_tree`: simplify each child (each keeps its new
   * state in the list), splice and deduplicate under ∧ and ∨, go on with a
   * single surviving child in place of the node, and finish. The call on a
   * child never returns `None`, so the removal loop of lines 175-176 has
   * nothing to remove.
   */
  method SimplifyTree(node: Node) returns (kept: Node, result: Node)
    ensures Simplified(kept, result) == Simplify(node)
    decreases node
  {
    var kids: seq<Node> := [];
    var i := 0;
    while i < |node.children|
      invariant 0 <= i <= |node.children|
      invariant kids == KeptAll(node.children[..i])
    {
      var childState, _ := SimplifyTree(node.children[i]);
      KeptAllAppend(node.children[..i], [node.children[i]]);
      assert node.children[..i + 1] == node.children[..i] + [node.children[i]];
      kids := kids + [childState];
      i := i + 1;
    }
    assert node.children[..i] == node.children;
    kept, result := SettleNode(node.name, kids);
  }

  /** Lines 178-275 once the children are simplified. */
  method SettleNode(name: string, kids: seq<Node>) returns (kept: Node, result: Node)
    ensures Simplified(kept, result) == Settle(name, kids)
  {
    var current := Node(name, kids);
    var collapsed := false;
    if name == OR || name == AND {
      var spliced := SpliceChildren(name, kids);
      var unique := DeduplicateChildren(spliced);
      if |unique| == 1 {
        current := unique[0];
        collapsed := true;
      } else {
        current := Node(name, unique);
      }
    }
    var state;
    state, result := FinishNode(current);
    kept := if collapsed then Node(name, [state]) else state;
  }
}
