/**
 * normal_form.py `transform_to_normal_form`: negation normal form followed
 * by simplification, and for conjunctive or disjunctive normal form the
 * distribution of one junction over the other (the inner `convert`).
 */
module NormalForm {
  import opened Syntax
  import opened Semantics
  import opened Trees
  import opened Nnf
  import opened Simplifier

  /** Each way of picking one member from every group, in the order of `itertools.product`. */
  function Product(gs: seq<seq<Node>>): seq<seq<Node>>
    decreases |gs|
  {
    if gs == [] then [[]] else Prepend(gs[0], Product(gs[1..]))
  }

  /** Every `[x] + p` with `x` from `xs` (slowest) and `p` from `ps`. */
  function Prepend(xs: seq<Node>, ps: seq<seq<Node>>): seq<seq<Node>>
    decreases |xs|
  {
    if xs == [] then [] else Attach(xs[0], ps) + Prepend(xs[1..], ps)
  }

  function Attach(x: Node, ps: seq<seq<Node>>): (r: seq<seq<Node>>)
    ensures |r| == |ps| && forall k :: 0 <= k < |ps| ==> r[k] == [x] + ps[k]
  {
    seq(|ps|, k requires 0 <= k < |ps| => [x] + ps[k])
  }

  lemma {:induction false} PrependMembers(xs: seq<Node>, ps: seq<seq<Node>>)
    ensures forall p :: p in Prepend(xs, ps) <==> |p| > 0 && p[0] in xs && p[1..] in ps
    decreases |xs|
  {
    if xs != [] {
      PrependMembers(xs[1..], ps);
      forall p ensures p in Prepend(xs, ps) <==> |p| > 0 && p[0] in xs && p[1..] in ps {
        if |p| > 0 && p[0] in xs && p[1..] in ps {
          assert p == [p[0]] + p[1..];
          if p[0] == xs[0] {
            var k :| 0 <= k < |ps| && ps[k] == p[1..];
            assert Attach(xs[0], ps)[k] == p;
          } else {
            assert p[0] in xs[1..];
          }
        }
        if p in Attach(xs[0], ps) {
          var k :| 0 <= k < |ps| && Attach(xs[0], ps)[k] == p;
          assert p[1..] == ps[k];
        }
      }
    }
  }

  /** A member of the product picks one member from each group, and every such pick is a member. */
  lemma {:induction false} ProductMembers(gs: seq<seq<Node>>)
    ensures forall p :: p in Product(gs) <==> |p| == |gs| && forall i :: 0 <= i < |gs| ==> p[i] in gs[i]
    decreases |gs|
  {
    if gs == [] {
      forall p | p in Product(gs) ensures p == [] { }
    } else {
      ProductMembers(gs[1..]);
      PrependMembers(gs[0], Product(gs[1..]));
      forall p ensures p in Product(gs) <==> |p| == |gs| && forall i :: 0 <= i < |gs| ==> p[i] in gs[i] {
        if |p| == |gs| {
          assert forall i :: 1 <= i < |gs| ==> p[1..][i - 1] == p[i] && gs[1..][i - 1] == gs[i];
        }
      }
    }
  }

  /** The junction whose truth value is decided by one member with truth value `b`. */
  function Decider(b: bool): (j: string)
    ensures IsJunction(j)
  {
    if b then OR else AND
  }

  /** A member of `gs` with truth value `b`, when the junction `Decider(b)` over `gs` has that value. */
  ghost function Pick(gs: seq<Node>, v: Valuation, b: bool): (g: Node)
    requires Holds(Node(Decider(b), gs), v) == b
    ensures g in gs && Holds(g, v) == b
  {
    LabelsDistinct();
    var k :| 0 <= k < |gs| && Holds(gs[k], v) == b; gs[k]
  }

  /** When every group decides its junction to `b`, some pick has only members with value `b`. */
  lemma PickAll(gs: seq<seq<Node>>, v: Valuation, b: bool) returns (p: seq<Node>)
    requires forall i :: 0 <= i < |gs| ==> Holds(Node(Decider(b), gs[i]), v) == b
    ensures p in Product(gs) && |p| == |gs|
    ensures forall i :: 0 <= i < |p| ==> Holds(p[i], v) == b
  {
    ProductMembers(gs);
    p := seq(|gs|, i requires 0 <= i < |gs| => Pick(gs[i], v, b));
  }

  /** Every pick contains the member it takes from group `i`. */
  lemma PickFrom(gs: seq<seq<Node>>, p: seq<Node>, i: nat) returns (k: nat)
    requires p in Product(gs) && i < |gs|
    ensures i < |p| && k < |gs[i]| && gs[i][k] == p[i]
  {
    ProductMembers(gs);
    k :| 0 <= k < |gs[i]| && gs[i][k] == p[i];
  }

  /**
   * Distribution of ∨ over ∧: a disjunction of conjunctions holds exactly
   * when every disjunction that picks one member of each conjunction holds.
   */
  lemma CnfDistribution(gs: seq<seq<Node>>, v: Valuation)
    ensures (exists i :: 0 <= i < |gs| && Holds(Node(AND, gs[i]), v))
        == (forall p :: p in Product(gs) ==> Holds(Node(OR, p), v))
  {
    LabelsDistinct();
    if exists i :: 0 <= i < |gs| && Holds(Node(AND, gs[i]), v) {
      var i :| 0 <= i < |gs| && Holds(Node(AND, gs[i]), v);
      forall p | p in Product(gs) ensures Holds(Node(OR, p), v) {
        var k := PickFrom(gs, p, i);
      }
    } else {
      var p := PickAll(gs, v, false);
      assert !Holds(Node(OR, p), v);
    }
  }

  /**
   * Distribution of ∧ over ∨: a conjunction of disjunctions holds exactly
   * when some conjunction that picks one member of each disjunction holds.
   */
  lemma DnfDistribution(gs: seq<seq<Node>>, v: Valuation)
    ensures (forall i :: 0 <= i < |gs| ==> Holds(Node(OR, gs[i]), v))
        == (exists p :: p in Product(gs) && Holds(Node(AND, p), v))
  {
    LabelsDistinct();
    if forall i :: 0 <= i < |gs| ==> Holds(Node(OR, gs[i]), v) {
      var p := PickAll(gs, v, true);
      assert Holds(Node(AND, p), v);
    } else {
      var i :| 0 <= i < |gs| && !Holds(Node(OR, gs[i]), v);
      forall p | p in Product(gs) ensures !Holds(Node(AND, p), v) {
        var k := PickFrom(gs, p, i);
      }
    }
  }

  /**
   * The members a child offers to the distribution (the corrected grouping
   * of line 127): the children of a child labelled with the inner junction,
   * and the child itself otherwise.
   */
  function Alternatives(c: Node, inner: string): seq<Node>
  {
    if c.name == inner then c.children else [c]
  }

  function Groups(cs: seq<Node>, inner: string): (gs: seq<seq<Node>>)
    ensures |gs| == |cs| && forall i :: 0 <= i < |cs| ==> gs[i] == Alternatives(cs[i], inner)
  {
    seq(|cs|, i requires 0 <= i < |cs| => Alternatives(cs[i], inner))
  }

  /**
   * Lines 132-143: each pick becomes an outer junction, which is simplified;
   * what `simplify_tree` returns is attached as the next child.
   */
  function Distribute(outer: string, ps: seq<seq<Node>>): (r: seq<Node>)
    ensures |r| == |ps| && forall k :: 0 <= k < |ps| ==> r[k] == Simplify(Node(outer, ps[k])).result
  {
    seq(|ps|, k requires 0 <= k < |ps| => Simplify(Node(outer, ps[k])).result)
  }

  /** The outer junction of a node that `convert` distributes: it has a child labelled with the inner one. */
  predicate Distributes(n: Node, outer: string)
    requires IsJunction(outer)
  {
    n.name == outer && AnyLabelled(n.children, DualJunction(outer))
  }

  /** The children a distributing node gets, before they are converted in turn. */
  function Distributed(n: Node, outer: string): seq<Node>
    requires IsJunction(outer)
  {
    Distribute(outer, Product(Groups(n.children, DualJunction(outer))))
  }

  /**
   * The inner `convert` of lines 122-148, with the grouping corrected: an
   * outer junction with a child labelled with the inner junction becomes an
   * inner junction over the simplified picks, and then every child is
   * converted in turn.
   */
  function Convert(n: Node, outer: string): Node
    requires IsJunction(outer)
    decreases Size(n)
  {
    if Distributes(n, outer) then
      var ds := Distributed(n, outer);
      DistributedSmaller(n, outer);
      Node(DualJunction(outer), seq(|ds|, k requires 0 <= k < |ds| => Convert(ds[k], outer)))
    else
      ChildrenSmaller(n);
      Node(n.name, seq(|n.children|, i requires 0 <= i < |n.children| => Convert(n.children[i], outer)))
  }

  lemma ChildrenSmaller(n: Node)
    ensures forall i :: 0 <= i < |n.children| ==> Size(n.children[i]) < Size(n)
  {
    forall i | 0 <= i < |n.children| ensures Size(n.children[i]) < Size(n) {
      SizeOfElement(n.children, i);
    }
  }

  /** Lists that are no larger member by member are no larger, and smaller when one member is. */
  lemma {:induction false} SizeOfPointwise(a: seq<Node>, b: seq<Node>)
    requires |a| == |b| && forall i :: 0 <= i < |a| ==> Size(a[i]) <= Size(b[i])
    ensures SizeOf(a) <= SizeOf(b)
    ensures (exists i :: 0 <= i < |a| && Size(a[i]) < Size(b[i])) ==> SizeOf(a) < SizeOf(b)
    decreases |a|
  {
    if a != [] {
      SizeOfPointwise(a[1..], b[1..]);
      if exists i :: 0 <= i < |a| && Size(a[i]) < Size(b[i]) {
        var i :| 0 <= i < |a| && Size(a[i]) < Size(b[i]);
        if i > 0 {
          assert a[1..][i - 1] == a[i] && b[1..][i - 1] == b[i];
        }
      }
    }
  }

  /** A member of a child's alternatives is no larger than the child, and smaller when it is a grandchild. */
  lemma AlternativeSize(c: Node, inner: string, x: Node)
    requires x in Alternatives(c, inner)
    ensures Size(x) <= Size(c) && (c.name == inner ==> Size(x) < Size(c))
  {
    if c.name == inner {
      var j :| 0 <= j < |c.children| && c.children[j] == x;
      SizeOfElement(c.children, j);
    }
  }

  /** Every pick is smaller than the distributing node, and so is what `simplify_tree` makes of it. */
  lemma DistributedSmaller(n: Node, outer: string)
    requires IsJunction(outer) && Distributes(n, outer)
    ensures forall k :: 0 <= k < |Distributed(n, outer)| ==> Size(Distributed(n, outer)[k]) < Size(n)
  {
    var inner := DualJunction(outer);
    var gs := Groups(n.children, inner);
    var ps := Product(gs);
    ProductMembers(gs);
    var i0 :| 0 <= i0 < |n.children| && n.children[i0].name == inner;
    forall k | 0 <= k < |ps| ensures Size(Distributed(n, outer)[k]) < Size(n) {
      var p := ps[k];
      forall i | 0 <= i < |p| ensures Size(p[i]) <= Size(n.children[i]) {
        AlternativeSize(n.children[i], inner, p[i]);
      }
      AlternativeSize(n.children[i0], inner, p[i0]);
      SizeOfPointwise(p, n.children);
      SimplifySize(Node(outer, p));
    }
  }

  /** A child means the same as the inner junction over its alternatives. */
  lemma GroupTruth(cs: seq<Node>, inner: string, v: Valuation)
    requires IsJunction(inner)
    ensures forall i :: 0 <= i < |cs| ==> Holds(Node(inner, Groups(cs, inner)[i]), v) == Holds(cs[i], v)
  {
    forall i | 0 <= i < |cs| ensures Holds(Node(inner, Groups(cs, inner)[i]), v) == Holds(cs[i], v) {
      SingleJunction(inner, cs[i], v);
    }
  }

  /** Every member of every group is well shaped and in negation normal form. */
  predicate GroupsShaped(gs: seq<seq<Node>>)
  {
    forall i, k :: 0 <= i < |gs| && 0 <= k < |gs[i]| ==> WellShaped(gs[i][k]) && IsNnf(gs[i][k])
  }

  /** The alternatives of well-shaped children in negation normal form are well shaped and in that form. */
  lemma GroupShape(cs: seq<Node>, inner: string)
    requires forall i :: 0 <= i < |cs| ==> WellShaped(cs[i]) && IsNnf(cs[i])
    ensures GroupsShaped(Groups(cs, inner))
    ensures IsJunction(inner) ==> forall i :: 0 <= i < |cs| ==> |Groups(cs, inner)[i]| > 0
  {
  }

  /** A junction over a pick of well-shaped groups is well shaped and in negation normal form. */
  lemma PickShape(gs: seq<seq<Node>>, p: seq<Node>, j: string)
    requires IsJunction(j) && |gs| > 0 && GroupsShaped(gs) && p in Product(gs)
    ensures WellShaped(Node(j, p)) && IsNnf(Node(j, p))
  {
    ProductLength(gs, p);
    forall i | 0 <= i < |p| ensures WellShaped(p[i]) && IsNnf(p[i]) {
      var k := PickFrom(gs, p, i);
    }
    Nnf.ConnectivesAreNotNames();
  }

  lemma ProductLength(gs: seq<seq<Node>>, p: seq<Node>)
    requires p in Product(gs)
    ensures |p| == |gs|
  {
    ProductMembers(gs);
  }

  /** When no group is empty, there is a pick. */
  lemma ProductNonEmpty(gs: seq<seq<Node>>)
    requires forall i :: 0 <= i < |gs| ==> |gs[i]| > 0
    ensures |Product(gs)| > 0
  {
    ProductMembers(gs);
    var p := seq(|gs|, i requires 0 <= i < |gs| => gs[i][0]);
    assert p in Product(gs);
  }

  /** The junction `j` over each list of `xss`. */
  function Junctions(j: string, xss: seq<seq<Node>>): (r: seq<Node>)
    ensures |r| == |xss| && forall k :: 0 <= k < |xss| ==> r[k] == Node(j, xss[k])
  {
    seq(|xss|, k requires 0 <= k < |xss| => Node(j, xss[k]))
  }

  /**
   * Distribution in either direction: the outer junction over inner
   * junctions of the groups means the inner junction over outer junctions
   * of the picks.
   */
  lemma Distribution(gs: seq<seq<Node>>, outer: string, v: Valuation)
    requires IsJunction(outer)
    ensures Holds(Node(outer, Junctions(DualJunction(outer), gs)), v)
         == Holds(Node(DualJunction(outer), Junctions(outer, Product(gs))), v)
  {
    if outer == OR {
      CnfJunctions(gs, v);
    } else {
      DnfJunctions(gs, v);
    }
  }

  lemma CnfJunctions(gs: seq<seq<Node>>, v: Valuation)
    ensures Holds(Node(OR, Junctions(AND, gs)), v) == Holds(Node(AND, Junctions(OR, Product(gs))), v)
  {
    LabelsDistinct();
    var ps := Product(gs);
    CnfDistribution(gs, v);
    assert (forall p :: p in ps ==> Holds(Node(OR, p), v))
        == (forall k :: 0 <= k < |ps| ==> Holds(Node(OR, ps[k]), v));
  }

  lemma DnfJunctions(gs: seq<seq<Node>>, v: Valuation)
    ensures Holds(Node(AND, Junctions(OR, gs)), v) == Holds(Node(OR, Junctions(AND, Product(gs))), v)
  {
    LabelsDistinct();
    var ps := Product(gs);
    DnfDistribution(gs, v);
    assert (exists p :: p in ps && Holds(Node(AND, p), v))
        == (exists k :: 0 <= k < |ps| && Holds(Node(AND, ps[k]), v));
  }

  /** Each pick of a distributing node, once simplified, is well shaped, in negation normal form and means the same. */
  lemma DistributedPicks(n: Node, outer: string, v: Valuation)
    requires IsJunction(outer) && Distributes(n, outer)
    requires WellShaped(n) && IsNnf(n)
    ensures var ps := Product(Groups(n.children, DualJunction(outer)));
      var ds := Distributed(n, outer);
      forall k :: 0 <= k < |ps| ==>
        WellShaped(ds[k]) && IsNnf(ds[k]) && Holds(ds[k], v) == Holds(Node(outer, ps[k]), v)
  {
    var inner := DualJunction(outer);
    var gs := Groups(n.children, inner);
    var ps := Product(gs);
    var ds := Distributed(n, outer);
    GroupShape(n.children, inner);
    forall k | 0 <= k < |ps|
      ensures WellShaped(ds[k]) && IsNnf(ds[k]) && Holds(ds[k], v) == Holds(Node(outer, ps[k]), v)
    {
      PickShape(gs, ps[k], outer);
      SimplifySound(Node(outer, ps[k]), v);
    }
  }

  /**
   * The picks of a distributing node, once simplified, are well shaped and in
   * negation normal form, there is at least one, and the inner junction over
   * them means what the node means.
   */
  lemma DistributedSound(n: Node, outer: string, v: Valuation)
    requires IsJunction(outer) && Distributes(n, outer)
    requires WellShaped(n) && IsNnf(n)
    ensures var ds := Distributed(n, outer);
      && |ds| > 0
      && (forall k :: 0 <= k < |ds| ==> WellShaped(ds[k]) && IsNnf(ds[k]))
      && Holds(Node(DualJunction(outer), ds), v) == Holds(n, v)
  {
    var inner := DualJunction(outer);
    var gs := Groups(n.children, inner);
    var ps := Product(gs);
    var ds := Distributed(n, outer);
    GroupShape(n.children, inner);
    ProductNonEmpty(gs);
    DistributedPicks(n, outer, v);
    GroupTruth(n.children, inner, v);
    RebuildTruth(n, Junctions(inner, gs), v);
    Distribution(gs, outer, v);
    RebuildTruth(Node(inner, Junctions(outer, ps)), ds, v);
  }

  /** A node labelled with anything but a connective keeps its label through `convert`. */
  lemma ConvertName(n: Node, outer: string)
    requires IsJunction(outer) && !IsConnective(n.name)
    ensures Convert(n, outer).name == n.name
  {
  }

  /**
   * The corrected `convert` keeps the meaning of a well-shaped tree in
   * negation normal form under every valuation, and keeps it well shaped and
   * in negation normal form.
   */
  lemma {:induction false} ConvertSound(n: Node, outer: string, v: Valuation)
    requires IsJunction(outer) && WellShaped(n) && IsNnf(n)
    ensures WellShaped(Convert(n, outer)) && IsNnf(Convert(n, outer))
    ensures Holds(Convert(n, outer), v) == Holds(n, v)
    decreases Size(n)
  {
    var c := Convert(n, outer);
    if Distributes(n, outer) {
      var ds := Distributed(n, outer);
      DistributedSmaller(n, outer);
      DistributedSound(n, outer, v);
      forall k | 0 <= k < |ds|
        ensures c.children[k] == Convert(ds[k], outer)
        ensures WellShaped(c.children[k]) && IsNnf(c.children[k]) && Holds(c.children[k], v) == Holds(ds[k], v)
      {
        ConvertSound(ds[k], outer, v);
      }
      RebuildTruth(Node(DualJunction(outer), ds), c.children, v);
      RebuildShape(Node(DualJunction(outer), ds), c.children);
    } else {
      ChildrenSmaller(n);
      forall i | 0 <= i < |n.children|
        ensures c.children[i] == Convert(n.children[i], outer)
        ensures WellShaped(c.children[i]) && IsNnf(c.children[i]) && Holds(c.children[i], v) == Holds(n.children[i], v)
      {
        ConvertSound(n.children[i], outer, v);
      }
      if n.name == NOT {
        ConvertName(n.children[0], outer);
      }
      RebuildTruth(n, c.children, v);
      RebuildShape(n, c.children);
    }
  }

  /**
   * Lines 122-148 as a procedure: the picks are simplified one at a time and
   * attached to the node, which takes the inner label, and then every child
   * is converted in turn.
   */
  method ConvertNode(node: Node, outer: string) returns (r: Node)
    requires IsJunction(outer)
    ensures r == Convert(node, outer)
    decreases Size(node), 1
  {
    var name := node.name;
    var children := node.children;
    if Distributes(node, outer) {
      name := DualJunction(outer);
      children := DistributeNode(node, outer);
      DistributedSmaller(node, outer);
    } else {
      ChildrenSmaller(node);
    }
    var converted := ConvertEach(children, outer, Size(node));
    r := Node(name, converted);
    assert r.children == Convert(node, outer).children;
  }

  /** Lines 146-147: each child converted in turn; `bound` exceeds the size of every child. */
  method ConvertEach(children: seq<Node>, outer: string, ghost bound: nat) returns (converted: seq<Node>)
    requires IsJunction(outer)
    requires forall i :: 0 <= i < |children| ==> Size(children[i]) < bound
    ensures |converted| == |children|
    ensures forall j :: 0 <= j < |children| ==> converted[j] == Convert(children[j], outer)
    decreases bound, 0
  {
    converted := [];
    var i := 0;
    while i < |children|
      invariant 0 <= i <= |children| && |converted| == i
      invariant forall j :: 0 <= j < i ==> converted[j] == Convert(children[j], outer)
    {
      var c := ConvertNode(children[i], outer);
      converted := converted + [c];
      i := i + 1;
    }
  }

  /** Lines 129-143: the picks, each simplified and attached in turn. */
  method DistributeNode(node: Node, outer: string) returns (children: seq<Node>)
    requires IsJunction(outer)
    ensures children == Distributed(node, outer)
  {
    var picks := Product(Groups(node.children, DualJunction(outer)));
    children := [];
    var k := 0;
    while k < |picks|
      invariant 0 <= k <= |picks| && |children| == k
      invariant forall j :: 0 <= j < k ==> children[j] == Simplify(Node(outer, picks[j])).result
    {
      var _, s := SimplifyTree(Node(outer, picks[k]));
      children := children + [s];
      k := k + 1;
    }
  }

  /** The grouping of line 127 as written: any child with more than one child offers its children. */
  function AlternativesAsWritten(c: Node): seq<Node>
  {
    if |c.children| > 1 then c.children else [c]
  }

  function GroupsAsWritten(cs: seq<Node>): (gs: seq<seq<Node>>)
    ensures |gs| == |cs| && forall i :: 0 <= i < |cs| ==> gs[i] == AlternativesAsWritten(cs[i])
  {
    seq(|cs|, i requires 0 <= i < |cs| => AlternativesAsWritten(cs[i]))
  }

  /**
   * `convert` as written, with a bound on the depth of its recursion: with
   * the grouping of line 127 a node need not shrink, so `None` stands for a
   * run that the bound cuts short.
   */
  function ConvertAsWritten(n: Node, outer: string, fuel: nat): Option<Node>
    requires IsJunction(outer)
    decreases fuel, 0
  {
    if fuel == 0 then None
    else if Distributes(n, outer) then
      var ds := Distribute(outer, Product(GroupsAsWritten(n.children)));
      match ConvertAllAsWritten(ds, outer, fuel - 1)
      case None => None
      case Some(kids) => Some(Node(DualJunction(outer), kids))
    else
      match ConvertAllAsWritten(n.children, outer, fuel - 1)
      case None => None
      case Some(kids) => Some(Node(n.name, kids))
  }

  function ConvertAllAsWritten(cs: seq<Node>, outer: string, fuel: nat): Option<seq<Node>>
    requires IsJunction(outer)
    decreases fuel, |cs|
  {
    if cs == [] then Some([])
    else match ConvertAsWritten(cs[0], outer, fuel)
      case None => None
      case Some(c) =>
        match ConvertAllAsWritten(cs[1..], outer, fuel)
        case None => None
        case Some(rest) => Some([c] + rest)
  }

  /**
   * Lines 95-111: negation normal form, then `simplify_tree` on a copy, whose
   * result goes through `check_simplified_integrity`.
   */
  function NnfStage(n: Node): Node
  {
    CheckIntegrity(Simplify(ToNnf(n)).result)
  }

  /** ASCII lower case, for the conversion type of line 96. */
  function Lower(s: string): (r: string)
    ensures |r| == |s|
    ensures forall i :: 0 <= i < |s| ==> r[i] == if IsUpper(s[i]) then (s[i] as int + 32) as char else s[i]
  {
    seq(|s|, i requires 0 <= i < |s| => if IsUpper(s[i]) then (s[i] as int + 32) as char else s[i])
  }

  /**
   * `transform_to_normal_form`, corrected: "nnf", "dnf" or "cnf" in any
   * case; any other conversion type gives `None` (line 162). Distribution
   * runs on the result of the negation normal form stage, and
   * `simplify_tree` on what it returns (line 150). Distribution here is the
   * corrected `Convert`, whose grouping replaces the one of line 127;
   * `TransformAsWritten` is the same pipeline with that line as written.
   */
  function TransformToNormalForm(n: Node, conversionType: string): Option<Node>
  {
    var kind := Lower(conversionType);
    if kind == "nnf" then Some(NnfStage(n))
    else if kind == "dnf" then Some(Simplify(Convert(NnfStage(n), AND)).result)
    else if kind == "cnf" then Some(Simplify(Convert(NnfStage(n), OR)).result)
    else None
  }

  /** `transform_to_normal_form` as written, `None` also when the bound cuts `convert` short. */
  function TransformAsWritten(n: Node, conversionType: string, fuel: nat): Option<Node>
  {
    var kind := Lower(conversionType);
    if kind == "nnf" then Some(NnfStage(n))
    else if kind == "dnf" || kind == "cnf" then
      match ConvertAsWritten(NnfStage(n), if kind == "dnf" then AND else OR, fuel)
      case None => None
      case Some(c) => Some(Simplify(c).result)
    else None
  }

  /**
   * The negation normal form stage keeps the meaning of a well-shaped tree
   * and yields a well-shaped tree in negation normal form.
   */
  lemma NnfStageSound(n: Node, v: Valuation)
    requires WellShaped(n)
    ensures WellShaped(NnfStage(n)) && IsNnf(NnfStage(n)) && Holds(NnfStage(n), v) == Holds(n, v)
  {
    NnfSound(n, v);
    SimplifySound(ToNnf(n), v);
    CheckIntegritySound(Simplify(ToNnf(n)).result, v);
  }

  /**
   * `transform_to_normal_form` answers exactly for the three conversion
   * types, in any case, and what it answers is a well-shaped tree in
   * negation normal form that means what the given tree means.
   */
  lemma TransformSound(n: Node, conversionType: string, v: Valuation)
    requires WellShaped(n)
    ensures TransformToNormalForm(n, conversionType).Some? <==> Lower(conversionType) in {"nnf", "dnf", "cnf"}
    ensures match TransformToNormalForm(n, conversionType)
      case None => true
      case Some(r) => WellShaped(r) && IsNnf(r) && Holds(r, v) == Holds(n, v)
  {
    NnfStageSound(n, v);
    var m := NnfStage(n);
    ConvertSound(m, AND, v);
    ConvertSound(m, OR, v);
    SimplifySound(Convert(m, AND), v);
    SimplifySound(Convert(m, OR), v);
  }
}
