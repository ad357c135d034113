/**
 * Tree utilities of utility.py: deep copy, deduplication of a child list by
 * rendering, and the associative flattening of ∧ and ∨.
 */
module Trees {
  import opened Syntax
  import opened Semantics
  import opened Rendering

  /** The deep copy of utility.py `duplicate_node`; on values it is the identity. */
  function Duplicate(n: Node): (r: Node)
    ensures r == n
  {
    Node(n.name, seq(|n.children|, i requires 0 <= i < |n.children| => Duplicate(n.children[i])))
  }

  function Renderings(cs: seq<Node>): set<string>
  {
    set i | 0 <= i < |cs| :: Expression(cs[i])
  }

  predicate DistinctRenderings(cs: seq<Node>)
  {
    forall i, j :: 0 <= i < j < |cs| ==> Expression(cs[i]) != Expression(cs[j])
  }

  /** The children kept by `deduplicate_children`, given the renderings already seen. */
  function DedupFrom(cs: seq<Node>, seen: set<string>): seq<Node>
    decreases cs
  {
    if cs == [] then []
    else if Expression(cs[0]) in seen then DedupFrom(cs[1..], seen)
    else [cs[0]] + DedupFrom(cs[1..], seen + {Expression(cs[0])})
  }

  function Dedup(cs: seq<Node>): seq<Node>
  {
    DedupFrom(cs, {})
  }

  /**
   * utility.py `deduplicate_children`: one pass with a `seen` set of
   * renderings, keeping the first child of each rendering.
   */
  method DeduplicateChildren(children: seq<Node>) returns (unique: seq<Node>)
    ensures unique == Dedup(children)
  {
    var seen: set<string> := {};
    unique := [];
    var i := 0;
    while i < |children|
      invariant 0 <= i <= |children|
      invariant unique + DedupFrom(children[i..], seen) == Dedup(children)
    {
      var reprStr := Expression(children[i]);
      assert children[i..][1..] == children[i + 1..];
      if reprStr !in seen {
        seen := seen + {reprStr};
        unique := unique + [children[i]];
      }
      i := i + 1;
    }
  }

  lemma RenderingsFirst(cs: seq<Node>)
    requires cs != []
    ensures Renderings(cs) == {Expression(cs[0])} + Renderings(cs[1..])
  {
    forall r | r in Renderings(cs) ensures r in {Expression(cs[0])} + Renderings(cs[1..]) {
      var i :| 0 <= i < |cs| && Expression(cs[i]) == r;
      if i > 0 { assert cs[1..][i - 1] == cs[i]; }
    }
    forall r | r in Renderings(cs[1..]) ensures r in Renderings(cs) {
      var i :| 0 <= i < |cs[1..]| && Expression(cs[1..][i]) == r;
      assert cs[i + 1] == cs[1..][i];
    }
  }

  lemma DistinctFirst(x: Node, tail: seq<Node>)
    requires DistinctRenderings(tail) && Expression(x) !in Renderings(tail)
    ensures DistinctRenderings([x] + tail)
  {
    var r := [x] + tail;
    forall i, j | 0 <= i < j < |r| ensures Expression(r[i]) != Expression(r[j]) {
      assert r[j] == tail[j - 1];
      if i > 0 { assert r[i] == tail[i - 1]; }
      else { assert Expression(tail[j - 1]) in Renderings(tail); }
    }
  }

  /** Appending a child keeps it exactly when its rendering is new: the first occurrence wins. */
  lemma {:induction false} DedupSnoc(cs: seq<Node>, x: Node, seen: set<string>)
    ensures DedupFrom(cs + [x], seen) ==
      DedupFrom(cs, seen) + (if Expression(x) in seen + Renderings(cs) then [] else [x])
    decreases cs
  {
    if cs == [] {
      assert [x][1..] == [];
    } else {
      assert (cs + [x])[1..] == cs[1..] + [x];
      var e := Expression(cs[0]);
      DedupSnoc(cs[1..], x, if e in seen then seen else seen + {e});
      RenderingsFirst(cs);
    }
  }

  /** Deduplication keeps every rendering, adds none, and leaves pairwise distinct renderings. */
  lemma {:induction false} DedupFromProperties(cs: seq<Node>, seen: set<string>)
    ensures var r := DedupFrom(cs, seen);
      && DistinctRenderings(r)
      && Renderings(r) !! seen
      && Renderings(r) == Renderings(cs) - seen
      && (forall k :: 0 <= k < |r| ==> r[k] in cs)
    decreases cs
  {
    if cs != [] {
      var e := Expression(cs[0]);
      var seen' := if e in seen then seen else seen + {e};
      DedupFromProperties(cs[1..], seen');
      var tail := DedupFrom(cs[1..], seen');
      RenderingsFirst(cs);
      if e !in seen {
        var r := [cs[0]] + tail;
        assert r[0] == cs[0] && r[1..] == tail;
        RenderingsFirst(r);
        DistinctFirst(cs[0], tail);
      }
    }
  }

  /** A list whose renderings are already distinct is left as it is. */
  lemma {:induction false} DedupOfDistinct(cs: seq<Node>, seen: set<string>)
    requires DistinctRenderings(cs) && Renderings(cs) !! seen
    ensures DedupFrom(cs, seen) == cs
    decreases cs
  {
    if cs != [] {
      var e := Expression(cs[0]);
      assert e in Renderings(cs);
      assert Renderings(cs[1..]) !! seen + {e} by {
        forall x | x in Renderings(cs[1..]) ensures x !in seen + {e} {
          var i :| 0 <= i < |cs[1..]| && Expression(cs[1..][i]) == x;
          assert cs[1..][i] == cs[i + 1];
          assert x in Renderings(cs);
        }
      }
      DedupOfDistinct(cs[1..], seen + {e});
    }
  }

  predicate IsSubsequence(a: seq<Node>, b: seq<Node>)
    decreases b
  {
    a == [] || (b != [] && ((a[0] == b[0] && IsSubsequence(a[1..], b[1..])) || IsSubsequence(a, b[1..])))
  }

  /** The kept children appear in the input, in the input's order. */
  lemma {:induction false} DedupIsSubsequence(cs: seq<Node>, seen: set<string>)
    ensures IsSubsequence(DedupFrom(cs, seen), cs)
    decreases cs
  {
    if cs != [] {
      var e := Expression(cs[0]);
      if e in seen {
        DedupIsSubsequence(cs[1..], seen);
      } else {
        DedupIsSubsequence(cs[1..], seen + {e});
        assert DedupFrom(cs, seen)[1..] == DedupFrom(cs[1..], seen + {e});
      }
    }
  }

  /** Keeping only some of the children weakens a disjunction and strengthens a conjunction. */
  lemma JunctionOfSublist(a: seq<Node>, b: seq<Node>, v: Valuation)
    requires forall k :: 0 <= k < |a| ==> a[k] in b
    ensures Holds(Node(AND, b), v) ==> Holds(Node(AND, a), v)
    ensures Holds(Node(OR, a), v) ==> Holds(Node(OR, b), v)
  {
    if Holds(Node(OR, a), v) {
      var k :| 0 <= k < |a| && Holds(a[k], v);
      var i :| 0 <= i < |b| && b[i] == a[k];
    }
  }

  /** If every child of `b` renders like a child of `a`, the junction over `a` is at least as strong. */
  lemma JunctionOfSameTexts(a: seq<Node>, b: seq<Node>, v: Valuation)
    requires AllWellShaped(a) && AllWellShaped(b)
    requires forall i :: 0 <= i < |b| ==> Expression(b[i]) in Renderings(a)
    ensures Holds(Node(AND, a), v) ==> Holds(Node(AND, b), v)
    ensures Holds(Node(OR, b), v) ==> Holds(Node(OR, a), v)
  {
    if Holds(Node(AND, a), v) {
      forall i | 0 <= i < |b| ensures Holds(b[i], v) {
        var k :| 0 <= k < |a| && Expression(a[k]) == Expression(b[i]);
        SameTextSameTruth(a[k], b[i], v);
      }
    }
    if Holds(Node(OR, b), v) {
      var i :| 0 <= i < |b| && Holds(b[i], v);
      var k :| 0 <= k < |a| && Expression(a[k]) == Expression(b[i]);
      SameTextSameTruth(a[k], b[i], v);
      assert Holds(a[k], v);
    }
  }

  /**
   * Under a junction, deduplication does not change the truth value: every
   * dropped child renders like a kept one, and so means the same.
   */
  lemma DedupKeepsTruth(j: string, cs: seq<Node>, v: Valuation)
    requires IsJunction(j) && AllWellShaped(cs)
    ensures Holds(Node(j, Dedup(cs)), v) == Holds(Node(j, cs), v)
  {
    var r := Dedup(cs);
    DedupFromProperties(cs, {});
    forall k | 0 <= k < |r| ensures r[k] in cs && WellShaped(r[k]) {
      var i :| 0 <= i < |cs| && r[k] == cs[i];
    }
    forall i | 0 <= i < |cs| ensures Expression(cs[i]) in Renderings(r) {
      assert Expression(cs[i]) in Renderings(cs);
    }
    JunctionOfSublist(r, cs, v);
    JunctionOfSameTexts(r, cs, v);
  }

  /** Deduplication keeps a list well shaped and non-empty. */
  lemma DedupKeepsShape(cs: seq<Node>)
    requires AllWellShaped(cs)
    ensures AllWellShaped(Dedup(cs))
    ensures |cs| > 0 ==> |Dedup(cs)| > 0
  {
    var r := Dedup(cs);
    DedupFromProperties(cs, {});
    forall k | 0 <= k < |r| ensures WellShaped(r[k]) {
      var i :| 0 <= i < |cs| && r[k] == cs[i];
    }
    if |cs| > 0 {
      assert Expression(cs[0]) in Renderings(cs);
    }
  }

  /** The child list of a junction with every same-label child replaced by that child's own children. */
  function Splice(j: string, cs: seq<Node>): seq<Node>
    decreases cs
  {
    if cs == [] then []
    else (if cs[0].name == j then cs[0].children else [cs[0]]) + Splice(j, cs[1..])
  }

  lemma JunctionAppend(j: string, a: seq<Node>, b: seq<Node>, v: Valuation)
    requires IsJunction(j)
    ensures Holds(Node(j, a + b), v) ==
      if j == AND then Holds(Node(j, a), v) && Holds(Node(j, b), v)
      else Holds(Node(j, a), v) || Holds(Node(j, b), v)
  {
    var ab := a + b;
    assert forall i :: 0 <= i < |a| ==> ab[i] == a[i];
    assert forall i :: 0 <= i < |b| ==> ab[|a| + i] == b[i];
    if j == OR && Holds(Node(j, ab), v) {
      var i :| 0 <= i < |ab| && Holds(ab[i], v);
      if i >= |a| { assert ab[i] == b[i - |a|]; }
    }
  }

  /** What one child contributes to the spliced list. */
  function SpliceHead(j: string, c: Node): seq<Node>
  {
    if c.name == j then c.children else [c]
  }

  lemma SpliceFirst(j: string, cs: seq<Node>)
    requires cs != []
    ensures Splice(j, cs) == SpliceHead(j, cs[0]) + Splice(j, cs[1..])
  {
  }

  lemma AllWellShapedAppend(a: seq<Node>, b: seq<Node>)
    requires AllWellShaped(a) && AllWellShaped(b)
    ensures AllWellShaped(a + b)
  {
    assert forall i :: 0 <= i < |b| ==> (a + b)[|a| + i] == b[i];
  }

  /** One child's contribution is well shaped, non-empty, and as true under the junction as the child. */
  lemma SpliceHeadSound(j: string, c: Node, v: Valuation)
    requires IsJunction(j) && WellShaped(c)
    ensures AllWellShaped(SpliceHead(j, c)) && |SpliceHead(j, c)| > 0
    ensures Holds(Node(j, SpliceHead(j, c)), v) == Holds(Node(j, [c]), v)
  {
    if c.name == j {
      assert Node(j, c.children) == c;
    }
    assert [c][0] == c;
    if j == OR && Holds(c, v) {
      assert Holds([c][0], v);
    }
  }

  /** Splicing keeps the shape and the truth value of the junction, and never yields an empty list from a non-empty one. */
  lemma {:induction false} SpliceSound(j: string, cs: seq<Node>, v: Valuation)
    requires IsJunction(j) && AllWellShaped(cs)
    ensures AllWellShaped(Splice(j, cs))
    ensures |cs| > 0 ==> |Splice(j, cs)| > 0
    ensures Holds(Node(j, Splice(j, cs)), v) == Holds(Node(j, cs), v)
    decreases cs
  {
    if cs != [] {
      var head, rest := SpliceHead(j, cs[0]), Splice(j, cs[1..]);
      SpliceSound(j, cs[1..], v);
      SpliceFirst(j, cs);
      SpliceHeadSound(j, cs[0], v);
      AllWellShapedAppend(head, rest);
      JunctionAppend(j, head, rest, v);
      JunctionAppend(j, [cs[0]], cs[1..], v);
      assert [cs[0]] + cs[1..] == cs;
    }
  }

  /** utility.py `flatten_connectives`, as a rebuilt tree: children first, then splice and deduplicate under ∧ and ∨. */
  function Flatten(n: Node): Node
    decreases n, 1
  {
    if IsJunction(n.name) then Node(n.name, Dedup(Splice(n.name, FlattenAll(n.children))))
    else Node(n.name, FlattenAll(n.children))
  }

  /** Each child flattened, in order. */
  function FlattenAll(cs: seq<Node>): (r: seq<Node>)
    ensures |r| == |cs| && forall i {:trigger r[i]} :: 0 <= i < |cs| ==> r[i] == Flatten(cs[i])
    decreases cs, 0
  {
    if cs == [] then [] else [Flatten(cs[0])] + FlattenAll(cs[1..])
  }

  /** The splicing loop of utility.py `flatten_connectives`. */
  method SpliceChildren(name: string, children: seq<Node>) returns (newChildren: seq<Node>)
    ensures newChildren == Splice(name, children)
  {
    newChildren := [];
    var j := 0;
    while j < |children|
      invariant 0 <= j <= |children|
      invariant newChildren + Splice(name, children[j..]) == Splice(name, children)
    {
      assert children[j..][0] == children[j] && children[j..][1..] == children[j + 1..];
      SpliceFirst(name, children[j..]);
      ghost var before, rest := newChildren, Splice(name, children[j + 1..]);
      if children[j].name == name {
        newChildren := newChildren + children[j].children;
        assert before + (children[j].children + rest) == newChildren + rest;
      } else {
        newChildren := newChildren + [children[j]];
        assert before + ([children[j]] + rest) == newChildren + rest;
      }
      j := j + 1;
    }
    assert children[j..] == [];
    assert newChildren + [] == newChildren;
  }

  /**
   * utility.py `flatten_connectives`: flatten every child first, then, under
   * ∧ and ∨, replace each same-label child by its children and deduplicate.
   * The source updates `node.children` in place; here the rebuilt node is
   * returned.
   */
  method FlattenConnectives(node: Node) returns (r: Node)
    ensures r == Flatten(node)
    decreases node, 1
  {
    var kids := FlattenEach(node.children);
    if IsJunction(node.name) {
      var newChildren := SpliceChildren(node.name, kids);
      var unique := DeduplicateChildren(newChildren);
      r := Node(node.name, unique);
    } else {
      r := Node(node.name, kids);
    }
  }

  /** The first loop of utility.py `flatten_connectives`: flatten every child, in order. */
  method FlattenEach(children: seq<Node>) returns (kids: seq<Node>)
    ensures kids == FlattenAll(children)
    decreases children, 0
  {
    kids := [];
    var i := 0;
    while i < |children|
      invariant 0 <= i <= |children|
      invariant kids == FlattenAll(children[..i])
    {
      var child := FlattenConnectives(children[i]);
      FlattenAllSnoc(children, i);
      kids := kids + [child];
      i := i + 1;
    }
    assert children[..i] == children;
  }

  lemma FlattenAllSnoc(cs: seq<Node>, i: nat)
    requires i < |cs|
    ensures FlattenAll(cs[..i + 1]) == FlattenAll(cs[..i]) + [Flatten(cs[i])]
  {
    var a, b := FlattenAll(cs[..i + 1]), FlattenAll(cs[..i]) + [Flatten(cs[i])];
    forall k | 0 <= k < |a| ensures a[k] == b[k] {
      assert cs[..i + 1][k] == if k < i then cs[..i][k] else cs[i];
    }
  }

  /** No ∧ or ∨ node has a child with its own label, and the children of each have distinct renderings. */
  predicate Flat(n: Node)
  {
    && (IsJunction(n.name) ==>
          (forall i :: 0 <= i < |n.children| ==> n.children[i].name != n.name)
          && DistinctRenderings(n.children))
    && forall i :: 0 <= i < |n.children| ==> Flat(n.children[i])
  }

  /** Replacing each child by one of the same shape and truth value keeps the shape and truth value of the node. */
  lemma ChildwiseSame(n: Node, kids: seq<Node>, v: Valuation)
    requires WellShaped(n) && |kids| == |n.children|
    requires forall i :: 0 <= i < |kids| ==> WellShaped(kids[i]) && Holds(kids[i], v) == Holds(n.children[i], v)
    ensures WellShaped(Node(n.name, kids)) && Holds(Node(n.name, kids), v) == Holds(n, v)
  {
    if n.name == OR && Holds(n, v) {
      var i :| 0 <= i < |n.children| && Holds(n.children[i], v);
      assert Holds(kids[i], v);
    }
  }

  /** Under ∧ and ∨, splicing and deduplicating the children keeps the shape and the truth value of the node. */
  lemma JunctionFlattenSound(j: string, kids: seq<Node>, v: Valuation)
    requires IsJunction(j) && WellShaped(Node(j, kids))
    ensures WellShaped(Node(j, Dedup(Splice(j, kids))))
    ensures Holds(Node(j, Dedup(Splice(j, kids))), v) == Holds(Node(j, kids), v)
  {
    SpliceSound(j, kids, v);
    DedupKeepsTruth(j, Splice(j, kids), v);
    DedupKeepsShape(Splice(j, kids));
  }

  /** Flattening keeps the shape and the truth value of a well-shaped tree. */
  lemma {:induction false} FlattenSound(n: Node, v: Valuation)
    requires WellShaped(n)
    ensures WellShaped(Flatten(n))
    ensures Holds(Flatten(n), v) == Holds(n, v)
  {
    var kids := FlattenAll(n.children);
    forall i | 0 <= i < |n.children| ensures WellShaped(kids[i]) && Holds(kids[i], v) == Holds(n.children[i], v) {
      FlattenSound(n.children[i], v);
    }
    ChildwiseSame(n, kids, v);
    if IsJunction(n.name) {
      JunctionFlattenSound(n.name, kids, v);
    }
  }

  /** Splicing flat children yields flat children none of which carries the junction's own label. */
  lemma {:induction false} SpliceOfFlat(j: string, cs: seq<Node>)
    requires IsJunction(j)
    requires forall i :: 0 <= i < |cs| ==> Flat(cs[i])
    ensures forall k :: 0 <= k < |Splice(j, cs)| ==> Flat(Splice(j, cs)[k]) && Splice(j, cs)[k].name != j
    decreases cs
  {
    if cs != [] {
      SpliceOfFlat(j, cs[1..]);
      var head := if cs[0].name == j then cs[0].children else [cs[0]];
      var r := Splice(j, cs);
      assert r == head + Splice(j, cs[1..]);
      forall k | 0 <= k < |r| ensures Flat(r[k]) && r[k].name != j {
        if k >= |head| {
          assert r[k] == Splice(j, cs[1..])[k - |head|];
        }
      }
    }
  }

  lemma {:induction false} SpliceOfOthers(j: string, cs: seq<Node>)
    requires forall i :: 0 <= i < |cs| ==> cs[i].name != j
    ensures Splice(j, cs) == cs
    decreases cs
  {
    if cs != [] {
      SpliceOfOthers(j, cs[1..]);
      assert [cs[0]] + cs[1..] == cs;
    }
  }

  /** The result of flattening is flat. */
  lemma {:induction false} FlattenIsFlat(n: Node)
    ensures Flat(Flatten(n))
  {
    var kids := FlattenAll(n.children);
    forall i | 0 <= i < |kids| ensures Flat(kids[i]) {
      FlattenIsFlat(n.children[i]);
    }
    if IsJunction(n.name) {
      var sp := Splice(n.name, kids);
      SpliceOfFlat(n.name, kids);
      var r := Dedup(sp);
      DedupFromProperties(sp, {});
      forall k | 0 <= k < |r| ensures Flat(r[k]) && r[k].name != n.name {
        var i :| 0 <= i < |sp| && r[k] == sp[i];
      }
    }
  }

  /** A flat tree is left as it is. */
  lemma {:induction false} FlattenOfFlat(n: Node)
    requires Flat(n)
    ensures Flatten(n) == n
  {
    var kids := FlattenAll(n.children);
    forall i | 0 <= i < |kids| ensures kids[i] == n.children[i] {
      FlattenOfFlat(n.children[i]);
    }
    assert kids == n.children;
    if IsJunction(n.name) {
      SpliceOfOthers(n.name, kids);
      DedupOfDistinct(kids, {});
    }
  }

  /** Flattening twice is flattening once. */
  lemma FlattenIdempotent(n: Node)
    ensures Flatten(Flatten(n)) == Flatten(n)
  {
    FlattenIsFlat(n);
    FlattenOfFlat(Flatten(n));
  }
}
