/**
 * Clausal form (resolution.py): a clause is a set of literal strings, a
 * literal is a name or `¬` followed by a name, and a clause list is read
 * as the conjunction of its clauses. The empty string is the literal that
 * `create_clause_list` produces for `{}`; it is read as false, so `{''}`
 * is the empty clause, as `clausal_to_strong` renders it.
 */
module Clauses {
  import opened Syntax
  import opened Semantics

  type Clause = set<string>

  /** The truth of a literal: a leading `¬` negates the rest, a name is looked up. */
  predicate LitHolds(l: string, v: Valuation)
    decreases |l|
  {
    if l == "" then false
    else if l[0] == '¬' then !LitHolds(l[1..], v)
    else l in v && v[l]
  }

  predicate ClauseHolds(c: Clause, v: Valuation) {
    exists l :: l in c && LitHolds(l, v)
  }

  predicate AllHold(cs: seq<Clause>, v: Valuation) {
    forall i :: 0 <= i < |cs| ==> ClauseHolds(cs[i], v)
  }

  ghost predicate Satisfiable(cs: seq<Clause>) {
    exists v: Valuation :: AllHold(cs, v)
  }

  /**
   * resolution.py:72-74 `negate_literal`: strips a leading `¬` or adds one;
   * the empty literal has no negation (the source returns None).
   */
  function Negate(l: string): (r: Option<string>)
    ensures r.None? <==> l == ""
    ensures r.Some? ==> |r.value| + 1 == |l| || |r.value| == |l| + 1
  {
    if l == "" then None
    else if l[0] == '¬' then Some(l[1..])
    else Some("¬" + l)
  }

  /** The negation of a literal always has the opposite truth value. */
  lemma NegateFlips(l: string, v: Valuation)
    requires l != ""
    ensures Negate(l).Some? && LitHolds(Negate(l).value, v) == !LitHolds(l, v)
  {
    if l[0] != '¬' {
      assert ("¬" + l)[1..] == l;
    }
  }

  /**
   * A plain literal is a name or a negated name: not empty, not a lone `¬`
   * and not doubly negated.
   */
  predicate Plain(l: string) {
    l != "" && l != "¬" && !(|l| >= 2 && l[0] == '¬' && l[1] == '¬')
  }

  /** Negating twice gives the literal back exactly when the literal is plain. */
  lemma NegateInvolution(l: string)
    ensures (Negate(l).Some? && Negate(Negate(l).value) == Some(l)) <==> Plain(l)
  {
    if l != "" && l[0] != '¬' {
      assert ("¬" + l)[1..] == l;
    }
    if Plain(l) && l[0] == '¬' {
      assert "¬" + l[1..] == l;
    }
  }

  /** The negation of a plain literal is plain. */
  lemma NegatePlain(l: string)
    requires Plain(l)
    ensures Negate(l).Some? && Plain(Negate(l).value)
  {
    if l[0] != '¬' {
      assert ("¬" + l)[1..] == l;
    }
  }

  /** Two plain literals with the same negation are the same literal. */
  lemma NegateInjective(a: string, b: string)
    requires Plain(a) && Plain(b) && Negate(a) == Negate(b)
    ensures a == b
  {
    NegateInvolution(a);
    NegateInvolution(b);
  }

  // ---------------------------------------------------------------------
  // create_clause_list

  /** `str.replace(" ", "")`. */
  function RemoveSpaces(s: string): (r: string)
    ensures forall i :: 0 <= i < |r| ==> r[i] != ' '
    ensures |r| <= |s|
    ensures (forall i :: 0 <= i < |s| ==> s[i] != ' ') ==> r == s
  {
    if s == [] then []
    else if s[0] == ' ' then RemoveSpaces(s[1..])
    else [s[0]] + RemoveSpaces(s[1..])
  }

  predicate IsBrace(c: char) { c == '{' || c == '}' }

  /** The first brace at or after `k`, or the end of `s`. */
  function NextBrace(s: string, k: nat): (r: nat)
    requires k <= |s|
    ensures k <= r <= |s|
    ensures forall m :: k <= m < r ==> !IsBrace(s[m])
    ensures r < |s| ==> IsBrace(s[r])
    decreases |s| - k
  {
    if k == |s| || IsBrace(s[k]) then k else NextBrace(s, k + 1)
  }

  /**
   * The contents of the matches of the pattern `{[^{}]*}`, left to right
   * and without overlap: an opening brace that reaches another opening
   * brace before a closing one starts no match, and the scan moves on by
   * one character.
   */
  function Groups(s: string): (r: seq<string>)
    ensures forall k :: 0 <= k < |r| ==> forall m :: 0 <= m < |r[k]| ==> !IsBrace(r[k][m])
    decreases |s|
  {
    if s == [] then []
    else if s[0] == '{' then
      var j := NextBrace(s, 1);
      if j < |s| && s[j] == '}' then [s[1..j]] + Groups(s[j + 1..])
      else Groups(s[1..])
    else Groups(s[1..])
  }

  /** `str.split(",")`: the pieces between commas; the empty string gives one empty piece. */
  function Split(s: string): (r: seq<string>)
    ensures |r| >= 1
    ensures forall k :: 0 <= k < |r| ==> ',' !in r[k]
    decreases |s|
  {
    if ',' !in s then [s]
    else
      var k := FirstComma(s);
      [s[..k]] + Split(s[k + 1..])
  }

  function FirstComma(s: string): (k: nat)
    requires ',' in s
    ensures k < |s| && s[k] == ',' && ',' !in s[..k]
  {
    if s[0] == ',' then 0
    else
      assert ',' in s[1..];
      var k := 1 + FirstComma(s[1..]);
      assert s[..k] == [s[0]] + s[1..][..k - 1];
      k
  }

  /** The pieces `ps` joined with `sep` between them. */
  function Join(ps: seq<string>, sep: string): string
    decreases ps
  {
    if ps == [] then ""
    else if |ps| == 1 then ps[0]
    else ps[0] + sep + Join(ps[1..], sep)
  }

  /** The set of the elements of a sequence. */
  function Members(ps: seq<string>): (r: set<string>)
    ensures forall x :: x in r <==> x in ps
  {
    set x | x in ps
  }

  /**
   * resolution.py:77-78 `create_clause_list`: spaces are dropped, every
   * innermost `{...}` group becomes the set of its comma-separated pieces.
   */
  function CreateClauseList(s: string): (r: seq<Clause>)
    ensures var gs := Groups(RemoveSpaces(s));
      |r| == |gs| && forall k :: 0 <= k < |r| ==> r[k] == Members(Split(gs[k]))
  {
    var gs := Groups(RemoveSpaces(s));
    seq(|gs|, k requires 0 <= k < |gs| => Members(Split(gs[k])))
  }

  /** Splitting a comma-joined list of comma-free pieces gives the pieces back. */
  lemma {:induction false} SplitJoin(ps: seq<string>)
    requires |ps| >= 1
    requires forall k :: 0 <= k < |ps| ==> ',' !in ps[k]
    ensures Split(Join(ps, ",")) == ps
    decreases |ps|
  {
    if |ps| > 1 {
      var p, q := ps[0], Join(ps[1..], ",");
      assert Join(ps, ",") == p + "," + q;
      SplitAtFirst(p, q);
      assert forall k :: 0 <= k < |ps[1..]| ==> ',' !in ps[1..][k] by {
        forall k | 0 <= k < |ps[1..]|
          ensures ',' !in ps[1..][k]
        {
          assert ps[1..][k] == ps[k + 1];
        }
      }
      SplitJoin(ps[1..]);
      assert ps == [p] + ps[1..];
    } else {
      assert ',' !in ps[0];
    }
  }

  /** Splitting `p,q` splits off `p` when `p` has no comma. */
  lemma SplitAtFirst(p: string, q: string)
    requires ',' !in p
    ensures Split(p + "," + q) == [p] + Split(q)
  {
    FirstCommaAfter(p, q);
  }

  /** The first comma of `p,q` is the one after `p` when `p` has none. */
  lemma FirstCommaAfter(p: string, q: string)
    requires ',' !in p
    ensures ',' in p + "," + q
    ensures var s := p + "," + q; FirstComma(s) == |p| && s[..|p|] == p && s[|p| + 1..] == q
  {
    var s := p + "," + q;
    assert s[|p|] == ',';
    assert s[..|p|] == p;
    assert s[|p| + 1..] == q;
  }

  /** The rendering `{a,b}{c}...` of a clause list given as sequences of literals. */
  function Braced(cls: seq<seq<string>>): string
    decreases cls
  {
    if cls == [] then "" else "{" + Join(cls[0], ",") + "}" + Braced(cls[1..])
  }

  /** A literal that can be written inside braces: no brace, comma or space. */
  predicate Writable(l: string) {
    forall m :: 0 <= m < |l| ==> !IsBrace(l[m]) && l[m] != ',' && l[m] != ' '
  }

  lemma {:induction false} JoinWritable(ps: seq<string>)
    requires forall k :: 0 <= k < |ps| ==> Writable(ps[k])
    ensures forall m :: 0 <= m < |Join(ps, ",")| ==> !IsBrace(Join(ps, ",")[m]) && Join(ps, ",")[m] != ' '
    decreases ps
  {
    if |ps| > 1 {
      JoinWritable(ps[1..]);
      var s := Join(ps, ",");
      assert s == ps[0] + "," + Join(ps[1..], ",");
      forall m | 0 <= m < |s|
        ensures !IsBrace(s[m]) && s[m] != ' '
      {
        if m < |ps[0]| {
          assert s[m] == ps[0][m];
        } else if m > |ps[0]| {
          assert s[m] == Join(ps[1..], ",")[m - |ps[0]| - 1];
        }
      }
    } else if |ps| == 1 {
      assert Join(ps, ",") == ps[0];
    }
  }

  /** The groups of a braced rendering are the comma-joined clauses, in order. */
  lemma {:induction false} GroupsOfBraced(cls: seq<seq<string>>)
    requires forall k :: 0 <= k < |cls| ==> forall m :: 0 <= m < |cls[k]| ==> Writable(cls[k][m])
    ensures Groups(Braced(cls)) == seq(|cls|, k requires 0 <= k < |cls| => Join(cls[k], ","))
    decreases cls
  {
    if cls != [] {
      JoinWritable(cls[0]);
      GroupsHead(Join(cls[0], ","), Braced(cls[1..]));
      GroupsOfBraced(cls[1..]);
    }
  }

  /** A leading group `{body}` is found first, and the scan resumes after it. */
  lemma GroupsHead(body: string, rest: string)
    requires forall m :: 0 <= m < |body| ==> !IsBrace(body[m])
    ensures Groups("{" + body + "}" + rest) == [body] + Groups(rest)
  {
    var s := "{" + body + "}" + rest;
    var j := |body| + 1;
    assert s[0] == '{' && s[j] == '}';
    assert s[1..j] == body;
    assert s[j + 1..] == rest;
    NextBraceAt(s, 1, j);
  }

  /** The scan for a brace stops at the first one. */
  lemma {:induction false} NextBraceAt(s: string, k: nat, j: nat)
    requires k <= j < |s| && IsBrace(s[j])
    requires forall m :: k <= m < j ==> !IsBrace(s[m])
    ensures NextBrace(s, k) == j
    decreases j - k
  {
    if k < j {
      NextBraceAt(s, k + 1, j);
    }
  }

  /**
   * Reading back a rendered clause list gives each clause's set of
   * literals, and an empty clause `{}` comes back as `{''}`.
   */
  lemma ClauseListRoundTrip(cls: seq<seq<string>>)
    requires forall k :: 0 <= k < |cls| ==> forall m :: 0 <= m < |cls[k]| ==> Writable(cls[k][m])
    ensures var r := CreateClauseList(Braced(cls));
      |r| == |cls| &&
      forall k :: 0 <= k < |cls| ==> r[k] == if cls[k] == [] then {""} else Members(cls[k])
  {
    GroupsOfBraced(cls);
    NoSpaces(cls);
    forall k | 0 <= k < |cls| && cls[k] != []
      ensures Split(Join(cls[k], ",")) == cls[k]
    {
      forall m | 0 <= m < |cls[k]|
        ensures ',' !in cls[k][m]
      {
        assert Writable(cls[k][m]);
      }
      SplitJoin(cls[k]);
    }
  }

  lemma {:induction false} NoSpaces(cls: seq<seq<string>>)
    requires forall k :: 0 <= k < |cls| ==> forall m :: 0 <= m < |cls[k]| ==> Writable(cls[k][m])
    ensures forall i :: 0 <= i < |Braced(cls)| ==> Braced(cls)[i] != ' '
    decreases cls
  {
    if cls != [] {
      NoSpaces(cls[1..]);
      JoinWritable(cls[0]);
      var body := Join(cls[0], ",");
      var s := Braced(cls);
      assert s == "{" + body + "}" + Braced(cls[1..]);
      forall i | 0 <= i < |s|
        ensures s[i] != ' '
      {
        if 1 <= i <= |body| {
          assert s[i] == body[i - 1];
        } else if i > |body| + 1 {
          assert s[i] == Braced(cls[1..])[i - |body| - 2];
        }
      }
    }
  }

  // ---------------------------------------------------------------------
  // clausal_to_strong

  /** What `clausal_to_strong` returns: a tree, or the text when `tree` is false. */
  datatype Strong = Tree(node: Node) | Text(text: string)

  /** A literal as a tree: `¬X` becomes ¬ over the leaf `X`, anything else a leaf. */
  function LiteralNode(l: string): (r: Result<Node>)
    ensures r.Err? <==> l == ""
  {
    if l == "" then Err("string index out of range")
    else if l[0] == '¬' then Ok(Node(NOT, [Node(l[1..], [])]))
    else Ok(Node(l, []))
  }

  /** The trees of several literals, stopping at the first one that fails. */
  function LiteralNodes(ls: seq<string>): (r: Result<seq<Node>>)
    ensures r.Ok? <==> "" !in ls
    ensures r.Ok? ==> |r.value| == |ls| && forall k :: 0 <= k < |ls| ==> Ok(r.value[k]) == LiteralNode(ls[k])
    decreases ls
  {
    if ls == [] then Ok([])
    else match LiteralNode(ls[0])
      case Err(m) => Err(m)
      case Ok(n) =>
        match LiteralNodes(ls[1..])
        case Err(m) => Err(m)
        case Ok(ns) => Ok([n] + ns)
  }

  /** One clause, `{''}` already replaced: a lone literal stands alone, others go under ∨. */
  function ClauseNode(cl: seq<string>): Result<Node>
  {
    if |cl| == 1 then LiteralNode(cl[0])
    else match LiteralNodes(cl)
      case Err(m) => Err(m)
      case Ok(ns) => Ok(Node(OR, ns))
  }

  function ClauseNodes(cls: seq<seq<string>>): (r: Result<seq<Node>>)
    ensures r.Ok? ==> |r.value| == |cls| && forall k :: 0 <= k < |cls| ==> Ok(r.value[k]) == ClauseNode(cls[k])
    decreases cls
  {
    if cls == [] then Ok([])
    else match ClauseNode(cls[0])
      case Err(m) => Err(m)
      case Ok(n) =>
        match ClauseNodes(cls[1..])
        case Err(m) => Err(m)
        case Ok(ns) => Ok([n] + ns)
  }

  /** One clause as text: parenthesised when it has more than one literal. */
  function ClauseText(cl: seq<string>): string {
    if |cl| > 1 then "(" + Join(cl, " ∨ ") + ")" else Join(cl, " ∨ ")
  }

  /** `{''}` stands for the empty clause and is written ⊥. */
  function MarkEmpty(cls: seq<seq<string>>): (r: seq<seq<string>>)
    ensures |r| == |cls|
    ensures forall k :: 0 <= k < |cls| ==> r[k] == if cls[k] == [""] then [BOT] else cls[k]
  {
    seq(|cls|, k requires 0 <= k < |cls| => if cls[k] == [""] then [BOT] else cls[k])
  }

  /** No literal occurs twice in a clause: each one enumerates a set. */
  predicate Distinct(cl: seq<string>) {
    forall a, b :: 0 <= a < b < |cl| ==> cl[a] != cl[b]
  }

  /**
   * resolution.py:35-56 `clausal_to_strong` on a clause list. Each clause
   * is given in the order in which iterating over its set visits it. The
   * empty list is ⊤; otherwise the tree is ∧ over one subtree per clause,
   * or the text joins the clause texts with ∧.
   */
  function ClausalToStrong(cls: seq<seq<string>>, tree: bool): (r: Result<Strong>)
    requires forall k :: 0 <= k < |cls| ==> Distinct(cls[k])
    ensures cls == [] ==> r == Ok(if tree then Tree(Node(TOP, [])) else Text(TOP))
    ensures r.Ok? && tree ==> r.value.Tree?
    ensures !tree ==> r.Ok? && r.value.Text?
  {
    if cls == [] then Ok(if tree then Tree(Node(TOP, [])) else Text(TOP))
    else
      var marked := MarkEmpty(cls);
      if tree then
        match ClauseNodes(marked)
        case Err(m) => Err(m)
        case Ok(ns) => Ok(Tree(Node(AND, ns)))
      else Ok(Text(Join(seq(|marked|, k requires 0 <= k < |marked| => ClauseText(marked[k])), " ∧ ")))
  }

  /** The sets of the clauses. */
  function ClauseSets(cls: seq<seq<string>>): (r: seq<Clause>)
    ensures |r| == |cls| && forall k :: 0 <= k < |cls| ==> r[k] == Members(cls[k])
  {
    seq(|cls|, k requires 0 <= k < |cls| => Members(cls[k]))
  }

  /** A literal the tree form can express: a variable or a negated variable. */
  predicate VariableLiteral(l: string) {
    IsVariableName(l) || (|l| >= 2 && l[0] == '¬' && IsVariableName(l[1..]))
  }

  /** A clause the tree form can express: variable literals only, or the `{''}` marker. */
  predicate Expressible(cl: seq<string>) {
    cl == [""] || forall m :: 0 <= m < |cl| ==> VariableLiteral(cl[m])
  }

  lemma LiteralMeaning(l: string, v: Valuation)
    requires VariableLiteral(l)
    ensures LiteralNode(l).Ok? && WellShaped(LiteralNode(l).value)
    ensures Holds(LiteralNode(l).value, v) == LitHolds(l, v)
  {
    LabelsDistinct();
    if l[0] == '¬' {
      var x := l[1..];
      assert !IsUpper('¬');
      assert Holds(Node(x, []), v) == (x in v && v[x]);
      assert x[0] != '¬';
    } else {
      assert !IsUpper('¬') && l[0] != '¬';
    }
  }

  lemma ClauseMeaning(cl: seq<string>, v: Valuation)
    requires Expressible(cl) && cl != [""]
    requires cl != []
    ensures ClauseNode(cl).Ok? && WellShaped(ClauseNode(cl).value)
    ensures Holds(ClauseNode(cl).value, v) == ClauseHolds(Members(cl), v)
  {
    if |cl| == 1 {
      LiteralMeaning(cl[0], v);
    } else {
      DisjunctionMeaning(cl, v);
    }
  }

  /** A clause of several literals becomes the disjunction of their trees. */
  lemma DisjunctionMeaning(cl: seq<string>, v: Valuation)
    requires Expressible(cl) && |cl| > 1
    ensures ClauseNode(cl).Ok? && WellShaped(ClauseNode(cl).value)
    ensures Holds(ClauseNode(cl).value, v) == ClauseHolds(Members(cl), v)
  {
    assert "" !in cl;
    var ns := LiteralNodes(cl).value;
    forall m | 0 <= m < |ns|
      ensures WellShaped(ns[m]) && Holds(ns[m], v) == LitHolds(cl[m], v)
    {
      LiteralMeaning(cl[m], v);
    }
    LabelsDistinct();
    assert ClauseNode(cl) == Ok(Node(OR, ns));
    if Holds(Node(OR, ns), v) {
      var m :| 0 <= m < |ns| && Holds(ns[m], v);
      assert cl[m] in Members(cl);
    }
    if ClauseHolds(Members(cl), v) {
      var l :| l in Members(cl) && LitHolds(l, v);
      var m :| 0 <= m < |cl| && cl[m] == l;
      assert Holds(ns[m], v);
    }
  }

  /**
   * The tree that `clausal_to_strong` builds holds exactly when every
   * clause holds, and it is well shaped, for clause lists of non-empty
   * clauses over variable literals (`{''}` included).
   */
  lemma ClausalToStrongMeaning(cls: seq<seq<string>>, v: Valuation)
    requires forall k :: 0 <= k < |cls| ==> Distinct(cls[k]) && Expressible(cls[k]) && cls[k] != []
    ensures var r := ClausalToStrong(cls, true);
      r.Ok? && WellShaped(r.value.node) && (Holds(r.value.node, v) <==> AllHold(ClauseSets(cls), v))
  {
    LabelsDistinct();
    if cls != [] {
      var marked := MarkEmpty(cls);
      forall k | 0 <= k < |marked|
        ensures ClauseNode(marked[k]).Ok? && WellShaped(ClauseNode(marked[k]).value)
        ensures Holds(ClauseNode(marked[k]).value, v) == ClauseHolds(Members(cls[k]), v)
      {
        if cls[k] == [""] {
          assert marked[k] == [BOT];
          assert !LitHolds("", v);
          assert IsPropName(BOT);
          assert BOT[0] != '¬';
        } else {
          ClauseMeaning(cls[k], v);
        }
      }
      ClauseNodesOk(marked);
      var ns := ClauseNodes(marked).value;
      assert forall k :: 0 <= k < |ns| ==> Holds(ns[k], v) == ClauseHolds(ClauseSets(cls)[k], v);
    }
  }

  lemma {:induction false} ClauseNodesOk(cls: seq<seq<string>>)
    requires forall k :: 0 <= k < |cls| ==> ClauseNode(cls[k]).Ok?
    ensures ClauseNodes(cls).Ok?
    decreases cls
  {
    if cls != [] {
      ClauseNodesOk(cls[1..]);
    }
  }

  /**
   * The tree form fails exactly when a clause of two or more literals
   * holds the empty literal, which has no first character to inspect.
   */
  lemma ClausalToStrongFails(cls: seq<seq<string>>)
    requires forall k :: 0 <= k < |cls| ==> Distinct(cls[k])
    ensures ClausalToStrong(cls, true).Err? <==> exists k :: 0 <= k < |cls| && |cls[k]| >= 2 && "" in cls[k]
  {
    var marked := MarkEmpty(cls);
    if cls != [] {
      forall k | 0 <= k < |cls|
        ensures ClauseNode(marked[k]).Err? <==> |cls[k]| >= 2 && "" in cls[k]
      {
        if |cls[k]| == 1 && cls[k] != [""] {
          assert cls[k][0] != "";
        }
      }
      ClauseNodesErr(marked);
    }
  }

  lemma {:induction false} ClauseNodesErr(cls: seq<seq<string>>)
    ensures ClauseNodes(cls).Err? <==> exists k :: 0 <= k < |cls| && ClauseNode(cls[k]).Err?
    decreases cls
  {
    if cls != [] {
      ClauseNodesErr(cls[1..]);
    }
  }
}
