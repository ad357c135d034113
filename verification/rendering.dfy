/**
 * What the text of a tree determines. Deduplication in the toolchain
 * compares children by their rendering (utility.py `deduplicate_children`),
 * so it is only meaning-preserving if two well-shaped trees that render
 * alike are true under the same valuations. They are: rendering is
 * injective up to exchanging ∧ and ∨ on a junction with a single child, and
 * such a junction means what its child means.
 */
module Rendering {
  import opened Syntax
  import opened Semantics

  /** What may follow a subformula inside a rendering: nothing, a blank or a closing parenthesis. */
  predicate Delimited(s: string) {
    s == [] || s[0] == ' ' || s[0] == ')'
  }

  predicate IsDelimiter(c: char) { c == ' ' || c == ')' || c == '(' }

  lemma PropNameHasNoDelimiter(p: string)
    requires IsPropName(p)
    ensures |p| > 0 && p[0] != '¬'
    ensures forall i :: 0 <= i < |p| ==> !IsDelimiter(p[i])
  {
  }

  lemma ConnectiveIsOneChar(s: string)
    requires IsConnective(s)
    ensures |s| == 1 && !IsDelimiter(s[0])
  {
  }

  /** A rendering never starts with ¬, a blank or a closing parenthesis. */
  lemma {:induction false} FirstChar(n: Node)
    requires WellShaped(n)
    ensures |Expression(n)| > 0
    ensures Expression(n)[0] == '(' || (IsPropName(n.name) && Expression(n) == n.name)
    ensures Expression(n)[0] != '¬' && !(Expression(n)[0] in {' ', ')'})
  {
    if IsPropName(n.name) {
      PropNameHasNoDelimiter(n.name);
    }
  }

  lemma CharAfterPrefix(p: string, s: string, q: string, t: string)
    requires p + s == q + t && |p| < |q|
    ensures |s| > 0 && s[0] == q[|p|]
  {
    assert (p + s)[|p|] == (q + t)[|p|];
  }

  /** Two proposition names followed by delimited texts can only be equal. */
  lemma NamePrefix(p: string, q: string, s: string, t: string)
    requires IsPropName(p) && IsPropName(q)
    requires p + s == q + t
    requires Delimited(s) && Delimited(t)
    ensures p == q && s == t
  {
    PropNameHasNoDelimiter(p);
    PropNameHasNoDelimiter(q);
    if |p| < |q| {
      CharAfterPrefix(p, s, q, t);
      assert false;
    } else if |q| < |p| {
      CharAfterPrefix(q, t, p, s);
      assert false;
    } else {
      assert p == (p + s)[..|p|] == (q + t)[..|q|] == q;
      assert s == (p + s)[|p|..] == (q + t)[|q|..] == t;
    }
  }

  /**
   * The heart of the matter: if the renderings of two well-shaped trees,
   * each followed by a delimited text, coincide, then the followers coincide
   * and the two trees are true under the same valuations.
   */
  lemma {:induction false} RenderPrefix(a: Node, b: Node, s: string, t: string, v: Valuation)
    requires WellShaped(a) && WellShaped(b)
    requires Expression(a) + s == Expression(b) + t
    requires Delimited(s) && Delimited(t)
    ensures s == t
    ensures Holds(a, v) == Holds(b, v)
    decreases a, 2
  {
    FirstChar(a);
    FirstChar(b);
    var ea, eb := Expression(a), Expression(b);
    assert (ea + s)[0] == ea[0] && (eb + t)[0] == eb[0];
    if IsPropName(a.name) || IsPropName(b.name) {
      if !IsPropName(a.name) {
        PropNameHasNoDelimiter(b.name);
        assert false;
      } else if !IsPropName(b.name) {
        PropNameHasNoDelimiter(a.name);
        assert false;
      } else {
        NamePrefix(a.name, b.name, s, t);
      }
    } else if a.name == NOT || b.name == NOT {
      NegationPrefix(a, b, s, t, v);
    } else {
      JunctionPrefix(a, b, s, t, v);
    }
  }

  /** The second character of a compound rendering is ¬ exactly for negations. */
  lemma SecondChar(n: Node)
    requires WellShaped(n) && !IsPropName(n.name)
    ensures |Expression(n)| > 1
    ensures Expression(n)[1] == '¬' <==> n.name == NOT
  {
    if n.name != NOT {
      FirstChar(n.children[0]);
      JoinStartsWithChild(n.children, " " + n.name + " ");
      assert Expression(n) == "(" + JoinExpressions(n.children, " " + n.name + " ") + ")";
    }
  }

  lemma {:induction false} NegationPrefix(a: Node, b: Node, s: string, t: string, v: Valuation)
    requires WellShaped(a) && WellShaped(b) && !IsPropName(a.name) && !IsPropName(b.name)
    requires a.name == NOT || b.name == NOT
    requires Expression(a) + s == Expression(b) + t
    requires Delimited(s) && Delimited(t)
    ensures s == t
    ensures Holds(a, v) == Holds(b, v)
    decreases a, 1
  {
    var ea, eb := Expression(a), Expression(b);
    SecondChar(a);
    SecondChar(b);
    assert (ea + s)[1] == ea[1] && (eb + t)[1] == eb[1];
    var c, d := a.children[0], b.children[0];
    assert ea == "(¬" + Expression(c) + ")" && eb == "(¬" + Expression(d) + ")";
    PeelNegation(Expression(c), Expression(d), s, t);
    RenderPrefix(c, d, ")" + s, ")" + t, v);
    CloseTail(s, t);
  }

  lemma PeelNegation(ec: string, ed: string, s: string, t: string)
    requires "(¬" + ec + ")" + s == "(¬" + ed + ")" + t
    ensures ec + (")" + s) == ed + (")" + t)
  {
    assert ec + (")" + s) == ("(¬" + ec + ")" + s)[2..];
    assert ed + (")" + t) == ("(¬" + ed + ")" + t)[2..];
  }

  lemma CloseTail(s: string, t: string)
    requires ")" + s == ")" + t
    ensures s == t
  {
    assert s == (")" + s)[1..] && t == (")" + t)[1..];
  }

  lemma MiddleOfSeparator(x: string, y: string)
    requires |x| == 1 && |y| == 1 && " " + x + " " == " " + y + " "
    ensures x == y
  {
    assert x == (" " + x + " ")[1..2] && y == (" " + y + " ")[1..2];
  }

  lemma {:induction false} JunctionPrefix(a: Node, b: Node, s: string, t: string, v: Valuation)
    requires WellShaped(a) && WellShaped(b) && !IsPropName(a.name) && !IsPropName(b.name)
    requires a.name != NOT && b.name != NOT
    requires Expression(a) + s == Expression(b) + t
    requires Delimited(s) && Delimited(t)
    ensures s == t
    ensures Holds(a, v) == Holds(b, v)
    decreases a, 1
  {
    var sa, sb := " " + a.name + " ", " " + b.name + " ";
    ConnectiveIsOneChar(a.name);
    ConnectiveIsOneChar(b.name);
    var ja, jb := JoinExpressions(a.children, sa), JoinExpressions(b.children, sb);
    PeelParentheses(ja, jb, s, t);
    JoinPrefix(a.children, b.children, sa, sb, ")" + s, ")" + t, v);
    CloseTail(s, t);
    if |a.children| >= 2 {
      MiddleOfSeparator(a.name, b.name);
    }
  }

  lemma PeelParentheses(ja: string, jb: string, s: string, t: string)
    requires "(" + ja + ")" + s == "(" + jb + ")" + t
    ensures ja + (")" + s) == jb + (")" + t)
  {
    assert ja + (")" + s) == ("(" + ja + ")" + s)[1..];
    assert jb + (")" + t) == ("(" + jb + ")" + t)[1..];
  }

  lemma {:induction false} JoinStartsWithChild(cs: seq<Node>, sep: string)
    requires |cs| >= 1
    ensures JoinExpressions(cs, sep) == Expression(cs[0]) + (if |cs| == 1 then "" else sep + JoinExpressions(cs[1..], sep))
  {
  }

  /** A joined list followed by `s` is the first child's text followed by the rest. */
  lemma JoinHead(cs: seq<Node>, sep: string, s: string)
    requires |cs| >= 1
    ensures JoinExpressions(cs, sep) + s ==
      Expression(cs[0]) + (if |cs| == 1 then s else sep + (JoinExpressions(cs[1..], sep) + s))
  {
    JoinStartsWithChild(cs, sep);
  }

  lemma SplitAfterSeparator(sa: string, sb: string, xa: string, xb: string)
    requires |sa| == |sb| && sa + xa == sb + xb
    ensures sa == sb && xa == xb
  {
    assert sa == (sa + xa)[..|sa|] && sb == (sb + xb)[..|sb|];
    assert xa == (sa + xa)[|sa|..] && xb == (sb + xb)[|sb|..];
  }

  /** The list half of `RenderPrefix`: joined renderings followed by `)` determine the list up to meaning. */
  lemma {:induction false} JoinPrefix(cs: seq<Node>, ds: seq<Node>, sa: string, sb: string, s: string, t: string, v: Valuation)
    requires AllWellShaped(cs) && AllWellShaped(ds)
    requires |cs| >= 1 && |ds| >= 1
    requires |sa| == 3 && |sb| == 3 && sa[0] == ' ' && sb[0] == ' '
    requires JoinExpressions(cs, sa) + s == JoinExpressions(ds, sb) + t
    requires |s| > 0 && |t| > 0 && s[0] == ')' && t[0] == ')'
    ensures s == t && |cs| == |ds|
    ensures forall i :: 0 <= i < |cs| ==> Holds(cs[i], v) == Holds(ds[i], v)
    ensures |cs| >= 2 ==> sa == sb
    decreases cs, 3
  {
    JoinHead(cs, sa, s);
    JoinHead(ds, sb, t);
    var ra := if |cs| == 1 then s else sa + (JoinExpressions(cs[1..], sa) + s);
    var rb := if |ds| == 1 then t else sb + (JoinExpressions(ds[1..], sb) + t);
    RenderPrefix(cs[0], ds[0], ra, rb, v);
    if |cs| == 1 && |ds| == 1 {
    } else if |cs| == 1 {
      assert false;
    } else if |ds| == 1 {
      assert false;
    } else {
      SplitAfterSeparator(sa, sb, JoinExpressions(cs[1..], sa) + s, JoinExpressions(ds[1..], sb) + t);
      JoinPrefix(cs[1..], ds[1..], sa, sb, s, t, v);
      forall i | 1 <= i < |cs| ensures Holds(cs[i], v) == Holds(ds[i], v) {
        assert cs[1..][i - 1] == cs[i] && ds[1..][i - 1] == ds[i];
      }
    }
  }

  /** Two well-shaped trees with the same text are true under the same valuations. */
  lemma SameTextSameTruth(a: Node, b: Node, v: Valuation)
    requires WellShaped(a) && WellShaped(b)
    requires Expression(a) == Expression(b)
    ensures Holds(a, v) == Holds(b, v)
  {
    assert Expression(a) + "" == Expression(b) + "";
    RenderPrefix(a, b, "", "", v);
  }
}
