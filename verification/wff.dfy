/**
 * The strict recursive-descent parser of wff.py. It reads fully
 * parenthesised formulas: an atom is an upper-case letter followed by
 * digits, a negation is written `(¬E)` and a binary formula `(E c E)` with
 * c one of ∧ ∨ ⇒ ⇔. There is no backtracking: once a `(` has been consumed,
 * any mismatch is an error. The same file evaluates the resulting binary
 * trees and classifies them by truth table.
 *
 * The parser object is a class whose cursor advances step by step; each of
 * its methods is proved against a function on (text, position) that says
 * what the method returns and where it leaves the cursor.
 */
module Wff {
  import opened Syntax
  import opened Semantics
  import opened TruthTables

  /** The input clean-up of the parser's constructor: blanks are removed and → is read as ⇒. */
  function Normalize(text: string): (r: string)
    ensures forall k :: 0 <= k < |r| ==> r[k] != ' ' && r[k] != '→'
    decreases text
  {
    if text == [] then []
    else (if text[0] == ' ' then [] else if text[0] == '→' then "⇒" else [text[0]]) + Normalize(text[1..])
  }

  lemma {:induction false} NormalizeAppend(a: string, b: string)
    ensures Normalize(a + b) == Normalize(a) + Normalize(b)
    decreases a
  {
    if a != [] {
      assert (a + b)[0] == a[0];
      assert (a + b)[1..] == a[1..] + b;
      NormalizeAppend(a[1..], b);
    } else {
      assert a + b == b;
    }
  }

  predicate IsBinaryConnective(c: char) { c == '∧' || c == '∨' || c == '⇒' || c == '⇔' }

  /** An atom of the strict grammar: an upper-case letter and then digits. */
  predicate IsAtom(s: string)
  {
    |s| > 0 && IsUpper(s[0]) && forall k :: 1 <= k < |s| ==> IsDigit(s[k])
  }

  /** The trees the parser builds: atoms, ¬ over one tree, and ∧ ∨ ⇒ ⇔ over exactly two. */
  predicate StrictTree(t: Node)
  {
    if t.children == [] then IsAtom(t.name)
    else if t.name == NOT then |t.children| == 1 && StrictTree(t.children[0])
    else |t.name| == 1 && IsBinaryConnective(t.name[0]) && |t.children| == 2
         && StrictTree(t.children[0]) && StrictTree(t.children[1])
  }

  /** The one text the parser accepts for a strict tree. */
  function StrictText(t: Node): string
    requires StrictTree(t)
  {
    if t.children == [] then t.name
    else if t.name == NOT then "(¬" + StrictText(t.children[0]) + ")"
    else "(" + StrictText(t.children[0]) + t.name + StrictText(t.children[1]) + ")"
  }

  /** Strict trees are well shaped, so everything proved about well-shaped trees applies to them. */
  lemma {:induction false} StrictIsWellShaped(t: Node)
    requires StrictTree(t)
    ensures WellShaped(t)
  {
    if t.children != [] {
      StrictIsWellShaped(t.children[0]);
      if t.name != NOT {
        StrictIsWellShaped(t.children[1]);
      }
    }
  }

  /** The rendering of utility.py, with its blanks removed, is the strict text. */
  lemma {:induction false} NormalizedExpression(t: Node)
    requires StrictTree(t)
    ensures Normalize(Expression(t)) == StrictText(t)
  {
    if t.children == [] {
      NormalizeAtom(t.name);
    } else if t.name == NOT {
      NormalizedExpression(t.children[0]);
      NormalizedNegation(t);
    } else {
      NormalizedExpression(t.children[0]);
      NormalizedExpression(t.children[1]);
      NormalizedBinary(t);
    }
  }

  lemma NormalizedNegation(t: Node)
    requires StrictTree(t) && t.children != [] && t.name == NOT
    requires Normalize(Expression(t.children[0])) == StrictText(t.children[0])
    ensures Normalize(Expression(t)) == StrictText(t)
  {
    NormalizeNegationText(Expression(t.children[0]));
  }

  /** Normalising `(¬a)` normalises `a` alone. */
  lemma NormalizeNegationText(a: string)
    ensures Normalize("(¬" + a + ")") == "(¬" + Normalize(a) + ")"
  {
    assert Normalize("(¬") == "(¬" by {
      assert "(¬"[1..] == "¬";
      assert "¬"[1..] == "";
    }
    NormalizeParentheses();
    NormalizeWrapped("(¬", a, ")");
  }

  lemma NormalizedBinary(t: Node)
    requires StrictTree(t) && t.children != [] && t.name != NOT
    requires Normalize(Expression(t.children[0])) == StrictText(t.children[0])
    requires Normalize(Expression(t.children[1])) == StrictText(t.children[1])
    ensures Normalize(Expression(t)) == StrictText(t)
  {
    BinaryRendering(t);
    NormalizeBinaryText(Expression(t.children[0]), t.name, Expression(t.children[1]));
  }

  /** The rendering of a binary strict tree: its operands joined by the connective between blanks. */
  lemma BinaryRendering(t: Node)
    requires StrictTree(t) && t.children != [] && t.name != NOT
    ensures Expression(t) == "(" + (Expression(t.children[0]) + (" " + t.name + " ") + Expression(t.children[1])) + ")"
  {
    var c, sep := t.name[0], " " + t.name + " ";
    assert t.name == [c];
    assert t.name == AND || t.name == OR || t.name == IMP || t.name == IFF;
    assert JoinExpressions(t.children[1..], sep) == Expression(t.children[1]) by {
      assert t.children[1..] == [t.children[1]];
    }
  }

  /** Normalising `(a c b)` with blanks around the connective `c` drops those blanks. */
  lemma NormalizeBinaryText(a: string, name: string, b: string)
    requires |name| == 1 && name[0] != ' ' && name[0] != '→'
    ensures Normalize("(" + (a + (" " + name + " ") + b) + ")") == "(" + Normalize(a) + name + Normalize(b) + ")"
  {
    var sep := " " + name + " ";
    NormalizeSeparator(name);
    NormalizeParentheses();
    NormalizeWrapped("(", a + sep + b, ")");
    NormalizeAppend(a + sep, b);
    NormalizeAppend(a, sep);
  }

  /** The blanks around a connective are dropped. */
  lemma NormalizeSeparator(name: string)
    requires |name| == 1 && name[0] != ' ' && name[0] != '→'
    ensures Normalize(" " + name + " ") == name
  {
    var c := name[0];
    assert name == [c] && " " + name + " " == [' ', c, ' '];
    assert Normalize(" ") == [] by {
      assert " "[1..] == "";
    }
    assert Normalize([c, ' ']) == [c] by {
      assert [c, ' '][1..] == " ";
    }
    assert [' ', c, ' '][1..] == [c, ' '];
  }

  lemma NormalizeParentheses()
    ensures Normalize("(") == "(" && Normalize(")") == ")"
  {
    assert "("[1..] == "";
    assert ")"[1..] == "";
  }

  lemma NormalizeWrapped(p: string, m: string, q: string)
    requires Normalize(p) == p && Normalize(q) == q
    ensures Normalize(p + m + q) == p + Normalize(m) + q
  {
    NormalizeAppend(p + m, q);
    NormalizeAppend(p, m);
  }

  lemma {:induction false} NormalizeAtom(s: string)
    requires IsAtom(s) || (|s| > 0 && forall k :: 0 <= k < |s| ==> IsDigit(s[k]))
    ensures Normalize(s) == s
    decreases s
  {
    if |s| > 1 {
      NormalizeAtom(s[1..]);
      assert s == [s[0]] + s[1..];
    }
  }

  /** A parse that got somewhere: the tree and the position after it. */
  datatype Step = Step(node: Node, next: nat)

  const EMPTY_PROPOSITION := "Error: Empty proposition"
  const INDEX_OUT_OF_RANGE := "string index out of range"
  const EXPECTED_AFTER_NEGATION := "Error: Expected an expression following ¬"
  const EXPECTED_CLOSE_UNARY := "Error: Expected closing parenthesis after unary expression"
  const EXPECTED_LEFT := "Error: Expected an expression on the left side of a binary operator"
  const EXPECTED_CONNECTIVE := "Error: Expected a binary operator (∧, ∨, ⇒, ⇔)"
  function ExpectedRight(c: char): string { "Error: Expected an expression on the right side of '" + [c] + "'" }
  function ExpectedCloseBinary(c: char): string { "Error: Expected closing parenthesis after binary expression with '" + [c] + "'" }
  function NotEnclosed(c: char): string { "Error: Binary operator '" + [c] + "' not enclosed in parentheses." }
  const UNBALANCED := "Error: Unbalanced parentheses detected."
  const NEGATION_NOT_ENCLOSED := "Error: '¬' operator must be enclosed in parentheses."
  const INVALID_STRUCTURE := "Error: Invalid structure."

  /** `parse_atomic` at position `i`: an upper-case letter and the digits after it, or nothing. */
  function AtomF(s: string, i: nat): (r: Option<Step>)
    requires i <= |s|
    ensures r.Some? ==> i < r.value.next <= |s|
  {
    if i < |s| && IsUpper(s[i]) then
      var j := DigitsEnd(s, i + 1);
      Some(Step(Node(s[i..j], []), j))
    else None
  }

  /**
   * `parse_unary` at position `i`. The look-ahead at `i + 1` is not guarded
   * in the source, so a `(` at the very end of the text raises.
   */
  function UnaryF(s: string, i: nat): (r: Result<Option<Step>>)
    requires i <= |s|
    ensures r.Ok? && r.value.Some? ==> i < r.value.value.next <= |s|
    decreases |s| - i, 0
  {
    if i < |s| && s[i] == '(' then
      if i + 1 >= |s| then Err(INDEX_OUT_OF_RANGE)
      else if s[i + 1] != '¬' then Ok(None)
      else match ExprF(s, i + 2)
        case Err(m) => Err(m)
        case Ok(None) => Err(EXPECTED_AFTER_NEGATION)
        case Ok(Some(sub)) =>
          if sub.next < |s| && s[sub.next] == ')' then Ok(Some(Step(Node(NOT, [sub.node]), sub.next + 1)))
          else Err(EXPECTED_CLOSE_UNARY)
    else Ok(None)
  }

  /** `parse_binary` at position `i`: `(`, a formula, a binary connective, a formula and `)`. */
  function BinaryF(s: string, i: nat): (r: Result<Option<Step>>)
    requires i <= |s|
    ensures r.Ok? && r.value.Some? ==> i < r.value.value.next <= |s|
    decreases |s| - i, 0
  {
    if i < |s| && s[i] == '(' then
      match ExprF(s, i + 1)
      case Err(m) => Err(m)
      case Ok(None) => Err(EXPECTED_LEFT)
      case Ok(Some(left)) => BinaryRest(s, left)
    else Ok(None)
  }

  /** The rest of `parse_binary`, once the left operand `left` has been read: a connective, a formula and `)`. */
  function BinaryRest(s: string, left: Step): (r: Result<Option<Step>>)
    requires left.next <= |s|
    ensures r.Ok? && r.value.Some? ==> left.next < r.value.value.next <= |s|
    decreases |s| - left.next, 2
  {
    if !(left.next < |s| && IsBinaryConnective(s[left.next])) then Err(EXPECTED_CONNECTIVE)
    else match ExprF(s, left.next + 1)
      case Err(m) => Err(m)
      case Ok(None) => Err(ExpectedRight(s[left.next]))
      case Ok(Some(right)) =>
        if right.next < |s| && s[right.next] == ')' then
          Ok(Some(Step(Node([s[left.next]], [left.node, right.node]), right.next + 1)))
        else Err(ExpectedCloseBinary(s[left.next]))
  }

  /** `parse_expression`: an atom, else a negation, else a binary formula. */
  function ExprF(s: string, i: nat): (r: Result<Option<Step>>)
    requires i <= |s|
    ensures r.Ok? && r.value.Some? ==> i < r.value.value.next <= |s|
    decreases |s| - i, 1
  {
    match AtomF(s, i)
    case Some(st) => Ok(Some(st))
    case None =>
      match UnaryF(s, i)
      case Err(m) => Err(m)
      case Ok(Some(st)) => Ok(Some(st))
      case Ok(None) => BinaryF(s, i)
  }

  /**
   * `parse` on normalised text with the cursor at `i`: the formula read from
   * there must end the text; otherwise the character under the cursor picks
   * the error.
   */
  function ParseFrom(s: string, i: nat): Result<Node>
    requires i <= |s|
  {
    if s == [] then Err(EMPTY_PROPOSITION)
    else match ExprF(s, i)
      case Err(m) => Err(m)
      case Ok(r) =>
        if r.Some? && r.value.next == |s| then Ok(r.value.node)
        else
          var idx := if r.Some? then r.value.next else i;
          if idx < |s| && IsBinaryConnective(s[idx]) then Err(NotEnclosed(s[idx]))
          else if idx >= |s| || s[idx] == ')' then Err(UNBALANCED)
          else if s[idx] == '¬' && idx < |s| - 1 then Err(NEGATION_NOT_ENCLOSED)
          else Err(INVALID_STRUCTURE)
  }

  /** The number of connective nodes, which is what `operation_count` counts. */
  function Compounds(t: Node): nat
  {
    if t.children == [] then 0
    else if t.name == NOT && |t.children| == 1 then 1 + Compounds(t.children[0])
    else if |t.children| == 2 then 1 + Compounds(t.children[0]) + Compounds(t.children[1])
    else 1
  }

  /** The tree of a parse result, without its position. */
  function Tree(r: Result<Option<Step>>): Result<Option<Node>>
  {
    match r
    case Err(m) => Err(m)
    case Ok(None) => Ok(None)
    case Ok(Some(st)) => Ok(Some(st.node))
  }

  /**
   * wff.py `Parser`: the normalised text, a cursor into it, and the number of
   * connectives read so far. The tree drawings the source prints along the
   * way are not modelled.
   */
  class Parser {
    var proposition: string
    var index: nat
    var length: nat
    var operationCount: nat
    var root: Option<Node>

    predicate Valid()
      reads this
    {
      length == |proposition| && index <= length
    }

    constructor(text: string)
      ensures Valid()
      ensures proposition == Normalize(text) && index == 0 && operationCount == 0 && root == None
    {
      proposition := Normalize(text);
      index := 0;
      length := |Normalize(text)|;
      operationCount := 0;
      root := None;
    }

    /** `current_chr`: the character under the cursor, or nothing at the end. */
    function CurrentChr(): (c: Option<char>)
      reads this
      requires Valid()
      ensures c.Some? <==> index < length
      ensures c.Some? ==> c.value == proposition[index]
    {
      if index < length then Some(proposition[index]) else None
    }

    method ParseAtomic() returns (r: Option<Node>)
      requires Valid()
      modifies this
      ensures Valid() && proposition == old(proposition) && operationCount == old(operationCount) && root == old(root)
      ensures r == (match AtomF(proposition, old(index)) case None => None case Some(st) => Some(st.node))
      ensures index == (match AtomF(proposition, old(index)) case None => old(index) case Some(st) => st.next)
    {
      var startIndex := index;
      var c := CurrentChr();
      if c.Some? && IsUpper(c.value) {
        var atomicProposition := [c.value];
        index := index + 1;
        while index < length && IsDigit(proposition[index])
          invariant startIndex < index <= length && Valid()
          invariant proposition == old(proposition) && operationCount == old(operationCount) && root == old(root)
          invariant atomicProposition == proposition[startIndex..index]
          invariant DigitsEnd(proposition, startIndex + 1) == DigitsEnd(proposition, index)
          decreases length - index
        {
          atomicProposition := atomicProposition + [proposition[index]];
          index := index + 1;
        }
        r := Some(Node(atomicProposition, []));
      } else {
        r := None;
      }
    }

    method ParseUnary() returns (r: Result<Option<Node>>)
      requires Valid()
      modifies this
      decreases length - index, 0
      ensures Valid() && proposition == old(proposition) && root == old(root)
      ensures r == Tree(UnaryF(proposition, old(index)))
      ensures r.Ok? ==> index == (match UnaryF(proposition, old(index)) case Ok(Some(st)) => st.next case _ => old(index))
      ensures r.Ok? ==> operationCount == old(operationCount) + (if r.value.Some? then Compounds(r.value.value) else 0)
      ensures index >= old(index)
    {
      var c := CurrentChr();
      if c == Some('(') {
        if index + 1 >= length {
          return Err(INDEX_OUT_OF_RANGE);
        }
        if proposition[index + 1] == '¬' {
          operationCount := operationCount + 1;
          index := index + 1;
          index := index + 1;
          var sub := ParseExpression();
          match sub {
            case Err(m) => return Err(m);
            case Ok(None) => return Err(EXPECTED_AFTER_NEGATION);
            case Ok(Some(subNode)) =>
              var close := CurrentChr();
              if close != Some(')') {
                return Err(EXPECTED_CLOSE_UNARY);
              }
              index := index + 1;
              return Ok(Some(Node(NOT, [subNode])));
          }
        }
      }
      return Ok(None);
    }

    method ParseBinary() returns (r: Result<Option<Node>>)
      requires Valid()
      modifies this
      decreases length - index, 0
      ensures Valid() && proposition == old(proposition) && root == old(root)
      ensures r == Tree(BinaryF(proposition, old(index)))
      ensures r.Ok? ==> index == (match BinaryF(proposition, old(index)) case Ok(Some(st)) => st.next case _ => old(index))
      ensures r.Ok? ==> operationCount == old(operationCount) + (if r.value.Some? then Compounds(r.value.value) else 0)
      ensures index >= old(index)
    {
      var c := CurrentChr();
      if c == Some('(') {
        operationCount := operationCount + 1;
        index := index + 1;
        var left := ParseExpression();
        match left {
          case Err(m) => return Err(m);
          case Ok(None) => return Err(EXPECTED_LEFT);
          case Ok(Some(leftNode)) =>
            var connective := CurrentChr();
            if !(connective.Some? && IsBinaryConnective(connective.value)) {
              return Err(EXPECTED_CONNECTIVE);
            }
            index := index + 1;
            var right := ParseExpression();
            match right {
              case Err(m) => return Err(m);
              case Ok(None) => return Err(ExpectedRight(connective.value));
              case Ok(Some(rightNode)) =>
                var close := CurrentChr();
                if close != Some(')') {
                  return Err(ExpectedCloseBinary(connective.value));
                }
                index := index + 1;
                return Ok(Some(Node([connective.value], [leftNode, rightNode])));
            }
        }
      }
      return Ok(None);
    }

    method ParseExpression() returns (r: Result<Option<Node>>)
      requires Valid()
      modifies this
      decreases length - index, 1
      ensures Valid() && proposition == old(proposition) && root == old(root)
      ensures r == Tree(ExprF(proposition, old(index)))
      ensures r.Ok? ==> index == (match ExprF(proposition, old(index)) case Ok(Some(st)) => st.next case _ => old(index))
      ensures r.Ok? ==> operationCount == old(operationCount) + (if r.value.Some? then Compounds(r.value.value) else 0)
      ensures index >= old(index)
    {
      var atom := ParseAtomic();
      if atom.Some? {
        return Ok(atom);
      }
      var unary := ParseUnary();
      if unary.Err? || unary.value.Some? {
        return unary;
      }
      r := ParseBinary();
    }

    /** `parse`: one formula covering the whole text, or the error its next character calls for. */
    method Parse() returns (r: Result<Node>)
      requires Valid()
      modifies this
      ensures Valid() && proposition == old(proposition)
      ensures r == ParseFrom(proposition, old(index))
      ensures r.Ok? ==> root == Some(r.value) && index == length
      ensures r.Ok? ==> operationCount == old(operationCount) + Compounds(r.value)
    {
      if proposition == [] {
        return Err(EMPTY_PROPOSITION);
      }
      var e := ParseExpression();
      if e.Err? {
        return Err(e.message);
      }
      root := e.value;
      if e.value.Some? && index == length {
        return Ok(e.value.value);
      }
      var c := CurrentChr();
      if c.Some? && IsBinaryConnective(c.value) {
        return Err(NotEnclosed(c.value));
      }
      if c == Some(')') || c.None? {
        return Err(UNBALANCED);
      }
      if c == Some('¬') && index < length - 1 {
        return Err(NEGATION_NOT_ENCLOSED);
      }
      return Err(INVALID_STRUCTURE);
    }
  }

  /** `w` is written in `s` from position `i` on. */
  predicate Spells(s: string, i: nat, w: string)
    decreases w
  {
    i + |w| <= |s| && (w == [] || (s[i] == w[0] && Spells(s, i + 1, w[1..])))
  }

  /** `Spells` is the slice equation. */
  lemma {:induction false} SpellsSlice(s: string, i: nat, w: string)
    ensures Spells(s, i, w) <==> i + |w| <= |s| && s[i..i + |w|] == w
    decreases w
  {
    if w != [] && i + |w| <= |s| {
      SpellsSlice(s, i + 1, w[1..]);
      assert s[i..i + |w|] == [s[i]] + s[i + 1..i + |w|];
      assert w == [w[0]] + w[1..];
    }
  }

  /** Text `a + b` at `i` is `a` at `i` followed by `b`. */
  lemma {:induction false} SpellsConcat(s: string, i: nat, a: string, b: string)
    ensures Spells(s, i, a + b) <==> Spells(s, i, a) && Spells(s, i + |a|, b)
    decreases a
  {
    if a == [] {
      assert a + b == b;
    } else {
      assert (a + b)[0] == a[0] && (a + b)[1..] == a[1..] + b;
      SpellsConcat(s, i + 1, a[1..], b);
    }
  }

  lemma SpellsChar(s: string, i: nat, c: char)
    ensures Spells(s, i, [c]) <==> i < |s| && s[i] == c
  {
    assert [c][1..] == [];
  }

  lemma SpellsPair(s: string, i: nat, c: char, d: char)
    ensures Spells(s, i, [c, d]) <==> i + 1 < |s| && s[i] == c && s[i + 1] == d
  {
    assert [c, d][1..] == [d];
    SpellsChar(s, i + 1, d);
  }

  /** A strict text starts with an upper-case letter or with `(`, never with `¬` or a digit. */
  lemma StrictTextStart(t: Node)
    requires StrictTree(t)
    ensures |StrictText(t)| > 0
    ensures IsUpper(StrictText(t)[0]) || StrictText(t)[0] == '('
  {
  }

  lemma {:induction false} AtomSound(s: string, i: nat)
    requires i <= |s| && AtomF(s, i).Some?
    ensures var st := AtomF(s, i).value;
      StrictTree(st.node) && Spells(s, i, StrictText(st.node)) && st.next == i + |StrictText(st.node)|
  {
    var j := DigitsEnd(s, i + 1);
    assert forall k :: 1 <= k < j - i ==> s[i..j][k] == s[i + k];
    SpellsSlice(s, i, s[i..j]);
  }

  /**
   * Soundness of the grammar functions: what they read is a strict tree,
   * spelled by the text they consumed.
   */
  lemma {:induction false} ExprSound(s: string, i: nat)
    requires i <= |s|
    ensures ExprF(s, i).Ok? && ExprF(s, i).value.Some? ==> var st := ExprF(s, i).value.value;
      StrictTree(st.node) && Spells(s, i, StrictText(st.node)) && st.next == i + |StrictText(st.node)|
    decreases |s| - i, 1
  {
    if AtomF(s, i).Some? {
      AtomSound(s, i);
    } else {
      UnarySound(s, i);
      BinarySound(s, i);
    }
  }

  lemma {:induction false} UnarySound(s: string, i: nat)
    requires i <= |s|
    ensures UnaryF(s, i).Ok? && UnaryF(s, i).value.Some? ==> var st := UnaryF(s, i).value.value;
      StrictTree(st.node) && Spells(s, i, StrictText(st.node)) && st.next == i + |StrictText(st.node)|
    decreases |s| - i, 0
  {
    if UnaryF(s, i).Ok? && UnaryF(s, i).value.Some? {
      UnaryShape(s, i);
      ExprSound(s, i + 2);
      var sub := ExprF(s, i + 2).value.value;
      NegationSpelled(s, i, StrictText(sub.node));
    }
  }

  /** What a successful `UnaryF` read: `(¬`, an operand and `)`. */
  lemma UnaryShape(s: string, i: nat)
    requires i <= |s| && UnaryF(s, i).Ok? && UnaryF(s, i).value.Some?
    ensures i + 1 < |s| && s[i] == '(' && s[i + 1] == '¬' && ExprF(s, i + 2).Ok? && ExprF(s, i + 2).value.Some?
    ensures var sub := ExprF(s, i + 2).value.value;
      && sub.next < |s| && s[sub.next] == ')'
      && UnaryF(s, i).value.value == Step(Node(NOT, [sub.node]), sub.next + 1)
  {
  }

  /** `(¬`, a text `w` and `)` at `i` spell `(¬w)`. */
  lemma NegationSpelled(s: string, i: nat, w: string)
    requires i + 1 < |s| && s[i] == '(' && s[i + 1] == '¬' && Spells(s, i + 2, w)
    requires i + 2 + |w| < |s| && s[i + 2 + |w|] == ')'
    ensures Spells(s, i, "(¬" + w + ")")
  {
    SpellsPair(s, i, '(', '¬');
    SpellsChar(s, i + 2 + |w|, ')');
    SpellsConcat(s, i, "(¬", w);
    SpellsConcat(s, i, "(¬" + w, ")");
  }

  lemma {:induction false} BinarySound(s: string, i: nat)
    requires i <= |s|
    ensures BinaryF(s, i).Ok? && BinaryF(s, i).value.Some? ==> var st := BinaryF(s, i).value.value;
      StrictTree(st.node) && Spells(s, i, StrictText(st.node)) && st.next == i + |StrictText(st.node)|
    decreases |s| - i, 0
  {
    if BinaryF(s, i).Ok? && BinaryF(s, i).value.Some? {
      BinaryShape(s, i);
      ExprSound(s, i + 1);
      var left := ExprF(s, i + 1).value.value;
      var m := left.next;
      ExprSound(s, m + 1);
      var right := ExprF(s, m + 1).value.value;
      BinarySpelled(s, i, StrictText(left.node), StrictText(right.node));
      BinaryStrict(s[m], left.node, right.node);
    }
  }

  /** What a successful `BinaryF` read: `(`, an operand, a connective, an operand and `)`. */
  lemma BinaryShape(s: string, i: nat)
    requires i <= |s| && BinaryF(s, i).Ok? && BinaryF(s, i).value.Some?
    ensures i < |s| && s[i] == '(' && ExprF(s, i + 1).Ok? && ExprF(s, i + 1).value.Some?
    ensures var left := ExprF(s, i + 1).value.value;
      && left.next < |s| && IsBinaryConnective(s[left.next])
      && ExprF(s, left.next + 1).Ok? && ExprF(s, left.next + 1).value.Some?
      && var right := ExprF(s, left.next + 1).value.value;
      && right.next < |s| && s[right.next] == ')'
      && BinaryF(s, i).value.value == Step(Node([s[left.next]], [left.node, right.node]), right.next + 1)
  {
  }

  /** `(`, a text `wl`, a character, a text `wr` and `)` at `i` spell `(wl c wr)`. */
  lemma BinarySpelled(s: string, i: nat, wl: string, wr: string)
    requires i < |s| && s[i] == '(' && Spells(s, i + 1, wl)
    requires var m := i + 1 + |wl|;
      m + 1 + |wr| < |s| && Spells(s, m + 1, wr) && s[m + 1 + |wr|] == ')'
    ensures var m := i + 1 + |wl|;
      Spells(s, i, "(" + wl + [s[m]] + wr + ")")
  {
    var m := i + 1 + |wl|;
    SpellsChar(s, i, '(');
    SpellsChar(s, m, s[m]);
    SpellsChar(s, m + 1 + |wr|, ')');
    SpellsConcat(s, i, "(", wl);
    SpellsConcat(s, i, "(" + wl, [s[m]]);
    SpellsConcat(s, i, "(" + wl + [s[m]], wr);
    SpellsConcat(s, i, "(" + wl + [s[m]] + wr, ")");
  }

  /** A connective over two strict trees is a strict tree, spelled with the connective between its operands. */
  lemma BinaryStrict(c: char, l: Node, r: Node)
    requires IsBinaryConnective(c) && StrictTree(l) && StrictTree(r)
    ensures StrictTree(Node([c], [l, r]))
    ensures StrictText(Node([c], [l, r])) == "(" + StrictText(l) + [c] + StrictText(r) + ")"
  {
    var t := Node([c], [l, r]);
    assert t.children != [] && t.name != NOT && t.children[0] == l && t.children[1] == r;
  }

  /**
   * Completeness of the grammar functions: the strict text of a tree, found
   * at position `i` and not followed by a digit, is read back as that tree,
   * ending right after the text.
   */
  lemma {:induction false} ExprComplete(t: Node, s: string, i: nat)
    requires StrictTree(t)
    requires Spells(s, i, StrictText(t))
    requires i + |StrictText(t)| == |s| || !IsDigit(s[i + |StrictText(t)|])
    ensures ExprF(s, i) == Ok(Some(Step(t, i + |StrictText(t)|)))
    decreases t, 1
  {
    if t.children == [] {
      AtomLayout(t, s, i);
      DigitsEndAt(s, i + 1, i + |t.name|);
    } else if t.name == NOT {
      NegationLayout(t, s, i);
      NegationComplete(t, s, i);
    } else {
      BinaryLayout(t, s, i);
      BinaryComplete(t, s, i);
    }
  }

  /** Where the letter and the digits of an atom's text sit inside `s`. */
  lemma AtomLayout(t: Node, s: string, i: nat)
    requires StrictTree(t) && t.children == [] && Spells(s, i, StrictText(t))
    ensures StrictText(t) == t.name && |t.name| > 0 && i + |t.name| <= |s| && IsUpper(s[i])
    ensures s[i..i + |t.name|] == t.name
    ensures forall m | i + 1 <= m < i + |t.name| :: IsDigit(s[m])
  {
    var w := t.name;
    SpellsSlice(s, i, w);
    assert s[i] == s[i..i + |w|][0];
    forall m | i + 1 <= m < i + |w| ensures IsDigit(s[m]) {
      assert s[m] == s[i..i + |w|][m - i];
    }
  }

  /** Where `(¬`, the operand and `)` of a negation's text sit inside `s`. */
  lemma NegationLayout(t: Node, s: string, i: nat)
    requires StrictTree(t) && t.children != [] && t.name == NOT && Spells(s, i, StrictText(t))
    ensures var e := i + 2 + |StrictText(t.children[0])|;
      && e + 1 == i + |StrictText(t)| && e < |s|
      && s[i] == '(' && s[i + 1] == '¬' && Spells(s, i + 2, StrictText(t.children[0])) && s[e] == ')'
  {
    var wc := StrictText(t.children[0]);
    assert StrictText(t) == "(¬" + wc + ")";
    SpellsConcat(s, i, "(¬" + wc, ")");
    SpellsConcat(s, i, "(¬", wc);
    SpellsPair(s, i, '(', '¬');
    SpellsChar(s, i + 2 + |wc|, ')');
  }

  /** A negation laid out at `i` as `(¬`, its operand's strict text and `)` is read back. */
  lemma {:induction false} NegationComplete(t: Node, s: string, i: nat)
    requires StrictTree(t) && t.children != [] && t.name == NOT
    requires var e := i + 2 + |StrictText(t.children[0])|;
      && e < |s| && s[i] == '(' && s[i + 1] == '¬' && Spells(s, i + 2, StrictText(t.children[0])) && s[e] == ')'
    ensures ExprF(s, i) == Ok(Some(Step(t, i + 3 + |StrictText(t.children[0])|)))
    decreases t, 0
  {
    var c := t.children[0];
    ExprComplete(c, s, i + 2);
    assert t == Node(NOT, [c]);
  }

  /** The strict text of a binary tree: `(`, the left operand, the connective, the right operand, `)`. */
  lemma BinaryText(t: Node)
    requires StrictTree(t) && t.children != [] && t.name != NOT
    ensures var wl, wr := StrictText(t.children[0]), StrictText(t.children[1]);
      && t.name == [t.name[0]] && |wl| > 0 && wl[0] != '¬'
      && StrictText(t) == "(" + wl + [t.name[0]] + wr + ")"
  {
    StrictTextStart(t.children[0]);
  }

  /** Where the pieces of a binary strict text sit inside `s`. */
  lemma BinaryLayout(t: Node, s: string, i: nat)
    requires StrictTree(t) && t.children != [] && t.name != NOT && Spells(s, i, StrictText(t))
    ensures var wl, wr := StrictText(t.children[0]), StrictText(t.children[1]);
      var m := i + 1 + |wl|;
      var e := m + 1 + |wr|;
      && e + 1 == i + |StrictText(t)| && e < |s|
      && s[i] == '(' && s[i + 1] != '¬'
      && Spells(s, i + 1, wl) && t.name == [s[m]]
      && Spells(s, m + 1, wr) && s[e] == ')'
  {
    var wl, wr, c := StrictText(t.children[0]), StrictText(t.children[1]), t.name[0];
    var m := i + 1 + |wl|;
    BinaryText(t);
    SpellsConcat(s, i, "(" + wl + [c] + wr, ")");
    SpellsConcat(s, i, "(" + wl + [c], wr);
    SpellsConcat(s, i, "(" + wl, [c]);
    SpellsConcat(s, i, "(", wl);
    SpellsChar(s, i, '(');
    SpellsChar(s, m, c);
    SpellsChar(s, m + 1 + |wr|, ')');
  }

  /** A binary formula laid out at `i` as `(`, its operands' strict texts around its connective, and `)`, is read back. */
  lemma {:induction false} BinaryComplete(t: Node, s: string, i: nat)
    requires StrictTree(t) && t.children != [] && t.name != NOT
    requires var wl, wr := StrictText(t.children[0]), StrictText(t.children[1]);
      var m := i + 1 + |wl|;
      var e := m + 1 + |wr|;
      && e < |s| && s[i] == '(' && s[i + 1] != '¬'
      && Spells(s, i + 1, wl) && t.name == [s[m]] && Spells(s, m + 1, wr) && s[e] == ')'
    ensures ExprF(s, i) == Ok(Some(Step(t, i + 3 + |StrictText(t.children[0])| + |StrictText(t.children[1])|)))
    decreases t, 0
  {
    var l, r := t.children[0], t.children[1];
    var m := i + 1 + |StrictText(l)|;
    var e := m + 1 + |StrictText(r)|;
    ExprComplete(l, s, i + 1);
    ExprComplete(r, s, m + 1);
    BinaryAt(s, i, Step(l, m), Step(r, e));
    assert t == Node([s[m]], [l, r]);
  }

  /** `parse_expression` at `(`, given the two operands it reads, the connective between them and the `)`. */
  lemma BinaryAt(s: string, i: nat, left: Step, right: Step)
    requires i + 1 < |s| && s[i] == '(' && s[i + 1] != '¬'
    requires ExprF(s, i + 1) == Ok(Some(left))
    requires left.next < |s| && IsBinaryConnective(s[left.next])
    requires ExprF(s, left.next + 1) == Ok(Some(right))
    requires right.next < |s| && s[right.next] == ')'
    ensures ExprF(s, i) == Ok(Some(Step(Node([s[left.next]], [left.node, right.node]), right.next + 1)))
  {
    ExprOfBinary(s, i);
  }

  /**
   * At `(` not followed by `¬`, `parse_expression` is `parse_binary`, and
   * when both operands, the connective and the `)` are there, it reads them.
   */
  lemma ExprOfBinary(s: string, i: nat)
    requires i + 1 < |s| && s[i] == '(' && s[i + 1] != '¬'
    requires ExprF(s, i + 1).Ok? && ExprF(s, i + 1).value.Some?
    requires var left := ExprF(s, i + 1).value.value;
      && left.next < |s| && IsBinaryConnective(s[left.next])
      && ExprF(s, left.next + 1).Ok? && ExprF(s, left.next + 1).value.Some?
      && ExprF(s, left.next + 1).value.value.next < |s| && s[ExprF(s, left.next + 1).value.value.next] == ')'
    ensures var left := ExprF(s, i + 1).value.value;
      var right := ExprF(s, left.next + 1).value.value;
      ExprF(s, i) == Ok(Some(Step(Node([s[left.next]], [left.node, right.node]), right.next + 1)))
  {
    BinaryReads(s, i);
  }

  /** One successful step of `BinaryF`, the converse of `BinaryShape`. */
  lemma BinaryReads(s: string, i: nat)
    requires i < |s| && s[i] == '('
    requires ExprF(s, i + 1).Ok? && ExprF(s, i + 1).value.Some?
    requires var left := ExprF(s, i + 1).value.value;
      && left.next < |s| && IsBinaryConnective(s[left.next])
      && ExprF(s, left.next + 1).Ok? && ExprF(s, left.next + 1).value.Some?
      && ExprF(s, left.next + 1).value.value.next < |s| && s[ExprF(s, left.next + 1).value.value.next] == ')'
    ensures var left := ExprF(s, i + 1).value.value;
      var right := ExprF(s, left.next + 1).value.value;
      BinaryF(s, i) == Ok(Some(Step(Node([s[left.next]], [left.node, right.node]), right.next + 1)))
  {
  }

  /**
   * The parser accepts exactly the strict texts: a parse from the start
   * succeeds with `t` if and only if the text is the strict text of `t`.
   */
  lemma ParseExactlyStrictTexts(s: string, t: Node)
    ensures ParseFrom(s, 0) == Ok(t) <==> StrictTree(t) && s == StrictText(t)
  {
    if ParseFrom(s, 0) == Ok(t) {
      ExprSound(s, 0);
      SpellsSlice(s, 0, StrictText(t));
      assert s[0..|s|] == s;
    }
    if StrictTree(t) && s == StrictText(t) {
      SpellsSlice(s, 0, s);
      assert s[0..|s|] == s;
      ExprComplete(t, s, 0);
      StrictTextStart(t);
    }
  }

  /** Parsing the blank-free rendering of a strict tree gives the tree back. */
  lemma ParseOfRendering(t: Node)
    requires StrictTree(t)
    ensures ParseFrom(Normalize(Expression(t)), 0) == Ok(t)
  {
    NormalizedExpression(t);
    ParseExactlyStrictTexts(Normalize(Expression(t)), t);
  }

  /** wff.py `get_variables`: a label with an upper-case initial made of letters and digits is a variable; any other label is looked through. */
  function WffVariables(n: Node): set<string>
  {
    if IsVariableName(n.name) then {n.name} else WffVariablesOf(n.children)
  }

  function WffVariablesOf(cs: seq<Node>): set<string>
    decreases cs
  {
    if cs == [] then {} else WffVariables(cs[0]) + WffVariablesOf(cs[1..])
  }

  lemma VariablesOfPair(a: Node, b: Node)
    ensures VariablesOf([a]) == Variables(a) && WffVariablesOf([a]) == WffVariables(a)
    ensures VariablesOf([a, b]) == Variables(a) + Variables(b)
    ensures WffVariablesOf([a, b]) == WffVariables(a) + WffVariables(b)
  {
    assert [a][1..] == [] && [a, b][1..] == [b];
    assert VariablesOf([b]) == Variables(b) + VariablesOf([]);
    assert WffVariablesOf([b]) == WffVariables(b) + WffVariablesOf([]);
  }

  /** On the trees the parser builds, the parser's variables are the variables of the toolchain. */
  lemma {:induction false} WffVariablesOfStrict(t: Node)
    requires StrictTree(t)
    ensures WffVariables(t) == Variables(t)
  {
    if t.children != [] {
      WffVariablesOfStrict(t.children[0]);
      if t.name == NOT {
        assert t.children == [t.children[0]];
        VariablesOfPair(t.children[0], t.children[0]);
      } else {
        WffVariablesOfStrict(t.children[1]);
        assert t.children == [t.children[0], t.children[1]];
        VariablesOfPair(t.children[0], t.children[1]);
      }
    }
  }

  const LIST_INDEX_OUT_OF_RANGE := "list index out of range"

  /**
   * wff.py `evaluate`: ¬ negates its first child; ∧ ∨ ⇒ ⇔ evaluate their
   * first and then their second child, both always; any other label must be
   * in `values`.
   */
  function WffEvaluate(n: Node, values: Valuation): Result<bool>
  {
    if n.name == NOT then
      if n.children == [] then Err(LIST_INDEX_OUT_OF_RANGE)
      else match WffEvaluate(n.children[0], values)
        case Err(m) => Err(m)
        case Ok(b) => Ok(!b)
    else if n.name == AND || n.name == OR || n.name == IMP || n.name == IFF then
      if n.children == [] then Err(LIST_INDEX_OUT_OF_RANGE)
      else match WffEvaluate(n.children[0], values)
        case Err(m) => Err(m)
        case Ok(left) =>
          if |n.children| < 2 then Err(LIST_INDEX_OUT_OF_RANGE)
          else match WffEvaluate(n.children[1], values)
            case Err(m) => Err(m)
            case Ok(right) =>
              Ok(if n.name == AND then left && right
                 else if n.name == OR then left || right
                 else if n.name == IMP then !left || right
                 else left == right)
    else if n.name in values then Ok(values[n.name])
    else Err("Missing truth value for " + n.name)
  }

  /**
   * On a parsed tree the evaluator succeeds exactly when every variable has
   * a value, and then it computes the truth value of the formula.
   */
  lemma {:induction false} WffEvaluateMeansHolds(t: Node, values: Valuation)
    requires StrictTree(t)
    ensures WffEvaluate(t, values).Ok? <==> Variables(t) <= values.Keys
    ensures Variables(t) <= values.Keys ==> WffEvaluate(t, values) == Ok(Holds(t, values))
  {
    if t.children == [] {
      AtomEvaluates(t, values);
    } else if t.name == NOT {
      WffEvaluateMeansHolds(t.children[0], values);
      NegationEvaluates(t, values);
    } else {
      WffEvaluateMeansHolds(t.children[0], values);
      WffEvaluateMeansHolds(t.children[1], values);
      BinaryEvaluates(t, values);
    }
  }

  /** `WffEvaluateMeansHolds` for an atom: its value is looked up. */
  lemma AtomEvaluates(t: Node, values: Valuation)
    requires StrictTree(t) && t.children == []
    ensures WffEvaluate(t, values).Ok? <==> Variables(t) <= values.Keys
    ensures Variables(t) <= values.Keys ==> WffEvaluate(t, values) == Ok(Holds(t, values))
  {
    assert t.name != NOT && t.name != AND && t.name != OR && t.name != IMP && t.name != IFF;
    assert t.name != TOP && t.name != BOT;
    assert IsPropName(t.name);
  }

  /** `WffEvaluateMeansHolds` for a negation, given that it holds for the operand. */
  lemma NegationEvaluates(t: Node, values: Valuation)
    requires StrictTree(t) && t.children != [] && t.name == NOT
    requires var c := t.children[0];
      && (WffEvaluate(c, values).Ok? <==> Variables(c) <= values.Keys)
      && (Variables(c) <= values.Keys ==> WffEvaluate(c, values) == Ok(Holds(c, values)))
    ensures WffEvaluate(t, values).Ok? <==> Variables(t) <= values.Keys
    ensures Variables(t) <= values.Keys ==> WffEvaluate(t, values) == Ok(Holds(t, values))
  {
    assert !IsPropName(t.name);
    assert t.children == [t.children[0]];
    VariablesOfPair(t.children[0], t.children[0]);
  }

  /** `WffEvaluateMeansHolds` for a binary formula, given that it holds for both operands. */
  lemma BinaryEvaluates(t: Node, values: Valuation)
    requires StrictTree(t) && t.children != [] && t.name != NOT
    requires var l := t.children[0];
      && (WffEvaluate(l, values).Ok? <==> Variables(l) <= values.Keys)
      && (Variables(l) <= values.Keys ==> WffEvaluate(l, values) == Ok(Holds(l, values)))
    requires var r := t.children[1];
      && (WffEvaluate(r, values).Ok? <==> Variables(r) <= values.Keys)
      && (Variables(r) <= values.Keys ==> WffEvaluate(r, values) == Ok(Holds(r, values)))
    ensures WffEvaluate(t, values).Ok? <==> Variables(t) <= values.Keys
    ensures Variables(t) <= values.Keys ==> WffEvaluate(t, values) == Ok(Holds(t, values))
  {
    var l, r := t.children[0], t.children[1];
    assert !IsPropName(t.name);
    assert t.children == [l, r];
    VariablesOfPair(l, r);
    assert t.name == AND || t.name == OR || t.name == IMP || t.name == IFF;
    if t.name == AND {
      assert Holds(t, values) == (Holds(l, values) && Holds(r, values));
    } else if t.name == OR {
      assert Holds(l, values) ==> Holds(t, values);
      assert Holds(r, values) ==> Holds(t, values);
    }
  }

  /** The evaluations of `n` under the rows of a table, in order; the first failure aborts. */
  function WffRows(n: Node, variables: seq<string>, rows: seq<seq<bool>>): (r: Result<seq<bool>>)
    ensures r.Ok? ==> |r.value| == |rows|
  {
    if rows == [] then Ok([])
    else match WffEvaluate(n, Zip(variables, rows[0]))
      case Err(m) => Err(m)
      case Ok(b) =>
        match WffRows(n, variables, rows[1..])
        case Err(m) => Err(m)
        case Ok(rest) => Ok([b] + rest)
  }

  /** wff.py `truth_table` of the parsed root: its value under every assignment to its sorted variables. */
  function WffTruthTable(root: Node): (r: Result<seq<bool>>)
    ensures r.Ok? ==> |r.value| == Pow2(|SortedSet(WffVariables(root))|)
  {
    var variables := SortedSet(WffVariables(root));
    WffRows(root, variables, Assignments(|variables|))
  }

  lemma WffRowsMeaning(t: Node, variables: seq<string>, rows: seq<seq<bool>>)
    requires StrictTree(t)
    requires forall x :: x in variables <==> x in Variables(t)
    requires AllOfLength(rows, |variables|)
    ensures WffRows(t, variables, rows).Ok?
    ensures forall i :: 0 <= i < |rows| ==> WffRows(t, variables, rows).value[i] == Holds(t, Zip(variables, rows[i]))
  {
    WffRowsOk(t, variables, rows);
    forall i | 0 <= i < |rows| ensures WffRows(t, variables, rows).value[i] == Holds(t, Zip(variables, rows[i])) {
      WffRowAt(t, variables, rows, i);
    }
  }

  lemma {:induction false} WffRowsOk(t: Node, variables: seq<string>, rows: seq<seq<bool>>)
    requires StrictTree(t)
    requires forall x :: x in variables <==> x in Variables(t)
    requires AllOfLength(rows, |variables|)
    ensures WffRows(t, variables, rows).Ok?
  {
    if rows != [] {
      WffEvaluateMeansHolds(t, Zip(variables, rows[0]));
      AllOfLengthTail(rows, |variables|);
      WffRowsOk(t, variables, rows[1..]);
    }
  }

  lemma {:induction false} WffRowAt(t: Node, variables: seq<string>, rows: seq<seq<bool>>, i: nat)
    requires StrictTree(t)
    requires forall x :: x in variables <==> x in Variables(t)
    requires AllOfLength(rows, |variables|) && i < |rows|
    ensures WffRows(t, variables, rows).Ok?
    ensures WffRows(t, variables, rows).value[i] == Holds(t, Zip(variables, rows[i]))
  {
    WffRowsOk(t, variables, rows);
    var a := Zip(variables, rows[0]);
    WffEvaluateMeansHolds(t, a);
    AllOfLengthTail(rows, |variables|);
    WffRowsOk(t, variables, rows[1..]);
    var rest := WffRows(t, variables, rows[1..]).value;
    assert WffRows(t, variables, rows).value == [Holds(t, a)] + rest;
    if i > 0 {
      WffRowAt(t, variables, rows[1..], i - 1);
      assert rows[1..][i - 1] == rows[i];
    }
  }

  lemma AllOfLengthTail(rows: seq<seq<bool>>, k: nat)
    requires AllOfLength(rows, k) && rows != []
    ensures AllOfLength(rows[1..], k)
  {
    forall i | 0 <= i < |rows| - 1 ensures |rows[1..][i]| == k {
      assert rows[1..][i] == rows[i + 1];
    }
  }

  /** The truth table of a parsed formula lists its truth value in row `i` of the assignments, for every `i`. */
  lemma WffTruthTableMeaning(t: Node)
    requires StrictTree(t)
    ensures WffTruthTable(t).Ok?
    ensures |SortedSet(Variables(t))| == |Variables(t)|
    ensures |WffTruthTable(t).value| == Pow2(|Variables(t)|)
    ensures forall i :: 0 <= i < |WffTruthTable(t).value| ==>
      WffTruthTable(t).value[i] == RowHolds(t, SortedSet(Variables(t)), i)
  {
    WffVariablesOfStrict(t);
    var variables := SortedSet(Variables(t));
    WffRowsMeaning(t, variables, Assignments(|variables|));
    SortedSetSize(Variables(t));
  }

  const VALID_MESSAGE := "The formula is satisfiable and valid."
  const UNSATISFIABLE_MESSAGE := "The formula is unsatisfiable and invalid."
  const CONTINGENT_MESSAGE := "The formula is satisfiable but invalid."

  /** wff.py `validity`: the verdict on the truth table, as the message the parser reports. */
  function WffValidity(root: Node): (r: Result<string>)
    ensures r.Ok? ==> r.value in {VALID_MESSAGE, UNSATISFIABLE_MESSAGE, CONTINGENT_MESSAGE}
  {
    match WffTruthTable(root)
    case Err(m) => Err(m)
    case Ok(column) =>
      match Classify(column)
      case Valid => Ok(VALID_MESSAGE)
      case Unsatisfiable => Ok(UNSATISFIABLE_MESSAGE)
      case SatisfiableButInvalid => Ok(CONTINGENT_MESSAGE)
  }

  /** The verdict on a parsed formula is right: valid exactly for tautologies, unsatisfiable exactly for contradictions. */
  lemma WffValidityMeaning(t: Node)
    requires StrictTree(t)
    ensures WffValidity(t).Ok?
    ensures WffValidity(t).value == VALID_MESSAGE <==> IsValid(t)
    ensures WffValidity(t).value == UNSATISFIABLE_MESSAGE <==> IsUnsatisfiable(t)
  {
    WffTruthTableMeaning(t);
    StrictIsWellShaped(t);
    WffVariablesOfStrict(t);
    SortedSetSize(Variables(t));
    ColumnClassifies(t, SortedSet(Variables(t)), WffTruthTable(t).value);
  }
}
