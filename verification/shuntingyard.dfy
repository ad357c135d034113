/**
 * The relaxed-syntax converter of shunting_yard.py. It reads an infix
 * formula without mandatory parentheses, reorders its tokens into postfix
 * with Dijkstra's shunting-yard algorithm under the precedences
 * ¬ > ∧ = ∨ > ⇒ > ⇔ (¬ right-associative, the others left-associative), and
 * then rebuilds a parenthesised text from the postfix queue.
 */
module ShuntingYard {
  import opened Syntax
  import opened Semantics

  /** `is_operator`: the keys of the precedence table. */
  predicate IsOperator(token: string)
  {
    token == NOT || token == AND || token == OR || token == IMP || token == IFF
  }

  /** `precedence_of`: the table lookup, with 0 for a token that is not in the table. */
  function PrecedenceOf(token: string): (p: nat)
    ensures p == 3 <==> token == NOT
    ensures p == 2 <==> token == AND || token == OR
    ensures p == 1 <==> token == IMP
    ensures !IsOperator(token) ==> p == 0
  {
    if token == NOT then 3
    else if token == AND || token == OR then 2
    else if token == IMP then 1
    else 0
  }

  // ---------------------------------------------------------------------------
  // Tokens
  // ---------------------------------------------------------------------------

  /** An atom token: an upper-case letter followed by digits. */
  predicate IsAtomToken(t: string)
  {
    |t| > 0 && IsUpper(t[0]) && forall k :: 1 <= k < |t| ==> IsDigit(t[k])
  }

  /** The one-character tokens: the connectives, the parentheses and the truth constants. */
  predicate IsSymbol(c: char)
  {
    c == '¬' || c == '∧' || c == '∨' || c == '⇒' || c == '⇔' || c == '(' || c == ')' || c == '⊤' || c == '⊥'
  }

  predicate IsToken(t: string)
  {
    IsAtomToken(t) || (|t| == 1 && IsSymbol(t[0]))
  }

  /**
   * The `re.findall` scan of `convert`: from left to right, an upper-case
   * letter starts an atom that takes every digit after it, a symbol is a
   * token of its own, and any other character is skipped.
   */
  function Tokenize(s: string): (ts: seq<string>)
    ensures forall i :: 0 <= i < |ts| ==> IsToken(ts[i])
    decreases |s|
  {
    if s == [] then []
    else if IsUpper(s[0]) then
      var j := DigitsEnd(s, 1);
      assert forall k :: 1 <= k < j ==> s[..j][k] == s[k];
      [s[..j]] + Tokenize(s[j..])
    else if IsSymbol(s[0]) then [[s[0]]] + Tokenize(s[1..])
    else Tokenize(s[1..])
  }

  /** The tokens written one after the other. */
  function Join(ts: seq<string>): string
  {
    if ts == [] then "" else ts[0] + Join(ts[1..])
  }

  lemma JoinStart(ts: seq<string>)
    requires ts != [] && forall i :: 0 <= i < |ts| ==> IsToken(ts[i])
    ensures |ts[0]| > 0 && |Join(ts)| > 0
    ensures Join(ts)[0] == ts[0][0] && !IsDigit(Join(ts)[0])
  {
    assert IsToken(ts[0]) && |ts[0]| > 0;
    assert Join(ts) == ts[0] + Join(ts[1..]);
    assert (ts[0] + Join(ts[1..]))[0] == ts[0][0];
  }

  /** Tokenising the text of a token list gives the list back. */
  lemma {:induction false} TokenizeJoin(ts: seq<string>)
    requires forall i :: 0 <= i < |ts| ==> IsToken(ts[i])
    ensures Tokenize(Join(ts)) == ts
  {
    if ts != [] {
      var t, rest := ts[0], Join(ts[1..]);
      var s := Join(ts);
      assert s == t + rest;
      TokenizeJoin(ts[1..]);
      if IsAtomToken(t) {
        assert s[0] == t[0];
        forall m | 1 <= m < |t| ensures IsDigit(s[m]) {
          assert s[m] == t[m];
        }
        if |t| < |s| {
          JoinStart(ts[1..]);
          assert s[|t|] == rest[0];
        }
        DigitsEndAt(s, 1, |t|);
        assert s[..|t|] == t && s[|t|..] == rest;
      } else {
        assert |t| == 1 && t == [t[0]];
        assert s[0] == t[0] && s[1..] == rest;
        assert !IsUpper(s[0]) && IsSymbol(s[0]);
      }
    }
  }

  /** `a` is `b` with some characters deleted. */
  predicate IsSubsequence(a: string, b: string)
    decreases |b|
  {
    if a == [] then true
    else if b == [] then false
    else (a[0] == b[0] && IsSubsequence(a[1..], b[1..])) || IsSubsequence(a, b[1..])
  }

  lemma {:induction false} SubsequenceUnderPrefix(p: string, a: string, b: string)
    requires IsSubsequence(a, b)
    ensures IsSubsequence(p + a, p + b)
    decreases p
  {
    if p != [] {
      SubsequenceUnderPrefix(p[1..], a, b);
      assert (p + a)[0] == p[0] == (p + b)[0];
      assert (p + a)[1..] == p[1..] + a && (p + b)[1..] == p[1..] + b;
      assert IsSubsequence((p + a)[1..], (p + b)[1..]);
      assert p + a != [] && p + b != [];
    } else {
      assert p + a == a && p + b == b;
    }
  }

  /** Tokenising only deletes characters: the tokens spell a subsequence of the text, in order. */
  lemma {:induction false} TokensComeFromText(s: string)
    ensures IsSubsequence(Join(Tokenize(s)), s)
    decreases |s|
  {
    if s != [] {
      if IsUpper(s[0]) {
        var j := DigitsEnd(s, 1);
        TokensComeFromText(s[j..]);
        SubsequenceUnderPrefix(s[..j], Join(Tokenize(s[j..])), s[j..]);
        assert s[..j] + s[j..] == s;
        assert Tokenize(s) == [s[..j]] + Tokenize(s[j..]);
        assert ([s[..j]] + Tokenize(s[j..]))[1..] == Tokenize(s[j..]);
      } else if IsSymbol(s[0]) {
        TokensComeFromText(s[1..]);
        SubsequenceUnderPrefix([s[0]], Join(Tokenize(s[1..])), s[1..]);
        assert [s[0]] + s[1..] == s;
        assert ([[s[0]]] + Tokenize(s[1..]))[1..] == Tokenize(s[1..]);
      } else {
        TokensComeFromText(s[1..]);
        var a := Join(Tokenize(s));
        if a != [] {
          assert IsSubsequence(a, s[1..]);
        }
      }
    }
  }

  // ---------------------------------------------------------------------------
  // From infix tokens to a postfix queue
  // ---------------------------------------------------------------------------

  /** The `re.match` test of `convert`: a token that begins like an atom or a truth constant goes straight to the output. */
  predicate IsOperand(token: string)
  {
    |token| > 0 && (IsUpper(token[0]) || token[0] == '⊤' || token[0] == '⊥')
  }

  /** The output queue and the operator stack of the algorithm; the top of the stack is its last entry. */
  datatype Shunt = Shunt(queue: seq<string>, stack: seq<string>)

  function Top(st: seq<string>): string
    requires st != []
  {
    st[|st| - 1]
  }

  function Pop(st: seq<string>): seq<string>
    requires st != []
  {
    st[..|st| - 1]
  }

  /** `xs` from last to first: the order in which popping a stack delivers it. */
  function Reverse(xs: seq<string>): (r: seq<string>)
    ensures |r| == |xs| && forall i :: 0 <= i < |xs| ==> r[i] == xs[|xs| - 1 - i]
  {
    if xs == [] then [] else [xs[|xs| - 1]] + Reverse(xs[..|xs| - 1])
  }

  /** Whether the entry on top of the stack must leave before the incoming operator `token` is pushed. */
  predicate Yields(top: string, token: string)
  {
    top != "(" && (PrecedenceOf(top) > PrecedenceOf(token) || (PrecedenceOf(top) == PrecedenceOf(token) && token != NOT))
  }

  /** Move the stack top to the queue while `pops` selects it: both inner loops of `convert`. */
  function PopWhile(sh: Shunt, pops: string -> bool): Shunt
    decreases |sh.stack|
  {
    if sh.stack != [] && pops(Top(sh.stack)) then
      PopWhile(Shunt(sh.queue + [Top(sh.stack)], Pop(sh.stack)), pops)
    else sh
  }

  /** The inner loop for an operator: move the stack top to the queue while it yields to `token`. */
  function PopOperators(sh: Shunt, token: string): Shunt
  {
    PopWhile(sh, top => Yields(top, token))
  }

  /** The inner loop for `)`: move the stack top to the queue until a `(` is on top. */
  function PopToParenthesis(sh: Shunt): Shunt
  {
    PopWhile(sh, top => top != "(")
  }

  /** The stack after popping its top `|st| - m` entries, and the queue that received them. */
  predicate PoppedTo(sh: Shunt, r: Shunt, m: nat)
  {
    m <= |sh.stack| && r.stack == sh.stack[..m] && r.queue == sh.queue + Reverse(sh.stack[m..])
  }

  lemma PopOne(sh: Shunt, m: nat)
    requires sh.stack != [] && m <= |sh.stack| - 1
    ensures Reverse(sh.stack[m..]) == [Top(sh.stack)] + Reverse(Pop(sh.stack)[m..])
  {
    var xs := sh.stack[m..];
    assert xs != [] && xs[|xs| - 1] == Top(sh.stack);
    assert xs[..|xs| - 1] == Pop(sh.stack)[m..];
  }

  /**
   * Popping while `pops` selects the top removes exactly the run of
   * stack-top entries that it selects, delivering them to the queue from the
   * top down; the entry left on top, if any, is not selected.
   */
  lemma {:induction false} PopWhileMeaning(sh: Shunt, pops: string -> bool)
    ensures |PopWhile(sh, pops).stack| <= |sh.stack|
    ensures PoppedTo(sh, PopWhile(sh, pops), |PopWhile(sh, pops).stack|)
    ensures forall k :: |PopWhile(sh, pops).stack| <= k < |sh.stack| ==> pops(sh.stack[k])
    ensures PopWhile(sh, pops).stack != [] ==> !pops(Top(PopWhile(sh, pops).stack))
    decreases |sh.stack|
  {
    if sh.stack != [] && pops(Top(sh.stack)) {
      var next := Shunt(sh.queue + [Top(sh.stack)], Pop(sh.stack));
      PopWhileMeaning(next, pops);
      var r := PopWhile(next, pops);
      assert PopWhile(sh, pops) == r;
      var m := |r.stack|;
      PopOne(sh, m);
      assert sh.stack[..m] == Pop(sh.stack)[..m];
      assert r.queue == sh.queue + ([Top(sh.stack)] + Reverse(Pop(sh.stack)[m..]));
      forall k | m <= k < |sh.stack| ensures pops(sh.stack[k]) {
        if k < |sh.stack| - 1 {
          assert sh.stack[k] == next.stack[k];
        }
      }
    } else {
      assert sh.stack[|sh.stack|..] == [];
    }
  }

  /**
   * An incoming operator pops exactly the run of stack-top entries that
   * yield to it, delivering them to the queue from the top down; the entry
   * left on top, if any, does not yield.
   */
  lemma PopOperatorsMeaning(sh: Shunt, token: string)
    ensures |PopOperators(sh, token).stack| <= |sh.stack|
    ensures PoppedTo(sh, PopOperators(sh, token), |PopOperators(sh, token).stack|)
    ensures forall k :: |PopOperators(sh, token).stack| <= k < |sh.stack| ==> Yields(sh.stack[k], token)
    ensures PopOperators(sh, token).stack != [] ==> !Yields(Top(PopOperators(sh, token).stack), token)
  {
    PopWhileMeaning(sh, top => Yields(top, token));
  }

  /**
   * A closing parenthesis pops every entry above the topmost `(`, delivering
   * them to the queue from the top down; the stack is then empty or has `(`
   * on top.
   */
  lemma PopToParenthesisMeaning(sh: Shunt)
    ensures |PopToParenthesis(sh).stack| <= |sh.stack|
    ensures PoppedTo(sh, PopToParenthesis(sh), |PopToParenthesis(sh).stack|)
    ensures forall k :: |PopToParenthesis(sh).stack| <= k < |sh.stack| ==> sh.stack[k] != "("
    ensures PopToParenthesis(sh).stack != [] ==> Top(PopToParenthesis(sh).stack) == "("
  {
    PopWhileMeaning(sh, top => top != "(");
  }

  const POP_FROM_EMPTY := "pop from empty list"

  /** One iteration of the token loop of `convert`. */
  function ShuntToken(sh: Shunt, token: string): Result<Shunt>
  {
    if IsOperand(token) then Ok(Shunt(sh.queue + [token], sh.stack))
    else if token == "(" then Ok(Shunt(sh.queue, sh.stack + ["("]))
    else if token == ")" then
      var p := PopToParenthesis(sh);
      if p.stack == [] then Err(POP_FROM_EMPTY) else Ok(Shunt(p.queue, Pop(p.stack)))
    else if IsOperator(token) then
      var p := PopOperators(sh, token);
      Ok(Shunt(p.queue, p.stack + [token]))
    else Ok(sh)
  }

  /** The token loop of `convert` over `tokens`, from the state `sh`; the first failure aborts. */
  function ShuntTokens(sh: Shunt, tokens: seq<string>): Result<Shunt>
    decreases |tokens|
  {
    if tokens == [] then Ok(sh)
    else match ShuntTokens(sh, tokens[..|tokens| - 1])
      case Err(m) => Err(m)
      case Ok(p) => ShuntToken(p, tokens[|tokens| - 1])
  }

  lemma ShuntClose(sh: Shunt)
    ensures var p := PopToParenthesis(sh);
      ShuntToken(sh, ")") == if p.stack == [] then Err(POP_FROM_EMPTY) else Ok(Shunt(p.queue, Pop(p.stack)))
  {
    assert !IsOperand(")");
  }

  lemma ShuntOperator(sh: Shunt, token: string)
    requires IsOperator(token)
    ensures var p := PopOperators(sh, token); ShuntToken(sh, token) == Ok(Shunt(p.queue, p.stack + [token]))
  {
    assert !IsOperand(token) && token != "(" && token != ")";
  }

  /** The token loop, one token further. */
  lemma ShuntTokensNext(sh: Shunt, tokens: seq<string>, k: nat, p: Shunt)
    requires k < |tokens| && ShuntTokens(sh, tokens[..k]) == Ok(p)
    ensures ShuntTokens(sh, tokens[..k + 1]) == ShuntToken(p, tokens[k])
  {
    assert tokens[..k + 1][..k] == tokens[..k];
  }

  /** The loop after the token loop: every operator left on the stack goes to the queue, top first. */
  function Drain(sh: Shunt): Shunt
  {
    Shunt(sh.queue + Reverse(sh.stack), [])
  }

  /** A failure in the token loop is the failure of the whole loop. */
  lemma {:induction false} ShuntFailurePersists(sh: Shunt, tokens: seq<string>, k: nat)
    requires k <= |tokens| && ShuntTokens(sh, tokens[..k]).Err?
    ensures ShuntTokens(sh, tokens) == ShuntTokens(sh, tokens[..k])
    decreases |tokens| - k
  {
    if k < |tokens| {
      assert tokens[..k + 1][..k] == tokens[..k];
      ShuntFailurePersists(sh, tokens, k + 1);
    } else {
      assert tokens[..k] == tokens;
    }
  }

  /**
   * What the operator stack holds between tokens: parentheses and operators,
   * and between two parentheses the precedences rise strictly towards the
   * top, except that ¬ may sit on ¬.
   */
  predicate WellStacked(st: seq<string>)
  {
    && (forall i :: 0 <= i < |st| ==> st[i] == "(" || IsOperator(st[i]))
    && (forall i :: 0 < i < |st| ==> st[i - 1] != "(" && st[i] != "(" ==> Rises(st[i - 1], st[i]))
  }

  predicate Rises(below: string, above: string)
  {
    PrecedenceOf(below) < PrecedenceOf(above) || (below == NOT && above == NOT)
  }

  /** Every step of the token loop keeps the stack well stacked. */
  lemma ShuntTokenKeepsStack(sh: Shunt, token: string)
    requires WellStacked(sh.stack) && ShuntToken(sh, token).Ok?
    ensures WellStacked(ShuntToken(sh, token).value.stack)
  {
    if IsOperand(token) || token == "(" {
    } else if token == ")" {
      PopToParenthesisMeaning(sh);
    } else if IsOperator(token) {
      PopOperatorsMeaning(sh, token);
      var p := PopOperators(sh, token);
      var st := p.stack + [token];
      forall i | 0 < i < |st| && st[i - 1] != "(" && st[i] != "("
        ensures Rises(st[i - 1], st[i])
      {
        if i == |st| - 1 {
          assert st[i - 1] == Top(p.stack) && !Yields(Top(p.stack), token);
        } else {
          assert st[i - 1] == sh.stack[i - 1] && st[i] == sh.stack[i];
        }
      }
    }
  }

  /** The entries of `xs` that `keep` selects, in order. */
  function Filter(xs: seq<string>, keep: string -> bool): seq<string>
  {
    if xs == [] then [] else (if keep(xs[0]) then [xs[0]] else []) + Filter(xs[1..], keep)
  }

  lemma {:induction false} FilterAppend(xs: seq<string>, ys: seq<string>, keep: string -> bool)
    ensures Filter(xs + ys, keep) == Filter(xs, keep) + Filter(ys, keep)
  {
    if xs == [] {
      assert xs + ys == ys;
    } else {
      var head := if keep(xs[0]) then [xs[0]] else [];
      assert (xs + ys)[0] == xs[0] && (xs + ys)[1..] == xs[1..] + ys;
      assert Filter(xs + ys, keep) == head + Filter(xs[1..] + ys, keep);
      FilterAppend(xs[1..], ys, keep);
      assert head + (Filter(xs[1..], keep) + Filter(ys, keep)) == (head + Filter(xs[1..], keep)) + Filter(ys, keep);
    }
  }

  lemma {:induction false} FilterNone(xs: seq<string>, keep: string -> bool)
    requires forall i :: 0 <= i < |xs| ==> !keep(xs[i])
    ensures Filter(xs, keep) == []
  {
    if xs != [] {
      FilterNone(xs[1..], keep);
    }
  }

  /** Reversing a list reverses the order of what a filter keeps, but not how often it keeps each entry. */
  lemma {:induction false} FilterReverse(xs: seq<string>, keep: string -> bool)
    ensures multiset(Filter(Reverse(xs), keep)) == multiset(Filter(xs, keep))
    decreases |xs|
  {
    if xs != [] {
      var init, last := xs[..|xs| - 1], xs[|xs| - 1];
      FilterReverse(init, keep);
      FilterAppend([last], Reverse(init), keep);
      FilterAppend(init, [last], keep);
      assert xs == init + [last];
    }
  }

  /** The operand tokens of a list, in order. */
  function Operands(xs: seq<string>): seq<string>
  {
    Filter(xs, IsOperand)
  }

  lemma OperandsAppend(xs: seq<string>, ys: seq<string>)
    ensures Operands(xs + ys) == Operands(xs) + Operands(ys)
  {
    FilterAppend(xs, ys, IsOperand);
  }

  lemma NoOperands(xs: seq<string>)
    requires forall i :: 0 <= i < |xs| ==> xs[i] == "(" || IsOperator(xs[i])
    ensures Operands(xs) == []
  {
    FilterNone(xs, IsOperand);
  }

  /** The operator tokens of a list, counted with multiplicity. */
  function Operators(xs: seq<string>): multiset<string>
  {
    multiset(Filter(xs, IsOperator))
  }

  lemma OperatorsAppend(xs: seq<string>, ys: seq<string>)
    ensures Operators(xs + ys) == Operators(xs) + Operators(ys)
  {
    FilterAppend(xs, ys, IsOperator);
  }

  lemma OperatorsReverse(xs: seq<string>)
    ensures Operators(Reverse(xs)) == Operators(xs)
  {
    FilterReverse(xs, IsOperator);
  }

  /** Moving the top `|st| - m` stack entries to the queue neither loses nor creates operands or operators. */
  lemma PoppedKeepsTokens(sh: Shunt, r: Shunt, m: nat)
    requires PoppedTo(sh, r, m) && WellStacked(sh.stack)
    ensures Operands(r.queue) == Operands(sh.queue)
    ensures Operators(r.queue) + Operators(r.stack) == Operators(sh.queue) + Operators(sh.stack)
  {
    var popped := sh.stack[m..];
    assert sh.stack == sh.stack[..m] + popped;
    OperandsAppend(sh.queue, Reverse(popped));
    NoOperands(Reverse(popped));
    OperatorsAppend(sh.queue, Reverse(popped));
    OperatorsReverse(popped);
    OperatorsAppend(sh.stack[..m], popped);
  }

  lemma OperatorsOfOne(t: string)
    ensures Operators([t]) == (if IsOperator(t) then multiset{t} else multiset{})
    ensures Operands([t]) == (if IsOperand(t) then [t] else [])
  {
    FilterOne(t, IsOperator);
    FilterOne(t, IsOperand);
  }

  lemma FilterOne(t: string, keep: string -> bool)
    ensures Filter([t], keep) == if keep(t) then [t] else []
  {
    assert [t][1..] == [];
  }

  /** One step of the token loop: operands reach the queue in their input order. */
  lemma ShuntTokenKeepsOperands(sh: Shunt, token: string)
    requires WellStacked(sh.stack) && ShuntToken(sh, token).Ok?
    ensures Operands(ShuntToken(sh, token).value.queue) == Operands(sh.queue) + Operands([token])
  {
    OperatorsOfOne(token);
    if IsOperand(token) {
      OperandsAppend(sh.queue, [token]);
    } else if token == "(" {
    } else if token == ")" {
      PopToParenthesisMeaning(sh);
      var p := PopToParenthesis(sh);
      PoppedKeepsTokens(sh, p, |p.stack|);
    } else if IsOperator(token) {
      PopOperatorsMeaning(sh, token);
      var p := PopOperators(sh, token);
      PoppedKeepsTokens(sh, p, |p.stack|);
    }
  }

  /** One step of the token loop: every operator read is on the queue or on the stack. */
  lemma ShuntTokenKeepsOperators(sh: Shunt, token: string)
    requires WellStacked(sh.stack) && ShuntToken(sh, token).Ok?
    ensures Operators(ShuntToken(sh, token).value.queue) + Operators(ShuntToken(sh, token).value.stack)
      == Operators(sh.queue) + Operators(sh.stack) + Operators([token])
  {
    if IsOperand(token) {
      OperandKeepsOperators(sh, token);
    } else if token == "(" {
      OpenKeepsOperators(sh);
    } else if token == ")" {
      CloseKeepsOperators(sh);
    } else if IsOperator(token) {
      PushKeepsOperators(sh, token);
    } else {
      OperatorsOfOne(token);
    }
  }

  lemma OperandKeepsOperators(sh: Shunt, token: string)
    requires IsOperand(token)
    ensures Operators(ShuntToken(sh, token).value.queue) + Operators(ShuntToken(sh, token).value.stack)
      == Operators(sh.queue) + Operators(sh.stack) + Operators([token])
  {
    OperatorsOfOne(token);
    assert ShuntToken(sh, token).value == Shunt(sh.queue + [token], sh.stack);
    OperatorsAppend(sh.queue, [token]);
    assert !IsOperator(token);
  }

  lemma OpenKeepsOperators(sh: Shunt)
    ensures Operators(ShuntToken(sh, "(").value.queue) + Operators(ShuntToken(sh, "(").value.stack)
      == Operators(sh.queue) + Operators(sh.stack) + Operators(["("])
  {
    OperatorsOfOne("(");
    assert ShuntToken(sh, "(").value == Shunt(sh.queue, sh.stack + ["("]);
    OperatorsAppend(sh.stack, ["("]);
  }

  lemma CloseKeepsOperators(sh: Shunt)
    requires WellStacked(sh.stack) && ShuntToken(sh, ")").Ok?
    ensures Operators(ShuntToken(sh, ")").value.queue) + Operators(ShuntToken(sh, ")").value.stack)
      == Operators(sh.queue) + Operators(sh.stack) + Operators([")"])
  {
    OperatorsOfOne(")");
    PopToParenthesisMeaning(sh);
    var p := PopToParenthesis(sh);
    PoppedKeepsTokens(sh, p, |p.stack|);
    DropParenthesis(p.stack);
  }

  lemma DropParenthesis(st: seq<string>)
    requires st != [] && Top(st) == "("
    ensures Operators(Pop(st)) == Operators(st)
  {
    assert st == Pop(st) + ["("];
    OperatorsAppend(Pop(st), ["("]);
    OperatorsOfOne("(");
  }

  lemma PushKeepsOperators(sh: Shunt, token: string)
    requires WellStacked(sh.stack) && IsOperator(token) && !IsOperand(token) && token != "(" && token != ")"
    ensures Operators(ShuntToken(sh, token).value.queue) + Operators(ShuntToken(sh, token).value.stack)
      == Operators(sh.queue) + Operators(sh.stack) + Operators([token])
  {
    OperatorsOfOne(token);
    PopOperatorsMeaning(sh, token);
    var p := PopOperators(sh, token);
    PoppedKeepsTokens(sh, p, |p.stack|);
    OperatorsAppend(p.stack, [token]);
    var a, b, c := Operators(p.queue), Operators(p.stack), multiset{token};
    assert a + (b + c) == (a + b) + c;
  }

  /**
   * The whole token loop, from an empty queue and stack: the stack stays
   * well stacked, the operands reach the queue in input order, and every
   * operator read is on the queue or on the stack.
   */
  lemma {:induction false} ShuntKeepsTokens(tokens: seq<string>)
    requires ShuntTokens(Shunt([], []), tokens).Ok?
    ensures WellStacked(ShuntTokens(Shunt([], []), tokens).value.stack)
    ensures Operands(ShuntTokens(Shunt([], []), tokens).value.queue) == Operands(tokens)
    ensures Operators(ShuntTokens(Shunt([], []), tokens).value.queue) + Operators(ShuntTokens(Shunt([], []), tokens).value.stack)
      == Operators(tokens)
    decreases |tokens|
  {
    if tokens != [] {
      var init, last := tokens[..|tokens| - 1], tokens[|tokens| - 1];
      ShuntKeepsTokens(init);
      var p := ShuntTokens(Shunt([], []), init).value;
      assert ShuntTokens(Shunt([], []), tokens) == ShuntToken(p, last);
      ShuntTokenKeepsStack(p, last);
      ShuntTokenKeepsOperands(p, last);
      ShuntTokenKeepsOperators(p, last);
      assert tokens == init + [last];
      OperandsAppend(init, [last]);
      OperatorsAppend(init, [last]);
    }
  }

  /**
   * The queue `convert` hands to the postfix evaluator holds the operands of
   * the input in their input order and exactly its operators.
   */
  lemma QueueKeepsTokens(text: string)
    requires ShuntTokens(Shunt([], []), Tokenize(text)).Ok?
    ensures Operands(Drain(ShuntTokens(Shunt([], []), Tokenize(text)).value).queue) == Operands(Tokenize(text))
    ensures Operators(Drain(ShuntTokens(Shunt([], []), Tokenize(text)).value).queue) == Operators(Tokenize(text))
  {
    var tokens := Tokenize(text);
    ShuntKeepsTokens(tokens);
    var r := ShuntTokens(Shunt([], []), tokens).value;
    PoppedKeepsTokens(r, Drain(r), 0);
    assert r.stack[..0] == [] && r.stack[0..] == r.stack;
    assert Operators([]) == multiset{};
  }

  // ---------------------------------------------------------------------------
  // From the postfix queue to a text
  // ---------------------------------------------------------------------------

  const CANNOT_FORM := "Error converting from relaxed syntax to strong syntax"

  /** Python's `text[1:-1]`: the text without its first and last characters, empty when nothing is left. */
  function Inner(text: string): (r: string)
    ensures |text| >= 2 ==> "(" + r + ")" == text || text[0] != '(' || text[|text| - 1] != ')'
  {
    if |text| >= 2 then text[1..|text| - 1] else ""
  }

  /**
   * The text for a binary operator, as `construct_expression_from_postfix`
   * writes it: for ∧ and ∨, a left operand whose text contains the operator
   * symbol anywhere loses its outer characters, so that chains of the same
   * junction share one pair of parentheses.
   */
  function Combine(token: string, left: string, right: string): string
  {
    if (token == AND || token == OR) && token[0] in left then "(" + Inner(left) + token + right + ")"
    else "(" + left + token + right + ")"
  }

  /** One iteration of the postfix loop: an operator takes its operands off the stack, anything else is pushed. */
  function PostfixStep(st: seq<string>, token: string): Result<seq<string>>
  {
    if IsOperator(token) then
      if token == NOT then
        if st == [] then Err(POP_FROM_EMPTY) else Ok(Pop(st) + ["(¬" + Top(st) + ")"])
      else if |st| < 2 then Err(POP_FROM_EMPTY)
      else Ok(st[..|st| - 2] + [Combine(token, st[|st| - 2], st[|st| - 1])])
    else Ok(st + [token])
  }

  function PostfixStack(queue: seq<string>): Result<seq<string>>
    decreases |queue|
  {
    if queue == [] then Ok([])
    else match PostfixStack(queue[..|queue| - 1])
      case Err(m) => Err(m)
      case Ok(st) => PostfixStep(st, queue[|queue| - 1])
  }

  /** `construct_expression_from_postfix`: the one text left on the stack, or a failure. */
  function Construct(queue: seq<string>): Result<string>
  {
    match PostfixStack(queue)
    case Err(m) => Err(m)
    case Ok(st) => if |st| != 1 then Err(CANNOT_FORM) else Ok(st[0])
  }

  /** The stack of texts, one queue entry further. */
  lemma PostfixStackNext(queue: seq<string>, k: nat, st: seq<string>)
    requires k < |queue| && PostfixStack(queue[..k]) == Ok(st)
    ensures PostfixStack(queue[..k + 1]) == PostfixStep(st, queue[k])
  {
    assert queue[..k + 1][..k] == queue[..k];
  }

  lemma {:induction false} PostfixFailurePersists(queue: seq<string>, k: nat)
    requires k <= |queue| && PostfixStack(queue[..k]).Err?
    ensures PostfixStack(queue) == PostfixStack(queue[..k])
    decreases |queue| - k
  {
    if k < |queue| {
      assert queue[..k + 1][..k] == queue[..k];
      PostfixFailurePersists(queue, k + 1);
    } else {
      assert queue[..k] == queue;
    }
  }

  // The postfix queue read as a tree, and the text the evaluator is meant to build.

  /** One iteration of the postfix loop building trees instead of texts. */
  function TreeStep(st: seq<Node>, token: string): Result<seq<Node>>
  {
    if IsOperator(token) then
      if token == NOT then
        if st == [] then Err(POP_FROM_EMPTY) else Ok(st[..|st| - 1] + [Node(NOT, [st[|st| - 1]])])
      else if |st| < 2 then Err(POP_FROM_EMPTY)
      else Ok(st[..|st| - 2] + [Node(token, [st[|st| - 2], st[|st| - 1]])])
    else Ok(st + [Node(token, [])])
  }

  /** The trees the postfix queue describes. */
  function PostfixTrees(queue: seq<string>): Result<seq<Node>>
    decreases |queue|
  {
    if queue == [] then Ok([])
    else match PostfixTrees(queue[..|queue| - 1])
      case Err(m) => Err(m)
      case Ok(st) => TreeStep(st, queue[|queue| - 1])
  }

  /** A ∧ or ∨ whose left operand is the same junction takes over that operand's children. */
  function Merged(n: Node): Node
    decreases n, 1
  {
    if IsJunction(n.name) && |n.children| == 2 then
      var l, r := Merged(n.children[0]), Merged(n.children[1]);
      if l.name == n.name && l.children != [] then Node(n.name, l.children + [r]) else Node(n.name, [l, r])
    else Node(n.name, MergedAll(n.children))
  }

  function MergedAll(cs: seq<Node>): (r: seq<Node>)
    ensures |r| == |cs| && forall i :: 0 <= i < |cs| ==> r[i] == Merged(cs[i])
    decreases cs, 0
  {
    if cs == [] then [] else [Merged(cs[0])] + MergedAll(cs[1..])
  }

  /** Merging left chains of a junction keeps the truth value under every valuation. */
  lemma {:induction false} MergedKeepsTruth(n: Node, v: Valuation)
    ensures Holds(Merged(n), v) == Holds(n, v)
  {
    if IsJunction(n.name) && |n.children| == 2 {
      var a, b := n.children[0], n.children[1];
      MergedKeepsTruth(a, v);
      MergedKeepsTruth(b, v);
      var l, r := Merged(a), Merged(b);
      if l.name == n.name && l.children != [] {
        JunctionSnoc(n.name, l.children, r, v);
        assert l == Node(n.name, l.children);
      } else {
        JunctionPair(n.name, l, r, v);
      }
      JunctionPair(n.name, a, b, v);
      assert n == Node(n.name, [a, b]);
    } else {
      forall i | 0 <= i < |n.children| ensures Holds(Merged(n.children[i]), v) == Holds(n.children[i], v) {
        MergedKeepsTruth(n.children[i], v);
      }
      var m := Merged(n);
      assert m.name == n.name && |m.children| == |n.children|;
      if n.name == AND {
        assert Holds(m, v) == Holds(n, v);
      } else if n.name == OR {
        assert Holds(m, v) == Holds(n, v);
      }
    }
  }

  lemma JunctionPair(j: string, x: Node, y: Node, v: Valuation)
    requires IsJunction(j)
    ensures Holds(Node(j, [x, y]), v) == (if j == AND then Holds(x, v) && Holds(y, v) else Holds(x, v) || Holds(y, v))
  {
    var ds := [x, y];
    assert ds[0] == x && ds[1] == y;
  }

  lemma JunctionSnoc(j: string, cs: seq<Node>, x: Node, v: Valuation)
    requires IsJunction(j)
    ensures Holds(Node(j, cs + [x]), v) == (if j == AND then Holds(Node(j, cs), v) && Holds(x, v) else Holds(Node(j, cs), v) || Holds(x, v))
  {
    var ds := cs + [x];
    assert forall i :: 0 <= i < |cs| ==> ds[i] == cs[i];
    assert ds[|cs|] == x;
    if j == OR && Holds(Node(j, ds), v) {
      var i :| 0 <= i < |ds| && Holds(ds[i], v);
      if i < |cs| {
        assert Holds(cs[i], v);
      }
    }
  }

  /** The blank-free rendering the converter writes: like `get_node_expression`, without blanks around connectives. */
  function Compact(n: Node): string
    decreases n, 1
  {
    if n.children == [] then n.name
    else if n.name == NOT then "(¬" + Compact(n.children[0]) + ")"
    else "(" + CompactJoin(n.children, n.name) + ")"
  }

  function CompactJoin(cs: seq<Node>, sep: string): string
    decreases cs, 0
  {
    if cs == [] then ""
    else if |cs| == 1 then Compact(cs[0])
    else Compact(cs[0]) + sep + CompactJoin(cs[1..], sep)
  }

  lemma {:induction false} CompactJoinSnoc(cs: seq<Node>, x: Node, sep: string)
    requires cs != []
    ensures CompactJoin(cs + [x], sep) == CompactJoin(cs, sep) + sep + Compact(x)
    decreases |cs|
  {
    var ds := cs + [x];
    assert ds[0] == cs[0];
    if |cs| == 1 {
      assert ds[1..] == [x];
    } else {
      assert ds[1..] == cs[1..] + [x];
      CompactJoinSnoc(cs[1..], x, sep);
    }
  }

  /** A text on the corrected evaluator's stack, with the connective at the head of its formula ("" for an operand). */
  datatype Entry = Entry(text: string, head: string)

  /** The intended combination: a left operand is opened up only when its head is the same junction. */
  function CombineCorrected(token: string, left: Entry, right: Entry): Entry
  {
    if (token == AND || token == OR) && left.head == token then Entry("(" + Inner(left.text) + token + right.text + ")", token)
    else Entry("(" + left.text + token + right.text + ")", token)
  }

  function CorrectedStep(st: seq<Entry>, token: string): Result<seq<Entry>>
  {
    if IsOperator(token) then
      if token == NOT then
        if st == [] then Err(POP_FROM_EMPTY) else Ok(st[..|st| - 1] + [Entry("(¬" + st[|st| - 1].text + ")", NOT)])
      else if |st| < 2 then Err(POP_FROM_EMPTY)
      else Ok(st[..|st| - 2] + [CombineCorrected(token, st[|st| - 2], st[|st| - 1])])
    else Ok(st + [Entry(token, "")])
  }

  function CorrectedStack(queue: seq<string>): Result<seq<Entry>>
    decreases |queue|
  {
    if queue == [] then Ok([])
    else match CorrectedStack(queue[..|queue| - 1])
      case Err(m) => Err(m)
      case Ok(st) => CorrectedStep(st, queue[|queue| - 1])
  }

  /** The postfix evaluator with the intended merge test. */
  function ConstructCorrected(queue: seq<string>): Result<string>
  {
    match CorrectedStack(queue)
    case Err(m) => Err(m)
    case Ok(st) => if |st| != 1 then Err(CANNOT_FORM) else Ok(st[0].text)
  }

  /** What the corrected evaluator keeps for a tree: the rendering of the merged tree and its head. */
  function EntryOf(n: Node): Entry
  {
    var m := Merged(n);
    Entry(Compact(m), if m.children == [] then "" else m.name)
  }

  predicate Tracks(es: seq<Entry>, ns: seq<Node>)
  {
    |es| == |ns| && forall i :: 0 <= i < |es| ==> es[i] == EntryOf(ns[i])
  }

  lemma MergedPair(token: string, a: Node, b: Node)
    requires token != NOT
    ensures var l, r := Merged(a), Merged(b);
      Merged(Node(token, [a, b])) ==
        if IsJunction(token) && l.name == token && l.children != [] then Node(token, l.children + [r]) else Node(token, [l, r])
  {
    var n := Node(token, [a, b]);
    assert n.children[0] == a && n.children[1] == b;
  }

  lemma CombineTracks(token: string, a: Node, b: Node)
    requires IsOperator(token) && token != NOT
    ensures CombineCorrected(token, EntryOf(a), EntryOf(b)) == EntryOf(Node(token, [a, b]))
  {
    var l, r := Merged(a), Merged(b);
    MergedPair(token, a, b);
    if IsJunction(token) && l.name == token && l.children != [] {
      MergeRendering(token, l, r);
    } else {
      PairRendering(token, l, r);
      assert IsJunction(token) ==> EntryOf(a).head != token;
    }
  }

  lemma MergeRendering(token: string, l: Node, r: Node)
    requires IsJunction(token) && l.name == token && l.children != []
    ensures Compact(Node(token, l.children + [r])) == "(" + Inner(Compact(l)) + token + Compact(r) + ")"
  {
    var cj := CompactJoin(l.children, token);
    var ds := l.children + [r];
    CompactJoinSnoc(l.children, r, token);
    assert Compact(l) == "(" + cj + ")";
    assert Compact(Node(token, ds)) == "(" + CompactJoin(ds, token) + ")";
    WrappedInner(cj, token, Compact(r));
  }

  /** The inner text of a parenthesised text, and the regrouping of a wrapped concatenation. */
  lemma WrappedInner(a: string, b: string, c: string)
    ensures Inner("(" + a + ")") == a
    ensures "(" + (a + b + c) + ")" == "(" + a + b + c + ")"
  {
    var w := "(" + a + ")";
    assert w[1..|w| - 1] == a;
  }

  lemma PairRendering(token: string, l: Node, r: Node)
    requires token != NOT
    ensures Compact(Node(token, [l, r])) == "(" + Compact(l) + token + Compact(r) + ")"
  {
    assert [l, r][1..] == [r];
    assert CompactJoin([l, r], token) == Compact(l) + token + Compact(r);
  }

  lemma CorrectedStepTracks(es: seq<Entry>, ns: seq<Node>, token: string)
    requires Tracks(es, ns)
    ensures CorrectedStep(es, token).Ok? == TreeStep(ns, token).Ok?
    ensures CorrectedStep(es, token).Ok? ==> Tracks(CorrectedStep(es, token).value, TreeStep(ns, token).value)
  {
    var k := |es|;
    if IsOperator(token) && token != NOT && k >= 2 {
      CombineTracks(token, ns[k - 2], ns[k - 1]);
    } else if token == NOT && k >= 1 {
      var n := Node(NOT, [ns[k - 1]]);
      assert Merged(n) == Node(NOT, [Merged(ns[k - 1])]);
    }
  }

  /**
   * The corrected evaluator fails exactly when the queue does not describe
   * trees, and otherwise keeps, for each tree, the rendering of its merged
   * form.
   */
  lemma {:induction false} CorrectedStackTracks(queue: seq<string>)
    ensures CorrectedStack(queue).Ok? == PostfixTrees(queue).Ok?
    ensures CorrectedStack(queue).Ok? ==> Tracks(CorrectedStack(queue).value, PostfixTrees(queue).value)
    decreases |queue|
  {
    if queue != [] {
      CorrectedStackTracks(queue[..|queue| - 1]);
      if CorrectedStack(queue[..|queue| - 1]).Ok? {
        CorrectedStepTracks(CorrectedStack(queue[..|queue| - 1]).value, PostfixTrees(queue[..|queue| - 1]).value, queue[|queue| - 1]);
      }
    }
  }

  /**
   * The corrected evaluator's text is the rendering of the merged tree the
   * postfix queue describes, and that tree has the queue's truth value
   * under every valuation.
   */
  lemma ConstructCorrectedMeaning(queue: seq<string>, v: Valuation)
    ensures ConstructCorrected(queue).Ok? <==> PostfixTrees(queue).Ok? && |PostfixTrees(queue).value| == 1
    ensures ConstructCorrected(queue).Ok? ==>
      var n := PostfixTrees(queue).value[0];
      ConstructCorrected(queue).value == Compact(Merged(n)) && Holds(Merged(n), v) == Holds(n, v)
  {
    CorrectedStackTracks(queue);
    if PostfixTrees(queue).Ok? && |PostfixTrees(queue).value| == 1 {
      MergedKeepsTruth(PostfixTrees(queue).value[0], v);
    }
  }

  /**
   * The queue `convert` builds for `(P∧Q∨R)∧S`. The as-written test opens up
   * the left operand `((P∧Q)∨R)` of the last ∧ because it contains ∧
   * somewhere, though its head is ∨; the result puts ∨ and ∧ side by side in
   * one pair of parentheses. The corrected test keeps the parentheses.
   */
  lemma MergeTestMisfires(q: seq<string>)
    requires |q| == 7 && q[0] == "P" && q[1] == "Q" && q[2] == AND && q[3] == "R" && q[4] == OR && q[5] == "S" && q[6] == AND
    ensures Construct(q) == Ok("((P∧Q)∨R∧S)")
  {
    PostfixOfChain(q, "P", "Q", "R", "S");
    CombineSamples();
  }

  lemma CorrectedMergeKeepsParentheses(q: seq<string>)
    requires |q| == 7 && q[0] == "P" && q[1] == "Q" && q[2] == AND && q[3] == "R" && q[4] == OR && q[5] == "S" && q[6] == AND
    ensures ConstructCorrected(q) == Ok("(((P∧Q)∨R)∧S)")
  {
    var p, q1, r, s := Entry("P", ""), Entry("Q", ""), Entry("R", ""), Entry("S", "");
    CorrectedOfChain(q, "P", "Q", "R", "S");
    assert CombineCorrected(AND, p, q1) == Entry("(P∧Q)", AND);
    assert CombineCorrected(OR, Entry("(P∧Q)", AND), r) == Entry("((P∧Q)∨R)", OR);
    assert CombineCorrected(AND, Entry("((P∧Q)∨R)", OR), s).text == "(((P∧Q)∨R)∧S)";
  }

  /** The three texts the as-written test builds for the queue of `(P∧Q∨R)∧S`. */
  lemma CombineSamples()
    ensures Combine(AND, "P", "Q") == "(P∧Q)"
    ensures Combine(OR, "(P∧Q)", "R") == "((P∧Q)∨R)"
    ensures Combine(AND, "((P∧Q)∨R)", "S") == "((P∧Q)∨R∧S)"
  {
    CombineFirst();
    CombineSecond();
    CombineThird();
  }

  lemma CombineFirst()
    ensures Combine(AND, "P", "Q") == "(P∧Q)"
  {
    assert AND[0] == '∧' && "P" == ['P'];
  }

  lemma CombineSecond()
    ensures Combine(OR, "(P∧Q)", "R") == "((P∧Q)∨R)"
  {
    var l := "(P∧Q)";
    assert OR[0] == '∨' && l == ['(', 'P', '∧', 'Q', ')'];
    assert OR[0] !in l;
  }

  lemma CombineThird()
    ensures Combine(AND, "((P∧Q)∨R)", "S") == "((P∧Q)∨R∧S)"
  {
    var l := "((P∧Q)∨R)";
    assert AND[0] == '∧' && l[3] == '∧';
    assert Inner(l) == "(P∧Q)∨R";
  }

  /** The postfix evaluation of the queue `a b ∧ c ∨ d ∧`. */
  lemma PostfixOfChain(q: seq<string>, a: string, b: string, c: string, d: string)
    requires |q| == 7 && q[0] == a && q[1] == b && q[2] == AND && q[3] == c && q[4] == OR && q[5] == d && q[6] == AND
    requires !IsOperator(a) && !IsOperator(b) && !IsOperator(c) && !IsOperator(d)
    ensures PostfixStack(q) == Ok([Combine(AND, Combine(OR, Combine(AND, a, b), c), d)])
  {
    var e: seq<string> := [];
    var ab := Combine(AND, a, b);
    var abc := Combine(OR, ab, c);
    var q1 := e + [a];
    var q3 := q1 + [b] + [AND];
    var q5 := q3 + [c] + [OR];
    var q7 := q5 + [d] + [AND];
    assert PostfixStack(e) == Ok(e);
    PostfixPush(e, a, e);
    PostfixPush(q1, b, e + [a]);
    PostfixCombine(q1 + [b], AND, e, a, b);
    PostfixPush(q3, c, e + [ab]);
    PostfixCombine(q3 + [c], OR, e, ab, c);
    PostfixPush(q5, d, e + [abc]);
    PostfixCombine(q5 + [d], AND, e, abc, d);
    assert q == q7 && e + [Combine(AND, abc, d)] == [Combine(AND, abc, d)];
  }

  /** The corrected evaluation of the queue `a b ∧ c ∨ d ∧`. */
  lemma CorrectedOfChain(q: seq<string>, a: string, b: string, c: string, d: string)
    requires |q| == 7 && q[0] == a && q[1] == b && q[2] == AND && q[3] == c && q[4] == OR && q[5] == d && q[6] == AND
    requires !IsOperator(a) && !IsOperator(b) && !IsOperator(c) && !IsOperator(d)
    ensures CorrectedStack(q) == Ok([CombineCorrected(AND, CombineCorrected(OR, CombineCorrected(AND, Entry(a, ""), Entry(b, "")), Entry(c, "")), Entry(d, ""))])
  {
    var e: seq<Entry> := [];
    var eq: seq<string> := [];
    var ea, eb, ec, ed := Entry(a, ""), Entry(b, ""), Entry(c, ""), Entry(d, "");
    var ab := CombineCorrected(AND, ea, eb);
    var abc := CombineCorrected(OR, ab, ec);
    var q1 := eq + [a];
    var q3 := q1 + [b] + [AND];
    var q5 := q3 + [c] + [OR];
    var q7 := q5 + [d] + [AND];
    assert CorrectedStack(eq) == Ok(e);
    CorrectedPush(eq, a, e);
    CorrectedPush(q1, b, e + [ea]);
    CorrectedCombine(q1 + [b], AND, e, ea, eb);
    CorrectedPush(q3, c, e + [ab]);
    CorrectedCombine(q3 + [c], OR, e, ab, ec);
    CorrectedPush(q5, d, e + [abc]);
    CorrectedCombine(q5 + [d], AND, e, abc, ed);
    assert q == q7 && e + [CombineCorrected(AND, abc, ed)] == [CombineCorrected(AND, abc, ed)];
  }

  lemma PostfixPush(queue: seq<string>, token: string, st: seq<string>)
    requires PostfixStack(queue) == Ok(st) && !IsOperator(token)
    ensures PostfixStack(queue + [token]) == Ok(st + [token])
  {
    assert (queue + [token])[..|queue|] == queue;
  }

  lemma PostfixCombine(queue: seq<string>, token: string, st: seq<string>, left: string, right: string)
    requires PostfixStack(queue) == Ok(st + [left] + [right]) && IsOperator(token) && token != NOT
    ensures PostfixStack(queue + [token]) == Ok(st + [Combine(token, left, right)])
  {
    assert (queue + [token])[..|queue|] == queue;
    var s := st + [left] + [right];
    assert s[..|st|] == st && s[|s| - 2] == left && s[|s| - 1] == right;
  }

  lemma CorrectedPush(queue: seq<string>, token: string, st: seq<Entry>)
    requires CorrectedStack(queue) == Ok(st) && !IsOperator(token)
    ensures CorrectedStack(queue + [token]) == Ok(st + [Entry(token, "")])
  {
    assert (queue + [token])[..|queue|] == queue;
  }

  lemma CorrectedCombine(queue: seq<string>, token: string, st: seq<Entry>, left: Entry, right: Entry)
    requires CorrectedStack(queue) == Ok(st + [left] + [right]) && IsOperator(token) && token != NOT
    ensures CorrectedStack(queue + [token]) == Ok(st + [CombineCorrected(token, left, right)])
  {
    assert (queue + [token])[..|queue|] == queue;
    var s := st + [left] + [right];
    assert s[..|st|] == st && s[|s| - 2] == left && s[|s| - 1] == right;
  }

  /** The texts on a corrected stack. */
  function Texts(es: seq<Entry>): (ts: seq<string>)
    ensures |ts| == |es| && forall i :: 0 <= i < |es| ==> ts[i] == es[i].text
  {
    if es == [] then [] else Texts(es[..|es| - 1]) + [es[|es| - 1].text]
  }

  /** The two evaluators differ only in the ∧ and ∨ merge test: on a queue without junctions they agree. */
  lemma {:induction false} AgreeWithoutJunctions(queue: seq<string>)
    requires forall i :: 0 <= i < |queue| ==> queue[i] != AND && queue[i] != OR
    ensures PostfixStack(queue).Ok? <==> CorrectedStack(queue).Ok?
    ensures PostfixStack(queue).Ok? ==> PostfixStack(queue).value == Texts(CorrectedStack(queue).value)
    ensures Construct(queue) == ConstructCorrected(queue)
    decreases |queue|
  {
    if queue != [] {
      var init := queue[..|queue| - 1];
      AgreeWithoutJunctions(init);
      if PostfixStack(init).Ok? {
        var st, es := PostfixStack(init).value, CorrectedStack(init).value;
        var token := queue[|queue| - 1];
        if IsOperator(token) && token != NOT && |st| >= 2 {
          assert Texts(es[..|es| - 2]) == st[..|st| - 2];
        } else if IsOperator(token) && token == NOT && st != [] {
          assert Texts(es[..|es| - 1]) == st[..|st| - 1];
        }
      }
    }
  }

  // ---------------------------------------------------------------------------
  // The converter object
  // ---------------------------------------------------------------------------

  /** Python's `replace(" ", "")`. */
  function RemoveBlanks(text: string): (r: string)
    ensures forall k :: 0 <= k < |r| ==> r[k] != ' '
    ensures IsSubsequence(r, text)
  {
    if text == [] then []
    else if text[0] == ' ' then
      var r := RemoveBlanks(text[1..]);
      assert r != [] ==> IsSubsequence(r, text[1..]);
      r
    else [text[0]] + RemoveBlanks(text[1..])
  }

  /** shunting_yard.py `ShuntingYardConverter`: the blank-free input, the output queue and the operator stack. */
  class Converter {
    var expression: string
    var outputQueue: seq<string>
    var operatorStack: seq<string>

    constructor(text: string)
      ensures expression == RemoveBlanks(text) && outputQueue == [] && operatorStack == []
    {
      expression := RemoveBlanks(text);
      outputQueue := [];
      operatorStack := [];
    }

    /** One pass of the token loop of `convert`: `failed` exactly when a ")" finds no "(" on the stack. */
    method ShuntOne(token: string) returns (failed: bool)
      modifies this
      ensures expression == old(expression)
      ensures ShuntToken(Shunt(old(outputQueue), old(operatorStack)), token).Err? <==> failed
      ensures !failed ==> ShuntToken(Shunt(old(outputQueue), old(operatorStack)), token) == Ok(Shunt(outputQueue, operatorStack))
      ensures failed ==> ShuntToken(Shunt(old(outputQueue), old(operatorStack)), token) == Err(POP_FROM_EMPTY)
    {
      ghost var before := Shunt(outputQueue, operatorStack);
      failed := false;
      if IsOperand(token) {
        outputQueue := outputQueue + [token];
      } else if token == "(" {
        operatorStack := operatorStack + [token];
      } else if token == ")" {
        while operatorStack != [] && Top(operatorStack) != "("
          invariant expression == old(expression)
          invariant PopToParenthesis(Shunt(outputQueue, operatorStack)) == PopToParenthesis(before)
          decreases |operatorStack|
        {
          outputQueue := outputQueue + [Top(operatorStack)];
          operatorStack := Pop(operatorStack);
        }
        ShuntClose(before);
        if operatorStack == [] {
          return true;
        }
        operatorStack := Pop(operatorStack);
      } else if IsOperator(token) {
        while operatorStack != [] && Yields(Top(operatorStack), token)
          invariant expression == old(expression)
          invariant PopOperators(Shunt(outputQueue, operatorStack), token) == PopOperators(before, token)
          decreases |operatorStack|
        {
          outputQueue := outputQueue + [Top(operatorStack)];
          operatorStack := Pop(operatorStack);
        }
        ShuntOperator(before, token);
        operatorStack := operatorStack + [token];
      }
    }

    /**
     * `convert`: run the token loop and the final drain of the stack, then
     * build the text from the queue. A `)` without a matching `(` fails.
     */
    method Convert() returns (r: Result<string>)
      modifies this
      ensures expression == old(expression)
      ensures ShuntTokens(Shunt(old(outputQueue), old(operatorStack)), Tokenize(expression)).Err? ==>
        r == Err(ShuntTokens(Shunt(old(outputQueue), old(operatorStack)), Tokenize(expression)).message)
      ensures ShuntTokens(Shunt(old(outputQueue), old(operatorStack)), Tokenize(expression)).Ok? ==>
        && outputQueue == Drain(ShuntTokens(Shunt(old(outputQueue), old(operatorStack)), Tokenize(expression)).value).queue
        && operatorStack == []
        && r == Construct(outputQueue)
    {
      var tokens := Tokenize(expression);
      ghost var start := Shunt(outputQueue, operatorStack);
      var k := 0;
      while k < |tokens|
        invariant 0 <= k <= |tokens| && expression == old(expression)
        invariant start == Shunt(old(outputQueue), old(operatorStack))
        invariant ShuntTokens(start, tokens[..k]) == Ok(Shunt(outputQueue, operatorStack))
      {
        ghost var before := Shunt(outputQueue, operatorStack);
        ShuntTokensNext(start, tokens, k, before);
        var failed := ShuntOne(tokens[k]);
        if failed {
          ShuntFailurePersists(start, tokens, k + 1);
          return Err(POP_FROM_EMPTY);
        }
        k := k + 1;
      }
      assert tokens[..k] == tokens;
      ghost var afterLoop := Shunt(outputQueue, operatorStack);
      while operatorStack != []
        invariant expression == old(expression)
        invariant Drain(Shunt(outputQueue, operatorStack)) == Drain(afterLoop)
        decreases |operatorStack|
      {
        outputQueue := outputQueue + [Top(operatorStack)];
        operatorStack := Pop(operatorStack);
      }
      r := ConstructExpressionFromPostfix();
    }

    /** `construct_expression_from_postfix`: evaluate the output queue on a stack of texts. */
    method ConstructExpressionFromPostfix() returns (r: Result<string>)
      ensures r == Construct(outputQueue)
    {
      var stack: seq<string> := [];
      var k := 0;
      while k < |outputQueue|
        invariant 0 <= k <= |outputQueue|
        invariant PostfixStack(outputQueue[..k]) == Ok(stack)
      {
        var token := outputQueue[k];
        PostfixStackNext(outputQueue, k, stack);
        if IsOperator(token) {
          var text;
          if token == NOT {
            if stack == [] {
              PostfixFailurePersists(outputQueue, k + 1);
              return Err(POP_FROM_EMPTY);
            }
            var operand := Top(stack);
            stack := Pop(stack);
            text := "(¬" + operand + ")";
          } else {
            if stack == [] {
              PostfixFailurePersists(outputQueue, k + 1);
              return Err(POP_FROM_EMPTY);
            }
            ghost var before := stack;
            var right := Top(stack);
            stack := Pop(stack);
            if stack == [] {
              PostfixFailurePersists(outputQueue, k + 1);
              return Err(POP_FROM_EMPTY);
            }
            var left := Top(stack);
            stack := Pop(stack);
            assert stack == before[..|before| - 2];
            if (token == OR || token == AND) && token[0] in left {
              var newLeft := Inner(left);
              text := "(" + newLeft + token + right + ")";
            } else {
              text := "(" + left + token + right + ")";
            }
          }
          stack := stack + [text];
        } else {
          stack := stack + [token];
        }
        k := k + 1;
      }
      assert outputQueue[..k] == outputQueue;
      if |stack| != 1 {
        return Err(CANNOT_FORM);
      }
      return Ok(stack[0]);
    }
  }
}
