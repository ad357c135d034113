/**
 * The formula tree shared by every part of the toolchain: a node is a label
 * and an ordered list of children. Labels are the connectives, the truth
 * constants and proposition names. The parent back-links of the original
 * tree type are not modelled: trees are immutable values here.
 */
module Syntax {

  datatype Node = Node(name: string, children: seq<Node>)

  /** The outcome of an operation that the source may abandon by raising. */
  datatype Result<T> = Ok(value: T) | Err(message: string)

  datatype Option<T> = None | Some(value: T)

  const NOT: string := "¬"
  const AND: string := "∧"
  const OR: string := "∨"
  const IMP: string := "⇒"
  const IFF: string := "⇔"
  const TOP: string := "⊤"
  const BOT: string := "⊥"

  /** The seven reserved labels are pairwise different. */
  lemma LabelsDistinct()
    ensures NOT != AND && NOT != OR && NOT != IMP && NOT != IFF && NOT != TOP && NOT != BOT
    ensures AND != OR && AND != IMP && AND != IFF && AND != TOP && AND != BOT
    ensures OR != IMP && OR != IFF && OR != TOP && OR != BOT
    ensures IMP != IFF && IMP != TOP && IMP != BOT && IFF != TOP && IFF != BOT && TOP != BOT
  {
  }

  /** Upper-case letters; the model restricts `str.isupper` to ASCII. */
  predicate IsUpper(c: char) { 'A' <= c <= 'Z' }

  predicate IsDigit(c: char) { '0' <= c <= '9' }

  /** Letters and digits; the model restricts `str.isalnum` to ASCII. */
  predicate IsAlnum(c: char) { IsUpper(c) || ('a' <= c <= 'z') || IsDigit(c) }

  /** A label that the source treats as a variable: upper-case initial, all alphanumeric. */
  predicate IsVariableName(s: string) {
    |s| > 0 && IsUpper(s[0]) && forall i :: 0 <= i < |s| ==> IsAlnum(s[i])
  }

  /** Labels that `get_variables` collects: variables and the two truth constants. */
  predicate IsPropName(s: string) {
    IsVariableName(s) || s == TOP || s == BOT
  }

  predicate IsJunction(s: string) { s == AND || s == OR }

  predicate IsConnective(s: string) {
    s == NOT || s == AND || s == OR || s == IMP || s == IFF
  }

  /** The other junction: ∧ for ∨ and ∨ for ∧. */
  function DualJunction(s: string): (r: string)
    requires IsJunction(s)
    ensures IsJunction(r) && r != s
  {
    if s == AND then OR else AND
  }

  /**
   * The shape every tree of the toolchain has: each label is a connective or
   * a proposition name, proposition names label leaves, ¬ has one child,
   * ⇒ and ⇔ have two, and ∧ and ∨ have at least one (a junction left with a
   * single child by simplification still counts).
   */
  predicate WellShaped(n: Node) {
    && (IsConnective(n.name) || IsPropName(n.name))
    && (IsPropName(n.name) ==> n.children == [])
    && (n.name == NOT ==> |n.children| == 1)
    && (n.name == IMP || n.name == IFF ==> |n.children| == 2)
    && (IsJunction(n.name) ==> |n.children| >= 1)
    && forall i :: 0 <= i < |n.children| ==> WellShaped(n.children[i])
  }

  predicate AllWellShaped(cs: seq<Node>) {
    forall i :: 0 <= i < |cs| ==> WellShaped(cs[i])
  }

  /** The variables of a tree (utility.py `get_variables`): proposition names are collected, other labels are looked through. */
  function Variables(n: Node): set<string>
  {
    if IsPropName(n.name) then {n.name} else VariablesOf(n.children)
  }

  function VariablesOf(cs: seq<Node>): set<string>
    decreases cs
  {
    if cs == [] then {} else Variables(cs[0]) + VariablesOf(cs[1..])
  }

  /** The text of a tree (utility.py `get_node_expression`). */
  function Expression(n: Node): string
  {
    if n.children == [] then n.name
    else if n.name == NOT then "(¬" + Expression(n.children[0]) + ")"
    else if n.name == AND || n.name == OR || n.name == IMP || n.name == IFF then
      "(" + JoinExpressions(n.children, " " + n.name + " ") + ")"
    else n.name
  }

  /** The renderings of `cs` separated by `sep`. */
  function JoinExpressions(cs: seq<Node>, sep: string): string
    decreases cs
  {
    if cs == [] then ""
    else if |cs| == 1 then Expression(cs[0])
    else Expression(cs[0]) + sep + JoinExpressions(cs[1..], sep)
  }

  function Size(n: Node): nat
  {
    1 + SizeOf(n.children)
  }

  function SizeOf(cs: seq<Node>): nat
    decreases cs
  {
    if cs == [] then 0 else Size(cs[0]) + SizeOf(cs[1..])
  }

  /** The end of the run of digits that starts at `j`. */
  function DigitsEnd(s: string, j: nat): (k: nat)
    requires j <= |s|
    ensures j <= k <= |s|
    ensures forall m :: j <= m < k ==> IsDigit(s[m])
    ensures k < |s| ==> !IsDigit(s[k])
    decreases |s| - j
  {
    if j < |s| && IsDigit(s[j]) then DigitsEnd(s, j + 1) else j
  }

  /** `DigitsEnd` stops exactly at the first non-digit. */
  lemma {:induction false} DigitsEndAt(s: string, j: nat, k: nat)
    requires j <= k <= |s|
    requires forall m :: j <= m < k ==> IsDigit(s[m])
    requires k == |s| || !IsDigit(s[k])
    ensures DigitsEnd(s, j) == k
    decreases k - j
  {
    if j < k {
      DigitsEndAt(s, j + 1, k);
    }
  }
}
