/**
 * Truth tables and the validity verdict of utility.py: the variables of a
 * tree in sorted order, every assignment of truth values to them in the
 * order of `itertools.product([False, True], repeat=n)`, and the verdict
 * or table built from evaluating the tree under each assignment.
 */
module TruthTables {
  import opened Syntax
  import opened Semantics

  /** Python's `<=` on strings: lexicographic by code point. */
  predicate StrLe(a: string, b: string)
    decreases a
  {
    a == [] || (b != [] && (a[0] < b[0] || (a[0] == b[0] && StrLe(a[1..], b[1..]))))
  }

  lemma {:induction false} StrLeTotal(a: string, b: string)
    ensures StrLe(a, b) || StrLe(b, a)
    decreases a
  {
    if a != [] && b != [] && a[0] == b[0] {
      StrLeTotal(a[1..], b[1..]);
    }
  }

  lemma {:induction false} StrLeTrans(a: string, b: string, c: string)
    requires StrLe(a, b) && StrLe(b, c)
    ensures StrLe(a, c)
    decreases a
  {
    if a != [] && a[0] == b[0] && b[0] == c[0] {
      StrLeTrans(a[1..], b[1..], c[1..]);
    }
  }

  lemma {:induction false} StrLeAntisymmetric(a: string, b: string)
    requires StrLe(a, b) && StrLe(b, a)
    ensures a == b
    decreases a
  {
    if a != [] {
      StrLeAntisymmetric(a[1..], b[1..]);
      assert a == [a[0]] + a[1..] && b == [b[0]] + b[1..];
    }
  }

  /** Strictly increasing: what `sorted` makes of a set. */
  predicate StrictlySorted(xs: seq<string>)
  {
    forall i, j :: 0 <= i < j < |xs| ==> StrLe(xs[i], xs[j]) && xs[i] != xs[j]
  }

  predicate IsLeast(m: string, s: set<string>)
  {
    m in s && forall x :: x in s ==> StrLe(m, x)
  }

  /** Every non-empty finite set of strings has a least element. */
  lemma {:induction false} MinimumExists(s: set<string>)
    requires s != {}
    ensures exists m :: IsLeast(m, s)
    decreases s
  {
    var y :| y in s;
    if s == {y} {
      StrLeTotal(y, y);
      assert IsLeast(y, s);
    } else {
      MinimumExists(s - {y});
      var m :| IsLeast(m, s - {y});
      StrLeTotal(m, y);
      if StrLe(m, y) {
        assert IsLeast(m, s);
      } else {
        forall x | x in s ensures StrLe(y, x) {
          if x != y {
            StrLeTrans(y, m, x);
          } else {
            StrLeTotal(y, y);
          }
        }
        assert IsLeast(y, s);
      }
    }
  }

  lemma LeastUnique(s: set<string>)
    ensures forall m, n :: IsLeast(m, s) && IsLeast(n, s) ==> m == n
  {
    forall m, n | IsLeast(m, s) && IsLeast(n, s) ensures m == n {
      StrLeAntisymmetric(m, n);
    }
  }

  /** Python's `sorted` on a set of strings: its elements in increasing order. */
  function SortedSet(s: set<string>): (r: seq<string>)
    ensures StrictlySorted(r)
    ensures forall x :: x in r <==> x in s
    decreases |s|
  {
    if s == {} then []
    else
      MinimumExists(s);
      LeastUnique(s);
      var m :| IsLeast(m, s);
      var rest := SortedSet(s - {m});
      assert forall i :: 0 <= i < |rest| ==> rest[i] in rest;
      assert forall i :: 0 <= i < |rest| ==> StrLe(m, rest[i]) && m != rest[i];
      [m] + rest
  }

  function Pow2(k: nat): (r: nat)
    ensures r >= 1
  {
    if k == 0 then 1 else 2 * Pow2(k - 1)
  }

  /** Each row of `rows` with `b` put in front. */
  function PrependAll(b: bool, rows: seq<seq<bool>>): (r: seq<seq<bool>>)
    ensures |r| == |rows| && forall i {:trigger r[i]} :: 0 <= i < |rows| ==> r[i] == [b] + rows[i]
    decreases rows
  {
    if rows == [] then [] else [[b] + rows[0]] + PrependAll(b, rows[1..])
  }

  /** `itertools.product([False, True], repeat=k)`: every k-tuple, the last position varying fastest. */
  function Assignments(k: nat): (rows: seq<seq<bool>>)
    ensures |rows| == Pow2(k)
    ensures forall i :: 0 <= i < |rows| ==> |rows[i]| == k
  {
    if k == 0 then [[]]
    else PrependAll(false, Assignments(k - 1)) + PrependAll(true, Assignments(k - 1))
  }

  lemma ConsInjective(b: bool, c: bool, x: seq<bool>, y: seq<bool>)
    requires [b] + x == [c] + y
    ensures b == c && x == y
  {
    assert b == ([b] + x)[0] && x == ([b] + x)[1..];
    assert c == ([c] + y)[0] && y == ([c] + y)[1..];
  }

  /** Row `i` of the first half starts with false, row `i` of the second half with true, each followed by row `i` of the rows one shorter. */
  lemma AssignmentsHalves(k: nat, i: nat)
    requires k > 0 && i < Pow2(k - 1)
    ensures Assignments(k)[i] == [false] + Assignments(k - 1)[i]
    ensures Assignments(k)[Pow2(k - 1) + i] == [true] + Assignments(k - 1)[i]
  {
    var rest := Assignments(k - 1);
    var lo, hi := PrependAll(false, rest), PrependAll(true, rest);
    assert Assignments(k) == lo + hi;
    assert (lo + hi)[i] == lo[i] && (lo + hi)[|rest| + i] == hi[i];
  }

  /** The rows are pairwise different. */
  lemma {:induction false} AssignmentsDistinct(k: nat)
    ensures forall i, j :: 0 <= i < j < |Assignments(k)| ==> Assignments(k)[i] != Assignments(k)[j]
  {
    if k > 0 {
      AssignmentsDistinct(k - 1);
      forall i, j | 0 <= i < j < |Assignments(k)| ensures Assignments(k)[i] != Assignments(k)[j] {
        AssignmentsPairDistinct(k, Assignments(k - 1), i, j);
      }
    }
  }

  lemma AssignmentsPairDistinct(k: nat, rest: seq<seq<bool>>, i: nat, j: nat)
    requires k > 0 && rest == Assignments(k - 1) && i < j < |Assignments(k)|
    requires forall x, y :: 0 <= x < y < |rest| ==> rest[x] != rest[y]
    ensures Assignments(k)[i] != Assignments(k)[j]
  {
    var all := Assignments(k);
    var n := |rest|;
    var bi, ri := if i < n then false else true, if i < n then i else i - n;
    var bj, rj := if j < n then false else true, if j < n then j else j - n;
    AssignmentsHalves(k, ri);
    AssignmentsHalves(k, rj);
    assert all[i] == [bi] + rest[ri];
    assert all[j] == [bj] + rest[rj];
    if all[i] == all[j] {
      ConsInjective(bi, bj, rest[ri], rest[rj]);
    }
  }

  /** Every k-tuple of truth values is one of the rows. */
  lemma {:induction false} AssignmentsComplete(k: nat, a: seq<bool>)
    requires |a| == k
    ensures a in Assignments(k)
  {
    AssignmentAt(a);
  }

  /** The row number of a tuple: its values read as a binary number, the first value most significant. */
  function RowIndex(a: seq<bool>): nat
  {
    if a == [] then 0 else (if a[0] then Pow2(|a| - 1) else 0) + RowIndex(a[1..])
  }

  lemma {:induction false} AssignmentAt(a: seq<bool>)
    ensures RowIndex(a) < Pow2(|a|) && Assignments(|a|)[RowIndex(a)] == a
  {
    if a != [] {
      var k, tail := |a|, a[1..];
      var j := RowIndex(tail);
      AssignmentAt(tail);
      AssignmentsHalves(k, j);
      assert Pow2(k) == Pow2(k - 1) + Pow2(k - 1);
      assert a == [a[0]] + tail;
      if a[0] {
        assert RowIndex(a) == Pow2(k - 1) + j;
      } else {
        assert RowIndex(a) == j;
      }
    }
  }
  /** `dict(zip(variables, values))`: later pairs override earlier ones. */
  function Zip(variables: seq<string>, values: seq<bool>): (m: Valuation)
    ensures |variables| == |values| ==> forall x :: x in m <==> x in variables
    decreases variables
  {
    if variables == [] || values == [] then map[]
    else map[variables[0] := values[0]] + Zip(variables[1..], values[1..])
  }

  predicate Distinct(xs: seq<string>)
  {
    forall i, j :: 0 <= i < j < |xs| ==> xs[i] != xs[j]
  }

  lemma {:induction false} ZipLookup(variables: seq<string>, values: seq<bool>, i: nat)
    requires |variables| == |values| && Distinct(variables) && i < |variables|
    ensures Zip(variables, values)[variables[i]] == values[i]
    decreases variables
  {
    if i > 0 {
      ZipLookup(variables[1..], values[1..], i - 1);
    } else if |variables| > 1 {
      assert variables[0] !in variables[1..];
    }
  }

  /** Different rows give different assignments. */
  lemma ZipInjective(variables: seq<string>, a: seq<bool>, b: seq<bool>)
    requires |variables| == |a| == |b| && Distinct(variables)
    requires Zip(variables, a) == Zip(variables, b)
    ensures a == b
  {
    forall i | 0 <= i < |a| ensures a[i] == b[i] {
      ZipLookup(variables, a, i);
      ZipLookup(variables, b, i);
    }
  }

  /** Zipping the listed variables with their values under `v` gives back `v`. */
  lemma ZipOfLookups(variables: seq<string>, v: Valuation, a: seq<bool>)
    requires Distinct(variables)
    requires forall x :: x in v <==> x in variables
    requires |a| == |variables| && forall i :: 0 <= i < |a| ==> a[i] == v[variables[i]]
    ensures Zip(variables, a) == v
  {
    var z := Zip(variables, a);
    forall x | x in v ensures z[x] == v[x] {
      var i :| 0 <= i < |variables| && variables[i] == x;
      ZipLookup(variables, a, i);
    }
  }

  /** Every valuation of exactly the listed variables is the zip of the listed variables with some row. */
  lemma ZipOnto(variables: seq<string>, v: Valuation)
    requires Distinct(variables)
    requires forall x :: x in v <==> x in variables
    ensures exists i :: 0 <= i < |Assignments(|variables|)| && Zip(variables, Assignments(|variables|)[i]) == v
  {
    var a := seq(|variables|, i requires 0 <= i < |variables| => v[variables[i]]);
    ZipOfLookups(variables, v, a);
    AssignmentsComplete(|variables|, a);
    var all := Assignments(|variables|);
    var i :| 0 <= i < |all| && all[i] == a;
    assert Zip(variables, all[i]) == v;
  }

  lemma SortedIsDistinct(xs: seq<string>)
    requires StrictlySorted(xs)
    ensures Distinct(xs)
  {
  }

  /** The set of a repetition-free list has as many elements as the list. */
  lemma {:induction false} DistinctCardinality(xs: seq<string>)
    requires Distinct(xs)
    ensures |set x | x in xs| == |xs|
    decreases xs
  {
    if xs != [] {
      DistinctCardinality(xs[1..]);
      assert (set x | x in xs) == {xs[0]} + (set x | x in xs[1..]);
      assert xs[0] !in xs[1..];
    }
  }

  /** The sorted list of a set repeats nothing and has as many elements as the set. */
  lemma SortedSetSize(s: set<string>)
    ensures Distinct(SortedSet(s)) && |SortedSet(s)| == |s|
  {
    var xs := SortedSet(s);
    SortedIsDistinct(xs);
    DistinctCardinality(xs);
    assert (set x | x in xs) == s;
  }

  /** True under every valuation of its variables. */
  ghost predicate IsValid(n: Node)
  {
    forall v: Valuation :: Variables(n) <= v.Keys ==> Holds(n, v)
  }

  /** False under every valuation of its variables. */
  ghost predicate IsUnsatisfiable(n: Node)
  {
    forall v: Valuation :: Variables(n) <= v.Keys ==> !Holds(n, v)
  }

  /** Every valuation covering the variables agrees on them with one of the rows. */
  lemma RowFor(n: Node, variables: seq<string>, v: Valuation) returns (i: nat)
    requires WellShaped(n) && Distinct(variables)
    requires forall x :: x in variables <==> x in Variables(n)
    requires Variables(n) <= v.Keys
    ensures i < |Assignments(|variables|)|
    ensures Holds(n, Zip(variables, Assignments(|variables|)[i])) == Holds(n, v)
  {
    var w := map x | x in Variables(n) :: v[x];
    ZipOnto(variables, w);
    i :| 0 <= i < |Assignments(|variables|)| && Zip(variables, Assignments(|variables|)[i]) == w;
    HoldsAgree(n, v, w);
  }

  /** The truth value of `n` in row `i` of the table over `variables`. */
  predicate RowHolds(n: Node, variables: seq<string>, i: nat)
    requires i < Pow2(|variables|)
  {
    Holds(n, Zip(variables, Assignments(|variables|)[i]))
  }

  lemma ValidHoldsInRows(n: Node, variables: seq<string>)
    requires IsValid(n)
    requires forall x :: x in variables <==> x in Variables(n)
    ensures forall i :: 0 <= i < Pow2(|variables|) ==> RowHolds(n, variables, i)
  {
    forall i | 0 <= i < Pow2(|variables|) ensures RowHolds(n, variables, i) {
      var z := Zip(variables, Assignments(|variables|)[i]);
      assert Variables(n) <= z.Keys;
    }
  }

  lemma UnsatisfiableFailsInRows(n: Node, variables: seq<string>)
    requires IsUnsatisfiable(n)
    requires forall x :: x in variables <==> x in Variables(n)
    ensures forall i :: 0 <= i < Pow2(|variables|) ==> !RowHolds(n, variables, i)
  {
    forall i | 0 <= i < Pow2(|variables|) ensures !RowHolds(n, variables, i) {
      var z := Zip(variables, Assignments(|variables|)[i]);
      assert Variables(n) <= z.Keys;
    }
  }

  /**
   * The rows of the table decide validity: a well-shaped tree is true under
   * every valuation of its variables iff it is true in every row.
   */
  lemma RowsDecideValid(n: Node, variables: seq<string>)
    requires WellShaped(n) && Distinct(variables)
    requires forall x :: x in variables <==> x in Variables(n)
    ensures IsValid(n) <==> forall i :: 0 <= i < Pow2(|variables|) ==> RowHolds(n, variables, i)
  {
    if forall i :: 0 <= i < Pow2(|variables|) ==> RowHolds(n, variables, i) {
      forall v: Valuation | Variables(n) <= v.Keys ensures Holds(n, v) {
        var i := RowFor(n, variables, v);
        assert RowHolds(n, variables, i);
      }
    } else if IsValid(n) {
      ValidHoldsInRows(n, variables);
    }
  }

  /** Likewise, it is false under every valuation of its variables iff it is false in every row. */
  lemma RowsDecideUnsatisfiable(n: Node, variables: seq<string>)
    requires WellShaped(n) && Distinct(variables)
    requires forall x :: x in variables <==> x in Variables(n)
    ensures IsUnsatisfiable(n) <==> forall i :: 0 <= i < Pow2(|variables|) ==> !RowHolds(n, variables, i)
  {
    if forall i :: 0 <= i < Pow2(|variables|) ==> !RowHolds(n, variables, i) {
      forall v: Valuation | Variables(n) <= v.Keys ensures !Holds(n, v) {
        var i := RowFor(n, variables, v);
        assert !RowHolds(n, variables, i);
      }
    } else if IsUnsatisfiable(n) {
      UnsatisfiableFailsInRows(n, variables);
    }
  }

  datatype Verdict = Valid | Unsatisfiable | SatisfiableButInvalid

  /**
   * The classification at the end of `check_validity`. On a non-empty column
   * the third branch of its if/elif chain is taken whenever the first two
   * are not, so no column falls through.
   */
  function Classify(column: seq<bool>): (r: Verdict)
    requires |column| > 0
    ensures r == Valid <==> forall i :: 0 <= i < |column| ==> column[i]
    ensures r == Unsatisfiable <==> forall i :: 0 <= i < |column| ==> !column[i]
    ensures r == SatisfiableButInvalid <==> (exists i :: 0 <= i < |column| && column[i]) && (exists i :: 0 <= i < |column| && !column[i])
  {
    if forall i :: 0 <= i < |column| ==> column[i] then
      assert column[0];
      Valid
    else if forall i :: 0 <= i < |column| ==> !column[i] then
      assert !column[0];
      Unsatisfiable
    else SatisfiableButInvalid
  }

  /** The column of a well-shaped tree's truth values classifies the tree itself. */
  lemma ColumnClassifies(n: Node, variables: seq<string>, column: seq<bool>)
    requires WellShaped(n) && Distinct(variables)
    requires forall x :: x in variables <==> x in Variables(n)
    requires |column| == Pow2(|variables|)
    requires forall i :: 0 <= i < |column| ==> column[i] == RowHolds(n, variables, i)
    ensures Classify(column) == Valid <==> IsValid(n)
    ensures Classify(column) == Unsatisfiable <==> IsUnsatisfiable(n)
  {
    var allTrue := forall i :: 0 <= i < |column| ==> column[i];
    var allFalse := forall i :: 0 <= i < |column| ==> !column[i];
    assert allTrue <==> forall i :: 0 <= i < Pow2(|variables|) ==> RowHolds(n, variables, i);
    assert allFalse <==> forall i :: 0 <= i < Pow2(|variables|) ==> !RowHolds(n, variables, i);
    RowsDecideValid(n, variables);
    RowsDecideUnsatisfiable(n, variables);
    assert allTrue <==> IsValid(n);
    assert allFalse <==> IsUnsatisfiable(n);
  }

  /** The loop of `check_validity`: the tree's value under each assignment, in table order. */
  method EvaluateColumn(node: Node, variables: seq<string>) returns (column: Result<seq<bool>>)
    ensures column.Ok? ==> |column.value| == Pow2(|variables|)
    ensures WellShaped(node) && (forall x :: x in variables <==> x in Variables(node)) ==>
      && column.Ok?
      && |column.value| == Pow2(|variables|)
      && forall i :: 0 <= i < |column.value| ==> column.value[i] == RowHolds(node, variables, i)
  {
    ghost var modelled := WellShaped(node) && (forall x :: x in variables <==> x in Variables(node));
    var truthValues := Assignments(|variables|);
    var truthTable: seq<bool> := [];
    var k := 0;
    while k < |truthValues|
      invariant 0 <= k <= |truthValues| && |truthTable| == k
      invariant modelled ==> forall i :: 0 <= i < k ==> truthTable[i] == RowHolds(node, variables, i)
    {
      var assignment := Zip(variables, truthValues[k]);
      var result := Evaluate(node, assignment);
      if modelled {
        EvaluateMeansHolds(node, assignment);
      }
      match result {
        case Err(m) => return Err(m);
        case Ok(b) => truthTable := truthTable + [b];
      }
      k := k + 1;
    }
    column := Ok(truthTable);
  }

  /**
   * utility.py `check_validity`: evaluate the tree under every assignment of
   * its sorted variables, then classify the column of results.
   */
  method CheckValidity(node: Node) returns (verdict: Result<Verdict>)
    ensures WellShaped(node) ==> verdict.Ok?
    ensures WellShaped(node) ==>
      && (verdict.value == Valid <==> IsValid(node))
      && (verdict.value == Unsatisfiable <==> IsUnsatisfiable(node))
  {
    var variables := SortedSet(Variables(node));
    var column := EvaluateColumn(node, variables);
    match column {
      case Err(m) =>
        verdict := Err(m);
      case Ok(truthTable) =>
        if WellShaped(node) {
          SortedIsDistinct(variables);
          ColumnClassifies(node, variables, truthTable);
        }
        verdict := Ok(Classify(truthTable));
    }
  }

  /** One row of the table: the assignment and the value of the whole formula under it. */
  datatype Row = Row(values: Valuation, result: bool)

  /** An assignment the table keeps: ⊤, if it is a variable, is true and ⊥ false. */
  predicate ConstantsRespected(v: Valuation)
  {
    (TOP in v ==> v[TOP]) && (BOT in v ==> !v[BOT])
  }

  predicate AllOfLength(tvs: seq<seq<bool>>, k: nat)
  {
    forall i :: 0 <= i < |tvs| ==> |tvs[i]| == k
  }

  /** The assignments `generate_truth_table` keeps, in order. */
  function Kept(variables: seq<string>, tvs: seq<seq<bool>>): (r: seq<seq<bool>>)
    ensures AllOfLength(tvs, |variables|) ==> AllOfLength(r, |variables|)
  {
    if tvs == [] then []
    else
      var last := tvs[|tvs| - 1];
      Kept(variables, tvs[..|tvs| - 1]) + (if ConstantsRespected(Zip(variables, last)) then [last] else [])
  }

  lemma KeptLast(variables: seq<string>, tvs: seq<seq<bool>>)
    requires AllOfLength(tvs, |variables|) && tvs != []
    ensures var init, last := tvs[..|tvs| - 1], tvs[|tvs| - 1];
      Kept(variables, tvs) == Kept(variables, init) + (if ConstantsRespected(Zip(variables, last)) then [last] else [])
  {
  }

  /** Kept assignments come from the input and respect the constants. */
  lemma {:induction false} KeptFromInput(variables: seq<string>, tvs: seq<seq<bool>>)
    requires AllOfLength(tvs, |variables|)
    ensures |Kept(variables, tvs)| <= |tvs|
    ensures forall i :: 0 <= i < |Kept(variables, tvs)| ==>
      Kept(variables, tvs)[i] in tvs && ConstantsRespected(Zip(variables, Kept(variables, tvs)[i]))
    decreases tvs
  {
    if tvs != [] {
      var init, last := tvs[..|tvs| - 1], tvs[|tvs| - 1];
      KeptFromInput(variables, init);
      KeptLast(variables, tvs);
      assert tvs == init + [last];
      var r, ri := Kept(variables, tvs), Kept(variables, init);
      forall i | 0 <= i < |r| ensures r[i] in tvs && ConstantsRespected(Zip(variables, r[i])) {
        if i < |ri| { assert r[i] == ri[i]; }
      }
    }
  }

  /** Every input assignment that respects the constants is kept. */
  lemma {:induction false} KeptComplete(variables: seq<string>, tvs: seq<seq<bool>>)
    requires AllOfLength(tvs, |variables|)
    ensures forall t :: t in tvs && ConstantsRespected(Zip(variables, t)) ==> t in Kept(variables, tvs)
    decreases tvs
  {
    if tvs != [] {
      var init, last := tvs[..|tvs| - 1], tvs[|tvs| - 1];
      KeptComplete(variables, init);
      KeptLast(variables, tvs);
      assert tvs == init + [last];
    }
  }

  /** Distinct input assignments stay distinct. */
  lemma {:induction false} KeptDistinct(variables: seq<string>, tvs: seq<seq<bool>>)
    requires AllOfLength(tvs, |variables|)
    requires forall i, j :: 0 <= i < j < |tvs| ==> tvs[i] != tvs[j]
    ensures forall i, j :: 0 <= i < j < |Kept(variables, tvs)| ==> Kept(variables, tvs)[i] != Kept(variables, tvs)[j]
    decreases tvs
  {
    if tvs != [] {
      var init, last := tvs[..|tvs| - 1], tvs[|tvs| - 1];
      KeptDistinct(variables, init);
      KeptFromInput(variables, init);
      KeptLast(variables, tvs);
      assert tvs == init + [last];
      var r, ri := Kept(variables, tvs), Kept(variables, init);
      if r != ri {
        assert last !in init;
        assert r == ri + [last];
        forall i, j | 0 <= i < j < |r| ensures r[i] != r[j] {
          assert r[i] == ri[i];
          if j == |ri| { assert r[i] in init; }
        }
      }
    }
  }

  /**
   * The rows `generate_truth_table` builds from the kept assignments, before
   * its duplicate pass; the first evaluation that fails aborts the table.
   */
  function TableRows(n: Node, variables: seq<string>, kept: seq<seq<bool>>): Result<seq<Row>>
  {
    RowsOf(Evaluator(n), variables, kept)
  }

  /** Evaluation of the tree `n`, as a function of the assignment. */
  function Evaluator(n: Node): Valuation -> Result<bool>
  {
    a => Evaluate(n, a)
  }

  /** The rows for the kept assignments under the evaluation `eval`; the first failure aborts. */
  function RowsOf(eval: Valuation -> Result<bool>, variables: seq<string>, kept: seq<seq<bool>>): Result<seq<Row>>
  {
    if kept == [] then Ok([])
    else match RowsOf(eval, variables, kept[..|kept| - 1])
      case Err(m) => Err(m)
      case Ok(rows) =>
        var a := Zip(variables, kept[|kept| - 1]);
        match eval(a)
        case Err(m) => Err(m)
        case Ok(b) => Ok(rows + [Row(a, b)])
  }

  lemma EvaluateOnRow(n: Node, variables: seq<string>, t: seq<bool>)
    requires WellShaped(n) && |t| == |variables|
    requires forall x :: x in variables <==> x in Variables(n)
    ensures Evaluate(n, Zip(variables, t)) == Ok(Holds(n, Zip(variables, t)))
  {
    EvaluateMeansHolds(n, Zip(variables, t));
  }

  /** For a well-shaped tree over the listed variables, each kept assignment gives one row holding the tree's truth value. */
  lemma {:induction false} TableRowsMeaning(n: Node, variables: seq<string>, kept: seq<seq<bool>>)
    requires WellShaped(n) && AllOfLength(kept, |variables|)
    requires forall x :: x in variables <==> x in Variables(n)
    ensures TableRows(n, variables, kept).Ok?
    ensures |TableRows(n, variables, kept).value| == |kept|
    ensures forall i :: 0 <= i < |kept| ==>
      TableRows(n, variables, kept).value[i] == Row(Zip(variables, kept[i]), Holds(n, Zip(variables, kept[i])))
    decreases kept
  {
    if kept != [] {
      var init, last := kept[..|kept| - 1], kept[|kept| - 1];
      TableRowsMeaning(n, variables, init);
      EvaluateOnRow(n, variables, last);
      var rows := TableRows(n, variables, init).value;
      var a := Zip(variables, last);
      assert kept == init + [last];
      RowsSnoc(Evaluator(n), variables, init, last, rows);
      assert Evaluator(n)(a) == Ok(Holds(n, a));
      var row := Row(a, Holds(n, a));
      assert TableRows(n, variables, kept) == Ok(rows + [row]);
      forall i | 0 <= i < |kept|
        ensures (rows + [row])[i] == Row(Zip(variables, kept[i]), Holds(n, Zip(variables, kept[i])))
      {
        if i < |init| { assert kept[i] == init[i]; }
      }
    }
  }

  lemma KeptSnoc(variables: seq<string>, tvs: seq<seq<bool>>, k: nat)
    requires AllOfLength(tvs, |variables|) && k < |tvs|
    ensures Kept(variables, tvs[..k + 1]) ==
      Kept(variables, tvs[..k]) + (if ConstantsRespected(Zip(variables, tvs[k])) then [tvs[k]] else [])
  {
    assert tvs[..k + 1][..k] == tvs[..k] && tvs[..k + 1][k] == tvs[k];
    KeptLast(variables, tvs[..k + 1]);
  }

  lemma RowsSnoc(eval: Valuation -> Result<bool>, variables: seq<string>, kept: seq<seq<bool>>, t: seq<bool>, rows: seq<Row>)
    requires AllOfLength(kept, |variables|) && |t| == |variables|
    requires RowsOf(eval, variables, kept) == Ok(rows)
    ensures RowsOf(eval, variables, kept + [t]) ==
      match eval(Zip(variables, t))
      case Err(m) => Err(m)
      case Ok(b) => Ok(rows + [Row(Zip(variables, t), b)])
  {
    assert (kept + [t])[..|kept|] == kept;
  }

  lemma RowsFailureSnoc(eval: Valuation -> Result<bool>, variables: seq<string>, kept: seq<seq<bool>>, t: seq<bool>)
    requires AllOfLength(kept, |variables|) && |t| == |variables|
    requires RowsOf(eval, variables, kept).Err?
    ensures RowsOf(eval, variables, kept + [t]) == RowsOf(eval, variables, kept)
  {
    assert (kept + [t])[..|kept|] == kept;
  }

  /** A failure while building the rows is the failure of the whole table. */
  lemma {:induction false} RowsFailurePersists(eval: Valuation -> Result<bool>, variables: seq<string>, tvs: seq<seq<bool>>, k: nat)
    requires AllOfLength(tvs, |variables|) && k <= |tvs|
    requires RowsOf(eval, variables, Kept(variables, tvs[..k])).Err?
    ensures RowsOf(eval, variables, Kept(variables, tvs)) == RowsOf(eval, variables, Kept(variables, tvs[..k]))
    decreases |tvs| - k
  {
    if k < |tvs| {
      RowsFailureNext(eval, variables, tvs, k);
      RowsFailurePersists(eval, variables, tvs, k + 1);
    } else {
      assert tvs[..k] == tvs;
    }
  }

  lemma RowsFailureNext(eval: Valuation -> Result<bool>, variables: seq<string>, tvs: seq<seq<bool>>, k: nat)
    requires AllOfLength(tvs, |variables|) && k < |tvs|
    requires RowsOf(eval, variables, Kept(variables, tvs[..k])).Err?
    ensures RowsOf(eval, variables, Kept(variables, tvs[..k + 1])) == RowsOf(eval, variables, Kept(variables, tvs[..k]))
  {
    var kept, next := Kept(variables, tvs[..k]), Kept(variables, tvs[..k + 1]);
    KeptSnoc(variables, tvs, k);
    if ConstantsRespected(Zip(variables, tvs[k])) {
      assert next == kept + [tvs[k]];
      RowsFailureSnoc(eval, variables, kept, tvs[k]);
    } else {
      assert next == kept;
    }
  }

  /** One step of the table: an assignment that respects the constants is evaluated and its row appended, any other is skipped. */
  lemma RowsNext(eval: Valuation -> Result<bool>, variables: seq<string>, tvs: seq<seq<bool>>, k: nat, table: seq<Row>)
    requires AllOfLength(tvs, |variables|) && k < |tvs|
    requires RowsOf(eval, variables, Kept(variables, tvs[..k])) == Ok(table)
    ensures RowsOf(eval, variables, Kept(variables, tvs[..k + 1])) ==
      if !ConstantsRespected(Zip(variables, tvs[k])) then Ok(table)
      else match eval(Zip(variables, tvs[k]))
        case Err(m) => Err(m)
        case Ok(b) => Ok(table + [Row(Zip(variables, tvs[k]), b)])
  {
    var kept, next := Kept(variables, tvs[..k]), Kept(variables, tvs[..k + 1]);
    KeptSnoc(variables, tvs, k);
    if ConstantsRespected(Zip(variables, tvs[k])) {
      assert next == kept + [tvs[k]];
      RowsSnoc(eval, variables, kept, tvs[k], table);
    } else {
      assert next == kept;
    }
  }

  method BuildRows(node: Node, variables: seq<string>) returns (rows: Result<seq<Row>>)
    ensures rows == TableRows(node, variables, Kept(variables, Assignments(|variables|)))
  {
    var truthValues := Assignments(|variables|);
    var table: seq<Row> := [];
    var k := 0;
    while k < |truthValues|
      invariant 0 <= k <= |truthValues|
      invariant AllOfLength(truthValues, |variables|)
      invariant RowsOf(Evaluator(node), variables, Kept(variables, truthValues[..k])) == Ok(table)
    {
      var next := AddRow(node, variables, truthValues, k, table);
      match next {
        case Err(m) =>
          RowsFailurePersists(Evaluator(node), variables, truthValues, k + 1);
          return Err(m);
        case Ok(extended) => table := extended;
      }
      k := k + 1;
    }
    assert truthValues[..k] == truthValues;
    rows := Ok(table);
  }

  /** The body of that loop: skip an assignment that contradicts a constant, otherwise evaluate it and append its row. */
  method AddRow(node: Node, variables: seq<string>, truthValues: seq<seq<bool>>, k: nat, table: seq<Row>)
    returns (next: Result<seq<Row>>)
    requires AllOfLength(truthValues, |variables|) && k < |truthValues|
    requires RowsOf(Evaluator(node), variables, Kept(variables, truthValues[..k])) == Ok(table)
    ensures next == RowsOf(Evaluator(node), variables, Kept(variables, truthValues[..k + 1]))
  {
    var assignment := Zip(variables, truthValues[k]);
    RowsNext(Evaluator(node), variables, truthValues, k, table);
    if TOP in assignment && !assignment[TOP] {
      next := Ok(table);
    } else if BOT in assignment && assignment[BOT] {
      next := Ok(table);
    } else {
      var result := Evaluate(node, assignment);
      assert Evaluator(node)(assignment) == result;
      match result {
        case Err(m) => next := Err(m);
        case Ok(b) => next := Ok(table + [Row(assignment, b)]);
      }
    }
  }

  /**
   * utility.py `generate_truth_table` with the default variable list: one row
   * per assignment that respects the constants, then a pass that keeps the
   * first copy of each row. The rows are already distinct, so that pass keeps
   * them all.
   */
  method GenerateTruthTable(node: Node) returns (table: Result<seq<Row>>)
    ensures WellShaped(node) ==> table.Ok?
    ensures WellShaped(node) ==> |table.value| <= Pow2(|Variables(node)|)
    ensures WellShaped(node) ==> DistinctRows(table.value)
    ensures WellShaped(node) ==> forall i :: 0 <= i < |table.value| ==>
      && table.value[i].values.Keys == Variables(node)
      && ConstantsRespected(table.value[i].values)
      && table.value[i].result == Holds(node, table.value[i].values)
    ensures WellShaped(node) ==> forall v: Valuation :: v.Keys == Variables(node) && ConstantsRespected(v) ==>
      exists i :: 0 <= i < |table.value| && table.value[i].values == v
  {
    var variables := SortedSet(Variables(node));
    var rows := BuildRows(node, variables);
    ghost var kept := Kept(variables, Assignments(|variables|));
    if WellShaped(node) {
      TableRowsMeaning(node, variables, kept);
    }
    match rows {
      case Err(m) =>
        table := Err(m);
      case Ok(built) =>
        if WellShaped(node) {
          TableFacts(node, variables, kept, built);
        }
        var unique;
        ghost var from;
        unique, from := KeepFirstRows(built);
        table := Ok(unique);
    }
  }

  /** What `GenerateTruthTable` promises, about the rows built from all kept assignments. */
  lemma TableFacts(node: Node, variables: seq<string>, kept: seq<seq<bool>>, rows: seq<Row>)
    requires WellShaped(node) && StrictlySorted(variables)
    requires forall x :: x in variables <==> x in Variables(node)
    requires kept == Kept(variables, Assignments(|variables|))
    requires |rows| == |kept|
    requires forall i :: 0 <= i < |kept| ==> rows[i] == Row(Zip(variables, kept[i]), Holds(node, Zip(variables, kept[i])))
    ensures |rows| <= Pow2(|Variables(node)|)
    ensures DistinctRows(rows)
    ensures forall i :: 0 <= i < |rows| ==>
      && rows[i].values.Keys == Variables(node)
      && ConstantsRespected(rows[i].values)
      && rows[i].result == Holds(node, rows[i].values)
    ensures forall v: Valuation :: v.Keys == Variables(node) && ConstantsRespected(v) ==>
      exists i :: 0 <= i < |rows| && rows[i].values == v
  {
    SortedIsDistinct(variables);
    AssignmentsDistinct(|variables|);
    KeptFromInput(variables, Assignments(|variables|));
    KeptComplete(variables, Assignments(|variables|));
    KeptDistinct(variables, Assignments(|variables|));
    TableSize(node, variables, kept, rows);
    TableDistinct(node, variables, kept, rows);
    TableRowFacts(node, variables, kept, rows);
    TableComplete(node, variables, kept, rows);
  }

  lemma ZipKeys(variables: seq<string>, values: seq<bool>, keys: set<string>)
    requires |variables| == |values|
    requires forall x :: x in variables <==> x in keys
    ensures Zip(variables, values).Keys == keys
  {
  }

  lemma TableRowFacts(node: Node, variables: seq<string>, kept: seq<seq<bool>>, rows: seq<Row>)
    requires AllOfLength(kept, |variables|)
    requires forall x :: x in variables <==> x in Variables(node)
    requires forall i :: 0 <= i < |kept| ==> ConstantsRespected(Zip(variables, kept[i]))
    requires |rows| == |kept|
    requires forall i :: 0 <= i < |kept| ==> rows[i] == Row(Zip(variables, kept[i]), Holds(node, Zip(variables, kept[i])))
    ensures forall i :: 0 <= i < |rows| ==>
      && rows[i].values.Keys == Variables(node)
      && ConstantsRespected(rows[i].values)
      && rows[i].result == Holds(node, rows[i].values)
  {
    forall i | 0 <= i < |rows| ensures rows[i].values.Keys == Variables(node) {
      ZipKeys(variables, kept[i], Variables(node));
    }
  }

  lemma TableSize(node: Node, variables: seq<string>, kept: seq<seq<bool>>, rows: seq<Row>)
    requires Distinct(variables)
    requires forall x :: x in variables <==> x in Variables(node)
    requires |kept| <= Pow2(|variables|) && |rows| == |kept|
    ensures |rows| <= Pow2(|Variables(node)|)
  {
    DistinctCardinality(variables);
    assert (set x | x in variables) == Variables(node);
  }

  lemma TableDistinct(node: Node, variables: seq<string>, kept: seq<seq<bool>>, rows: seq<Row>)
    requires Distinct(variables) && AllOfLength(kept, |variables|)
    requires forall i, j :: 0 <= i < j < |kept| ==> kept[i] != kept[j]
    requires |rows| == |kept| && forall i :: 0 <= i < |rows| ==> rows[i].values == Zip(variables, kept[i])
    ensures DistinctRows(rows)
  {
    forall i, j | 0 <= i < j < |rows| ensures rows[i] != rows[j] {
      if rows[i].values == rows[j].values {
        ZipInjective(variables, kept[i], kept[j]);
      }
    }
  }

  lemma TableComplete(node: Node, variables: seq<string>, kept: seq<seq<bool>>, rows: seq<Row>)
    requires Distinct(variables) && AllOfLength(kept, |variables|)
    requires forall x :: x in variables <==> x in Variables(node)
    requires forall t :: t in Assignments(|variables|) && ConstantsRespected(Zip(variables, t)) ==> t in kept
    requires |rows| == |kept| && forall i :: 0 <= i < |rows| ==> rows[i].values == Zip(variables, kept[i])
    ensures forall v: Valuation :: v.Keys == Variables(node) && ConstantsRespected(v) ==>
      exists i :: 0 <= i < |rows| && rows[i].values == v
  {
    forall v: Valuation | v.Keys == Variables(node) && ConstantsRespected(v)
      ensures exists i :: 0 <= i < |rows| && rows[i].values == v
    {
      var all := Assignments(|variables|);
      ZipOnto(variables, v);
      var t :| 0 <= t < |all| && Zip(variables, all[t]) == v;
      assert all[t] in kept;
      var i :| 0 <= i < |kept| && kept[i] == all[t];
      assert rows[i].values == v;
    }
  }

  predicate DistinctRows(rows: seq<Row>)
  {
    forall i, j :: 0 <= i < j < |rows| ==> rows[i] != rows[j]
  }

  /** No row before position `p` equals the one at `p`. */
  ghost predicate FirstCopyAt(table: seq<Row>, p: nat)
    requires p < |table|
  {
    forall i :: 0 <= i < p ==> table[i] != table[p]
  }

  /**
   * `from` lists, in increasing order, positions below `k` in `table` that
   * each hold the first copy of a row, and `unique` holds those rows.
   */
  ghost predicate FirstCopies(table: seq<Row>, k: nat, unique: seq<Row>, from: seq<nat>) {
    && k <= |table|
    && |from| == |unique|
    && (forall j :: 0 <= j < |from| ==> from[j] < k && unique[j] == table[from[j]])
    && (forall j :: 0 <= j < |from| ==> FirstCopyAt(table, from[j]))
    && (forall j, l :: 0 <= j < l < |from| ==> from[j] < from[l])
  }

  lemma FirstCopiesStep(table: seq<Row>, k: nat, unique: seq<Row>, from: seq<nat>)
    requires k < |table| && FirstCopies(table, k, unique, from)
    requires FirstCopyAt(table, k)
    ensures FirstCopies(table, k + 1, unique + [table[k]], from + [k])
  {
  }

  lemma UnseenIsFirst(table: seq<Row>, k: nat, seen: set<Row>)
    requires k < |table| && (forall r :: r in seen <==> r in table[..k]) && table[k] !in seen
    ensures FirstCopyAt(table, k)
  {
    forall i | 0 <= i < k
      ensures table[i] != table[k]
    {
      assert table[i] == table[..k][i];
    }
  }

  lemma FirstCopiesSkip(table: seq<Row>, k: nat, unique: seq<Row>, from: seq<nat>)
    requires k < |table| && FirstCopies(table, k, unique, from)
    ensures FirstCopies(table, k + 1, unique, from)
  {
  }

  /**
   * The duplicate-row pass of `generate_truth_table`: keep the first copy of
   * each row, in order. A list whose rows are already distinct is kept whole.
   * `from` gives the position of each kept row's first copy in `table`.
   */
  method KeepFirstRows(table: seq<Row>) returns (unique: seq<Row>, ghost from: seq<nat>)
    ensures DistinctRows(unique)
    ensures forall r :: r in unique <==> r in table
    ensures DistinctRows(table) ==> unique == table
    ensures FirstCopies(table, |table|, unique, from)
  {
    var seen: set<Row> := {};
    unique := [];
    from := [];
    var k := 0;
    while k < |table|
      invariant 0 <= k <= |table|
      invariant DistinctRows(unique)
      invariant forall r :: r in unique <==> r in seen
      invariant forall r :: r in seen <==> r in table[..k]
      invariant DistinctRows(table) ==> unique == table[..k]
      invariant FirstCopies(table, k, unique, from)
    {
      if table[k] !in seen {
        UnseenIsFirst(table, k, seen);
        FirstCopiesStep(table, k, unique, from);
        seen := seen + {table[k]};
        unique := unique + [table[k]];
        from := from + [k];
      } else {
        var i :| 0 <= i < k && table[i] == table[k];
        assert !DistinctRows(table);
        FirstCopiesSkip(table, k, unique, from);
      }
      k := k + 1;
    }
    assert table[..k] == table;
  }
}
