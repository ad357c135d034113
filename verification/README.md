# Well-formed propositional formulae, modelled in Dafny

This project models the core of a small Python toolchain for propositional
logic. Formulae are trees whose nodes carry a label (a connective `¬ ∧ ∨ ⇒ ⇔`,
a truth constant `⊤ ⊥`, or a proposition name such as `P` or `Q12`) and a list
of children. The toolchain does five things:

- **Tree utilities and truth tables** (`utility.py`). It renders trees as
  text and collects their variables. It evaluates a tree under an
  assignment, builds truth tables and gives a validity verdict. It copies
  trees, deduplicates child lists by their rendering and flattens nested
  `∧`/`∨` chains.
- **The strict parser** (`wff.py`). `Parser` is a recursive-descent parser
  with a cursor. It accepts only fully parenthesised formulae with
  upper-case atoms, and evaluates the trees it builds. From them it also
  computes a truth table and a validity message.
- **The relaxed-syntax converter** (`shunting_yard.py`). It tokenises
  relaxed text and orders the tokens with the shunting-yard algorithm. It
  then rebuilds a fully parenthesised text from the postfix queue.
- **Normal forms** (`normal_form.py`). It rewrites a tree into negation normal
  form and simplifies it: constants, complementary literals, duplicate and
  single children. It then distributes the tree into conjunctive or
  disjunctive normal form.
- **Clausal reasoning** (`resolution.py`). It reads clause lists written
  `{A,¬B}{C}` and converts them to trees or text. It provides literal
  negation, resolution with one-literal and pure-literal elimination, and
  a DPLL search for a satisfying assignment.

The Dafny modules follow these components:

- `Syntax`, `Semantics` and `Rendering` hold trees, their meaning and their text.
- `Trees` and `TruthTables` hold the rest of `utility.py`.
- `Wff` holds the parser.
- `ShuntingYard` holds the converter.
- `Nnf`, `Simplifier`, `NormalForm` and `CnfSplit` hold `normal_form.py`.
- `Clauses`, `Elimination`, `Resolution` and `Dpll` hold `resolution.py`.

Trees are values (`datatype Node`). Where the source updates state step by
step, the model uses a `method` with loops or a class:

- the parser's cursor (`Wff.Parser`);
- the converter's queue and stack (`ShuntingYard.Converter`);
- the DPLL assignment (`Dpll.Search`);
- the loops of `simplify_tree`, `deduplicate_children`, `check_validity`,
  `generate_truth_table` and the elimination passes.

Each of these is proved against a specification function, and the
properties are proved about those functions. A truth value is
`Semantics.Holds(n, v)`, where a name missing from the valuation `v` reads
as false. The source's own evaluators are modelled separately: they raise
on a missing name.

## Model

| member | source | states |
|---|---|---|
| Syntax.DigitsEnd | wff.py:32-34 | the run of digits after an atom's letter ends at the first non-digit, and everything before it is a digit |
| Syntax.Variables | utility.py:31-32 | definition: a variable name, ⊤ or ⊥ is collected and any other label is looked through to its children; `Semantics.HoldsAgree` states what the collected set decides |
| Syntax.Expression | utility.py:35-47 | definition: a leaf is its label, ¬ is `(¬…)`, and ∧ ∨ ⇒ ⇔ join their children with the blank-padded symbol inside parentheses; `Rendering.SameTextSameTruth` and `Wff.ParseOfRendering` state what the text determines |
| Semantics.Evaluate | utility.py:122-155 | definition: an error when a variable has no value or a connective lacks a child, otherwise the value, with ∧ and ∨ short-circuiting; `Semantics.EvaluateMeansHolds` states its meaning |
| Semantics.EvaluateMeansHolds | utility.py:122-155 | `evaluate_truth_table` succeeds exactly when the assignment covers every variable of the tree (otherwise it raises), and it then returns the tree's truth value |
| Semantics.EvaluateAllMeansHolds | utility.py:140-141 | the short-circuiting `all` over the children of `∧` is their conjunction |
| Semantics.EvaluateAnyMeansHolds | utility.py:142-143 | the short-circuiting `any` over the children of `∨` is their disjunction |
| Semantics.HoldsAgree | utility.py:31-32 | two assignments that agree on the variables `get_variables` collects give a well-shaped tree the same truth value |
| Rendering.FirstChar | utility.py:35-47 | a rendering is never empty; it starts with `(` unless the tree is a proposition name, and never with `¬`, a blank or `)` |
| Rendering.RenderPrefix | utility.py:35-47 | if the renderings of two well-shaped trees, each followed by a delimited text, coincide, then the followers coincide and the trees have the same truth value |
| Rendering.SameTextSameTruth | utility.py:35-47 | two well-shaped trees with the same rendering have the same truth value under every assignment, which is why deduplicating by rendering is sound |
| Trees.Duplicate | utility.py:236-241 | the copy is equal to the original tree |
| Trees.DeduplicateChildren | utility.py:244-252 | the loop with its `seen` set computes `Dedup`, the first child of each rendering in order |
| Trees.Dedup | utility.py:244-252 | definition: the first child of each rendering, in order; `Trees.DedupFromProperties` states its properties |
| Trees.DedupSnoc | utility.py:244-252 | appending a child keeps it exactly when its rendering has not been seen before: the first occurrence wins |
| Trees.DedupFromProperties | utility.py:244-252 | the kept children have pairwise distinct renderings, every input rendering not already seen is kept, none is added, and each kept child is an input child |
| Trees.DedupOfDistinct | utility.py:244-252 | a list whose renderings are already distinct is returned unchanged |
| Trees.DedupIsSubsequence | utility.py:244-252 | the kept children appear in the input in the same order |
| Trees.DedupKeepsTruth | utility.py:244-252 | under `∧` or `∨`, deduplicating the children does not change the truth value |
| Trees.DedupKeepsShape | utility.py:244-252 | deduplication keeps a list well shaped, and a non-empty list non-empty |
| Trees.SpliceChildren | utility.py:224-230 | the splice loop computes `Splice`: each same-label child is replaced by its children |
| Trees.Splice | utility.py:224-230 | definition: each child with the junction's own label is replaced by its children; `Trees.SpliceSound` states its meaning |
| Trees.SpliceSound | utility.py:224-230 | splicing keeps the junction's truth value and shape, and keeps a non-empty list non-empty |
| Trees.FlattenAll | utility.py:221-222 | every child is flattened, in order |
| Trees.FlattenConnectives | utility.py:217-233 | the procedure returns the flattened tree `Flatten(node)` |
| Trees.Flatten | utility.py:217-233 | definition: children first, then splice and deduplicate under ∧ and ∨; `Trees.FlattenSound`, `Trees.FlattenIsFlat` and `Trees.FlattenIdempotent` state its properties |
| Trees.FlattenSound | utility.py:217-233 | flattening keeps a well-shaped tree well shaped and keeps its truth value |
| Trees.FlattenIsFlat | utility.py:217-233 | no `∧`/`∨` of the result has a child with its own label, and the children of each have distinct renderings |
| Trees.FlattenOfFlat | utility.py:217-233 | a flat tree is left as it is |
| Trees.FlattenIdempotent | utility.py:217-233 | flattening twice is flattening once |
| TruthTables.SortedSet | utility.py:200 | `sorted` of the variable set is strictly increasing and has exactly the set's members |
| TruthTables.Assignments | utility.py:201 | `product([False, True], repeat=k)` has 2^k rows, each of length k |
| TruthTables.AssignmentsDistinct | utility.py:201 | the rows of the product are pairwise different |
| TruthTables.AssignmentsComplete | utility.py:201 | every k-tuple of truth values is a row of the product |
| TruthTables.AssignmentAt | utility.py:201 | a tuple of k truth values, read as a binary number with False as 0 and the first value most significant, is the index of its row in the product |
| TruthTables.Zip | utility.py:203 | `dict(zip(variables, values))` has exactly the listed variables as keys |
| TruthTables.ZipLookup | utility.py:203 | with distinct variables, the i-th variable is mapped to the i-th value |
| TruthTables.ZipOnto | utility.py:200-203 | every assignment to exactly the sorted variables is produced by some row |
| TruthTables.RowsDecideValid | utility.py:198-214 | a well-shaped tree is true under every assignment to its variables if and only if it is true in every row of the table |
| TruthTables.RowsDecideUnsatisfiable | utility.py:198-214 | a well-shaped tree is false under every assignment to its variables if and only if it is false in every row |
| TruthTables.Classify | utility.py:206-214 | the verdict is "valid" exactly for an all-true column, "unsatisfiable" exactly for an all-false column, and "satisfiable but invalid" exactly when both values occur |
| TruthTables.ColumnClassifies | utility.py:198-214 | the verdict on a tree's column is "valid" exactly for tautologies and "unsatisfiable" exactly for contradictions |
| TruthTables.EvaluateColumn | utility.py:201-205 | the loop yields one value per row, 2^k in all; for a well-shaped tree over its own variables it succeeds and row i holds the tree's value in row i |
| TruthTables.CheckValidity | utility.py:198-214 | for a well-shaped tree the verdict is given, and it is "valid" exactly for tautologies and "unsatisfiable" exactly for contradictions |
| TruthTables.Kept | utility.py:83-86 | every kept assignment has one value per variable |
| TruthTables.KeptFromInput | utility.py:81-86 | every kept assignment is one of the input tuples and respects ⊤ true and ⊥ false |
| TruthTables.KeptComplete | utility.py:81-86 | every input tuple that respects ⊤ true and ⊥ false is kept |
| TruthTables.KeptDistinct | utility.py:81-86 | pairwise different input tuples stay pairwise different after skipping |
| TruthTables.TableRowsMeaning | utility.py:81-92 | for a well-shaped tree over the listed variables, each kept assignment gives exactly one row, holding the assignment and the tree's truth value |
| TruthTables.BuildRows | utility.py:81-92 | the row loop builds exactly what `TableRows` describes, including its failure at the first evaluation error; for a well-shaped tree over its variables it succeeds |
| TruthTables.AddRow | utility.py:81-92 | one iteration of the row loop: the rows so far become the rows `TableRows` describes for one more input tuple, a skipped tuple adding nothing and an evaluation error ending the table |
| TruthTables.GenerateTruthTable | utility.py:74-101 | for a well-shaped tree: at most 2^k pairwise distinct rows; each row's keys are the tree's variables, it respects the constants and records the tree's truth value; every assignment that respects the constants has a row |
| TruthTables.TableFacts | utility.py:74-101 | the rows built from all kept assignments have the properties listed for `GenerateTruthTable` |
| TruthTables.KeepFirstRows | utility.py:94-100 | the duplicate pass leaves distinct rows with the same members, keeps an already distinct table whole, and keeps exactly the first copy of each row, in table order |
| Wff.Normalize | wff.py:12 | the normalised text contains no blank and no `→` |
| Wff.NormalizedExpression | wff.py:12 | the rendering of a parser tree, with its blanks removed, is the one text the parser accepts for it |
| Wff.StrictIsWellShaped | wff.py:24-93 | every tree the parser's grammar describes is well shaped |
| Wff.AtomF | wff.py:24-41 | reading an atom moves the cursor forward and stays inside the text |
| Wff.UnaryF | wff.py:43-60 | a successful negation moves the cursor forward and stays inside the text |
| Wff.BinaryF | wff.py:62-90 | a successful binary formula moves the cursor forward and stays inside the text |
| Wff.ExprF | wff.py:92-93 | a successful formula moves the cursor forward and stays inside the text |
| Wff.ParseFrom | wff.py:95-110 | definition: the empty text is an error; otherwise one formula is read from position 0, it must end at the end of the text, and the error otherwise depends on the character under the cursor; `Wff.ParseExactlyStrictTexts` states its meaning |
| Wff.Parser.constructor | wff.py:11-16 | the text is normalised, the cursor and the operation count are 0, and there is no root |
| Wff.Parser.CurrentChr | wff.py:18-19 | a character is returned exactly when the cursor is inside the text, and it is the one under the cursor |
| Wff.Parser.ParseAtomic | wff.py:24-41 | the method returns the atom `AtomF` reads and moves the cursor past it; nothing else changes |
| Wff.Parser.ParseUnary | wff.py:43-60 | the method returns what `UnaryF` reads or the error it raises, and moves the cursor to its end; the operation count grows by the number of connectives read |
| Wff.Parser.ParseBinary | wff.py:62-90 | the same for `BinaryF`, including the five error messages |
| Wff.Parser.ParseExpression | wff.py:92-93 | the same for the atom / negation / binary choice |
| Wff.Parser.Parse | wff.py:95-110 | the method returns `ParseFrom`'s tree or the error chosen by the next character; on success the root is stored, the cursor is at the end and the count covers the whole tree |
| Wff.AtomSound | wff.py:24-41 | when `parse_atomic` reads an atom from position i, the atom is an upper-case letter and digits, it is spelled in the text from i, and the cursor stops right after it |
| Wff.ExprSound | wff.py:92-93 | when `parse_expression` at position i returns a tree, the tree is a strict tree (atom, `(¬…)` or `(…c…)` with c one of ∧ ∨ ⇒ ⇔), its strict text is spelled in the text from i, and the cursor stops right after that text |
| Wff.UnarySound | wff.py:43-60 | the same for `parse_unary`: a returned tree is a strict ¬ node spelled `(¬…)` from i, and the cursor stops after its `)` |
| Wff.BinarySound | wff.py:62-90 | the same for `parse_binary`: a returned tree is a strict binary node spelled `(left c right)` without blanks from i, and the cursor stops after its `)` |
| Wff.ExprComplete | wff.py:24-93 | if the strict text of a strict tree is spelled in the text from i, and no digit follows it, then `parse_expression` at i returns exactly that tree and stops right after the text |
| Wff.NegationComplete | wff.py:43-60 | the same for a ¬ node: `(¬…)` spelled from i is read back as that node, stopping after its `)` |
| Wff.BinaryComplete | wff.py:62-90 | the same for a binary node: `(left c right)` spelled from i is read back as that node, stopping after its `)` |
| Wff.ParseExactlyStrictTexts | wff.py:95-110 | `parse` returns t if and only if t is a strict tree and the normalised text is exactly its strict text: the parser accepts the strict texts and nothing else |
| Wff.ParseOfRendering | wff.py:12 | the rendering `get_node_expression` gives a strict tree, with its blanks removed, parses back to that tree |
| Wff.WffVariablesOfStrict | wff.py:112-113 | on parsed trees the parser's `get_variables` agrees with `utility.get_variables` |
| Wff.WffVariables | wff.py:112-113 | definition: a label with an upper-case initial, made of letters and digits, is collected; any other label is looked through; `Wff.WffVariablesOfStrict` relates it to `get_variables` |
| Wff.WffEvaluateMeansHolds | wff.py:115-128 | on a parsed tree `evaluate` succeeds exactly when every variable has a value, and then returns the tree's truth value |
| Wff.WffEvaluate | wff.py:115-128 | definition: ¬ negates its first child, ∧ ∨ ⇒ ⇔ combine their first two children, a label with a value reads it, anything else is the "Missing truth value" error; `Wff.WffEvaluateMeansHolds` states its meaning |
| Wff.WffRows | wff.py:132-133 | one value per row when no evaluation fails |
| Wff.WffTruthTable | wff.py:130-133 | the table has 2^k entries for the k sorted variables |
| Wff.WffRowsMeaning | wff.py:132-133 | on a parsed tree every row evaluates, to the tree's truth value under that row |
| Wff.WffRowsOk | wff.py:132-133 | on a parsed tree over exactly its variables, no row of the table fails to evaluate |
| Wff.WffRowAt | wff.py:132-133 | entry i of the table is the tree's truth value under the i-th row zipped with the variables |
| Wff.WffTruthTableMeaning | wff.py:130-133 | the truth table of a parsed formula has 2^k entries and holds, in row i, the formula's value in row i of the assignments |
| Wff.WffValidity | wff.py:135-141 | the answer is one of the three messages |
| Wff.WffValidityMeaning | wff.py:135-141 | the message is "valid" exactly for tautologies and "unsatisfiable" exactly for contradictions |
| ShuntingYard.PrecedenceOf | shunting_yard.py:8-21 | ¬ has 3, ∧ and ∨ have 2, ⇒ has 1, and ⇔ and every non-operator have 0 |
| ShuntingYard.ShuntToken | shunting_yard.py:27-41 | definition of one token step: an operand goes to the queue, `(` onto the stack, `)` pops to the topmost `(` and removes it (failing when the stack is then empty), an operator pops what yields to it and is pushed; `ShuntingYard.ShuntTokenKeepsStack` and its companions state its invariants |
| ShuntingYard.ShuntTokens | shunting_yard.py:26-41 | definition: the token steps in order, the first failure ending the loop; `ShuntingYard.ShuntKeepsTokens` states its invariants |
| ShuntingYard.PopOperators | shunting_yard.py:36-40 | definition: move the stack top to the queue while it is not `(` and yields to the incoming operator; `ShuntingYard.PopOperatorsMeaning` states what it pops |
| ShuntingYard.PopToParenthesis | shunting_yard.py:32-33 | definition: move the stack top to the queue until a `(` is on top; `ShuntingYard.PopToParenthesisMeaning` states what it pops |
| ShuntingYard.Drain | shunting_yard.py:43-44 | definition: every operator left on the stack goes to the queue, top first |
| ShuntingYard.Combine | shunting_yard.py:56-61 | definition of the text for a binary operator, with the source's merge test; `ShuntingYard.CombineSamples` and `ShuntingYard.MergeTestMisfires` show what it writes |
| ShuntingYard.PostfixStep | shunting_yard.py:50-66 | definition of one postfix step: ¬ wraps the top text, a binary operator combines the two top texts, anything else is pushed; a pop from too short a stack fails |
| ShuntingYard.Construct | shunting_yard.py:48-72 | definition: the postfix steps in order, then the one text left on the stack or the "Error converting" failure; `ShuntingYard.AgreeWithoutJunctions` relates it to the corrected stage |
| ShuntingYard.Tokenize | shunting_yard.py:25 | every token is an atom, a connective, a parenthesis or a truth constant |
| ShuntingYard.TokenizeJoin | shunting_yard.py:25 | tokenising the text of a token list gives the list back |
| ShuntingYard.TokensComeFromText | shunting_yard.py:25 | the tokens spell a subsequence of the text: the scan only skips characters |
| ShuntingYard.PopOperatorsMeaning | shunting_yard.py:35-41 | an incoming operator pops exactly the run of stack entries that yield to it, top first, onto the queue; the entry left on top does not yield |
| ShuntingYard.PopToParenthesisMeaning | shunting_yard.py:31-34 | `)` pops every entry above the topmost `(` onto the queue, top first |
| ShuntingYard.ShuntFailurePersists | shunting_yard.py:26-41 | once the token loop fails on a prefix of the tokens (a `)` with nothing to pop), the whole loop fails with the same error |
| ShuntingYard.ShuntTokenKeepsStack | shunting_yard.py:26-41 | each step keeps the stack well stacked: precedences rise towards the top between parentheses |
| ShuntingYard.ShuntTokenKeepsOperands | shunting_yard.py:26-41 | each step sends operands to the queue in input order |
| ShuntingYard.ShuntTokenKeepsOperators | shunting_yard.py:26-41 | each step keeps every operator read on the queue or on the stack |
| ShuntingYard.ShuntKeepsTokens | shunting_yard.py:26-41 | over the whole token loop: the stack stays well stacked, the operands reach the queue in order, and no operator is lost or invented |
| ShuntingYard.QueueKeepsTokens | shunting_yard.py:23-44 | the queue handed to the postfix stage holds the input's operands in order and exactly its operators |
| ShuntingYard.Inner | shunting_yard.py:59 | `text[1:-1]` of a parenthesised text is what lies between the parentheses |
| ShuntingYard.PostfixFailurePersists | shunting_yard.py:48-67 | once the postfix loop fails on a prefix of the queue, the whole loop fails with the same error |
| ShuntingYard.MergedKeepsTruth | shunting_yard.py:58-61 | merging a junction's left operand of the same junction into it keeps the truth value |
| ShuntingYard.CorrectedStackTracks | shunting_yard.py:48-72 | the corrected postfix stage fails exactly when the queue describes no trees; otherwise each entry is the rendering of the merged tree |
| ShuntingYard.ConstructCorrectedMeaning | shunting_yard.py:48-72 | the corrected stage succeeds exactly for a queue describing one tree; its text renders the merged tree, which has that tree's truth value |
| ShuntingYard.MergeTestMisfires | shunting_yard.py:58-61 | on the queue of `(P∧Q∨R)∧S` the source produces `((P∧Q)∨R∧S)` |
| ShuntingYard.CorrectedMergeKeepsParentheses | shunting_yard.py:58-61 | the corrected test produces `(((P∧Q)∨R)∧S)` on the same queue |
| ShuntingYard.CombineSamples | shunting_yard.py:58-61 | the three texts the source's merge test builds for that queue |
| ShuntingYard.AgreeWithoutJunctions | shunting_yard.py:48-72 | without ∧ and ∨ in the queue the source and the corrected stage give the same result |
| ShuntingYard.RemoveBlanks | shunting_yard.py:5 | the result has no blank and is a subsequence of the input |
| ShuntingYard.Converter.constructor | shunting_yard.py:4-15 | blank-free expression, empty queue and empty stack |
| ShuntingYard.Converter.Convert | shunting_yard.py:23-46 | a failing token loop gives its error; otherwise the queue is the drained loop result, the stack is empty, and the answer is built from the queue |
| ShuntingYard.Converter.ShuntOne | shunting_yard.py:27-41 | one token step on the converter's queue and stack computes `ShuntToken`: it fails exactly when `ShuntToken` fails, with "pop from empty list" |
| ShuntingYard.Converter.ConstructExpressionFromPostfix | shunting_yard.py:48-72 | the loop over the queue computes `Construct`, the postfix evaluation on texts |
| Nnf.RewriteAll | normal_form.py:89-90 | each child is rewritten, in order |
| Nnf.Rewrite | normal_form.py:5-92 | definition: one rewrite rule per case of `transform_to_nnf` (double negation, De Morgan, negated ⇒ and ⇔, ⇒ and ⇔), children of ∧ and ∨ rewritten, with a fuel bound; `Nnf.RewriteTruth`, `Nnf.RewriteShape` and `Nnf.RewriteFuel` state its properties |
| Nnf.ToNnf | normal_form.py:5-92 | definition: `Rewrite` with the tree's weight as fuel; `Nnf.NnfSound` and `Nnf.NnfIdempotent` state its properties |
| Nnf.NegateAll | normal_form.py:20-22 | each operand is rewritten and put under ¬, in order |
| Nnf.RewriteWeight | normal_form.py:5-92 | no rewrite makes a tree heavier |
| Nnf.RewriteTruth | normal_form.py:5-92 | the rewrite keeps the truth value under every assignment, whatever the fuel |
| Nnf.ImplicationStepTruth | normal_form.py:67-76 | `a ⇒ b` becomes the equivalent `¬a' ∨ b'` |
| Nnf.EquivalenceStepTruth | normal_form.py:78-87 | `a ⇔ b` becomes the equivalent `(a ⇒ b) ∧ (b ⇒ a)` |
| Nnf.NegatedJunctionStepTruth | normal_form.py:16-36 | De Morgan: `¬` over a junction becomes the equivalent dual junction of negations |
| Nnf.NegatedImplicationStepTruth | normal_form.py:38-47 | `¬(a ⇒ b)` becomes the equivalent `a' ∧ ¬b'` |
| Nnf.NegatedEquivalenceStepTruth | normal_form.py:49-62 | `¬(a ⇔ b)` becomes the equivalent exclusive disjunction |
| Nnf.ExclusiveTruth | normal_form.py:53-59 | the disjunction built for `¬(a ⇔ b)` holds exactly when a and b differ |
| Nnf.RewriteShape | normal_form.py:5-92 | with enough fuel a well-shaped tree becomes a well-shaped tree in negation normal form |
| Nnf.RewriteFuel | normal_form.py:5-92 | from the weight of the tree on, more fuel changes nothing: the recursion terminates |
| Nnf.RewriteFuelEnough | normal_form.py:5-92 | any fuel from the weight upward gives `ToNnf` |
| Nnf.NnfSound | normal_form.py:5-92 | `transform_to_nnf` turns a well-shaped tree into a well-shaped tree in negation normal form with the same truth value |
| Nnf.NnfFixesNnf | normal_form.py:64-65 | a tree already in negation normal form is returned unchanged |
| Nnf.NnfIdempotent | normal_form.py:5-92 | rewriting twice gives what rewriting once gives |
| Nnf.NnfDeMorgan | normal_form.py:16-36 | the negation of a junction becomes the dual junction over as many operands, each true exactly when the original operand is false |
| Simplifier.KeptAll | normal_form.py:170-171 | each child is left in the state its own simplification leaves it in |
| Simplifier.Simplify | normal_form.py:165-188 | definition: the children are simplified first, then `Settle` decides the node; `Simplifier.SimplifySound` states its meaning |
| Simplifier.Settle | normal_form.py:178-275 | definition: under ∧ and ∨ splice and deduplicate, hand a single survivor to `Finish` and keep it as the only child; otherwise `Finish` the node |
| Simplifier.Finish | normal_form.py:189-275 | definition: a complementary pair turns ∨ into ⊤ and ∧ into ⊥, ¬⊤ and ¬⊥ become ⊥ and ⊤, a junction goes to `Absorb` |
| Simplifier.Absorb | normal_form.py:226-273 | definition: all units give the unit, a zero gives the zero, otherwise units are dropped, duplicates removed and a single survivor returned |
| Simplifier.ClashDecides | normal_form.py:189-215 | when every negated child negates a name, a name that occurs both plain and negated among the children makes `∨` true and `∧` false |
| Simplifier.WithoutUnitTruth | normal_form.py:237-245 | dropping ⊤ under ∧ (⊥ under ∨) keeps the junction's truth value |
| Simplifier.AllUnits | normal_form.py:228-236 | a junction whose children are all its unit holds exactly when the unit does |
| Simplifier.SomeZero | normal_form.py:240-243 | a junction with its zero among the children holds exactly when the zero does |
| Simplifier.PruneSound | normal_form.py:237-248 | dropping units and deduplicating keeps the junction non-empty, well shaped, in negation normal form, and true in the same cases |
| Simplifier.AbsorbSound | normal_form.py:226-273 | the unit and zero handling keeps meaning and shape, in what it returns and in what it leaves behind |
| Simplifier.AbsorbReduced | normal_form.py:226-273 | a junction that keeps its label after absorption has no ⊤ or ⊥ child and no two children with the same rendering |
| Simplifier.FinishSound | normal_form.py:189-275 | the complement, constant-negation and unit/zero stages keep meaning and shape |
| Simplifier.JunctionStage | normal_form.py:178-185 | splicing and deduplicating the simplified children keeps the junction's meaning and shape |
| Simplifier.SettleSound | normal_form.py:178-275 | what happens after the children are simplified keeps meaning and shape |
| Simplifier.SimplifySound | normal_form.py:165-275 | `simplify_tree` keeps the meaning of a well-shaped tree in negation normal form under every assignment, in its result and in the state it leaves the node in |
| Simplifier.SimplifiedJunction | normal_form.py:165-275 | after `simplify_tree`, a junction that keeps its label and has other than one child has no ⊤ or ⊥ child and no two children with the same rendering |
| Simplifier.SimplifySize | normal_form.py:165-275 | simplification never grows a tree |
| Simplifier.CheckIntegritySound | normal_form.py:278-285 | `check_simplified_integrity` keeps meaning, shape and negation normal form |
| Simplifier.CheckIntegrity | normal_form.py:278-285 | definition: a one-child junction is replaced by its child, once per level, and the children of the resulting node are checked the same way |
| Simplifier.CheckIntegrityFixes | normal_form.py:278-285 | a tree without a one-child junction passes unchanged |
| Simplifier.Lift | normal_form.py:282-283 | the node is kept or replaced by its only child |
| Simplifier.CollectNames | normal_form.py:192-196 | the loop collects exactly the plain and the negated names of the children |
| Simplifier.AllChildrenLabelled | normal_form.py:228-232 | the loop answers whether every child carries the label |
| Simplifier.DropUnits | normal_form.py:237-245 | the loop reports absorption exactly when a zero is present, and otherwise returns the children without units |
| Simplifier.AbsorbConstants | normal_form.py:226-273 | the procedure computes the specification `Absorb` |
| Simplifier.FinishNode | normal_form.py:189-275 | the procedure computes the specification `Finish` |
| Simplifier.SimplifyTree | normal_form.py:165-275 | the procedure computes `Simplify`, both the node's new state and the returned node |
| Simplifier.SettleNode | normal_form.py:178-275 | the procedure computes `Settle` |
| NormalForm.ProductMembers | normal_form.py:129 | a member of `itertools.product` picks one member from each group, and every such pick is a member |
| NormalForm.Product | normal_form.py:129 | definition of `itertools.product` on groups: the first group varies slowest; `NormalForm.ProductMembers` states its members |
| NormalForm.CnfDistribution | normal_form.py:125-143 | a disjunction of conjunctions holds exactly when every disjunction over a pick holds |
| NormalForm.DnfDistribution | normal_form.py:125-143 | a conjunction of disjunctions holds exactly when some conjunction over a pick holds |
| NormalForm.Groups | normal_form.py:127 | each child offers its alternatives (corrected grouping) |
| NormalForm.Distribute | normal_form.py:132-143 | each pick becomes the simplified outer junction over it |
| NormalForm.GroupTruth | normal_form.py:127 | a child means the inner junction over its alternatives |
| NormalForm.DistributedSound | normal_form.py:125-143 | the picks, simplified, are non-empty, well shaped, in negation normal form, and the inner junction over them means the node |
| NormalForm.ConvertSound | normal_form.py:122-148 | the corrected `convert` keeps meaning, shape and negation normal form |
| NormalForm.Convert | normal_form.py:122-148 | definition of the corrected `convert`: a node with the outer junction and an inner-junction child is distributed, and the children are converted in turn; `NormalForm.ConvertSound` states its meaning |
| NormalForm.ConvertNode | normal_form.py:122-148 | the procedure computes `Convert` |
| NormalForm.ConvertEach | normal_form.py:146-147 | each child is converted in turn |
| NormalForm.DistributeNode | normal_form.py:129-143 | the loop over the picks builds `Distributed` |
| NormalForm.GroupsAsWritten | normal_form.py:127 | the grouping as written: any child with more than one child offers its children |
| NormalForm.ConvertAsWritten | normal_form.py:122-148 | definition of `convert` as written, with the grouping of line 127 and a fuel bound; `CnfSplit.SplitCounterexample` shows its defect |
| NormalForm.Lower | normal_form.py:96 | ASCII lower-casing, character by character |
| NormalForm.NnfStageSound | normal_form.py:97-111 | the nnf stage keeps the meaning and yields a well-shaped tree in negation normal form |
| NormalForm.NnfStage | normal_form.py:95-111 | definition: negation normal form, then `simplify_tree`, then `check_simplified_integrity` |
| NormalForm.TransformToNormalForm | normal_form.py:95-162 | corrected: line 127's grouping is replaced by the corrected `NormalForm.Convert` (`NormalForm.TransformAsWritten` is the as-written twin); the lower-cased type picks the nnf stage, or distribution over ∧ (dnf) or ∨ (cnf) followed by `simplify_tree`; any other type gives None; `NormalForm.TransformSound` states its meaning |
| NormalForm.TransformAsWritten | normal_form.py:95-162 | definition: the same with `convert` as written |
| NormalForm.TransformSound | normal_form.py:95-162 | corrected (about `NormalForm.TransformToNormalForm`): an answer is given exactly for "nnf", "dnf" and "cnf" in any case, and it is a well-shaped tree in negation normal form that means the input |
| CnfSplit.SplitChangesTruth | normal_form.py:127 | the source's CNF of the sample formula is false where the formula is true |
| CnfSplit.SplitCounterexample | normal_form.py:122-150 | for ∨[∧[b∨c, b∨c], d∧e], the source's `cnf` result differs in truth from the input, while the corrected one does not |
| CnfSplit.SplitAsWritten | normal_form.py:95-150 | on the sample formula and valuation, the input is true and the source's `cnf` result is false |
| CnfSplit.SplitCorrected | normal_form.py:95-150 | on the same input the corrected `cnf` result is true, like the input |
| CnfSplit.CnfSplitCounterexample | normal_form.py:122-150 | the same with names B, C, D, E and B true, the others false |
| Clauses.Negate | resolution.py:72-74 | `negate_literal` gives None exactly for the empty literal, and otherwise removes or adds one `¬` |
| Clauses.NegateFlips | resolution.py:72-74 | the negation of a non-empty literal has the opposite truth value |
| Clauses.NegateInvolution | resolution.py:72-74 | negating twice gives the literal back exactly when it is plain (a name or a negated name) |
| Clauses.RemoveSpaces | resolution.py:78 | the result has no blank and is unchanged on blank-free text |
| Clauses.NextBrace | resolution.py:78 | the scan stops at the first brace |
| Clauses.Groups | resolution.py:78 | the matches of `{[^{}]*}` contain no brace |
| Clauses.Split | resolution.py:78 | `split(",")` gives at least one piece and no piece contains a comma |
| Clauses.SplitJoin | resolution.py:78 | splitting comma-joined comma-free pieces gives the pieces back |
| Clauses.CreateClauseList | resolution.py:77-78 | one clause per innermost brace group, the set of its comma-separated pieces |
| Clauses.ClauseListRoundTrip | resolution.py:77-78 | reading back a rendered clause list gives each clause's set of literals, with `{}` read as `{''}` |
| Clauses.LiteralNodes | resolution.py:53-54 | the literal trees exist exactly when no literal is empty |
| Clauses.LiteralNode | resolution.py:51-54 | a literal becomes a tree except the empty literal, which raises (`literal[0]`, `sorted(clause)[0][0]`) |
| Clauses.ClauseNode | resolution.py:51-54 | definition: a one-literal clause is its literal's tree, a longer one ∨ over its literals' trees; `Clauses.ClausalToStrongMeaning` states its meaning |
| Clauses.ClauseText | resolution.py:56 | a clause of more than one literal is parenthesised, and its literals are joined by ` ∨ ` |
| Clauses.MarkEmpty | resolution.py:46-48 | every clause `{''}` is replaced by ⊥ and every other clause is kept, position by position |
| Clauses.ClausalToStrong | resolution.py:35-56 | the empty list is ⊤; the text form never fails; the tree form gives a tree |
| Clauses.ClausalToStrongMeaning | resolution.py:35-56 | for variable literals the tree is well shaped and holds exactly when every clause holds |
| Clauses.ClausalToStrongFails | resolution.py:51-54 | the tree form fails exactly when a clause of two or more literals holds the empty literal |
| Elimination.AllLiterals | resolution.py:121 | exactly the literals that occur in some clause |
| Elimination.PureLiterals | resolution.py:122 | definition: the literals whose negation does not occur; `Elimination.PureEquisatisfiable` states what removing their clauses keeps |
| Elimination.ListRemove | resolution.py:126 | `list.remove`: one clause fewer when the clause is present, the list unchanged otherwise |
| Elimination.KeepImpure | resolution.py:124-126 | the clauses sharing no literal with the pure set, in order |
| Elimination.PureLiteralElimination | resolution.py:120-128 | the loop removes exactly the clauses that hold a pure literal |
| Elimination.PureKeepsModels | resolution.py:120-128 | every model of the input satisfies the result |
| Elimination.PureEquisatisfiable | resolution.py:120-128 | over plain literals the result is satisfiable if and only if the input is |
| Elimination.OneLiteralElimination | resolution.py:108-117 | the loop computes `OneLiteral`, including the in-place deletion from clauses that already left the list |
| Elimination.Propagate | resolution.py:113-115 | the inner loop computes `Strike` for the unit literal |
| Elimination.Strike | resolution.py:113-115 | the inner loop keeps every position, only takes literals out of clauses and clauses out of the list |
| Elimination.Sweep | resolution.py:109-115 | the outer loop from a position on keeps every position, only shrinks clauses, and never lengthens the list |
| Elimination.OneLiteral | resolution.py:108-117 | definition: the clauses still listed after the sweep from the first position; `Elimination.OneLiteralKeepsModels` states its meaning |
| Elimination.OneLiteralKeepsModels | resolution.py:108-117 | every model of the input satisfies the result |
| Elimination.OneLiteralNeverAdds | resolution.py:108-117 | the result has no more clauses and no new literals |
| Elimination.StrikeClears | resolution.py:113-115 | after propagation no listed clause holds the literal or its negation |
| Resolution.Resolve | resolution.py:81-87 | None exactly when no literal of the first clause has its negation in the second; otherwise a resolvent on one such literal |
| Resolution.ResolventSound | resolution.py:85 | a resolvent holds under every assignment satisfying both parents |
| Resolution.ResolveRow | resolution.py:96-102 | the pairs from one clause: an empty resolvent refutes the list; otherwise the new resolvents follow from it and each clashing pair is covered |
| Resolution.ResolvePairs | resolution.py:96-102 | the same over all pairs `i < j` |
| Resolution.SaturatedFrom | resolution.py:103-104 | once every pair is covered and all resolvents are in the list, the list is saturated |
| Resolution.Enumerate | resolution.py:105 | `list(map(set, new))` lists each member once |
| Resolution.EliminatedEntails | resolution.py:93-95 | every model of the input satisfies what the eliminations leave |
| Resolution.Saturate | resolution.py:90-105 | False means unsatisfiable; True means a saturated list that follows from the input; without the eliminations that list starts with the input; with the empty-clause test a list holding `{}` or the `{''}` marker is refuted in the first round; with at most one clause left after the eliminations the answer is settled in the first round |
| Resolution.ResolutionAsWritten | resolution.py:90-105 | False means unsatisfiable; True returns a saturated final list that every model of the input satisfies and that, without the eliminations, starts with the input; when the eliminations leave at most one clause the answer is True, even for the empty clause |
| Resolution.Resolution | resolution.py:90-105 | corrected: True returns a saturated final list that every model of the input satisfies, that starts with the input when there are no eliminations, and that holds neither `{}` nor the `{''}` marker; a list holding either before the first round, or a single empty clause left by the eliminations, gives False |
| Resolution.EmptyMarkerRefuted | resolution.py:78 | `[{''}]`, the clause list of `{}`, has no model and the corrected search answers False on it |
| Resolution.UnitClashUnsatisfiable | resolution.py:90-105 | `{A}` and `{¬A}` have no model |
| Resolution.UnitClashEliminated | resolution.py:108-128 | the eliminations reduce `[{A}, {¬A}]` to the single empty clause |
| Resolution.ResolutionCounterexample | resolution.py:90-105 | on `[{A}, {¬A}]` the source answers True and the corrected version False |
| Dpll.Unsatisfied | resolution.py:141 | exactly the clauses that no literal assigned True satisfies |
| Dpll.Unassigned | resolution.py:153-154 | exactly the literals of the clauses such that neither they nor their negation is a key |
| Dpll.Search.constructor | resolution.py:177 | the search starts from the empty assignment |
| Dpll.Search.Search | resolution.py:139-174 | a found assignment extends the one on entry, is all true and satisfies every clause, and stays consistent over plain literals; None restores the assignment and happens for an empty clause; when stuck, None means no model agrees with the entry assignment; as written, a search with clauses left and no literal to pick raises |
| Dpll.Search.Branch | resolution.py:159-173 | one branch: on success the same facts as `Search`; None restores the assignment; when stuck, None means no model agrees with the assignment extended by the key, and as written a branch that gets stuck raises |
| Dpll.UniverseShrinks | resolution.py:160-167 | storing a key shrinks the set of keys still free, which bounds the recursion |
| Dpll.BothBranches | resolution.py:159-174 | a model that agrees with the assignment agrees with one of the two extensions tried |
| Dpll.Stuck | resolution.py:153-156 | when no literal is left unassigned, no model agrees with the assignment |
| Dpll.ModelOf | resolution.py:150 | the valuation read off an assignment has exactly the stored literals' names, with their values |
| Dpll.AssignmentModel | resolution.py:150 | a consistent all-true assignment of plain literals that satisfies every clause gives a model of the clauses |
| Dpll.FindSatisfyingInterpretation | resolution.py:131-177 | corrected: never raises; None exactly when there is no model (for plain literals); a found assignment satisfies every clause and, for plain literals, is consistent and gives a model |
| Dpll.FindSatisfyingInterpretationAsWritten | resolution.py:131-177 | as written: None exactly when a clause is empty; a found assignment satisfies every clause |
| Dpll.InterpretationCounterexample | resolution.py:153-156 | on `[{A}, {¬A}]` the source raises, and the corrected version answers None |
| Dpll.SatisfiableCounterexample | resolution.py:153-156 | `[{A, B}, {¬A}]` has a model, yet the branch that tries A first raises, and the source passes the exception on |

## Left out

- Printing is not modelled: progress messages, `print_tree`, `print_truth_table` and the indentation arguments. The one exception is the validity message text, which is modelled.
- The main driver in `wff.py` (lines 144-174), `main.py`, `predicate_logic.py` and the demo at `resolution.py:180-186` are not part of this model.
- `strong_to_clausal` (`resolution.py:59-69`) is not modelled. It only formats the result of `transform_to_normal_form`, and that result is modelled.
- The commented-out dpll at `resolution.py:1-25` is not modelled, because it is inactive code.
- `clausal_to_strong` is modelled on a list of clauses. On a string it applies `create_clause_list` first, which is modelled separately. Any other input returns None.
- `compare_truth_tables` and `is_valid` (`utility.py:158-195`) are not modelled. They print, and they compare or scan the same rows `generate_truth_table` builds.
- The table's sub-formula columns (`get_all_nodes` and `evaluate_expression`, `utility.py:50-71`) are left out. A row keeps the assignment and the value of the whole formula.
- The memo `intermediary` of `evaluate_truth_table` is not modelled. It is keyed by node identity and does not change results.
- Upper case, letters and digits are ASCII only. `str.isupper`, `isalpha`, `isalnum` and `isdigit` also accept other Unicode characters.
- Wff.Parser: error messages drop the ", at index: N." suffix. Their wording, including the connective, is kept.
- The shunting-yard output is not proved to parse back to a tree equivalent to the input. The model proves token conservation, the stack discipline and the postfix evaluation.
- Trees are values. The in-place updates of anytree nodes are modelled by returning the new node, or by returning a pair (node state, returned node) for `simplify_tree`. This loses parent links and the aliasing between a node and its former parent's child list.
- Nnf.Rewrite carries a fuel bound. `RewriteFuelEnough` proves that `Weight(n)` fuel always suffices.
- NormalForm.ConvertAsWritten carries a fuel bound. With the source's grouping a node need not shrink, so the model does not claim termination.
- Resolution.Saturate: a fuel bound on the number of rounds replaces the source's unbounded loop.
- Resolution.Resolution: True returns a saturated list without the empty clause, entailed by the input and, without the eliminations, starting with it. That such a list is satisfiable (the completeness of resolution) is not proved.
- Resolution.Resolution: with the eliminations, the final list is tied to the input only by entailment. That the eliminations keep a satisfiable list satisfiable in the other direction is not proved.
- Elimination.OneLiteralElimination: only one direction is proved, that every model of the input is a model of the result. The converse is not proved.
- Simplifier.SimplifySound is proved for trees in negation normal form, the only trees the source passes to `simplify_tree`.
- NormalForm.TransformSound proves meaning and negation normal form. That the result has conjunctive or disjunctive normal form shape is not proved.
- Set iteration order is unspecified in Python. `resolve`, `next(iter(...))` and the listing of sets choose any element.
- Strings are sequences of code points. No normalisation is done.
- Syntax.Expression and Syntax.Variables are modelled on well-shaped trees only, the only trees the toolchain builds. On other trees the source differs: `get_node_expression` renders only the first two children of ⇒ and ⇔ and raises with fewer than two, and `get_variables` raises on an empty label. The model joins every child and looks through an empty label.

## Findings

| source | as written | input that shows it | evidently intended | confidence | as-written member | corrected member |
|---|---|---|---|---|---|---|
| shunting_yard.py:58-61 | a left operand is opened up whenever the junction symbol occurs anywhere in its text | `(P∧Q∨R)∧S` gives `((P∧Q)∨R∧S)` | open up only a left operand whose main connective is the same junction | not executed | ShuntingYard.MergeTestMisfires | ShuntingYard.ConstructCorrectedMeaning |
| normal_form.py:127 | every child with more than one child offers its own children as alternatives, whatever its label | `cnf` of ∨[∧[B∨C, B∨C], D∧E] with B true and C, D, E false: the input is true and the result false | only a child labelled with the inner junction offers its children | not executed | CnfSplit.CnfSplitCounterexample | NormalForm.ConvertSound |
| resolution.py:90-105 | an empty clause left in the list by the eliminations is never looked at | `resolution([{A}, {¬A}])` answers True | answer False when the list holds the empty clause, written `{}` or as the `{''}` marker | not executed | Resolution.ResolutionCounterexample | Resolution.Resolution |
| resolution.py:153-156 | `next(iter(unassigned))` raises when no literal is left to try | `find_satisfying_interpretation([{A}, {¬A}])` raises StopIteration | answer None, because no model exists | not executed | Dpll.InterpretationCounterexample | Dpll.FindSatisfyingInterpretation |
| resolution.py:153-156 | the same `next(iter(unassigned))` raises inside a branch, and the exception skips the backtracking of every level above | `find_satisfying_interpretation([{A, B}, {¬A}])` with A tried first raises StopIteration, although B true, A false is a model | treat a stuck branch as failed and try the other value | not executed | Dpll.SatisfiableCounterexample | Dpll.FindSatisfyingInterpretation |
