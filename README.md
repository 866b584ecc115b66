# PyConstantExpression — a Dafny model

`PyConstantExpression` is a Python inspection for a JetBrains IDE. It looks at the
condition of every `if` and `elif` branch and reports the conditions that are
always True or always False. It works in three stages.

1. **Constant folding** (`calculateValue`). The condition is folded to an exact
   integer, with booleans encoded as 0 and 1. Folding applies the arithmetic
   `+ - * // ** %`, the comparisons, `and`, `or`, `not` and parentheses. A
   reference to a variable has no value. Folding can run under a map that pins
   chosen comparison nodes to fixed truth values.
2. **Divisions** (`collectDivisions`). Every comparison between a bare variable and
   a constant, `x OP c` or `c OP x`, becomes a *Division*. A Division is that
   comparison seen as a step function of the variable. It has a truth value left
   of the threshold, one at the threshold and one right of it.
3. **Enumeration** (`generateBoolListForDivisions` and `cartesianProduct`). The
   Divisions are grouped by variable. For each variable, the thresholds cut the
   integers into intervals. Each interval gives one row of truth values for that
   variable's comparisons, and a row equal to the previous one is dropped. One row
   is chosen per variable in every possible way, and each choice becomes a map
   from comparison node to truth value. The condition is folded again under every
   map. If all the maps give the same truth value, the condition is reported as
   always that value (`processIfPart`).

The model has one module per concern.

- `Syntax` holds the expression trees. Every node carries an integer identity,
  because the host compares nodes by identity.
- `Evaluator` holds the evaluator. It also defines a reference semantics
  `ValueUnder`, in which every variable is bound to an integer.
- `Divisions` holds the `Division` class and its six factories.
- `Extractor` holds the walk that collects Divisions.
- `Partition` holds the per-variable matrix of truth rows and its loop.
- `Product` holds the cartesian product.
- `Assignments` holds the grouping and the maps.
- `Verdict` holds the decision of `processIfPart`.
- `Scenarios` holds worked conditions.

An evaluation has one of three outcomes:

- a value;
- no value, which is Kotlin's `null`;
- an `ArithmeticException` from `BigInteger`, for `%` by zero or a negative
  exponent of `**`.

An exception is not caught anywhere in the source. It therefore ends the
inspection of that condition, and the model reports it as the verdict `Aborted`.
It also ends the visit of the whole `if` statement, so the `elif` parts after
that condition are not inspected (lines 27-32). The model analyses one condition
at a time and does not model that loop.

Kotlin's `/` and `%` on `BigInteger` truncate toward zero. Python's `//` and `%`
floor instead. The model uses the source's truncating operators, `TruncDiv` and
`TruncRem`. A negative literal such as `-7` is a prefix expression, which folding
does not support, so a negative operand has to come from arithmetic: `(0 - 7) // 2`
folds to `-3`, whereas Python computes `-4`.

The main theorem is `Verdict.Soundness`. When the analysis reports that a
condition is always `b`, the condition evaluates to `b` for every assignment of
integers to its variables. "Evaluates" means `ValueUnder`, which uses the
evaluator's own arithmetic, truncating `//` and `%` included; it is not Python's
arithmetic. `Scenarios.TruncatingProbeAlwaysTrue` shows the difference:
`x < (0 - 7) // 2 or x >= 0 - 3` is reported always True, and `ValueUnder` agrees,
but in Python the condition is False at `x = -4`. The theorem also holds only once
the table for `c < x` is corrected (see "## Findings"). With the table as written,
`Scenarios.SwappedLessUnsound` exhibits a condition that the inspection reports as
always True although it is False at `x = 5`, in either arithmetic. On conditions
without a node of the shape `c < x` the two tables agree (`Verdict.AnalysisTablesAgree`),
so there the source as written is sound too (`Verdict.SoundnessAsWritten`).

Folding is strict, so a variable that no Division compares with a constant blocks
every report. `Verdict.UncomparedVariable` states this for any such variable, and
`Scenarios.BareAndTrueNoVerdict` and `Scenarios.BareAndComparisonNotAlways` work
through `x and True` and `(x) and (y > 3)`.

## Model

Source paths are relative to the repository root.

| member | source | states |
|---|---|---|
| Evaluator.Apply | src/main/kotlin/com/jetbrains/python/inspection/PyConstantExpression.kt:123-143 | comparisons, `and` and `or` give 0 or 1; `//` gives no value exactly when the divisor is zero; `**` raises exactly for a negative exponent, with the negative-exponent error; `%` raises exactly for a zero divisor, with the division-by-zero error, and otherwise gives the truncated remainder |
| Evaluator.BoolToInt | src/main/kotlin/com/jetbrains/python/inspection/PyConstantExpression.kt:90 | `Boolean.toBigInteger()`: the result is 0 or 1, and `ToBool` reads it back as the same truth value (true is 1, false is 0) |
| Evaluator.ToBool | src/main/kotlin/com/jetbrains/python/inspection/PyConstantExpression.kt:92 | `BigInteger.toBoolean()`: true exactly when non-zero; `Evaluator.BoolToInt` states that it inverts the encoding |
| Evaluator.TruncDiv | src/main/kotlin/com/jetbrains/python/inspection/PyConstantExpression.kt:133-136 | `leftVal / rightVal` on `BigInteger`, rounding toward zero; what it computes is stated by `Evaluator.TruncatedDivision` |
| Evaluator.TruncRem | src/main/kotlin/com/jetbrains/python/inspection/PyConstantExpression.kt:139 | `leftVal % rightVal` on `BigInteger`, the remainder of `TruncDiv`; what it computes is stated by `Evaluator.TruncRemValue` and `Evaluator.TruncatedDivision` |
| Evaluator.Power | src/main/kotlin/com/jetbrains/python/inspection/PyConstantExpression.kt:138 | `leftVal.pow(n)` for a non-negative exponent; `Evaluator.Apply` states that `**` raises exactly for a negative one |
| Evaluator.CalculateValue | src/main/kotlin/com/jetbrains/python/inspection/PyConstantExpression.kt:108-158 | a pinned node, or a node of boolean kind, that has a value has the value 0 or 1 |
| Evaluator.ValueUnder | src/main/kotlin/com/jetbrains/python/inspection/PyConstantExpression.kt:114-157 | the reference semantics with every variable bound: a node of boolean kind gives 0 or 1 |
| Evaluator.TruncatedDivision | src/main/kotlin/com/jetbrains/python/inspection/PyConstantExpression.kt:133-139 | `BigInteger` division: the quotient's magnitude is the quotient of the magnitudes; the remainder is smaller than the divisor in magnitude and is zero or has the dividend's sign |
| Evaluator.TruncRemValue | src/main/kotlin/com/jetbrains/python/inspection/PyConstantExpression.kt:139 | the remainder is `abs(a) mod abs(b)` carrying the sign of the dividend |
| Evaluator.PinnedEvaluation | src/main/kotlin/com/jetbrains/python/inspection/PyConstantExpression.kt:104-118 | when every pinned node truly has its pinned truth value, a value folded under the pins is the true value |
| Evaluator.PinnedWithoutKeys | src/main/kotlin/com/jetbrains/python/inspection/PyConstantExpression.kt:110-112 | a map that names no node of the tree pins it correctly |
| Evaluator.ClosedValue | src/main/kotlin/com/jetbrains/python/inspection/PyConstantExpression.kt:41-48 | a condition that folds without pins has that value whatever its variables hold, so the first report is right |
| Evaluator.ExposedNoValue | src/main/kotlin/com/jetbrains/python/inspection/PyConstantExpression.kt:114-117 | evaluation is strict: a condition that reaches a reference through nodes the map does not pin has no value (or the exception an earlier operand threw) |
| Evaluator.PinsAndLeaves | src/main/kotlin/com/jetbrains/python/inspection/PyConstantExpression.kt:110-112 | the pin map is consulted first; an unpinned reference or unsupported node has no value |
| Evaluator.OperandRules | src/main/kotlin/com/jetbrains/python/inspection/PyConstantExpression.kt:114-150 | a binary node fails as its first failing operand does (the right operand is not tried after a failing left one), `//` by zero has no value, parentheses are transparent |
| Divisions.Less | src/main/kotlin/com/jetbrains/python/inspection/PyConstantExpression.kt:318-319 | the Division is true at `v` exactly when `v < point` |
| Divisions.LessEq | src/main/kotlin/com/jetbrains/python/inspection/PyConstantExpression.kt:321-322 | true at `v` exactly when `v <= point` |
| Divisions.Greater | src/main/kotlin/com/jetbrains/python/inspection/PyConstantExpression.kt:324-325 | true at `v` exactly when `v > point` |
| Divisions.GreaterEq | src/main/kotlin/com/jetbrains/python/inspection/PyConstantExpression.kt:327-328 | true at `v` exactly when `v >= point` |
| Divisions.Eq | src/main/kotlin/com/jetbrains/python/inspection/PyConstantExpression.kt:330-331 | true at `v` exactly when `v == point` |
| Divisions.NotEq | src/main/kotlin/com/jetbrains/python/inspection/PyConstantExpression.kt:333-334 | true at `v` exactly when `v != point` |
| Divisions.Probes | src/main/kotlin/com/jetbrains/python/inspection/PyConstantExpression.kt:338-363 | `boolAtPoint` at the threshold is `atPoint`; above the threshold it is the value at plus infinity; `boolBeforePoint(x)` is the value at `x - 1` unless the threshold is `x - 1`, and, for a Division whose `left` and `right` differ, is `left` exactly when `x <= point` |
| Divisions.Division.BoolBeforePoint | src/main/kotlin/com/jetbrains/python/inspection/PyConstantExpression.kt:346 | `left` up to the threshold, `right` after it; its meaning is stated by `Divisions.Probes` |
| Divisions.Division.BoolAtPoint | src/main/kotlin/com/jetbrains/python/inspection/PyConstantExpression.kt:356-360 | `left` below, `atPoint` at and `right` above the threshold; the factories state its meaning for each comparison |
| Divisions.Division.BoolAtPlusInfinity | src/main/kotlin/com/jetbrains/python/inspection/PyConstantExpression.kt:363 | `right`; `Divisions.Probes` states that it is the value at every integer above the threshold |
| Extractor.UnswappedDivision | src/main/kotlin/com/jetbrains/python/inspection/PyConstantExpression.kt:199-208 | a Division exists exactly for the six comparisons, it is true at `v` exactly when `v OP number` folds to true, and it takes both truth values |
| Extractor.SwappedDivision | src/main/kotlin/com/jetbrains/python/inspection/PyConstantExpression.kt:209-218 | a Division exists exactly for the six comparisons; it agrees with `number OP v` at every `v`, except that with the table as written `number < x` is wrong exactly at `v == number`; it takes both truth values |
| Extractor.NodeDivision | src/main/kotlin/com/jetbrains/python/inspection/PyConstantExpression.kt:179-219 | a node with a reference side yields a Division owned by it exactly when it is a comparison whose other side folds, and that Division takes both truth values |
| Extractor.CollectDivisions | src/main/kotlin/com/jetbrains/python/inspection/PyConstantExpression.kt:164-228 | the walk appends to the caller's list exactly the Divisions of `CollectedDivisions`, or ends with the exception folding threw |
| Extractor.CollectedDivisions | src/main/kotlin/com/jetbrains/python/inspection/PyConstantExpression.kt:164-228 | the Divisions of a walk, or the exception it throws; what they are is stated by `Extractor.Ownership`, `Extractor.OwnersDistinct` and `Extractor.CollectedPinned` |
| Extractor.ReferenceSideIsLeaf | src/main/kotlin/com/jetbrains/python/inspection/PyConstantExpression.kt:179-219 | a comparison with a reference side is not descended into: it throws exactly when its constant side throws, yields at most its own Division, and yields none when the side has no value or the operator is not a comparison |
| Extractor.OwnersBounded | src/main/kotlin/com/jetbrains/python/inspection/PyConstantExpression.kt:164-228 | the owners of the collected Divisions, with multiplicity, are nodes of the tree |
| Extractor.OwnersWithin | src/main/kotlin/com/jetbrains/python/inspection/PyConstantExpression.kt:164-228 | every collected Division is owned by a node of the tree |
| Extractor.OwnersDistinct | src/main/kotlin/com/jetbrains/python/inspection/PyConstantExpression.kt:164-228 | in a tree of distinct nodes, no two collected Divisions share an owner |
| Extractor.Ownership | src/main/kotlin/com/jetbrains/python/inspection/PyConstantExpression.kt:164-228 | every collected Division is the Division that its owner node yields by itself |
| Extractor.ExposedUnpinned | src/main/kotlin/com/jetbrains/python/inspection/PyConstantExpression.kt:110-112 | a reference inside a tree that a map pins nowhere is reached through unpinned nodes |
| Extractor.UncomparedExposed | src/main/kotlin/com/jetbrains/python/inspection/PyConstantExpression.kt:164-228 | a reference that no collected Division names stays reached through unpinned nodes under any map that pins only owners of Divisions |
| Extractor.BranchPins | src/main/kotlin/com/jetbrains/python/inspection/PyConstantExpression.kt:190-194 | below a binary node without a reference side, a map pinning only owners pins inside each operand only that operand's owners, and not the node itself |
| Extractor.WrapperPins | src/main/kotlin/com/jetbrains/python/inspection/PyConstantExpression.kt:221-227 | below a `not` or parenthesized node, the operand has the same Divisions and the node itself is not pinned |
| Extractor.UncomparedLeaf | src/main/kotlin/com/jetbrains/python/inspection/PyConstantExpression.kt:179-219 | at a node with a reference side, a reference that no Division names lies in the constant side, so the node yields no Division and the reference stays unpinned |
| Extractor.NodeDivisionMeaning | src/main/kotlin/com/jetbrains/python/inspection/PyConstantExpression.kt:199-219 | a node's Division gives the node's true value for every value of its variable; with the table as written the only exception is `c < x` at `x == c` |
| Extractor.TablesAgree | src/main/kotlin/com/jetbrains/python/inspection/PyConstantExpression.kt:209-218 | the two tables for `c < x` give the same Divisions for a tree with no node of that shape |
| Extractor.CollectedPinned | src/main/kotlin/com/jetbrains/python/inspection/PyConstantExpression.kt:164-228 | the pins that read each Division's variable from an assignment pin every node of the tree correctly (corrected table) |
| Extractor.ComparisonPinned | src/main/kotlin/com/jetbrains/python/inspection/PyConstantExpression.kt:179-219 | the same for a comparison node with a reference side |
| Extractor.PinsOperands | src/main/kotlin/com/jetbrains/python/inspection/PyConstantExpression.kt:190-194 | a compound binary node is not pinned, and the pins restrict to its operands |
| Extractor.PinsOperand | src/main/kotlin/com/jetbrains/python/inspection/PyConstantExpression.kt:221-227 | a `not` or parenthesized node is not pinned, and the pins restrict to its operand |
| Partition.Dedup | src/main/kotlin/com/jetbrains/python/inspection/PyConstantExpression.kt:268-279 | keeping a row only when it differs from the last kept row gives no two equal adjacent rows, ends with the last row offered, and keeps exactly the rows offered |
| Partition.EqualsLast | src/main/kotlin/com/jetbrains/python/inspection/PyConstantExpression.kt:268-269 | `lastOrNull()?.contentEquals(arr) ?: false`: the matrix is not empty and its last row is `arr` |
| Partition.AppendIfNew | src/main/kotlin/com/jetbrains/python/inspection/PyConstantExpression.kt:276 | the conditional append of one row; `Partition.Dedup` and `Partition.DedupSnoc` state what repeated appends keep |
| Partition.BeforeRow | src/main/kotlin/com/jetbrains/python/inspection/PyConstantExpression.kt:274 | the row of `boolBeforePoint(point)` values; `Partition.PointRowsShape` and `Partition.Coverage` state its shape and meaning |
| Partition.AtRow | src/main/kotlin/com/jetbrains/python/inspection/PyConstantExpression.kt:278 | the row of `boolAtPoint(v)` values; `Partition.Coverage` states that it is a row of the matrix |
| Partition.PlusInfinityRow | src/main/kotlin/com/jetbrains/python/inspection/PyConstantExpression.kt:282-283 | the row of `boolAtPlusInfinity()` values; `Partition.MatrixShape` states that the matrix ends with it |
| Partition.Matrix | src/main/kotlin/com/jetbrains/python/inspection/PyConstantExpression.kt:266-283 | the deduplicated rows of one variable; stated by `Partition.MatrixShape` and `Partition.Coverage` |
| Partition.DedupSnoc | src/main/kotlin/com/jetbrains/python/inspection/PyConstantExpression.kt:276 | offering one more row is one more `equalsLast` test |
| Partition.BoolMatrix | src/main/kotlin/com/jetbrains/python/inspection/PyConstantExpression.kt:266-283 | the loop over the thresholds builds the matrix of one variable's rows, duplicates of the previous row left out |
| Partition.PointRowsShape | src/main/kotlin/com/jetbrains/python/inspection/PyConstantExpression.kt:273-280 | each threshold offers two rows, one value per Division |
| Partition.MatrixShape | src/main/kotlin/com/jetbrains/python/inspection/PyConstantExpression.kt:266-283 | the matrix has between 1 and `2·thresholds + 1` rows, each as wide as the group, with no adjacent repeats, and ends with the plus-infinity row of `right` values |
| Partition.PointRowsContain | src/main/kotlin/com/jetbrains/python/inspection/PyConstantExpression.kt:273-279 | every threshold's before-row and at-row are offered |
| Partition.Coverage | src/main/kotlin/com/jetbrains/python/inspection/PyConstantExpression.kt:266-283 | for ascending thresholds that include every Division's threshold, the row of truth values at any integer is a row of the matrix |
| Partition.Insert | src/main/kotlin/com/jetbrains/python/inspection/PyConstantExpression.kt:247 | inserting into an ascending list keeps it strictly ascending and adds exactly the new element |
| Partition.SortedDistinct | src/main/kotlin/com/jetbrains/python/inspection/PyConstantExpression.kt:247 | `sorted().toSet()`: strictly ascending, with the same elements |
| Partition.BreakPoints | src/main/kotlin/com/jetbrains/python/inspection/PyConstantExpression.kt:243-250 | a variable's thresholds: strictly ascending, exactly the thresholds of its Divisions |
| Partition.BreakPointCoverage | src/main/kotlin/com/jetbrains/python/inspection/PyConstantExpression.kt:243-283 | whatever integer the variable holds, its Divisions' truth values form a row of its matrix |
| Product.SizeProductPositive | src/main/kotlin/com/jetbrains/python/inspection/PyConstantExpression.kt:382-396 | the product of non-empty lists is not empty |
| Product.FlattenIndex | src/main/kotlin/com/jetbrains/python/inspection/PyConstantExpression.kt:394 | flattening blocks of equal width `b` puts element `j` of block `i` at `i·b + j` |
| Product.FlattenLength | src/main/kotlin/com/jetbrains/python/inspection/PyConstantExpression.kt:394 | flattening blocks of equal width `b` gives `blocks · b` elements |
| Product.FlattenMember | src/main/kotlin/com/jetbrains/python/inspection/PyConstantExpression.kt:394 | an element of the flattened list is an element of some block, and conversely |
| Product.Flatten | src/main/kotlin/com/jetbrains/python/inspection/PyConstantExpression.kt:394 | `flatten()`; `Product.FlattenIndex`, `Product.FlattenLength` and `Product.FlattenMember` state what it gives |
| Product.Prefixed | src/main/kotlin/com/jetbrains/python/inspection/PyConstantExpression.kt:393 | `smaller.map { listOf(val1) + it }`: element `j` is `val1` followed by tuple `j` |
| Product.Prepended | src/main/kotlin/com/jetbrains/python/inspection/PyConstantExpression.kt:392-393 | block `i` is the smaller product headed by element `i` of the first list |
| Product.Singletons | src/main/kotlin/com/jetbrains/python/inspection/PyConstantExpression.kt:385 | element `i` is the one-element list of element `i` |
| Product.CartesianProduct | src/main/kotlin/com/jetbrains/python/inspection/PyConstantExpression.kt:382-396 | the product has as many tuples as the product of the list lengths |
| Product.ProductIndex | src/main/kotlin/com/jetbrains/python/inspection/PyConstantExpression.kt:374-395 | lexicographic order: tuple `i·S + j` is element `i` of the first list followed by tuple `j` of the rest, where `S` is the size of the rest |
| Product.SingleList | src/main/kotlin/com/jetbrains/python/inspection/PyConstantExpression.kt:384-385 | the product of one list is its elements, each as a one-element tuple |
| Product.ProductShape | src/main/kotlin/com/jetbrains/python/inspection/PyConstantExpression.kt:374-396 | every tuple has one entry per list, entry `k` taken from list `k` |
| Product.ProductComplete | src/main/kotlin/com/jetbrains/python/inspection/PyConstantExpression.kt:374-396 | every choice of one entry per list is a tuple of the product |
| Product.ConsMember | src/main/kotlin/com/jetbrains/python/inspection/PyConstantExpression.kt:390-394 | an element of the first list followed by a tuple of the smaller product is a tuple of the product |
| Product.SizeProductBound | src/main/kotlin/com/jetbrains/python/inspection/PyConstantExpression.kt:382-396 | lists no longer than given bounds have a product no larger than the product of the bounds |
| Product.TwoByThree | src/main/kotlin/com/jetbrains/python/inspection/PyConstantExpression.kt:376-380 | two lists of three give nine pairs, starting in lexicographic order |
| Product.ThreeByThree | src/main/kotlin/com/jetbrains/python/inspection/PyConstantExpression.kt:376-380 | three lists of three give 27 triples, starting `(a0,b0,c0), (a0,b0,c1), (a0,b0,c2), (a0,b1,c0)` |
| Product.MainExample | src/main/kotlin/com/jetbrains/python/inspection/PyConstantExpression.kt:400-413 | `main`'s product has 27 tuples, starting `(a,1,x), (a,1,y), (a,1,z), (a,2,x)` |
| Assignments.Names | src/main/kotlin/com/jetbrains/python/inspection/PyConstantExpression.kt:238 | the keys of `groupBy`: exactly the variable names, each once |
| Assignments.Group | src/main/kotlin/com/jetbrains/python/inspection/PyConstantExpression.kt:238 | a group holds exactly the Divisions of that name |
| Assignments.Labelled | src/main/kotlin/com/jetbrains/python/inspection/PyConstantExpression.kt:287-291 | row `j` of the labelled matrix is row `j` of the matrix, each value paired with its Division's owner, so every row names exactly the group's owners |
| Assignments.LabelRow | src/main/kotlin/com/jetbrains/python/inspection/PyConstantExpression.kt:288-290 | `mapIndexed { i, bool -> Pair(divs[i].binExpr, bool) }`; `Assignments.LabelRowKeys` states its keys |
| Assignments.VariableMatrix | src/main/kotlin/com/jetbrains/python/inspection/PyConstantExpression.kt:259-292 | a variable's labelled matrix is never empty |
| Assignments.VariableMatrixRows | src/main/kotlin/com/jetbrains/python/inspection/PyConstantExpression.kt:259-292 | a variable's labelled matrix has the rows of its matrix, labelled |
| Assignments.Matrices | src/main/kotlin/com/jetbrains/python/inspection/PyConstantExpression.kt:296 | `mapOfMatrices.values.toList()`: one labelled matrix per variable name, none of them empty, each row of a variable's matrix naming exactly the owners of that variable's Divisions |
| Assignments.ToMaps | src/main/kotlin/com/jetbrains/python/inspection/PyConstantExpression.kt:303 | map `i` is tuple `i` flattened and turned into a map, whose keys are exactly the nodes named in the tuple |
| Assignments.PairsToMap | src/main/kotlin/com/jetbrains/python/inspection/PyConstantExpression.kt:303 | `toMap()`, a later pair for a key winning; `Assignments.PairsToMapKeys` and `Assignments.PairsToMapValue` state its keys and values |
| Assignments.JointAssignments | src/main/kotlin/com/jetbrains/python/inspection/PyConstantExpression.kt:55-62 | there are as many maps as the matrices' row counts multiplied, never zero, so the exception of line 62 is unreachable |
| Assignments.RowCeilings | src/main/kotlin/com/jetbrains/python/inspection/PyConstantExpression.kt:266-283 | for each variable, two rows per threshold plus the plus-infinity row |
| Assignments.MapCount | src/main/kotlin/com/jetbrains/python/inspection/PyConstantExpression.kt:236-304 | the number of maps is at most the product over the variables of `2·thresholds + 1` |
| Assignments.GenerateBoolListForDivisions | src/main/kotlin/com/jetbrains/python/inspection/PyConstantExpression.kt:236-304 | the loop over the variables followed by the product and `toMap` gives exactly the maps of `JointAssignments` |
| Assignments.LabelledMatrix | src/main/kotlin/com/jetbrains/python/inspection/PyConstantExpression.kt:286-291 | the loop's matrix has rows as wide as the group, and labelling it gives the variable's labelled matrix |
| Assignments.PairsToMapKeys | src/main/kotlin/com/jetbrains/python/inspection/PyConstantExpression.kt:303 | the keys of `toMap()` are the first components of the pairs |
| Assignments.PairsToMapValue | src/main/kotlin/com/jetbrains/python/inspection/PyConstantExpression.kt:303 | when all pairs with key `o` carry `b`, the map sends `o` to `b` |
| Assignments.FlattenKeys | src/main/kotlin/com/jetbrains/python/inspection/PyConstantExpression.kt:303 | a key of the flattened tuple is a key of one of its rows, and conversely |
| Assignments.LabelRowKeys | src/main/kotlin/com/jetbrains/python/inspection/PyConstantExpression.kt:288-290 | a labelled row names exactly its group's owners |
| Assignments.RowKeys | src/main/kotlin/com/jetbrains/python/inspection/PyConstantExpression.kt:259-292 | every row of a variable's labelled matrix names exactly its group's owners |
| Assignments.ChoiceKeys | src/main/kotlin/com/jetbrains/python/inspection/PyConstantExpression.kt:294-303 | a choice of one row per variable names exactly the owners of all Divisions |
| Assignments.ChoiceKeyOwned | src/main/kotlin/com/jetbrains/python/inspection/PyConstantExpression.kt:294-303 | a node named in a chosen row owns a Division |
| Assignments.OwnerInChoice | src/main/kotlin/com/jetbrains/python/inspection/PyConstantExpression.kt:294-303 | every Division's owner is named in the row chosen for its variable |
| Assignments.AssignmentKeys | src/main/kotlin/com/jetbrains/python/inspection/PyConstantExpression.kt:230-235 | every map gives a truth value to exactly the Divisions' comparison nodes |
| Assignments.EnvChoiceInProduct | src/main/kotlin/com/jetbrains/python/inspection/PyConstantExpression.kt:294-296 | the rows that an assignment of integers selects, one per variable, form a tuple of the product |
| Assignments.EnvChoiceTruthful | src/main/kotlin/com/jetbrains/python/inspection/PyConstantExpression.kt:286-303 | every pair of that tuple is a Division's owner with the Division's true value |
| Assignments.EnvChoiceComplete | src/main/kotlin/com/jetbrains/python/inspection/PyConstantExpression.kt:286-303 | every Division's owner appears in that tuple with its true value |
| Assignments.Covering | src/main/kotlin/com/jetbrains/python/inspection/PyConstantExpression.kt:230-235 | for every assignment of integers there is a map in the list that gives every comparison node of the Divisions its true value |
| Verdict.Unanimous | src/main/kotlin/com/jetbrains/python/inspection/PyConstantExpression.kt:79-81 | an agreement reports the value it was asked to agree with |
| Verdict.UnanimousMeaning | src/main/kotlin/com/jetbrains/python/inspection/PyConstantExpression.kt:78-81 | the maps agree exactly when each of them folds the condition to a value with the wanted truth value |
| Verdict.AllMatch | src/main/kotlin/com/jetbrains/python/inspection/PyConstantExpression.kt:78-87 | the loop over `boolMaps.drop(1)` stops at the first map that disagrees or throws and reaches the verdict `Unanimous` describes |
| Verdict.ProcessIfPart | src/main/kotlin/com/jetbrains/python/inspection/PyConstantExpression.kt:35-88 | the procedure reaches exactly the verdict `Analysis` describes: folded constants first, no report without Divisions, otherwise the agreement of all maps |
| Verdict.Analysis | src/main/kotlin/com/jetbrains/python/inspection/PyConstantExpression.kt:35-88 | the verdict of the procedure; `Verdict.Soundness` and `Verdict.AllMapsAgree` state what an "always" verdict means |
| Verdict.MapsVerdict | src/main/kotlin/com/jetbrains/python/inspection/PyConstantExpression.kt:60-87 | the first map gives the candidate value and all others must agree; `Verdict.MapsAgree` states its meaning |
| Verdict.MapsAgree | src/main/kotlin/com/jetbrains/python/inspection/PyConstantExpression.kt:70-87 | an "always `b`" verdict from the maps means every map folds the condition to truth value `b` |
| Verdict.AllMapsAgree | src/main/kotlin/com/jetbrains/python/inspection/PyConstantExpression.kt:51-87 | an "always `b`" verdict reached after folding failed means there are Divisions and every generated map gives `b` |
| Verdict.Soundness | src/main/kotlin/com/jetbrains/python/inspection/PyConstantExpression.kt:35-88 | with the corrected table, an "always `b`" verdict means the condition's value under `ValueUnder`, with the evaluator's truncating arithmetic, is `b` for every assignment of integers to its variables |
| Verdict.NothingToSplit | src/main/kotlin/com/jetbrains/python/inspection/PyConstantExpression.kt:55 | an unfoldable condition without Divisions gives no report |
| Verdict.UnanimousAlike | src/main/kotlin/com/jetbrains/python/inspection/PyConstantExpression.kt:77-79 | two conditions folding alike under every map reach the same agreement |
| Verdict.MapsVerdictAlike | src/main/kotlin/com/jetbrains/python/inspection/PyConstantExpression.kt:60-87 | two conditions folding alike under every map get the same verdict from the maps |
| Verdict.ParenTransparent | src/main/kotlin/com/jetbrains/python/inspection/PyConstantExpression.kt:35-88 | a parenthesized condition gets the same verdict as the condition inside it: folding (line 149) and the walk (line 225) pass through the parentheses, and no map names the parenthesis node |
| Verdict.UncomparedVariable | src/main/kotlin/com/jetbrains/python/inspection/PyConstantExpression.kt:35-88 | a condition containing a variable that no Division compares with a constant is never reported: neither the first fold (line 41) nor the first map (line 70) gives it a value |
| Verdict.FirstMapUnset | src/main/kotlin/com/jetbrains/python/inspection/PyConstantExpression.kt:70-76 | the first generated map leaves such a variable reached through unpinned nodes, so the condition has no value under it |
| Verdict.AnalysisTablesAgree | src/main/kotlin/com/jetbrains/python/inspection/PyConstantExpression.kt:209-218 | without a node `c < x`, the table as written and the corrected one give the same verdict |
| Verdict.SoundnessAsWritten | src/main/kotlin/com/jetbrains/python/inspection/PyConstantExpression.kt:35-88 | with the table as written, on conditions without a node `c < x`, an "always `b`" verdict means the value under `ValueUnder` is `b` for every assignment of integers |
| Scenarios.AroundFiveDivisions | src/main/kotlin/com/jetbrains/python/inspection/PyConstantExpression.kt:180-218 | `5 < x or x < 5` yields the Division `greaterEq` (as written) or `greater` (corrected) for its left side and `less` for its right side |
| Scenarios.SourceTableMaps | src/main/kotlin/com/jetbrains/python/inspection/PyConstantExpression.kt:236-304 | with the table as written, the two Divisions give exactly two maps |
| Scenarios.IntendedTableMaps | src/main/kotlin/com/jetbrains/python/inspection/PyConstantExpression.kt:236-304 | with the corrected table they give three maps, the second making both sides false |
| Scenarios.SwappedLessUnsound | src/main/kotlin/com/jetbrains/python/inspection/PyConstantExpression.kt:213 | as written, `5 < x or x < 5` is reported always True, yet at `x = 5` it is False |
| Scenarios.SwappedLessCorrected | src/main/kotlin/com/jetbrains/python/inspection/PyConstantExpression.kt:213 | with `greater` for `c < x` the same condition gets no report |
| Scenarios.FoldedCondition | src/main/kotlin/com/jetbrains/python/inspection/PyConstantExpression.kt:41-48 | `2 + 2 == 4` is reported always True by folding alone |
| Scenarios.FloorDivisionByZero | src/main/kotlin/com/jetbrains/python/inspection/PyConstantExpression.kt:133-134 | `5 // 0 == 0` has no value and no Divisions, so it gets no report |
| Scenarios.BareAndTrueNoVerdict | src/main/kotlin/com/jetbrains/python/inspection/PyConstantExpression.kt:55 | `x and True` yields no Division, since `and` is not a comparison, and gets no report |
| Scenarios.BareAndComparisonDivisions | src/main/kotlin/com/jetbrains/python/inspection/PyConstantExpression.kt:164-228 | `(x) and (y > 3)` yields the single Division `greater` for `y` |
| Scenarios.BareAndComparisonNotAlways | src/main/kotlin/com/jetbrains/python/inspection/PyConstantExpression.kt:35-88 | `(x) and (y > 3)` is never reported: `x` is compared with nothing |
| Scenarios.OpenComparison | src/main/kotlin/com/jetbrains/python/inspection/PyConstantExpression.kt:60-87 | `x > 3` gets no report: its two maps disagree |
| Scenarios.SingleComparison | src/main/kotlin/com/jetbrains/python/inspection/PyConstantExpression.kt:35-88 | any condition that is one comparison of a variable with a constant gets no report, under either table: its first two maps give it both truth values |
| Scenarios.SingleDivisionMaps | src/main/kotlin/com/jetbrains/python/inspection/PyConstantExpression.kt:236-304 | one Division gives at least two maps, the first with its `left` value and the second with the other truth value |
| Scenarios.SingleDivisionMatrix | src/main/kotlin/com/jetbrains/python/inspection/PyConstantExpression.kt:266-283 | one Division that takes both truth values gives a matrix of one-entry rows starting `[left]`, `[not left]` |
| Scenarios.LessThanThreeMaps | src/main/kotlin/com/jetbrains/python/inspection/PyConstantExpression.kt:273-283 | one `x < 3` Division gives the maps true then false |
| Scenarios.GreaterThanThreeMaps | src/main/kotlin/com/jetbrains/python/inspection/PyConstantExpression.kt:273-283 | one `x > 3` Division gives the maps false then true |
| Scenarios.RemainderByComparison | src/main/kotlin/com/jetbrains/python/inspection/PyConstantExpression.kt:79-80 | `5 % (x < 3)` ends with the `%`-by-zero exception, thrown at the second map |
| Scenarios.ComplementaryMaps | src/main/kotlin/com/jetbrains/python/inspection/PyConstantExpression.kt:236-304 | `x < 5` and `x >= 5` give exactly two complementary maps |
| Scenarios.ComplementaryAlwaysTrue | src/main/kotlin/com/jetbrains/python/inspection/PyConstantExpression.kt:35-88 | `x < 5 or x >= 5` is reported always True, under either table |
| Scenarios.BetweenNowhereMatrix | src/main/kotlin/com/jetbrains/python/inspection/PyConstantExpression.kt:266-283 | `x < 5` and `x > 10` give the matrix `[T,F]`, `[F,F]`, `[F,T]`: the repeated rows at 5 and 10 dropped |
| Scenarios.BetweenNowhereMaps | src/main/kotlin/com/jetbrains/python/inspection/PyConstantExpression.kt:236-304 | those rows give exactly three maps |
| Scenarios.BetweenNowhereAlwaysFalse | src/main/kotlin/com/jetbrains/python/inspection/PyConstantExpression.kt:35-88 | `x < 5 and x > 10` is reported always False, under either table |
| Scenarios.TruncatingProbeAlwaysTrue | src/main/kotlin/com/jetbrains/python/inspection/PyConstantExpression.kt:133-136 | `x < (0 - 7) // 2 or x >= 0 - 3` is reported always True under the corrected table, and `ValueUnder` agrees at `x = -4`, where Python floor division makes it False |

## Left out

- The host's parse-tree (PSI) API, the visitor over `if`/`elif` parts, `registerProblem` and the message texts are not modelled. `ProcessIfPart` returns a `Verdict` in place of registering a problem.
- A missing condition, operand or operator, which the source handles with `?: return`, is not modelled: every node of `Expr` is complete. An unknown operator token is modelled as `Unsupported`.
- Node identity is modelled by an integer `id` per node. `Verdict.Soundness` and `Extractor.OwnersDistinct` assume that these ids are distinct (`UniqueIds`). In a real parse tree each node is a distinct object.
- Evaluator.Apply: the exponent of `**` is taken exactly, so the truncation of `rightVal.toInt()` to 32 bits is not modelled. Large exponents are not represented faithfully.
- `BigInteger` exceptions are not caught by the source. They are modelled as the verdict `Aborted`; propagation through the IDE is not modelled.
- `BooleanArray` rows are immutable sequences of booleans, because the source never writes a row after building it.
- Product.CartesianProduct: requires at least one list, because the source's `setList.first()` throws on an empty list; the only caller passes a non-empty list.
- The analysis is not complete. Some generated maps may combine truth values that no assignment of integers produces, so a condition that is really constant can get no report. Only soundness is proved.
- No ceiling caps the number of maps, and the cost of the enumeration is not modelled. `Assignments.MapCount` bounds the number by the thresholds.
- Float literals are modelled as `Other`, with no value. The source folds a numeric literal through the host's `bigIntegerValue` (lines 151-152); that host code is not part of this model, and the model takes it to give `null` for a literal that is not an integer.
- Evaluator.TruncDiv: models Kotlin's truncating `BigInteger` division, as the source computes it, not Python's floor division; likewise Evaluator.TruncRem for `%`. `Verdict.Soundness` is therefore relative to that arithmetic, and `Scenarios.TruncatingProbeAlwaysTrue` shows a condition it reports always True that Python evaluates to False.
- `toString` of `Division` and `main`'s printing are left out. `main`'s product is stated by `Product.MainExample`.

## Findings

| source | as written | input that shows it | evidently intended | confidence | as-written member | corrected member |
|---|---|---|---|---|---|---|
| src/main/kotlin/com/jetbrains/python/inspection/PyConstantExpression.kt:213 | `c < x` becomes `Division.greaterEq`, which is true at `x == c` | `if 5 < x or x < 5:` is reported as always True; at `x = 5` it is False | `c < x` means `x > c`, i.e. `Division.greater` | high (from the proof; not executed) | Scenarios.SwappedLessUnsound | Verdict.Soundness |
