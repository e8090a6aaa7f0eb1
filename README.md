# LP model generator for a capacitated flow graph, in Dafny

`main.py` defines a class `Graph`. It reads two text files: a capacity file
and a ratio file.

- **Capacity file.** After `#` comments, a node count, then `from to
  capacity` lines. They are stored in a dictionary keyed by the edge name
  `x<from><to>`.
- **Ratio file.** After comments, a header, then one row of integers per
  line.

The class then walks the ratio matrix, row by row. `reverse` chooses the
columns: the lower triangle with the diagonal, or the part strictly above
the diagonal. Every entry with a positive ratio is a call. The first
positive entry of a row is its reference (`fixed_edge`, `fixed_ratio`). An
edge without a non-zero capacity raises `Missing edge`.

Three methods turn the calls into the lines of an LP model:

- `get_objective_equation`: `max: + x12 + x13;`
- `gen_bounds`: one bound `x12 <= 5;` per call.
- `gen_constraints`: one equation `3 x12 = 2 x13;` per call. The row's
  reference edge gets `None` instead.

The project models all of this:

| file | models |
|---|---|
| `base.dfy` | options, results, the exceptions, input lines, and the truth value of `graph.get(edge)` |
| `lp_text.dfy` | `str()` of an integer, `_get_edge`, and the three kinds of output text. `str()` and each output text come with a reader that gets the fields back. `_get_edge` has no reader: `EdgeNameCollision` shows two edges with one name. Edge names come instead with `EdgeNameInjectiveInRow` and `EdgeNameSingleDigit`. |
| `capacity_graph.dfy` | `create_graph` as a fold over the lines |
| `ratio_matrix.dfy` | `set_ratio_matrix` as a fold over the lines |
| `traversal.dfy` | the walk as a reference definition, the three projectors, and the properties of the walk |
| `graph.dfy` | the class `Graph`, whose methods keep the source's loops. The loops are proved equal to the folds and the reference walk. |

The walk's reference definition has two parts:

- `Traversal.Entries` lists the positive entries the walk looks at, in
  row-major order.
- `Traversal.Traverse` cuts that list at the first entry without capacity
  and pairs each remaining entry with its call.

`LpGraph.Graph.IterateRatioMatrix` runs the nested loops of
`_iterate_ratio_matrix`, with their per-row reset of the reference, through
`WalkRows`, `WalkRow` and `WalkCell`. It is proved to give exactly the
projected reference walk.

Edge names are unique only while node numbers are single digits:

- `LpText.EdgeNameSingleDigit` proves the names are unique in that case.
- `LpText.EdgeNameCollision` exhibits `x112` for both the edge 1→12 and the
  edge 11→2.

The model keeps this naming as written.

## Model

| member | source | states |
|---|---|---|
| LpGraph.Graph.constructor | main.py:2-6 | the four attributes start as None, None, None and the given `reverse` |
| LpGraph.Graph.Init | main.py:2-9 | the capacity file is read first. When it is rejected, its error is returned and no ratio matrix is set; otherwise the ratio file's result and matrix follow. |
| LpGraph.Graph.CreateGraph | main.py:15-33 | the loop ends in the state of the reference fold from an empty graph with the old `num_nodes`. A rejected line leaves the attributes as they were before it; the other attributes are unchanged. |
| LpGraph.Graph.SetRatioMatrix | main.py:35-48 | the loop ends in the state of the reference fold. The matrix becomes a new list at the header and is left alone when no header was read; the other attributes are unchanged. |
| LpGraph.Graph.IterateRatioMatrix | main.py:67-97 | fails with the assertion when a file was not read. Otherwise the values yielded and the exception equal the projector applied to the reference walk. |
| LpGraph.Graph.GetObjectiveEquation | main.py:99-105 | the objective is `max:`, then ` + edge` for the edge of each call of the walk in order, then `;`. It fails with the walk's exception when the walk raises. |
| LpGraph.Graph.GenBounds | main.py:107-108 | one `edge <= cap;` per call of the walk, in order, with the walk's exception |
| LpGraph.Graph.GenConstraints | main.py:110-111 | per call of the walk, None for the reference edge and the proportionality equation otherwise, with the walk's exception |
| LpGraph.JoinObjective | main.py:100-103 | concatenating ` + edge` for each yielded edge gives the objective text of those edges |
| LpGraph.WalkRows | main.py:71-97 | the outer loop yields the values for a prefix of the entries in order. It stops at the first entry whose edge has no capacity, and names that edge, or else covers all entries. |
| LpGraph.WalkRow | main.py:72-97 | one row, with its reference reset: either every positive entry of the row is yielded, or the walk stops at the first entry without capacity |
| LpGraph.WalkCell | main.py:81-97 | one column: the reference is fixed at the row's first positive entry. A positive entry either raises for its missing edge or adds the value of its call; a non-positive entry adds nothing. |
| LpGraph.EdgeItems | main.py:51-52 | `_return_edge` passes each call's edge through unchanged, in order; what the edge reads back as is `Traversal.ObjectiveReadBack` |
| LpGraph.BoundItems | main.py:55-56 | `_return_inequation` gives each call's bound, in order; what the bound reads back as is `Traversal.BoundsReadBack` |
| LpGraph.ConstraintItems | main.py:59-65 | `_return_ratio_ineqations` gives None or each call's equation, in order; what the equation reads back as is `Traversal.ConstraintsReadBack` |
| LpGraph.FirstPositiveStep | main.py:85-86 | looking at one more column moves the first positive column only while none was found |
| LpGraph.FixedStep | main.py:85-86 | `fixed_edge`/`fixed_ratio` are set by the first positive ratio of the row and never changed after |
| LpGraph.FirstPositiveStable | main.py:85-86 | once found, the row's reference stays the same for the rest of the row |
| LpGraph.PositiveColumnsStep | main.py:83 | a column counts exactly when its ratio is positive |
| LpGraph.VisitAt | main.py:84-94 | the call at a positive entry with capacity has `i`, `j`, the edge, its capacity, the row's first positive edge and ratio, and the entry's ratio |
| LpGraph.MissingStep | main.py:95-97 | an entry without capacity after the yielded ones ends the walk with `Missing edge` for that edge |
| LpGraph.FinishStep | main.py:71-97 | a walk that yielded a value for every entry ends without an exception |
| Base.HasCapacity | main.py:28 | the truth value of `graph.get(edge)`, here and at main.py:87: the edge is stored with a non-zero capacity. A missing edge and a stored 0 are both false |
| LpText.IntString | main.py:12-13 | `str()` of an integer as `format` writes it: `-` before a negative value, then the decimal digits, most significant first |
| LpText.EdgeName | main.py:12-13 | `_get_edge`: `x`, then the decimal text of the first node id, then that of the second, with no separator |
| LpText.IntStringRoundTrip | main.py:12-13 | the decimal text of every integer reads back as that integer |
| LpText.IntStringInjective | main.py:12-13 | different integers have different decimal texts |
| LpText.IntStringWord | main.py:12-13 | an integer's text is non-empty and has no space |
| LpText.NatStringDigits | main.py:12-13 | a non-negative integer is written with digits only |
| LpText.EdgeNameWord | main.py:12-13 | an edge name starts with `x`, has at least three characters and no space |
| LpText.EdgeNameInjectiveInRow | main.py:12-13 | within one row, two edge names are equal exactly when their columns are |
| LpText.EdgeNameSingleDigit | main.py:12-13 | for single-digit node numbers, equal edge names mean equal edges, and conversely |
| LpText.EdgeNameCollision | main.py:12-13 | the edges 1→12 and 11→2 both get the name `x112` |
| LpText.BoundText | main.py:56 | the bound line: the edge, ` <= `, the capacity in decimal, then `;` |
| LpText.BoundFields | main.py:56 | a bound splits into the edge, `<=` and the capacity followed by `;` |
| LpText.BoundRoundTrip | main.py:56 | reading a bound back gives its edge and capacity |
| LpText.ConstraintText | main.py:62-65 | the equation line: the ratio, the fixed edge, `=`, the fixed ratio and the edge, separated by single spaces, then `;` |
| LpText.ConstraintFields | main.py:62-65 | an equation splits into ratio, fixed edge, `=`, fixed ratio, and edge followed by `;` |
| LpText.ConstraintRoundTrip | main.py:62-65 | reading an equation back gives its four fields |
| LpText.ObjectiveSoFar | main.py:100-102 | the accumulator of `get_objective_equation` after the loop: `max:`, then ` + edge` for each edge in order |
| LpText.ObjectiveText | main.py:100-103 | the objective: the accumulator after the loop, then `;` |
| LpText.ObjectiveFields | main.py:100-103 | the objective without `;` splits into `max:` and a `+`, edge pair per edge |
| LpText.ObjectiveRoundTrip | main.py:100-103 | reading an objective back gives its edges, in order |
| CapacityGraph.CapacityStep | main.py:19-33 | one pass of the loop: a comment or a line after an error changes nothing. Before a node count, a line of one integer sets it and any other line is rejected. After it, a line without three fields is rejected. A line whose edge has no truthy capacity stores its capacity. A line with the stored capacity changes nothing, and one with a different capacity raises `Ambiguous capacity` |
| CapacityGraph.ReadCapacities | main.py:19-33 | the loop over the file: one step per line, first line first |
| CapacityGraph.FailureIsFinal | main.py:32-33 | after a raised error no later line changes anything |
| CapacityGraph.FailureInPrefix | main.py:32-33 | a read that fails within the first n lines ends as the read of those n lines |
| CapacityGraph.ReadCapacitiesAppend | main.py:19-33 | reading two pieces of a file one after the other is reading the whole file |
| CapacityGraph.CommentsIgnored | main.py:20-21 | comment lines change nothing |
| CapacityGraph.HeaderFirst | main.py:22-23 | while no node count is known, the next data line is the node count, or it is rejected when it is not one integer |
| CapacityGraph.DuplicateEdgeLine | main.py:25-33 | an edge line stores a new capacity (or one over a stored 0). The same non-zero capacity changes nothing; a different one raises `Ambiguous capacity`. |
| CapacityGraph.StoredCapacityIsStable | main.py:28-33 | a stored non-zero capacity is never replaced |
| CapacityGraph.EdgeLinesRecorded | main.py:24-33 | for a read that starts after the node count has been read: when it succeeds, every data line had three fields and its non-zero capacity is the one stored for its edge |
| CapacityGraph.NumNodesKept | main.py:22-23 | the node count, once read, is never changed |
| CapacityGraph.NoConflictingCapacities | main.py:26-33 | for a read that starts after the node count has been read: when it succeeds, two edge lines whose endpoints give the same key (as `1 12` and `11 2` both give `x112`) never carry different non-zero capacities |
| CapacityGraph.CommentsChangeNothing | main.py:20-21 | lines that are all comments leave the state as it was |
| CapacityGraph.AfterHeader | main.py:19-24 | reading a whole file is reading its first data line as the header, then the rest. When the read succeeds, the header was a single integer, and the rest is read with that node count |
| CapacityGraph.NoConflictingCapacitiesInFile | main.py:15-33 | `create_graph` on a whole file, from no node count and an empty graph: when it succeeds, two edge lines with the same key never carry different non-zero capacities |
| RatioMatrix.RatioStep | main.py:38-48 | one pass of the loop: a comment or a line after an error changes nothing. Before a header, a line of one integer sets it and starts an empty list of rows, and any other line is rejected. After it, every line is appended as a row |
| RatioMatrix.ReadRatios | main.py:38-48 | the loop over the file: one step per line, first line first |
| RatioMatrix.MatrixAfter | main.py:43-48 | `self.ratio_matrix` after the read: a new list of the rows read after the header once a header was read, the earlier value otherwise |
| RatioMatrix.RatioFailureIsFinal | main.py:41-42 | after a rejected header no later line changes anything |
| RatioMatrix.RatioFailureInPrefix | main.py:41-42 | a read that fails within the first n lines ends as the read of those n lines |
| RatioMatrix.RowsInFileOrder | main.py:38-48 | without data lines nothing is read, and a header that is not one integer is rejected. Otherwise every later data line is one row, as given, in file order. |
| Traversal.Slice | main.py:73-78 | the offsets that `row[:i]` keeps when `reverse` and `row[i:]` keeps otherwise, with a bound past the row's end clamped to its length |
| Traversal.Positive | main.py:80-83 | an entry is looked at by its row's inner loop and its ratio is positive |
| Traversal.PositiveColumns | main.py:80-83 | the offsets in the slice whose ratio is positive, ascending |
| Traversal.SliceColumns | main.py:71-80 | row `i` looks at the columns `j <= i` when `reverse`, otherwise `j > i`, never past the row's end |
| Traversal.PositiveColumnsSound | main.py:80-83 | the columns kept lie in the slice and have a positive ratio |
| Traversal.PositiveColumnsComplete | main.py:80-83 | every column of the slice with a positive ratio is kept |
| Traversal.PositiveColumnsSorted | main.py:80-83 | the columns kept are in ascending order |
| Traversal.FirstPositive | main.py:85-86 | the first offset in the slice with a positive ratio, or the slice's end when there is none |
| Traversal.Reference | main.py:72-86 | the offset that sets `fixed_edge` and `fixed_ratio` for row `i`: the first positive one of the row's slice |
| Traversal.FirstPositiveFacts | main.py:85-86 | the reference column is positive, and every column before it in the slice is not |
| Traversal.FirstPositiveAtMost | main.py:85-86 | the reference column comes no later than any positive column |
| Traversal.Entries | main.py:71-83 | the positive entries the two loops meet, row by row, and within a row by column |
| Traversal.EntriesPositive | main.py:71-83 | every entry of the walk is a positive entry of the selected columns |
| Traversal.EntriesComplete | main.py:71-83 | every positive entry of the selected columns is an entry of the walk |
| Traversal.EntriesSorted | main.py:71-83 | the entries come in row-major order |
| Traversal.EntriesFacts | main.py:71-83 | all three of the above together |
| Traversal.EntryEdge | main.py:81 | the edge of an entry: `_get_edge` of its row and column counted from 1 |
| Traversal.FirstMissing | main.py:87-97 | the position of the first entry whose edge has no capacity; every entry before it has one |
| Traversal.VisitOf | main.py:81-94 | the call for an entry: `i` and `j` from 1, the edge, its stored capacity, the edge and ratio of the row's reference, and the entry's ratio |
| Traversal.Traverse | main.py:71-97 | the drained walk: the call of every entry before the first one whose edge has no capacity, then `Missing edge` for that edge, or no exception when there is none |
| Traversal.TraverseShape | main.py:71-97 | the walk makes the calls of the entries before the first missing edge, and then raises for that edge if there is one |
| Traversal.ItemIsVisit | main.py:81-94 | the n-th call is the call of the n-th entry |
| Traversal.ItemFields | main.py:81-94 | the n-th call has `i`, `j`, the edge and the fixed edge of the n-th entry |
| Traversal.VisitOfFields | main.py:81-94 | the call of an entry has its `i`, `j`, edge and reference edge |
| Traversal.VisitOfSound | main.py:81-94 | the call of an entry carries its ratio, its edge and that edge's non-zero capacity |
| Traversal.VisitOfRefers | main.py:72-86 | the call of an entry carries its row's first positive edge and ratio, at or before its column |
| Traversal.TraversalItems | main.py:71-94 | every call is sound, and the calls come in strict row-major order |
| Traversal.ReferenceIsFirstPositive | main.py:72-86 | every call's fixed edge and ratio are those of its row's first positive entry |
| Traversal.ItemPosition | main.py:71-97 | the n-th call is for the n-th entry, which comes before the first missing edge |
| Traversal.PositionItem | main.py:71-97 | every entry before the first missing edge gets a call at its position |
| Traversal.YieldedOnlyIfReached | main.py:83-97 | a call is made only for an entry with capacity whose predecessors all had capacity |
| Traversal.ReachedIsYielded | main.py:83-94 | a positive entry with capacity whose predecessors all had capacity gets a call |
| Traversal.YieldedIffReached | main.py:83-97 | a positive entry gets a call exactly when it and every positive entry before it have capacity |
| Traversal.FailureAtFirstMissing | main.py:95-97 | when an entry lacks capacity, the walk raises `Missing edge` for the first such entry |
| Traversal.NoFailureWithoutMissing | main.py:83-97 | when every entry has capacity, the walk raises nothing and calls every positive entry |
| Traversal.FailureIffMissing | main.py:83-97 | the walk raises exactly when some selected positive entry lacks capacity; then it names such an entry, without capacity, whose predecessors all had capacity, and otherwise every positive entry is called |
| Traversal.ReturnEdge | main.py:51-52 | `_return_edge`: the call's edge, unchanged |
| Traversal.ReturnInequation | main.py:55-56 | `_return_inequation`: the bound line of the call's edge and capacity |
| Traversal.ReturnRatioInequations | main.py:59-65 | no equation exactly when the edge is the fixed edge |
| Traversal.ProjectAll | main.py:88-94 | the values the walk yields: the function passed in, applied to each call in order |
| Traversal.ProjectStream | main.py:67-97 | the generator `_iterate_ratio_matrix(function)`, drained: those values, then the walk's exception |
| Traversal.ConstraintOmittedInRow | main.py:59-61 | within a row, the equation is omitted exactly when the column is the reference column |
| Traversal.ReferenceStartsRow | main.py:72-86 | an entry is its row's reference exactly when it is the first entry of its row in the walk |
| Traversal.ConstraintOmittedOnlyForReference | main.py:59-61 | a call gets no equation exactly when it is the first call of its row |
| Traversal.ConstraintOmittedAtReference | main.py:59-61 | a call gets no equation exactly when its entry is its row's reference |
| Traversal.OnlyPositiveIsReference | main.py:59-61 | in a row with one positive entry, the call's edge is its fixed edge |
| Traversal.SinglePositiveRowHasNoConstraint | main.py:59-61 | a row with one positive entry contributes no equation |
| Traversal.VisitWords | main.py:81-94 | the edge and the fixed edge of a call contain no space |
| Traversal.ObjectiveReadBack | main.py:99-105 | the objective reads back as the walk's edges in order, each with a capacity |
| Traversal.BoundsReadBack | main.py:107-108 | every bound reads back as its call's edge and that edge's stored capacity |
| Traversal.ConstraintsReadBack | main.py:110-111 | every equation reads back as the ratio, fixed edge, fixed ratio and edge of its call |

## Left out

- **Files.** Opening and reading the two files is not modelled. Each file is a sequence of `Line` values: `Comment` for a line starting with `#`, otherwise the line's integer tokens.
- **Tokens.** `int()`, `strip()` and `split()` are not modelled.
  - `int()` is applied to the two header lines, the capacity token and the tokens of each ratio row (main.py:23, 27, 42, 46). A non-integer token there raises `ValueError` in the source; the model does not have that case.
  - The two endpoint tokens of an edge line are not converted (main.py:25-26): they go into the key verbatim, so a line `a b 5` is stored under `xab`. The model takes endpoints as integers; non-integer endpoints are outside the model.
  - Only a wrong number of tokens is rejected (`Malformed`).
- **Edge keys.**
  - `create_graph` builds its keys from the raw tokens (main.py:26). The model uses the edge name of the parsed integers.
  - The two agree for tokens written as `str()` writes an integer, a `-` sign included. A `+` sign, leading zeros or another spelling that `int()` would accept gives a different key.
- **The main block** (main.py:114-139) is not modelled:
  - writing the `.lp` file and its section headers;
  - dropping the `None` values of `gen_constraints` (main.py:138).
- **Generators.** Each generator is drained: the model gives the list of values it yields and the exception that ends it. Interleaving with the consumer is not modelled; no code here depends on it.
- **Exceptions** are values of `Error`. The texts of the `ValueError` messages are not kept. The assertions of `_iterate_ratio_matrix` become `NotLoaded`.
- LpGraph.Graph.constructor: takes `reverse` as a required parameter. The source's default `False` (main.py:2) is not modelled; callers pass it.
- LpGraph.Graph.Init: takes `reverse` as a required parameter, as the constructor does. The source's constructor raises and gives no object. The model returns the object as far as it was built, together with the error.
- LpGraph.Graph.GetObjectiveEquation: the source raises, and the model returns `Failure` with the walk's exception instead.
