# impatto: the polyhedral core, in Dafny

impatto measures how much an input variable of a program can change which
output bucket the program lands in. For every bucket, an abstract interpreter
computes a necessary precondition: a polyhedron over the program's variables,
or a disjunction of polyhedra. impatto then eliminates the variable under study
from each precondition and measures how the projected preconditions overlap.
The measures are:

- outcomes: the largest group of buckets that still overlap;
- unused: whether any two overlap at all;
- range: the widest integer range that overlapping buckets cover;
- changes: how many disjuncts of one bucket meet the other's;
- qused: the fewest integer points left in a bucket.

This project models that core as pure functions and proves what each piece
promises:

- the polyhedral domain `Poly`: Fourier–Motzkin elimination, stacking
  intersection, TOP and BOTTOM sentinels, and emptiness remembered from a
  feasibility oracle;
- its disjunctive lifting `DisjunctivePoly`;
- the overlap test `does_intersect`;
- the fallback policy over LP solvers;
- the overlap graph and its maximal cliques;
- the five metrics;
- the integer range of a bucket condition;
- the string and plugin-name helpers;
- how the analyser's textual output is read;
- the text operations on SPL programs: markers and loop unrolling.

The modules follow the source:

- `Results`: `Option` and `Result`; an exception is `Err`.
- `Filtering`: Python's filtering comprehension, with the positions it keeps, as the reference for every order-preserving loop.
- `Text`: the Python `str` operations the source uses (`find`, `split`, `join`, `replace`, `count`, `strip`, `lower`).
- `Strings`: `src/utils/string.py`.
- `Picker`: `src/utils/picker.py`.
- `Linear`, `FourierMotzkin`, `Constraints`: rows `c · x <= b`, `eliminate_single`, and `parse_polyhedra_constraints` from the parsed relation onward.
- `Lp`: `Scheduler` and `solve`.
- `Domain`: `AbstractDomain.does_intersect`, written once over a record of domain operations.
- `Polyhedra`, `Disjunctive`: `Poly` and `DisjunctivePoly`.
- `Overlap`: `intersecting_pairs` and `intersecting_cliques`.
- `Impacts`: intersections, outcomes, unused, range and qused, written once over any overlap test and instantiated for `Poly`.
- `DisjunctiveImpacts`: the same metrics instantiated for `DisjunctivePoly`.
- `Changes`: `all_intersections` and `ChangesAnalysis`.
- `Buckets`: `src/buckets.py`.
- `Patterns`: the regular expressions the source uses, each written as a scanner.
- `Interproc`: `src/engines/interproc.py`.
- `Program`: `src/program.py`.

Modelling conventions:

- Coefficients are `real`. The tolerances `atol` (`1e-10`) and `eps` (`1e-5`) are constants.
- LP feasibility is an `Oracle`, a function from a system of rows to `Option<bool>`. `None` means that every solver failed, i.e. `solve` raised `SolverError`.
- `is_bottom()` records its answer in the value's status: an infeasible answer records BOTTOM and a solver failure records TOP. `Resolve` is that recording. Every operation that calls `is_bottom()` on a value before reading its status sees the resolved value, as in the source.
- Most of the source's properties hold for any oracle. Membership properties assume a `Consistent` oracle, one that never calls a solvable system infeasible.
- The maximal cliques that networkx's `find_cliques` enumerates are specified as the maximal cliques of the edge set. They are computed by brute force over subsets, and only the set they form is used, as the source does.
- The legacy branch of the changes counter is the default (`OLDER_ALGORITHM = True` in `src/utils/flags.py`). `Changes.ChangesAnalysis` uses it, and it returns the total number of meeting pairs, as the code is written.

## Model

| member | source | states |
|---|---|---|
| Strings.Clean | src/utils/string.py:31-32 | the result holds no whitespace and is no longer than the text |
| Strings.CleanConcat | src/utils/string.py:31-32 | cleaning distributes over concatenation |
| Strings.CleanChar | src/utils/string.py:31-32 | a single character is dropped exactly when it is whitespace |
| Strings.CleanKeepsSpaceless | src/utils/string.py:31-32 | a text without whitespace comes back unchanged |
| Strings.CleanIdempotent | src/utils/string.py:31-32 | cleaning twice is cleaning once |
| Strings.PrefixAll | src/utils/string.py:28-29 | every line gets the prefix in front and the line count is kept |
| Strings.AddPrefixLines | src/utils/string.py:28-29 | for a prefix without a newline, the output has as many lines as the text, and line k is the prefix followed by line k |
| Strings.AddPrefixEachLine | src/utils/string.py:28-29 | the lines of the text, each after the prefix, joined by newlines; stated by `Strings.AddPrefixLines` |
| Strings.CutBetween | src/utils/string.py:34-37 | a text of at most start+end characters is returned unchanged; a longer one keeps its first `start` characters, then " ... ", then its last `end` characters, or all of it when `end` is 0 |
| Strings.CutBetweenZeroEndGrows | src/utils/string.py:34-37 | with `end` 0, "cutting" a long text makes it longer than it was |
| Strings.AlphabetDistinct | src/utils/string.py:4 | the harmonic alphabet has 23 pairwise distinct letters |
| Strings.ToHarmonic | src/utils/string.py:7-13 | a known variable keeps its letter and leaves the mapping unchanged; the k-th new variable gets letter k; a 24th variable raises; the mapping stays injective |
| Strings.LetterIsPosition | src/utils/string.py:7-13 | the letter given is the alphabet letter at the variable's position in the mapping, and earlier entries are kept |
| Strings.HarmonicStable | src/utils/string.py:7-13 | asking again for the same variable gives the same letter and changes nothing |
| Strings.HarmonicInjective | src/utils/string.py:7-13 | two distinct variables get distinct letters |
| Strings.FromHarmonic | src/utils/string.py:15-20 | returns the variable stored under that letter; raises exactly when no entry has that letter |
| Strings.HarmonicRoundTrip | src/utils/string.py:7-20 | mapping a variable to its letter and back gives the variable |
| Strings.NonUpperRun | src/utils/string.py:25-26 | the longest prefix without an upper-case letter, the `[^A-Z]*` of the pattern |
| Strings.WordsOfCapitalized | src/utils/string.py:25-26 | the `[A-Z][^A-Z]*` words of a concatenation of capitalised lower-case words are exactly those words |
| Strings.LowerCapitalized | src/utils/string.py:22-26 | lower-casing capitalised lower-case words gives the words back, and none holds a dash |
| Strings.DashUpperRoundTrip | src/utils/string.py:22-26 | for dash-joined non-empty lower-case words, dash-to-upper then upper-to-dash gives the name back |
| Strings.UpperDashRoundTrip | src/utils/string.py:22-26 | for a concatenation of capitalised lower-case words, upper-to-dash then dash-to-upper gives the name back |
| Strings.DashToUpper | src/utils/string.py:22-23 | the capitalised pieces of the name split on `-`, concatenated; stated by `Strings.DashUpperRoundTrip` |
| Strings.UpperToDash | src/utils/string.py:25-26 | the lower-cased `[A-Z][^A-Z]*` words, joined by `-`; stated by `Strings.UpperDashRoundTrip` |
| Strings.Capitalize | src/utils/string.py:23 | `str.capitalize`: the first letter upper case, the rest lower case |
| Strings.Words | src/utils/string.py:26 | the `[A-Z][^A-Z]*` matches; stated by `Strings.WordsOfCapitalized` |
| Picker.Choose | src/utils/picker.py:8-14 | a missing name raises; the result is the entry exactly when the name is bound to a class having the destination among its ancestors |
| Picker.ToClassName | src/utils/picker.py:5-6 | the dash-to-upper form of the key followed by the suffix; inverted by `Picker.AvailableRoundTrip` |
| Picker.Stems | src/utils/picker.py:16-17 | exactly the names that end with the suffix and differ from it, with the suffix removed |
| Picker.Available | src/utils/picker.py:16-18 | exactly those stems, put into dash form |
| Picker.AvailableRoundTrip | src/utils/picker.py:16-18 | a class named by capitalised words plus the suffix is offered under a key that `to_class_name` turns back into the class name |
| Lp.CallFromSpec | src/utils/lp.py:44-56 | the loop from task i on, given no earlier success, returns the first success and its point and runs no later task; otherwise it runs every task and returns an empty point with False iff some task answered False, and None iff none answered |
| Lp.CallSpec | src/utils/lp.py:44-56 | `call` returns the first success and its point and runs no later task; without a success it runs every task, answers False iff some task answered False and None iff no task answered, always with an empty point |
| Lp.CallLaterSuccess | src/utils/lp.py:44-56 | answers short of success from earlier tasks never hide a later success |
| Lp.FirstSuccess | src/utils/lp.py:52-53 | the index of the first successful task, or none when no task succeeds |
| Lp.Schedule | src/utils/lp.py:40-42 | the task is appended after the scheduled ones, which keep their order |
| Lp.ScheduleAfterSuccess | src/utils/lp.py:40-56 | once a scheduled task succeeds, scheduling another changes nothing |
| Lp.CallFrom | src/utils/lp.py:46-56 | the loop from task i on runs at least up to task i and never past the last task |
| Lp.Call | src/utils/lp.py:44-56 | answers True iff some task succeeds, with the point of the last task run, which succeeded; otherwise it runs every task and returns an empty point |
| Lp.Solve | src/utils/lp.py:99-108 | raises exactly when neither the interior-point nor the simplex attempt answered; otherwise succeeds iff either attempt succeeded |
| Domain.DoesIntersect | src/abstract_domains/abstract_domain.py:9-15 | false if either operand is found empty; true if neither is and either is recorded TOP; otherwise it fails exactly when `intersect` fails and is true iff the intersection is not found empty |
| Domain.DoesIntersectSymmetric | src/abstract_domains/abstract_domain.py:9-15 | the test is symmetric whenever intersecting in either order fails alike and is empty alike |
| Linear.HoldsScale | src/abstract_domains/poly.py:28-31 | scaling a satisfied row by a positive factor keeps it satisfied |
| Linear.HoldsScaleNegative | src/abstract_domains/poly.py:28-33 | scaling a satisfied row by a negative factor turns the inequality around |
| Linear.HoldsMinus | src/abstract_domains/poly.py:34-37 | an upper bound minus a lower bound bounds the difference |
| Linear.HoldsDrop | src/abstract_domains/poly.py:47-49 | a row whose coefficient in a column is zero still holds after that column is dropped from the row and the point |
| Linear.SatisfiesAppend | src/abstract_domains/poly.py:144-146 | a point satisfies two stacked systems iff it satisfies both |
| FourierMotzkin.Where | src/abstract_domains/poly.py:25-27 | the indices, ascending, of exactly the rows whose coefficient is on the given side of the tolerance |
| FourierMotzkin.SidesPartition | src/abstract_domains/poly.py:25-27 | with a positive tolerance every coefficient is on exactly one side: positive, negative or core |
| FourierMotzkin.WhereCounts | src/abstract_domains/poly.py:25-27 | the three index lists together have as many entries as there are rows |
| FourierMotzkin.Cross | src/abstract_domains/poly.py:38-46 | one combined row per (positive, negative) pair, each one column shorter |
| FourierMotzkin.CrossAt | src/abstract_domains/poly.py:41-46 | combined row i·\|neg\|+j comes from positive row i and negative row j, so pairs come positive-major |
| FourierMotzkin.EliminateSingle | src/abstract_domains/poly.py:21-50 | every output row has one column fewer than the input |
| FourierMotzkin.EliminateSingleShape | src/abstract_domains/poly.py:38-50 | the output has \|pos\|·\|neg\| + \|core\| rows, at most the square of the input's |
| FourierMotzkin.EliminateSingleCore | src/abstract_domains/poly.py:47-49 | every core row appears in the output with the column deleted and otherwise unchanged |
| FourierMotzkin.EliminateSingleLayout | src/abstract_domains/poly.py:38-50 | the output is every (positive, negative) combination, pair (i, j) at row i·\|neg\|+j, followed by every core row with the column dropped, in input order |
| FourierMotzkin.EliminateSingleCombines | src/abstract_domains/poly.py:41-46 | every (positive, negative) combination appears in the output |
| FourierMotzkin.CombineSound | src/abstract_domains/poly.py:28-46 | a point satisfying a positive and a negative row satisfies their combination once the column is dropped |
| FourierMotzkin.CrossSound | src/abstract_domains/poly.py:38-46 | a solution of the system, with the column dropped, satisfies every combined row |
| FourierMotzkin.EliminationSound | src/abstract_domains/poly.py:21-50 | when no coefficient of the column is a nonzero value under the tolerance, the projection of every solution satisfies the output system |
| Constraints.Align | src/abstract_domains/poly.py:64-67 | a relation gets one coefficient per variable in variable order, missing ones read as zero; `True` and failures are kept apart |
| Constraints.RowsOf | src/abstract_domains/poly.py:71-92 | an equality gives two rows, the other known operators one, each with one coefficient per variable; any other operator raises |
| Constraints.RowsOfMeaning | src/abstract_domains/poly.py:71-88 | a point satisfies the rows iff the relation holds, with an `eps` margin for `<` and `>`; rows always imply the relation, and without a strict operator the two are equivalent |
| Constraints.Normalise | src/abstract_domains/poly.py:58-92 | succeeds iff every constraint is `True` or a relation with a known operator |
| Constraints.NormaliseShape | src/abstract_domains/poly.py:58-96 | every row has one coefficient per variable |
| Constraints.NormaliseMeaning | src/abstract_domains/poly.py:58-92 | a point satisfies the system iff it satisfies every relation, with the margin on the strict ones; `True` constraints are dropped |
| Polyhedra.Resolve | src/abstract_domains/poly.py:148-162 | a recorded status is kept; otherwise an infeasible answer records BOTTOM and a solver failure records TOP; variables and rows are unchanged |
| Polyhedra.ResolveStable | src/abstract_domains/poly.py:148-162 | once recorded, the status is not asked again: resolving twice, or with another oracle, changes nothing |
| Polyhedra.TopPoly | src/abstract_domains/poly.py:118-122 | the TOP sentinel is TOP and never found empty |
| Polyhedra.BottomPoly | src/abstract_domains/poly.py:124-128 | the BOTTOM sentinel is found empty under every oracle, is not TOP, and has no points |
| Polyhedra.IsTop | src/abstract_domains/poly.py:164-169 | only a recorded TOP is TOP; such a value is never found empty and stays TOP when asked |
| Polyhedra.ResolveKeepsMembers | src/abstract_domains/poly.py:148-162 | with a consistent oracle, recording an answer never changes the points of a value |
| Polyhedra.MemberNotBottom | src/abstract_domains/poly.py:148-162 | with a consistent oracle, a value with a point is never found empty |
| Polyhedra.Eliminate | src/abstract_domains/poly.py:130-138 | an empty or TOP value comes back as recorded; otherwise a missing variable raises, and the result drops the first occurrence of the variable from the list and that column from the system |
| Polyhedra.EliminateSound | src/abstract_domains/poly.py:130-138 | when the variable's own column has no nonzero coefficient under the tolerance, every solution with the variable dropped is a solution of the projection |
| Polyhedra.EliminateTwiceRaises | src/abstract_domains/poly.py:130-138 | eliminating a variable again raises when it occurred once, unless the projection is found empty or TOP |
| Polyhedra.Intersect | src/abstract_domains/poly.py:140-146 | BOTTOM if either side is found empty, checked before the variable lists; otherwise it raises iff the lists differ, and the result stacks this value's rows above the other's |
| Polyhedra.IntersectMeaning | src/abstract_domains/poly.py:140-146 | for two non-empty values over the same variables, a point satisfies the stacked system iff it satisfies both |
| Polyhedra.IntersectMembers | src/abstract_domains/poly.py:140-146 | with a consistent oracle, the points of the intersection are the common points |
| Polyhedra.IntersectWellFormed | src/abstract_domains/poly.py:140-146 | intersection keeps one coefficient per variable |
| Polyhedra.SentinelLaws | src/abstract_domains/poly.py:119-169 | BOTTOM absorbs intersection on both sides; BOTTOM is empty and TOP is not; only TOP is TOP |
| Polyhedra.IntersectTopSentinelFails | src/abstract_domains/poly.py:140-146 | a non-empty value with variables, intersected with the variable-less TOP sentinel in either order, fails the variable-list assertion |
| Polyhedra.ParseAll | src/abstract_domains/poly.py:111-115 | every constraint is parsed after each variable name is replaced through the mapping, in order |
| Polyhedra.FromStringConstraints | src/abstract_domains/poly.py:107-116 | no constraints give BOTTOM; otherwise the result succeeds iff normalising the parsed constraints does, over the given variables, with nothing recorded |
| Polyhedra.BoxSize | src/abstract_domains/poly.py:198-199 | the box [lo, hi)^k has width^k points |
| Polyhedra.CountIntegersBetween | src/abstract_domains/poly.py:193-201 | 0 for an empty value; raises exactly for a TOP one; otherwise at most width^k |
| Polyhedra.BoxMembers | src/abstract_domains/poly.py:198-199 | the points of the box are exactly the integer tuples of length k with every coordinate in [lo, hi) |
| Polyhedra.BoxDistinct | src/abstract_domains/poly.py:198-199 | the box lists no point twice |
| Polyhedra.CountSatisfyingSet | src/abstract_domains/poly.py:200-201 | over a list without repeats, the count is the number of listed points satisfying every row |
| Polyhedra.CountIntegersBetweenMeaning | src/abstract_domains/poly.py:193-201 | for a value neither found empty nor TOP, the count is the number of integer points of [lo, hi)^k that satisfy every row |
| Polyhedra.CountWitness | src/abstract_domains/poly.py:193-201 | an integer point of [lo, hi)^k satisfying every row makes the count positive |
| Polyhedra.CountSatisfyingWitness | src/abstract_domains/poly.py:200-201 | over any list of points, one satisfying every row makes the count positive |
| Polyhedra.EliminateAll | src/impacts/intersections.py:9-12 | the variable is eliminated from every precondition in order; the first failure raises |
| Polyhedra.DoesIntersect | src/abstract_domains/abstract_domain.py:9-15 | false if either is found empty; true if either is then TOP; otherwise it raises iff the variable lists differ, and is true iff the stacked system is not infeasible |
| Polyhedra.DoesIntersectResolved | src/abstract_domains/poly.py:148-162 | asking emptiness beforehand never changes the overlap test |
| Polyhedra.DoesIntersectSymmetric | src/abstract_domains/abstract_domain.py:9-15 | the overlap test is symmetric for an oracle that judges a stacked system the same in either order |
| Disjunctive.DTop | src/abstract_domains/disjunctive_poly.py:13-17 | the TOP union is TOP and never found empty |
| Disjunctive.DBottom | src/abstract_domains/disjunctive_poly.py:19-23 | the BOTTOM union is found empty under every oracle and is not TOP |
| Disjunctive.DIsBottom | src/abstract_domains/disjunctive_poly.py:58-65 | a union is found empty iff it is recorded BOTTOM, or is live and every disjunct is found empty |
| Disjunctive.DIsTop | src/abstract_domains/disjunctive_poly.py:49-56 | recorded TOP, or live with some disjunct recorded TOP |
| Disjunctive.DResolveKeepsTop | src/abstract_domains/disjunctive_poly.py:49-65 | a TOP union stays TOP when asked for emptiness and is never found empty |
| Disjunctive.DResolve | src/abstract_domains/disjunctive_poly.py:58-65 | a recorded union is kept; otherwise every disjunct is asked, as the comprehension in `is_bottom` does |
| Disjunctive.DResolveTwice | src/abstract_domains/disjunctive_poly.py:58-65 | asking again records nothing new |
| Disjunctive.DIsBottomEmpty | src/abstract_domains/disjunctive_poly.py:58-65 | with a consistent oracle, a union found empty has no points |
| Disjunctive.Against | src/abstract_domains/disjunctive_poly.py:32-38 | fails iff some intersection with the row fails; otherwise it keeps only non-empty intersections, each from the row, and every non-empty one is kept |
| Disjunctive.Across | src/abstract_domains/disjunctive_poly.py:32-38 | fails iff some pair fails to intersect |
| Disjunctive.AcrossSize | src/abstract_domains/disjunctive_poly.py:32-38 | at most \|xs\|·\|ys\| disjuncts |
| Disjunctive.AcrossSound | src/abstract_domains/disjunctive_poly.py:32-38 | every kept disjunct is a non-empty intersection of some pair |
| Disjunctive.AcrossComplete | src/abstract_domains/disjunctive_poly.py:32-38 | every non-empty pairwise intersection is kept |
| Disjunctive.AcrossMembers | src/abstract_domains/disjunctive_poly.py:32-38 | with a consistent oracle, a point lies in some kept disjunct iff it lies in a disjunct of each side |
| Disjunctive.DIntersect | src/abstract_domains/disjunctive_poly.py:25-38 | BOTTOM if either side is found empty; else a TOP side gives the other side; else an unrecorded union of at most \|a\|·\|b\| disjuncts |
| Disjunctive.DIntersectMembers | src/abstract_domains/disjunctive_poly.py:25-38 | with a consistent oracle, the points of the intersection are the common points |
| Disjunctive.DIntersectResolved | src/abstract_domains/disjunctive_poly.py:25-31 | asking emptiness of the operands beforehand does not change the intersection |
| Disjunctive.PairListAt | src/abstract_domains/disjunctive_poly.py:33-35 | the nested loops visit pair (i, j) at position i·\|ys\|+j, this union's disjuncts outside |
| Disjunctive.AgainstIsFilter | src/abstract_domains/disjunctive_poly.py:34-37 | one disjunct's inner loop keeps exactly its non-empty intersections, in the other union's order |
| Disjunctive.AcrossIsFilter | src/abstract_domains/disjunctive_poly.py:33-37 | the pairing keeps exactly the non-empty pair intersections, each once, in the order of the nested loops |
| Disjunctive.DIntersectInOrder | src/abstract_domains/disjunctive_poly.py:25-38 | for two live unions, the disjuncts of the intersection are the non-empty pair intersections in nested-loop order |
| Filtering.FilterInOrder | src/abstract_domains/disjunctive_poly.py:41 | a filtering comprehension keeps exactly the elements passing the test, each once, in their order |
| Filtering.FilterAppend | src/abstract_domains/disjunctive_poly.py:33-37 | filtering distributes over concatenation, so nested loops filter row by row |
| Disjunctive.DRemoveBottoms | src/abstract_domains/disjunctive_poly.py:40-41 | keeps exactly the disjuncts not found empty, as recorded, in a new unrecorded union |
| Disjunctive.KeptIsFilter | src/abstract_domains/disjunctive_poly.py:40-41 | removing bottoms is the comprehension over the disjuncts as recorded |
| Disjunctive.DRemoveBottomsInOrder | src/abstract_domains/disjunctive_poly.py:40-41 | result k is the recorded disjunct at position idx[k], for the increasing positions idx of exactly the disjuncts not found empty |
| Disjunctive.DRemoveBottomsMembers | src/abstract_domains/disjunctive_poly.py:40-41 | with a consistent oracle, removing empty disjuncts keeps every point |
| Disjunctive.DRemoveBottomsIdempotent | src/abstract_domains/disjunctive_poly.py:40-41 | removing empty disjuncts twice is removing them once |
| Disjunctive.RemoveBottomsOfTop | src/abstract_domains/disjunctive_poly.py:13-41 | TOP and BOTTOM both have no disjuncts, so removing bottoms from TOP gives a union that is found empty |
| Disjunctive.DEliminate | src/abstract_domains/disjunctive_poly.py:43-47 | an empty or TOP union comes back as recorded; otherwise the variable is eliminated from every disjunct, keeping length and order, and any failure raises |
| Disjunctive.DDoesIntersect | src/abstract_domains/abstract_domain.py:9-15 | the overlap test on unions: false if either is found empty, true if either is then TOP, otherwise whether the intersection is not found empty |
| Overlap.PairsFrom | src/abstract_domains/poly.py:203-210 | from any position of the double loop, the result has exactly the pairs (a, b), a ≠ b, whose test ran and answered true; it fails iff a test that runs fails |
| Overlap.Pairs | src/abstract_domains/poly.py:203-210 | the pairs recorded are exactly those whose test ran and answered true; a test is skipped only when the reverse pair is already recorded; it raises iff a test that runs raises |
| Overlap.PairsShape | src/abstract_domains/poly.py:203-210 | no pair joins a value to itself or is recorded in both orders, and two values are joined iff the test answered true in either order |
| Overlap.NodesMeaning | src/abstract_domains/poly.py:203-213 | a value is a node of the graph iff it overlaps some other value |
| Overlap.MaximalCliques | src/abstract_domains/poly.py:214-215 | every clique listed is a maximal clique of the graph |
| Overlap.MaximalCliquesComplete | src/abstract_domains/poly.py:214-215 | every maximal clique of the graph is listed |
| Overlap.NodeInMaximalClique | src/abstract_domains/poly.py:214-215 | every node lies in some maximal clique |
| Overlap.MaximalCliqueHasTwo | src/abstract_domains/poly.py:214-215 | in a graph without loops, a maximal clique holding a node holds another node too |
| Overlap.CliqueMap | src/abstract_domains/poly.py:217-226 | the keys are exactly the nodes of the listed cliques |
| Overlap.CliqueMapKeys | src/abstract_domains/poly.py:212-226 | the keys are exactly the endpoints of the recorded pairs |
| Overlap.CliqueMapEntries | src/abstract_domains/poly.py:217-226 | a set is stored under a key iff it lacks the key and, with the key added, is a maximal clique |
| Overlap.Cliques | src/abstract_domains/poly.py:212-226 | fails iff the pair search fails; otherwise it is the clique map of the maximal cliques of the recorded pairs |
| Overlap.CliquesAreCliqueMap | src/abstract_domains/poly.py:212-226 | the result maps every endpoint to {C∖{key} : C a maximal clique containing key} |
| Overlap.CliqueMapNonEmpty | src/abstract_domains/poly.py:217-226 | every key has at least one stored set, and every stored set is non-empty |
| Overlap.CliqueRestBounded | src/abstract_domains/poly.py:220 | a stored set lacks its key and holds only indices of values |
| Overlap.CliqueRestSize | src/abstract_domains/poly.py:220 | a stored set has fewer members than there are values |
| Overlap.RestShape | src/abstract_domains/poly.py:220 | a stored set has between 1 and n−1 members, all indices of values other than the key |
| Overlap.CliqueMapEmpty | src/abstract_domains/poly.py:212-226 | the map is empty iff no pair overlaps |
| Impacts.OverlapsMeaning | src/abstract_domains/poly.py:206-209 | two projections overlap iff they are distinct and `does_intersect` answers true in either order |
| Impacts.JoinedEdges | src/abstract_domains/poly.py:203-210 | for any overlap test, every recorded pair is an overlapping pair, and every overlapping pair is recorded in one order |
| Impacts.NoEdgeNoJoin | src/abstract_domains/poly.py:203-210 | for any overlap test, the graph has no edge iff no two projections overlap |
| Impacts.CliqueAnalysis | src/impacts/intersections.py:14 | for any overlap test: raises iff the pair search raises; otherwise the clique map of the overlap graph |
| Impacts.CountIntersectionsOf | src/impacts/intersections.py:30-31 | for any overlap test: raises iff the clique analysis does; otherwise the same keys, each with a count between 1 and n−1 |
| Impacts.CountIntersectionsOfMeaning | src/impacts/intersections.py:30-31 | for any overlap test, each count is one less than the size of the largest maximal clique containing the key |
| Impacts.OutcomesOf | src/impacts/outcomes.py:10-11 | for any overlap test: 0 iff no two projections overlap; otherwise below n and one less than the size of the largest maximal clique |
| Impacts.OutcomeOfAnalysis | src/impacts/outcomes.py:10-11 | the greatest count of a clique map is the outcomes number of its overlap graph |
| Impacts.UnusedOf | src/impacts/unused.py:15-17 | for any overlap test: DEF_UNUSED iff no two projections overlap, and always with at most one projection |
| Impacts.AllRangeOf | src/impacts/range.py:10-22 | for any overlap test: raises iff the clique analysis or some hull raises; otherwise each key maps to exactly the hulls of its stored sets |
| Impacts.RangeAnalysisOf | src/impacts/range.py:28-30 | for any overlap test: the width of the widest interval, reached by one, or 0 without any |
| Impacts.OutcomesFacts | src/impacts/outcomes.py:10-11 | the outcomes number of the projected polyhedra meets the outcomes meaning stated over `Overlaps` |
| Impacts.OverlapsAreJoined | src/abstract_domains/poly.py:206-209 | no two projected polyhedra overlap iff no two are joined by the overlap test |
| Impacts.GraphMeaning | src/abstract_domains/poly.py:203-210 | every recorded pair overlaps, and every overlapping pair is joined |
| Impacts.IntersectingAnalysis | src/impacts/intersections.py:7-16 | raises iff some elimination or some overlap test raises; otherwise it is the clique map of the overlap graph of the projected preconditions, keyed by precondition index; the buckets play no part |
| Impacts.IntersectionsKeys | src/impacts/intersections.py:7-16 | a precondition is a key iff its projection overlaps some other projection |
| Impacts.AnalysisIsCliqueMap | src/impacts/intersections.py:7-16 | the result is the clique map of the overlap graph of the projections |
| Impacts.Counts | src/impacts/intersections.py:30-31 | the counts have the same keys as the clique map |
| Impacts.Largest | src/impacts/intersections.py:30-31 | the size of a largest stored set, reached by some stored set |
| Impacts.CountsBound | src/impacts/intersections.py:30-31 | every count is between 1 and n−1, is the size of some stored set, and no stored set is larger |
| Impacts.CountsMeaning | src/impacts/intersections.py:30-31 | the count of a key is one less than the size of the largest maximal clique containing it |
| Impacts.CountIntersections | src/impacts/intersections.py:30-31 | raises iff the analysis raises; otherwise it has the same keys, each with a count between 1 and n−1 |
| Impacts.CountIntersectionsMeaning | src/impacts/intersections.py:30-31 | each count is one less than the size of the largest maximal clique of the overlap graph containing the key |
| Impacts.MaxValue | src/impacts/outcomes.py:10-11 | the greatest count, or 0 when there is none |
| Impacts.MaxCountMeaning | src/impacts/outcomes.py:10-11 | the greatest count is 0 iff the graph has no edge, is below n otherwise, and is then one less than the size of the largest maximal clique |
| Impacts.MaxZeroIffNoEdge | src/impacts/outcomes.py:10-11 | the greatest count is 0 iff the graph has no edge |
| Impacts.MaxIsLargest | src/impacts/outcomes.py:10-11 | a positive greatest count is one less than the size of the largest maximal clique |
| Impacts.Outcomes | src/impacts/outcomes.py:10-11 | 0 iff no two projections overlap, including with a single bucket; otherwise at most n−1, and one less than the size of the largest group of mutually overlapping projections |
| Impacts.NoEdgeNoOverlap | src/impacts/unused.py:15-17 | the graph has no edge iff no two projections overlap |
| Impacts.AllEmptyMeaning | src/impacts/unused.py:15-17 | every stored collection is empty iff the graph has no edge, and with at most one value there is no edge |
| Impacts.Unused | src/impacts/unused.py:15-17 | DEF_UNUSED iff no two projections overlap, and always with zero or one bucket |
| Impacts.RangesOf | src/impacts/range.py:15-17 | the range of every bucket, in bucket order |
| Impacts.HullFrom | src/impacts/range.py:16-19 | the running minimum and maximum over the bucket ranges in the set: encloses the start and every range, and each end comes from the start or from some range |
| Impacts.Hull | src/impacts/range.py:15-20 | raises iff the key's or some member's range raises; otherwise it encloses the key's range and every member's, and each end is reached by one of them |
| Impacts.Intervals | src/impacts/range.py:12-21 | the same keys as the clique map, one hull per stored set, and nothing else |
| Impacts.AllRange | src/impacts/range.py:10-22 | raises iff the intersections analysis raises or some stored set's hull does; otherwise the keys of the intersections map, each with exactly the hulls of its stored sets |
| Impacts.MaxOr0 | src/impacts/range.py:30 | the greatest element, or 0 for an empty set |
| Impacts.RangeAnalysis | src/impacts/range.py:28-30 | the width of the widest interval, reached by some interval, or 0 when there is none |
| Impacts.WidestInterval | src/impacts/range.py:28-30 | the widest width bounds every interval and is reached when an interval exists |
| Impacts.Quantity | src/impacts/qused.py:16-20 | raises iff the elimination raises or leaves TOP; otherwise at most 20^k integer points |
| Impacts.QuantityMeaning | src/impacts/qused.py:16-20 | the quantity is 0 when the projection is found empty, and otherwise the number of integer points of [0, 20)^k that satisfy the projection |
| Impacts.Quantities | src/impacts/qused.py:16-20 | one quantity per precondition, in order; any failure raises |
| Impacts.MinOf | src/impacts/qused.py:21 | the least element of a non-empty list |
| Impacts.Qused | src/impacts/qused.py:13-21 | raises for no precondition or a failing quantity; otherwise the least quantity, reached by some precondition |
| DisjunctiveImpacts.DEliminateAll | src/impacts/intersections.py:8-12 | eliminates the target from every union, in order: raises iff some elimination raises, otherwise one projection per precondition, each the elimination's result |
| DisjunctiveImpacts.DOverlapsMeaning | src/abstract_domains/poly.py:206-209 | two projected unions overlap iff they are distinct and `does_intersect` answers true in either order |
| DisjunctiveImpacts.DIntersectingAnalysis | src/impacts/intersections.py:7-16 | on unions: raises iff some elimination or some overlap test raises; otherwise the clique map of the projections' overlap graph |
| DisjunctiveImpacts.DIntersectionsKeys | src/impacts/intersections.py:7-16 | on unions, a precondition is a key iff its projection overlaps some other projection |
| DisjunctiveImpacts.DCountIntersections | src/impacts/intersections.py:30-31 | on unions: raises iff the analysis raises; otherwise the same keys, each with a count between 1 and n−1 |
| DisjunctiveImpacts.DCountIntersectionsMeaning | src/impacts/intersections.py:30-31 | on unions, each count is one less than the size of the largest maximal clique containing the key |
| DisjunctiveImpacts.DOutcomes | src/impacts/outcomes.py:10-11 | on unions: 0 iff no two projections overlap; otherwise below n and one less than the size of the largest maximal clique |
| DisjunctiveImpacts.DUnused | src/impacts/unused.py:15-17 | on unions: DEF_UNUSED iff no two projections overlap, and always with zero or one bucket |
| DisjunctiveImpacts.DAllRange | src/impacts/range.py:10-22 | on unions: raises iff the analysis or some hull raises; otherwise each key maps to exactly the hulls of its stored sets |
| DisjunctiveImpacts.DRangeAnalysis | src/impacts/range.py:28-30 | on unions: the width of the widest interval, reached by one, or 0 without any |
| DisjunctiveImpacts.DQused | src/impacts/qused.py:16-21 | on unions it always raises: the first elimination's error if it raises, otherwise the failed assertion that the projection is a plain polyhedron |
| Changes.Meets | src/impacts/changes.py:42 | raises iff neither side is found empty and the variable lists differ; otherwise true iff neither is empty and the stacked system is not infeasible |
| Changes.CountMeetsIsSize | src/impacts/changes.py:38-44 | the per-row counter is the number of columns the row meets |
| Changes.CountMeetsGrowth | src/impacts/changes.py:45-46 | the rest of a row adds at most one per remaining column |
| Changes.MaxDegree | src/impacts/changes.py:32-51 | the largest per-row count, reached by some row, 0 without rows, at most the number of columns |
| Changes.MaxDegreeGrowth | src/impacts/changes.py:47 | the largest count never drops as rows are added |
| Changes.TotalMeets | src/impacts/changes.py:52-69 | the number of meeting pairs: at least the last row's count |
| Changes.TotalMeetsGrowth | src/impacts/changes.py:52-69 | the running total never drops |
| Changes.TotalMeetsBound | src/impacts/changes.py:55 | at most p·q pairs meet |
| Changes.MaxDegreeAtMostTotal | src/impacts/changes.py:32-69 | the optimised result never exceeds the legacy one |
| Changes.SingleRowAgrees | src/impacts/changes.py:32-69 | with at most one disjunct on the first side the two algorithms agree |
| Changes.EveryPairMeets | src/impacts/changes.py:32-69 | when every pair meets, the legacy count is p·q while the optimised one is q (0 without rows) |
| Changes.Row | src/impacts/changes.py:38-46 | the inner loop either counts the whole row or stops only once the row cannot beat the best so far |
| Changes.RowStep | src/impacts/changes.py:38-47 | after one row, the best equals the largest count so far, whether the row was counted in full or abandoned |
| Changes.EarlyStop | src/impacts/changes.py:48-49 | once the best reaches the number of columns, no later row can change it |
| Changes.Optimised | src/impacts/changes.py:32-51 | when every pair can be decided, returns the largest number of second-side disjuncts one first-side disjunct meets; a failure comes only from some failing pair |
| Changes.PairsSoFar | src/impacts/changes.py:65-66 | a counter that has reached p·q already holds the total |
| Changes.Legacy | src/impacts/changes.py:52-69 | when every pair can be decided, returns the total number of meeting pairs, since the counter is never reset; a failure comes only from some failing pair |
| Changes.ChangesRun | src/impacts/changes.py:11-69 | raises unless there are exactly two states, or when an elimination raises; otherwise the legacy or the optimised count over the projected disjuncts, as the switch says |
| Changes.ChangesAnalysis | src/impacts/changes.py:88-90 | with the default switch, the total number of meeting pairs of the projected disjuncts |
| Buckets.ToSpl | src/buckets.py:88-89 | the condition wrapped between `if (` and `) then fail; endif;` |
| Buckets.CleanAll | src/buckets.py:97 | every conjunct with its whitespace removed |
| Buckets.Pieces | src/buckets.py:97 | one piece per `and`-separated part, none holding whitespace |
| Buckets.PiecesJoin | src/buckets.py:97 | the pieces joined back with `and` are the condition with its whitespace removed |
| Buckets.IsIntForm | src/utils/string.py:39-44 | `represents_integer` on a text without whitespace: an optional sign followed by decimal digits is an integer exactly when there is at least one digit |
| Buckets.IntValue | src/utils/string.py:41 | `int(s)` is non-positive after a minus sign and non-negative otherwise |
| Buckets.IntText | src/utils/string.py:39-44 | the decimal text of every integer represents an integer |
| Buckets.IntTextRoundTrip | src/utils/string.py:39-44 | `int` reads the decimal text of every integer back as that integer |
| Buckets.Classify | src/buckets.py:100-126 | a piece without either operator is ignored; one whose split does not give exactly two sides raises; otherwise it is judged on its two sides |
| Buckets.Judge | src/buckets.py:104-111 | exactly one literal side decides: a literal right of `le` (or left of `ge` when `le` is absent) is an upper bound, on the other side a lower one, with the literal's value; any bound found arises this way; pieces with a literal on both sides or neither give nothing |
| Buckets.Gather | src/buckets.py:99-126 | fails iff some piece fails; collects exactly the bounds the pieces give |
| Buckets.Pass | src/buckets.py:99-126 | one pass over the pieces: fails iff some piece fails, and otherwise collects exactly the upper and lower bounds they give |
| Buckets.Least | src/buckets.py:137-138 | the least bound, none for an empty list |
| Buckets.Greatest | src/buckets.py:139-140 | the greatest bound, none for an empty list |
| Buckets.UpperEndMeaning | src/buckets.py:142 | the chosen upper end is the greatest integer meeting every non-strict and every strict upper bound |
| Buckets.LowerEndMeaning | src/buckets.py:143 | the chosen lower end is the least integer meeting every lower bound |
| Buckets.Equalities | src/buckets.py:98 | the pieces holding `==`, in their order and with repeats: the filter of the pieces by `==` |
| Buckets.PointOf | src/buckets.py:147-155 | raises iff splitting on `==` does not give two sides; the left literal first, else the right one, else skipped |
| Buckets.Collect | src/buckets.py:146-156 | raises iff some piece raised; otherwise the `k`-th point is the payload of the `k`-th piece result that is a point, so points keep their order and repeats |
| Buckets.Points | src/buckets.py:146-156 | raises iff some equality piece does not split into two sides; otherwise the `k`-th point is the literal of the `k`-th equality piece that gives one, in order and with repeats |
| Buckets.CountOutside | src/buckets.py:157-158 | the number of points, counted with repeats, outside [lower, upper]: the size of their filter by `OutsideOf` |
| Buckets.Assemble | src/buckets.py:131-169 | without an upper or a lower side: raises iff there are no points, and otherwise spans the points with no outsiders; with both sides: the ends are exactly the integers every bound allows, and the outsiders are counted |
| Buckets.StrictOnly | src/buckets.py:114-126 | exactly the pieces with neither `<=` nor `>=` |
| Buckets.RangeAndOutsiders | src/buckets.py:94-169 | raises if `or` occurs anywhere; otherwise the bounds from the cleaned conjuncts, with the strict pass reading only strict pieces |
| Buckets.FromPiecesMeaning | src/buckets.py:94-143 | with both sides bounded, [lower, upper] holds exactly the integers that every piece allows |
| Buckets.FromPiecesAsWrittenMeaning | src/buckets.py:94-143 | as written, with both sides bounded, [lower, upper] holds exactly the integers that every piece allows under both its non-strict and its strict reading |
| Buckets.FromPieces | src/buckets.py:97-169 | the bounds of the cleaned conjuncts, the strict pass reading only strict pieces |
| Buckets.FromPiecesAsWritten | src/buckets.py:97-169 | the bounds of the cleaned conjuncts, the strict pass reading every piece |
| Buckets.RangeAndOutsidersAsWritten | src/buckets.py:94-169 | the same with the strict pass reading every piece, as the code does |
| Buckets.StrictPassNarrows | src/buckets.py:114-143 | on the pieces `x>=0` and `5>=x`, as written the range is [0, 4] although 5 meets both; read correctly it is [0, 5] |
| Buckets.PieceText | src/buckets.py:101-118 | a piece `a>=b` with one-character sides holds `>=` and `>` but neither `<=` nor `<`, and splits into `a`, `b` on `>=` and into `a`, `=b` on `>` |
| Buckets.LowerPiece | src/buckets.py:100-126 | `x>=0` is the non-strict lower bound 0 and the strict pass ignores it |
| Buckets.UpperPiece | src/buckets.py:100-126 | `5>=x` is the non-strict upper bound 5, and the strict pass reads it as the strict upper bound 5 too |
| Buckets.Widen | src/buckets.py:173-174 | the interval widened just enough to hold every equality point, each end being the bound or a point |
| Buckets.Range | src/buckets.py:171-175 | raises iff the bounds as written raise; otherwise encloses those bounds and every equality point, each end being the bound or a point |
| Buckets.RangeCorrected | src/buckets.py:171-175 | the same on the corrected bounds |
| Buckets.IntsBetweenSize | src/buckets.py:179 | [lower, upper] holds upper−lower+1 integers |
| Buckets.CountIntegers | src/buckets.py:177-179 | raises iff the bounds as written raise; 0 for an empty range; otherwise the integers of [lower, upper] less the outsiders |
| Buckets.CountIntegersCorrected | src/buckets.py:177-179 | the same on the corrected bounds |
| Buckets.DirectBuckets | src/buckets.py:18-19 | one bucket per condition, in order, with ids 0, 1, … |
| Buckets.RangeLength | src/buckets.py:23 | the length of `range(start, end, step)`, stated by `Buckets.RangeLengthMeaning` |
| Buckets.RangeLengthMeaning | src/buckets.py:23 | `start + i·step` is an element of `range(start, end, step)` exactly for i below its length |
| Buckets.IteratorBounds | src/buckets.py:20-24 | a zero step raises; otherwise bucket i covers [start+i·step, min(start+(i+1)·step, end)), one per element of the range |
| Buckets.IteratorBuckets | src/buckets.py:20-24 | each pair of bounds rendered by the rule, with ids 0, 1, … |
| Buckets.IteratorTiles | src/buckets.py:23-24 | with a positive step the buckets tile [start, end): the first starts at start, each starts where the previous ends, and the last ends at end |
| Text.JoinSplit | src/program.py:100-101 | joining the pieces of a split with the separator gives the text back |
| Text.SplitJoin | src/utils/string.py:28-29 | splitting a join on a separator that no piece contains gives the pieces back |
| Text.ReplaceUnique | src/program.py:52 | with exactly one occurrence, replacing swaps that occurrence and leaves the text before and after it alone |
| Text.SplitOn | src/program.py:100-101 | `str.split` on a non-empty separator; at least one piece; stated by `Text.JoinSplit` and `Text.SplitJoin` |
| Text.ReplaceAll | src/program.py:52 | `str.replace` of every occurrence, left to right; an empty pattern inserts the replacement at every position |
| Text.ReplaceEmpty | src/abstract_domains/poly.py:112-114 | with an empty pattern the result has \|s\|+(\|s\|+1)·\|rep\| characters: the replacement before every character and at the end |
| Text.CountOf | src/program.py:48 | `str.count` of non-overlapping occurrences; zero iff there is none (`Text.CountOfZero`) |
| Text.StripLeft | src/engines/interproc.py:35 | a suffix of the text that does not start with whitespace, everything removed being whitespace |
| Text.StripRight | src/engines/interproc.py:35 | a prefix of the text that does not end with whitespace, everything removed being whitespace |
| Text.Strip | src/engines/interproc.py:35 | `str.strip`: a middle slice of the text that neither starts nor ends with whitespace, everything removed on either side being whitespace; a stripped text is unchanged (`Text.StripStripped`) |
| Patterns.GreedyEnd | src/program.py:78 | where `pre(.+)suf` ends from a position: the last occurrence of the suffix on the line, past at least one character |
| Patterns.FirstMatch | src/program.py:78 | the leftmost position from which the pattern matches, or none |
| Patterns.FindAllGreedy | src/program.py:78 | every group is non-empty and lies within one line |
| Patterns.FindAllGreedyNone | src/program.py:78 | there is no group iff the pattern matches nowhere |
| Patterns.FindAllGreedyFirst | src/program.py:78 | the first group is the text between the leftmost match's prefix and the last suffix on its line |
| Patterns.FindAllLazy | src/engines/interproc.py:80-81 | no group holds the closing text, and a group exists only after an opening text |
| Patterns.CollapseSpaces | src/engines/interproc.py:27 | whitespace in the result is single plain spaces, never two in a row, and the result starts with whitespace iff the text does |
| Patterns.CollapseKeepsText | src/engines/interproc.py:27 | collapsing keeps every non-whitespace character, in order |
| Interproc.GetVariables | src/engines/interproc.py:14-18 | exactly the variables of some precondition |
| Interproc.LeadingDigits | src/engines/interproc.py:28 | the longest run of decimal digits at the start |
| Interproc.FirstNumber | src/engines/interproc.py:28-29 | raises iff the marker is never followed by a digit; otherwise the number after its first such occurrence |
| Interproc.BlockFrom | src/engines/interproc.py:33 | the first `[\|…\|]` body without bars, or none when no block occurs |
| Interproc.RawPoly | src/engines/interproc.py:33-39 | no block gives no constraints; otherwise one piece per `;`-separated part of the stripped body, each without whitespace or bars |
| Interproc.MakeInvFields | src/engines/interproc.py:21-39 | construction fails iff a line or column number is missing; the flags are substring tests on the raw comment; the stored text keeps every non-whitespace character |
| Interproc.MakeInv | src/engines/interproc.py:21-39 | building an invariant from a comment; stated by `Interproc.MakeInvFields` |
| Interproc.InvPoly | src/engines/interproc.py:41-46 | the bottom flag wins, then the top flag; otherwise the constraints are parsed, and no constraints give BOTTOM |
| Interproc.Satisfiable | src/engines/interproc.py:48-49 | false when flagged bottom; otherwise true iff the polyhedron is not found empty; raises only when the polyhedron cannot be built |
| Interproc.NoConstraintsUnsatisfiable | src/engines/interproc.py:41-49 | an unflagged comment without a constraint block is not satisfiable |
| Interproc.LastSectionStep | src/engines/interproc.py:77 | the text after the last marker is found after the first marker too |
| Interproc.LastSectionIsLastPiece | src/engines/interproc.py:77 | the text after the last marker is the last piece of the split |
| Interproc.Comments | src/engines/interproc.py:80-81 | the texts of the `/* … */` comments, none holding the closing `*/` |
| Interproc.Invariants | src/engines/interproc.py:81 | one invariant per comment when all succeed |
| Interproc.MapAll | src/engines/interproc.py:81 | fails iff some element fails; otherwise one result per element, in order |
| Interproc.InvariantsFail | src/engines/interproc.py:81 | making the invariants fails iff some comment of the last analysis lacks a location |
| Interproc.InvariantAt | src/engines/interproc.py:81 | the k-th invariant is made from the k-th comment |
| Interproc.FirstLeast | src/engines/interproc.py:84 | the index of the first entry with the least line |
| Interproc.Necessary | src/engines/interproc.py:84 | raises on an empty list; otherwise the first invariant with the least line |
| Interproc.ParseOutput | src/engines/interproc.py:75-85 | raises iff there is no comment in the last analysis or one lacks a location; otherwise the first comment with the least line |
| Program.BeforeColon | src/program.py:80 | the text before the first `:`, or all of it |
| Program.Names | src/program.py:80 | every item cut at its first `:` |
| Program.GetVariables | src/program.py:60-81 | raises iff no `var …;` line exists; otherwise, in order, the text before `:` of each comma-separated item of the first such line, without whitespace or commas |
| Program.ItemsAreClean | src/program.py:79 | the items of a whitespace-free line split on `,` hold neither whitespace nor commas |
| Program.ReplaceMarker | src/program.py:46-53 | raises unless the marker occurs exactly once; otherwise that one occurrence is replaced and the text before and after it is unchanged |
| Program.ReplaceInputBounds | src/program.py:35-44 | the same for `// INPUTBOUNDS` and the rendered bounds |
| Program.ReplaceBucket | src/program.py:46-53 | the same for `// BUCKET` and the bucket's failing guard |
| Program.Repeat | src/program.py:100-101 | Python's list repetition: nothing for n ≤ 0, otherwise the list followed by n−1 more copies |
| Program.UnrollingIsCopies | src/program.py:100-101 | repeating the guarded body's lines and joining them is n copies of the guarded body joined by newlines |
| Program.Unrolling | src/program.py:100-101 | the guarded body's lines repeated n times and joined; stated by `Program.UnrollingIsCopies` |
| Program.Conditions | src/program.py:88 | the `while (.+) do` groups |
| Program.Bodies | src/program.py:89 | the `do(.*?)done` groups |
| Program.UnrollStep | src/program.py:95-106 | one loop raises iff its body has no newline, because line [-2] is read |
| Program.UnrollOnce | src/program.py:95-106 | a loop occurring once is preceded by n guarded copies of its body, and nothing else changes |
| Program.UnrollAll | src/program.py:95-106 | the zipped loops are unrolled in turn, and the unrolling raises iff some paired body has no newline |
| Program.UnrollLoops | src/program.py:83-111 | zero unrollings, or no `while … do`, leave the program unchanged; otherwise it raises exactly when a paired body has no newline |

## Left out

- The real LP solvers (scipy `linprog`, pulp, gurobi) and the SIGALRM timeout wrapper are foreign calls and signals. Each solver attempt is an opaque `Lp.Attempt`: it returned, it timed out, or it raised `ValueError`. A task that raises any other exception, which would propagate out of `call`, is not modelled.
- Floating-point rounding and numpy shapes are not modelled. Coefficients are exact reals, and `eliminate_single` divides exactly. The 1-D `b` from parsing and the column `b` after elimination are the same `seq<real>`.
- sympy parsing and simplification are not modelled. They are a parameter `parse` that yields `True`, a relation as coefficients, an operator and a constant term, or an error. Printing polyhedra (`to_inequalities`, `__str__`) is left out.
- networkx `find_cliques` is not re-implemented as Bron–Kerbosch. Maximal cliques are specified by property, and only the set they form is used.
- `intersecting_components` (deprecated), the unreachable operator branch at `poly.py:89-90`, and the commented-out blocks of `changes.py` are dead code and are not modelled.
- Reading bucket files (JSON) and the `interactive` and `network` bucket kinds are not modelled: they read from disk or the terminal. For the `iterator` kind, the rule's `format` is a parameter.
- Running the analyser and reading configuration are not modelled: `InterprocEngine.__init__`, `run` and `get_variables`, `SPLProgram.__init__`, `create_from_content` and `read_program` do I/O. Every program operation maps text to text, and the rendered input bounds are a string parameter.
- The `number_of_tabs` line of `unroll_loops` (`program.py:98`) is not modelled. It is computed and never used, so only its failure on a one-line body is kept.
- The `isinstance` assertion in `changes.py` needs no model, because the types fix it: the states are `DPoly`. The one in `qused.py` holds by type in `Impacts.Qused` and fails in `DisjunctiveImpacts.DQused`.
- `from_variable_to_harmonic` keeps its mapping in a module-level dictionary. Here the dictionary is an explicit `seq<string>` in insertion order, passed in and returned.
- Polyhedra.FromStringConstraints: the variable mapping is a pure parameter that cannot raise. The default mapping `from_variable_to_harmonic` raises on a 24th new variable (`string.py:10-11`); that raise is modelled by `Strings.ToHarmonic` but does not reach this function.
- Interproc.InvPoly: builds the polyhedron through `Polyhedra.FromStringConstraints` with a pure mapping parameter, so the default mapping's raise on a 24th variable (`string.py:10-11`) is not among its errors.
- `\s` and `str.split()` use the full `str.isspace` set (`Text.IsSpace`). `\d`, `int()`, `lower` and `capitalize` are read on ASCII only: `int()` is an optional sign and decimal digits, without underscores or other Unicode digits.
- The order of `list(set(...))` in `get_variables` is unspecified. `Interproc.GetVariables` returns a set.
- `src/utils/networks.py`, the CLI, logging, progress bars, `benchmark.py` and the reflection-based plugin wiring are not part of this model.
- Changes.Optimised: the result is stated only when every pair can be decided. When a test raises, the contract says only that the error comes from some pair, because a row abandoned early can skip a pair that would have raised.
- Changes.Legacy: stated only when every pair can be decided, as for `Changes.Optimised`.
- Changes.ChangesRun: the count is stated only when every pair of projected disjuncts can be decided.
- Changes.ChangesAnalysis: the count is stated only when every pair of projected disjuncts can be decided.
- Lp.CallFrom: its own contract only bounds how many tasks run. Its meaning is stated by `Lp.CallFromSpec` and `Lp.CallSpec`.
- Interproc.Invariants: its own contract states only the length. The elements are stated by `Interproc.InvariantAt` and failure by `Interproc.InvariantsFail`.
- Interproc.RawPoly: states the number of pieces and that they hold no whitespace or bars, not each piece's exact text.
- Patterns.FindAllGreedy: the first group is stated by `Patterns.FindAllGreedyFirst`. Later groups are only known to be non-empty single-line text.
- Patterns.FindAllLazy: states that no group holds the closing text and that a group comes after an opening text. It does not state which text each group is.
- Patterns.CollapseSpaces: states the shape of the result and, through `Patterns.CollapseKeepsText`, that no other character changes. It does not state that each whitespace run becomes exactly one space at its own place.
- Polyhedra.CountIntegersBetween: its own contract bounds the count by the box size. The count as the size of the set of satisfying box points is stated by `Polyhedra.CountIntegersBetweenMeaning`.
- Program.UnrollLoops: states the unchanged cases and when it raises. The unrolled text is stated per loop by `Program.UnrollOnce`, for a loop that occurs once.

## Findings

| source | as written | input that shows it | evidently intended | confidence | as-written member | corrected member |
|---|---|---|---|---|---|---|
| src/buckets.py:114-126 | the strict pass reads every conjunct, and `N>=e` split on `>` gives `N` and `=e`, so a literal-first non-strict bound is also taken as the strict bound `N>e` (likewise `N<=e` as `N<e`) | the condition `x >= 0 and 5 >= x`: the range comes out as [0, 4] although 5 meets both conjuncts | [0, 5]: the strict pass should skip conjuncts that hold `<=` or `>=` | high, not executed | Buckets.StrictPassNarrows | Buckets.FromPiecesMeaning |

`Buckets.Range`, `Buckets.CountIntegers` and the range metric follow the code as written. `Buckets.RangeCorrected` and `Buckets.CountIntegersCorrected` are the same operations on the corrected bounds, whose meaning `Buckets.FromPiecesMeaning` proves. `Buckets.FromPiecesAsWrittenMeaning` states what the code computes: the integers every piece allows under both of its readings.

