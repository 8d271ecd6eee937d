# Sociogram grouping engine — a Dafny model

This project models a sociometry toolkit. Each survey round, every cadet of a course names a
few classmates they would like to work with. The toolkit builds the "who chose whom" directed graph
from those choices. It then partitions the course into groups. First it takes disjoint
cliques, smallest first (by size, then by members), up to a cap, and adds the leftovers of overlapping cliques. Next it spends
a fixed number of rounds attaching every remaining cadet to the group it is most connected
to. It describes each group by the features its members were tagged with, and it
reports relational features of each cadet: mutual and one-sided choices, links formed and lost since
the previous round, and friends who left the course. Around this core sit smaller pieces:
- popularity over time (how often each cadet is chosen, and the summary lines about it);
- the connection-value ratio of a sub-group;
- the symmetrised "closeness" matrix;
- the text helpers for right-to-left documents;
- the cadet-by-cadet pipeline driver and the keyword classifier of free-text feedback.

Python's results and exceptions are modelled explicitly:
- an exception becomes `Outcomes.Result` with a `PyError` (`KeyError`, `IndexError`, `ZeroDivisionError`, `ValueError`);
- Python's `sorted` is one stable insertion sort (`Sorting.Sort`) over a total preorder;
- a dictionary whose insertion order matters is a key list next to a map;
- node identifiers are integers (see "## Left out").

Code that loops and mutates is modelled with Dafny methods and loops:
- the clique selection, the rounds of assignment and the tallies;
- the graph construction;
- the pipeline and classification classes, with their fields;
- the numpy-array operations of the matrix code, on `array2`.

Each of these methods is proved against a function that specifies it.

Modules, one per source file:
`DiGraphs`, `Sorting`, `Columns` and `Outcomes` are shared foundations. `GraphConstruction`
models `Sociogram/main_sociogram.py`. `CliquePartition`, `NodeAssignment` and `GroupCharacterization`
model `Sociogram/clique_slides.py`. `RelationalFeatures` models `Sociogram/private_slides.py`.
`Popularity` models `Sociogram/popularity.py`. `ChoiceCounts` models `Sociogram/sociogram.py`.
`MatrixSymmetry` models `Sociogram/sociogram_utils.py`. `TextHelpers` models
`Socio_and_Sagabz/docx_helper.py`. `Pipeline` models `Socio_and_Sagabz/run_obj.py`.
`Classification` models `Socio_and_Sagabz/socio_to_classification.py`.

## Model

| member | source | states |
|---|---|---|
| CliquePartition.Line45Overridden | Sociogram/clique_slides.py:45-49 | the descending-length sort of line 45 is discarded: the processing order is the (length, members) sort of the cliques with sorted members, a permutation of them |
| CliquePartition.ProcessingOrder | Sociogram/clique_slides.py:47-49 | cliques are processed shortest first, ties broken lexicographically, and each clique's members are in increasing order |
| CliquePartition.MemberOfOrdered | Sociogram/clique_slides.py:47 | every processed clique is the sorted form of one of the input cliques |
| CliquePartition.OrderedFromInput | Sociogram/clique_slides.py:45-49 | reordering keeps every processed clique a clique of the graph, with members from an input clique |
| CliquePartition.FirstStep | Sociogram/clique_slides.py:57-66 | one iteration of the first loop: an uncovered clique larger than the minimum is accepted and covered, a larger covered one is recorded as overlapping, any other is ignored |
| CliquePartition.FirstPass | Sociogram/clique_slides.py:56-66 | the first loop over the processing order, stopping right after the acceptance that reaches the cap |
| CliquePartition.ResidualStep | Sociogram/clique_slides.py:71-78 | one iteration of the residual loop: the overlap is taken against the current coverage; the residual is accepted and covered when the overlap is non-empty and what is left is larger than the minimum |
| CliquePartition.ResidualPass | Sociogram/clique_slides.py:70-82 | the residual loop over the overlapping cliques, stopping right after the acceptance that reaches the cap |
| CliquePartition.Partition | Sociogram/clique_slides.py:45-84 | the first pass over the ordered cliques, then the residual pass only when the cap was not reached |
| CliquePartition.Residual | Sociogram/clique_slides.py:71 | the residual of a clique holds exactly its members that are not yet covered |
| CliquePartition.SelectDisjoint | Sociogram/clique_slides.py:56-66 | the first loop accepts a clique only if it is larger than the minimum and disjoint from the covered nodes, stops once the cap is reached and records every overlapping clique |
| CliquePartition.AddResiduals | Sociogram/clique_slides.py:69-82 | the residual loop adds each large-enough uncovered remainder of an overlapping clique until the cap, leaving the overlapping list unchanged |
| CliquePartition.FindCliquesWithLimit | Sociogram/clique_slides.py:34-85 | groups are larger than the minimum, cliques of the graph, drawn from input cliques and pairwise disjoint; groups plus remaining nodes are exactly the graph's nodes, with no overlap; the number of groups respects the cap |
| CliquePartition.AcceptConsistent | Sociogram/clique_slides.py:57-59 | accepting an uncovered, large-enough candidate keeps the selection consistent (disjoint cliques; covered is the union of the groups) |
| CliquePartition.FirstStepConsistent | Sociogram/clique_slides.py:57-66 | one step of the first loop preserves consistency |
| CliquePartition.FirstPassConsistent | Sociogram/clique_slides.py:56-66 | the whole first loop preserves consistency and only appends groups |
| CliquePartition.ResidualSize | Sociogram/clique_slides.py:71-73 | the residual's length is the clique's length minus its covered members |
| CliquePartition.ResidualDistinct | Sociogram/clique_slides.py:71 | a residual of a duplicate-free clique is duplicate-free |
| CliquePartition.ResidualCandidate | Sociogram/clique_slides.py:71-76 | a residual of a candidate clique is still a clique from the input |
| CliquePartition.ResidualStepConsistent | Sociogram/clique_slides.py:71-78 | one step of the residual loop preserves consistency |
| CliquePartition.ResidualPassConsistent | Sociogram/clique_slides.py:70-82 | the whole residual loop preserves consistency, only appends groups and keeps the overlapping list |
| CliquePartition.PartitionProperties | Sociogram/clique_slides.py:56-84 | the final groups are disjoint cliques larger than the minimum, and covered is their union |
| CliquePartition.FirstPassCap | Sociogram/clique_slides.py:61-63 | the first loop never exceeds the cap |
| CliquePartition.ResidualPassCap | Sociogram/clique_slides.py:80-82 | the residual loop never exceeds the cap |
| CliquePartition.PartitionCap | Sociogram/clique_slides.py:61-82 | the partition never has more groups than the cap allows |
| CliquePartition.ResidualPassSources | Sociogram/clique_slides.py:70-78 | every group the residual loop adds is the residual of one of the overlapping cliques |
| CliquePartition.FirstPassOverlapping | Sociogram/clique_slides.py:65-66 | every clique recorded as overlapping was one of the processed cliques |
| CliquePartition.ResidualPassScope | Sociogram/clique_slides.py:69-82 | the first loop's groups are a prefix of the result, and exactly the result when the residual loop does not run; each overlapping clique was large enough but touched covered nodes; each later group is a residual of an overlapping clique, disjoint from what the first loop covered |
| NodeAssignment.CountsAgree | Sociogram/clique_slides.py:117-120 | the counts of edges into and out of the clique both equal the number of clique members linked to the node |
| NodeAssignment.ScoreIsDoubleLinks | Sociogram/clique_slides.py:117-121 | a node's score for a clique is twice its links times the average size, divided by the clique's current size |
| NodeAssignment.Score | Sociogram/clique_slides.py:121 | `(edges_to_clique + edges_from_clique) * average_clique_size / len(clique)` on the clique as it currently stands |
| NodeAssignment.Closest | Sociogram/clique_slides.py:108-126 | the scan as a function: a later clique replaces the best so far only with a strictly greater score, cliques over the size limit are skipped, an empty scored clique divides by zero; the index found is -1 or one of the scanned cliques |
| NodeAssignment.ClosestBest | Sociogram/clique_slides.py:108-126 | the scan succeeds exactly when no scored clique is empty, and then yields the first clique of strictly greatest positive score, or -1 with 0 when no score is positive |
| NodeAssignment.ClosestErr | Sociogram/clique_slides.py:121 | a zero division at one clique ends the whole scan with that error |
| NodeAssignment.ClosestClique | Sociogram/clique_slides.py:108-126 | the loop over the cliques computes `Closest` exactly; it fails exactly when an eligible clique is empty (ZeroDivisionError); otherwise it returns the first clique of highest positive score among the cliques under the size limit, or -1 with score 0 when no score is positive |
| NodeAssignment.AppendAssigned | Sociogram/clique_slides.py:135 | adding a node to one group's additions adds exactly that node to the assigned set and shrinks no group |
| NodeAssignment.AppendNew | Sociogram/clique_slides.py:135 | adding an unassigned node keeps every node in at most one group |
| NodeAssignment.Place | Sociogram/clique_slides.py:107-131 | the decision for one node: the closest clique when its score exceeds `assign_thresh` times the node's in- plus out-degree, otherwise none; the chosen index is one of the cliques |
| NodeAssignment.PlaceRule | Sociogram/clique_slides.py:107-131 | a node is placed in the first clique with the strictly best positive score among those under the size limit, only when that score beats the threshold times the node's degree; when it is not placed, no eligible clique has a score above both 0 and that bound; a zero division exactly when an eligible clique is empty |
| NodeAssignment.IsolatedNeverPlaced | Sociogram/clique_slides.py:103-131 | a node with no edges scores 0 against every clique and is never placed |
| NodeAssignment.NoLinks | Sociogram/clique_slides.py:117-120 | a node with no edges is linked to no clique member |
| NodeAssignment.PlaceNode | Sociogram/clique_slides.py:107-136 | the decision the loop computes for one node is exactly `Place` |
| NodeAssignment.EmptyClique | Sociogram/clique_slides.py:121 | a zero division in scoring happens only when some clique is empty |
| NodeAssignment.RoundFrom | Sociogram/clique_slides.py:105-136 | one round over the nodes still to visit, left to right: each is placed by `Place` against the lists as they stand, and a placed node is appended to its clique's list and to `nodes_to_remove` |
| NodeAssignment.RoundFromStep | Sociogram/clique_slides.py:105-136 | visiting the next node: a failure ends the round; a placement grows that one list before the rest are visited |
| NodeAssignment.PlaceThenRoundFrom | Sociogram/clique_slides.py:107-136 | with a node left to visit, the rest of the round fails only with the division error and otherwise keeps one list per clique |
| NodeAssignment.PlaceFails | Sociogram/clique_slides.py:121 | placing one node divides by zero only when some clique is empty |
| NodeAssignment.VisitNode | Sociogram/clique_slides.py:107-136 | visiting one node: a failure is what `RoundFrom` gives there and needs an empty clique; otherwise the rest of the round from the new lists equals the round from the old ones, lists only grow, and each appended node is the visited one, appended once |
| NodeAssignment.Round | Sociogram/clique_slides.py:101-136 | a whole round from the lists at its start and an empty `nodes_to_remove`, with one average size for the whole round |
| NodeAssignment.AssignRound | Sociogram/clique_slides.py:101-136 | the round the loop computes is exactly `Round`; it succeeds whenever no clique is empty; additions only grow, each added node is one of the round's nodes, and nodes stay in at most one group |
| NodeAssignment.Without | Sociogram/clique_slides.py:138 | the new remaining list holds exactly the old remaining nodes that were not assigned, without duplicates |
| NodeAssignment.SortedNodes | Sociogram/clique_slides.py:105 | sorting the remaining nodes keeps them and puts them in strictly increasing order |
| NodeAssignment.Step | Sociogram/clique_slides.py:100-138 | one round on the state at its start: the average of the current clique sizes, the still-unassigned nodes sorted ascending, `Round`, then the placed nodes removed from the remainder |
| NodeAssignment.Rounds | Sociogram/clique_slides.py:99-138 | `iterations` rounds of `Step` in sequence; with rounds to run and no cliques, the average divides by zero |
| NodeAssignment.OneRound | Sociogram/clique_slides.py:100-138 | the loop body computes `Step` exactly, succeeds when no clique is empty, and keeps every assigned node from the leftover set, on one list only, with the rest still left |
| NodeAssignment.NoAdditions | Sociogram/clique_slides.py:99 | one empty second-order list per clique |
| NodeAssignment.AssignRemainingNodes | Sociogram/clique_slides.py:87-138 | the result is exactly `Rounds` from empty lists; with no rounds nothing is assigned and the input is returned; with rounds but no cliques it fails; with only non-empty cliques it succeeds; assigned nodes come from the input, no node is in two groups, and the new remaining list is exactly the input minus the assigned nodes, without duplicates |
| NodeAssignment.StepThenRounds | Sociogram/clique_slides.py:100-138 | with rounds to run and cliques to average over, the rounds can fail only with the division error |
| NodeAssignment.RoundsStep | Sociogram/clique_slides.py:100-138 | `t` rounds are one `Step` followed by `t - 1` rounds, and a failing `Step` ends them all with its error |
| NodeAssignment.RoundsNone | Sociogram/clique_slides.py:100 | with no rounds left the lists and the leftover nodes are the result |
| NodeAssignment.NextRound | Sociogram/clique_slides.py:100-138 | one pass of the outer loop: with no cliques it fails as `Rounds` does; otherwise the remaining rounds from the new state equal those from the old state, each list entry still came once from the leftover nodes, and it succeeds when no clique is empty |
| NodeAssignment.RunRounds | Sociogram/clique_slides.py:99-138 | the outer loop computes `Rounds` exactly, succeeds when no clique is empty (or no round runs), and keeps one list per clique with every entry taken once from the leftover nodes |
| GroupCharacterization.FirstOccurrences | Sociogram/clique_slides.py:195-201 | the dictionary's key order is the tags' first-occurrence order, without repeats |
| GroupCharacterization.CountPopulation | Sociogram/clique_slides.py:195-202 | every tag in the table is counted, in first-occurrence order, with its number of occurrences in the whole population |
| GroupCharacterization.CountTags | Sociogram/clique_slides.py:205-209 | counting a member's tags adds one group count per occurrence |
| GroupCharacterization.CountGroup | Sociogram/clique_slides.py:204-209 | the group counts are the tag occurrences among the group's members |
| GroupCharacterization.TagLines | Sociogram/clique_slides.py:213-219 | a share line appears exactly when the tag is dominant in the group, a concentration line exactly when the tag is concentrated in it, and nothing else |
| GroupCharacterization.Lines | Sociogram/clique_slides.py:211-219 | the lines of the given tags, each tag's share and concentration lines in key order |
| GroupCharacterization.Describe | Sociogram/clique_slides.py:211-219 | the loop emits each tag's lines in key order |
| GroupCharacterization.CharacterizeGroup | Sociogram/clique_slides.py:185-224 | an empty group gets the fixed "no group" text, exactly; otherwise it gets the group's characterization |
| GroupCharacterization.Characterization | Sociogram/clique_slides.py:192-224 | the description counted from the table: the tag lines of the group, or the fixed "no dominant features" text when there are none |
| GroupCharacterization.LinesMembers | Sociogram/clique_slides.py:211-219 | a line is produced if and only if it belongs to some counted tag's lines |
| GroupCharacterization.CharacterizationLines | Sociogram/clique_slides.py:211-224 | for a non-empty group, a tag is reported as dominant, or as concentrated, exactly when its counts meet the thresholds |
| GroupCharacterization.NoDominantExactly | Sociogram/clique_slides.py:221-222 | the "no dominant feature" text appears exactly when no tag is dominant or concentrated |
| GroupCharacterization.MostChosenFirst | Sociogram/clique_slides.py:235 | the key of the sort orders nodes by decreasing in-degree as a total preorder |
| GroupCharacterization.PyPrefix | Sociogram/clique_slides.py:236 | Python slicing `[:k]` for any k, negative included |
| GroupCharacterization.TopNodesOrder | Sociogram/clique_slides.py:235-236 | the top nodes come from the order, none chosen less often than a node left out, and equally chosen nodes keep their order (stable sort) |
| GroupCharacterization.NameAll | Sociogram/clique_slides.py:237 | names are looked up elementwise, raising KeyError exactly when an identifier has no name |
| GroupCharacterization.DominantNodes | Sociogram/clique_slides.py:231-238 | joining the names of the top nodes succeeds exactly when every top node has a name |
| RelationalFeatures.FilterBidirectional | Sociogram/private_slides.py:233-239 | the mutual graph keeps all nodes and exactly the edges whose reverse also exists |
| RelationalFeatures.BidirectionalShape | Sociogram/private_slides.py:233-239 | the mutual graph is symmetric and a subgraph of the original |
| RelationalFeatures.Bidirectional | Sociogram/private_slides.py:71 | the mutual choices of a node are exactly its out-neighbours that chose it back |
| RelationalFeatures.UnidirectionalFrom | Sociogram/private_slides.py:72 | the one-sided choices a node made are its out-neighbours that did not choose it back |
| RelationalFeatures.UnidirectionalTo | Sociogram/private_slides.py:73 | the one-sided choices a node received are its in-neighbours it did not choose back |
| RelationalFeatures.EdgePartition | Sociogram/private_slides.py:71-73 | out-neighbours split disjointly into mutual and one-sided-sent choices, and in-neighbours into mutual and one-sided-received choices |
| RelationalFeatures.FormedMeaning | Sociogram/private_slides.py:78-81 | a link is formed exactly when it is mutual now and there was no edge either way in the previous round |
| RelationalFeatures.DeformedMeaning | Sociogram/private_slides.py:82-84 | a link is lost exactly when it was mutual before, the cadet did not leave, and there is no edge either way now |
| RelationalFeatures.FormedDeformedDisjoint | Sociogram/private_slides.py:78-84 | no link is both formed and lost |
| RelationalFeatures.Departed | Sociogram/private_slides.py:40 | the departed cadets are those in the first round but not the last; with no rounds, IndexError |
| RelationalFeatures.AreGoodFriends | Sociogram/private_slides.py:165-172 | the loop over the rounds computes its specifying function exactly |
| RelationalFeatures.GoodFriendsMeaning | Sociogram/private_slides.py:165-172 | when both cadets appear in every round, they are good friends exactly when some round has them choosing each other |
| RelationalFeatures.PionFriends | Sociogram/private_slides.py:88 | the friends who left are exactly the departed cadets who are good friends of the node; a KeyError exactly when a lookup fails |
| RelationalFeatures.Features | Sociogram/private_slides.py:65-86 | a node's row carries its in-degree; round 0 has zeros and empty lists; later rounds have disjoint formed and lost lists |
| RelationalFeatures.NodeTable | Sociogram/private_slides.py:65-88 | the table has one row per node, in node order |
| GraphConstruction.Present | Sociogram/main_sociogram.py:70 | dropping the empty cells keeps exactly the chosen numbers |
| GraphConstruction.MapChoices | Sociogram/main_sociogram.py:72-73 | mapping succeeds exactly when every chosen number is known, yielding the identifiers elementwise; otherwise KeyError |
| GraphConstruction.Fan | Sociogram/main_sociogram.py:74-75 | the edges added for a row go from the respondent to each chosen identifier |
| GraphConstruction.RowTargets | Sociogram/main_sociogram.py:70-73 | a row's targets are exactly the identifiers of its known chosen numbers |
| GraphConstruction.EdgesOfCharacterization | Sociogram/main_sociogram.py:66-75 | (u, v) is an edge exactly when some row of respondent u chose a number that maps to v |
| GraphConstruction.ChoiceGraph | Sociogram/main_sociogram.py:65-75 | the graph built when every choice resolves: every respondent's identifier is a node, with an edge to each identifier its known choices map to |
| GraphConstruction.ChoiceGraphNodes | Sociogram/main_sociogram.py:65-75 | the graph is well formed, and every respondent's identifier is a node |
| GraphConstruction.AddEdges | Sociogram/main_sociogram.py:74-75 | adding a row's edges also adds their end points as nodes |
| GraphConstruction.NextPrefix | Sociogram/main_sociogram.py:66-75 | processing one more row extends the edge set by that row's edges |
| GraphConstruction.TargetsFan | Sociogram/main_sociogram.py:74-75 | a row's edges add exactly its chosen identifiers as targets |
| GraphConstruction.RowResolution | Sociogram/main_sociogram.py:70-73 | for a resolvable sheet, each row's mapping succeeds |
| GraphConstruction.CreateGraph | Sociogram/main_sociogram.py:54-76 | building the graph fails with KeyError exactly when some choice number is unknown, and otherwise yields the choice graph |
| GraphConstruction.OutDegreeBound | Sociogram/main_sociogram.py:70-75 | a respondent's out-degree is at most the number of choices they made, so at most the number of choice columns |
| TextHelpers.ReplaceEscape | Socio_and_Sagabz/docx_helper.py:46-54 | one `str.replace` pass that wraps a character in direction marks equals escaping that character as well |
| TextHelpers.ReplaceAllEscapes | Socio_and_Sagabz/docx_helper.py:46-54 | the chain of replacements escapes every listed character once, since no replacement re-matches a mark |
| TextHelpers.Escape | Socio_and_Sagabz/docx_helper.py:46-54 | escaping lengthens the text by two per escaped character |
| TextHelpers.MarkedEscape | Socio_and_Sagabz/docx_helper.py:46-54 | the source's chain of replacements over its symbol list equals escaping every symbol of the list once |
| TextHelpers.FixRtlShape | Socio_and_Sagabz/docx_helper.py:39-58 | non-strings come back unchanged; a string is escaped and wrapped in an embedding mark and a pop mark |
| TextHelpers.AddInTheBeginning | Socio_and_Sagabz/docx_helper.py:61-64 | an empty string raises IndexError; otherwise the prefix is added exactly when the first character differs from it; non-strings pass unchanged |
| TextHelpers.AddInTheBeginningIdempotent | Socio_and_Sagabz/docx_helper.py:61-64 | adding a one-character prefix twice is the same as adding it once |
| TextHelpers.AddInTheBeginningLonger | Socio_and_Sagabz/docx_helper.py:62-63 | a prefix longer than one character is always added, even when the text already starts with it |
| TextHelpers.EnsureEndsWith | Socio_and_Sagabz/docx_helper.py:67-74 | an empty or single-space string raises IndexError; non-strings pass unchanged |
| TextHelpers.EnsureEndsWithShape | Socio_and_Sagabz/docx_helper.py:67-74 | one trailing space is dropped, then the ending is added unless the text already ends with it |
| TextHelpers.Shift | Socio_and_Sagabz/docx_helper.py:90-95 | each code point is shifted by its position modulo 5; ValueError exactly when a result is not a code point |
| TextHelpers.MyHash | Socio_and_Sagabz/docx_helper.py:93-95 | hashing adds its position modulo 5 to each code point, failing exactly when one leaves the code-point range |
| TextHelpers.Dehash | Socio_and_Sagabz/docx_helper.py:90-91 | de-hashing subtracts the same offsets, failing exactly when one leaves the range |
| TextHelpers.HashRoundTrip | Socio_and_Sagabz/docx_helper.py:90-95 | de-hashing a successful hash gives the original text back |
| TextHelpers.HashDefinedBelowTop | Socio_and_Sagabz/docx_helper.py:93-95 | hashing never fails on code points at least 4 below the top of the range |
| TextHelpers.SigmaText | Socio_and_Sagabz/docx_helper.py:97-112 | unknown categories raise KeyError; otherwise exactly one of the big, small or average labels applies, by the category's thresholds in the source's test order |
| Popularity.Wrapped | Sociogram/popularity.py:17 | numpy indexing: a negative index counts from the end |
| Popularity.Tally | Sociogram/popularity.py:13-23 | the count fails with IndexError exactly when some choice falls outside numpy's index range, and otherwise has one entry per row |
| Popularity.TallyColumn | Sociogram/popularity.py:16-17 | one column adds, in place, its hits to each counter, and fails exactly when a value is out of range |
| Popularity.CountConnections | Sociogram/popularity.py:13-23 | the in-place array loop computes the tally exactly |
| Popularity.HitsAppend | Sociogram/popularity.py:15-17 | hits over two stretches of cells add up |
| Popularity.OneBasedCounts | Sociogram/popularity.py:17 | for numbers 1..n the counter at position k-1 is the number of times k was chosen |
| Popularity.ZeroCountsLast | Sociogram/popularity.py:17 | a choice of 0 increments the last counter (index -1) |
| Popularity.TallySum | Sociogram/popularity.py:13-17 | when all cells are in range, the counters sum to the number of cells |
| Popularity.TallyTotal | Sociogram/popularity.py:13-23 | a successful count has one entry per row, and its entries sum to the number of choices made |
| Popularity.FirstRow | Sociogram/popularity.py:27 | the first row carrying the name, or none when the name is absent |
| Popularity.CountByName | Sociogram/popularity.py:26-31 | an absent name gives -1; otherwise the count at the cadet's number - 1 of the name's first row, wrapped as numpy wraps |
| Popularity.HighlightCells | Sociogram/popularity.py:34-42 | text cells are unstyled; counts at or below 3 are red, counts of 10 or more green, others unstyled |
| Popularity.HighlightDiff | Sociogram/popularity.py:45-52 | the first two cells are unstyled; from the third on, a rise of 5 or more is light blue, a fall of 5 or more light yellow, else unstyled |
| Popularity.Render | Sociogram/popularity.py:65-69 | the text of one summary line: name, " has only "/" has ", the amount, then the line's ending |
| Popularity.NotesAsWritten | Sociogram/popularity.py:64-69 | the lines written for one cadet as the source writes them: "only" with the latest count, then "more" with the latest count or "less" with the drop |
| Popularity.NotesAsWrittenRules | Sociogram/popularity.py:64-69 | as written, a cadet gets an "only" line exactly when the last count is at most 3, a "more" line exactly when the rise is at least 5, a "less" line exactly when the drop is at least 5, never both; the only- and more-lines carry the last count, the less-line the drop |
| Popularity.Notes | Sociogram/popularity.py:64-69 | (corrected) the same lines with the "more" line carrying the rise |
| Popularity.NotesRules | Sociogram/popularity.py:64-69 | (corrected) a cadet gets an "only" line exactly when the last count is at most 3, and a "more" or "less" line, carrying the size of the change, exactly when the change is at least 5 |
| Popularity.MoreLineAsWrittenWrong | Sociogram/popularity.py:66-67 | with counts 1 then 7, the source's text reports 7 more connections, where the rise is 6 |
| Popularity.CorrectionOnlyInMore | Sociogram/popularity.py:66-69 | the corrected and the written lines agree except for the amount of a "more" line: the last count as written, the rise when corrected |
| Popularity.Connections | Sociogram/popularity.py:59-60 | each round's counts are computed in turn, the first failure propagating |
| Popularity.CountsOf | Sociogram/popularity.py:62 | a cadet's counts are looked up by name in every round |
| Popularity.NotesUpTo | Sociogram/popularity.py:61-69 | the as-written notes for the first k names of the last sheet, or the first lookup failure |
| Popularity.NotesThrough | Sociogram/popularity.py:61-69 | with a name left: the notes so far, then that name's as-written notes, or the first lookup failure |
| Popularity.Summary | Sociogram/popularity.py:55-69 | the counts of every sheet, then the rendering of the as-written notes of the last sheet's names; IndexError when there is no sheet |
| Popularity.RenderAllSnoc | Sociogram/popularity.py:64-69 | rendering one more note appends exactly that note's line to the text |
| Popularity.AppendLines | Sociogram/popularity.py:64-69 | the loop appends the rendering of each note in turn |
| Popularity.NotesStep | Sociogram/popularity.py:61-69 | one more name of the last round extends the notes by that cadet's notes as the source writes them (`NotesAsWritten`), or fails with that name's lookup error |
| Popularity.SummaryText | Sociogram/popularity.py:61-69 | the summary is the rendering of the as-written notes (`NotesAsWritten`) for every name of the last round, in order, or the first lookup failure |
| Popularity.PopularitySummary | Sociogram/popularity.py:55-69 | the whole summary computation equals `Summary`, the text the source writes, "more" lines carrying the latest count as line 67 does |
| Popularity.ConnectionsPrefix | Sociogram/popularity.py:59-60 | one failing round makes the whole count fail with that round's first error |
| ChoiceCounts.KeptMembers | Sociogram/sociogram.py:24-25 | a value is counted only if it was chosen and passes the filter |
| ChoiceCounts.KeptAppend | Sociogram/sociogram.py:21-25 | filtering two column stretches concatenates |
| ChoiceCounts.Kept | Sociogram/sociogram.py:21-25 | the cells the loops count, in visiting order: every cell without a filter, otherwise the cells the filter lists |
| ChoiceCounts.FirstSeenProps | Sociogram/sociogram.py:26-29 | the dictionary's keys are the counted values, once each |
| ChoiceCounts.FirstSeen | Sociogram/sociogram.py:26-29 | the distinct values in order of first appearance, the key order of the filled dictionary |
| ChoiceCounts.TallyStep | Sociogram/sociogram.py:26-29 | one cell increments its key or inserts it with count 1 |
| ChoiceCounts.CountColumn | Sociogram/sociogram.py:22-29 | one column's loop tallies its kept cells |
| ChoiceCounts.GetCountDict | Sociogram/sociogram.py:19-30 | keys are the kept values in first-seen order, and each count is the number of times that value was chosen |
| ChoiceCounts.CountedKeys | Sociogram/sociogram.py:24-29 | a key of the dictionary was chosen at least once and passes the filter |
| ChoiceCounts.FilteredCounts | Sociogram/sociogram.py:24-25 | the filter keeps exactly the counts of the listed nodes and zeroes the others |
| ChoiceCounts.CountTotal | Sociogram/sociogram.py:47 | the counts sum to the number of counted cells |
| ChoiceCounts.ChoiceColumns | Sociogram/sociogram.py:19-22 | one column per choice, each with one cell per row |
| ChoiceCounts.Subgroup | Sociogram/sociogram.py:42 | the sub-group holds only rows of the given category value |
| ChoiceCounts.IntoNonEmpty | Sociogram/sociogram.py:46-48 | choices into a sub-group imply a non-empty sub-group and sheet |
| ChoiceCounts.ExpectedZero | Sociogram/sociogram.py:48 | the expected count is zero exactly when there are no choices into the sub-group or it is empty |
| ChoiceCounts.ConnectionValue | Sociogram/sociogram.py:41-55 | an unknown category raises KeyError, a sub-group nobody chose raises ZeroDivisionError, otherwise the inner/expected ratio |
| ChoiceCounts.RatioOfWhole | Sociogram/sociogram.py:55 | the ratio for the whole population is 1 |
| ChoiceCounts.SubgroupAll | Sociogram/sociogram.py:42 | when every row has the value, the sub-group is the whole sheet |
| ChoiceCounts.WholeSheetIsOne | Sociogram/sociogram.py:41-55 | a sub-group spanning the whole sheet has connection value 1 |
| Columns.CellsPrefix | Sociogram/popularity.py:15-16 | the cells of all columns are those of a prefix of columns followed by the rest |
| Columns.OccursPositive | Sociogram/sociogram.py:26-29 | a value occurs a positive number of times exactly when it is present |
| Columns.OccursAppend | Sociogram/sociogram.py:21-29 | occurrence counts add over concatenation |
| MatrixSymmetry.Build | Sociogram/sociogram_utils.py:35-44 | the built matrix is square, with the given entries |
| MatrixSymmetry.Symmetrized | Sociogram/sociogram_utils.py:35-44 | the result has the input's size |
| MatrixSymmetry.SymmetrizedSymmetric | Sociogram/sociogram_utils.py:41-43 | for every degree, the result is symmetric |
| MatrixSymmetry.SymmetrizedZeroDiagonal | Sociogram/sociogram_utils.py:42-43 | the diagonal is zero |
| MatrixSymmetry.SymmetrizedLowDegree | Sociogram/sociogram_utils.py:36-41 | below degree 2 an off-diagonal entry is ten times the choices in both directions |
| MatrixSymmetry.SymmetrizedNonNegative | Sociogram/sociogram_utils.py:36-43 | a non-negative adjacency matrix gives a non-negative result at every degree |
| MatrixSymmetry.RaisedNonNegative | Sociogram/sociogram_utils.py:36-40 | the path-count terms of degrees 2 and 3 stay non-negative |
| MatrixSymmetry.Raised | Sociogram/sociogram_utils.py:36-40 | the matrix after `10*A` and the `+=` updates for degrees 2 and 3, before it is added to its transpose |
| MatrixSymmetry.DotNonNegative | Sociogram/sociogram_utils.py:38-40 | the dot product of non-negative rows is non-negative |
| MatrixSymmetry.MulNonNegative | Sociogram/sociogram_utils.py:38-40 | a product of non-negative matrices is non-negative |
| MatrixSymmetry.AddNonNegative | Sociogram/sociogram_utils.py:38-41 | a sum of non-negative matrices is non-negative |
| MatrixSymmetry.TransposeNonNegative | Sociogram/sociogram_utils.py:41 | transposing keeps non-negativity |
| MatrixSymmetry.FromGrid | Sociogram/sociogram_utils.py:36 | copies a matrix into a fresh array |
| MatrixSymmetry.AddInPlace | Sociogram/sociogram_utils.py:38-40 | numpy's `+=` adds the term to the array in place |
| MatrixSymmetry.ZeroDiagonal | Sociogram/sociogram_utils.py:42-43 | the loop zeroes exactly the diagonal and leaves the rest |
| MatrixSymmetry.SymmetrizeMatrix | Sociogram/sociogram_utils.py:35-44 | the array version returns a fresh array equal to the symmetrized matrix, leaving the input untouched |
| Pipeline.FromFirstMeaning | Socio_and_Sagabz/run_obj.py:115-125 | the processed cadets are those from the first one named as the start onwards, or none when no one has that name |
| Pipeline.StripQuotesMeaning | Socio_and_Sagabz/run_obj.py:127-129 | removing quotes deletes exactly the `"` and `'` characters and keeps the rest in order |
| Pipeline.UnquotedHasNoQuotes | Socio_and_Sagabz/run_obj.py:127-129 | a title with the quotes removed contains no quote |
| Pipeline.TitlesMeaning | Socio_and_Sagabz/run_obj.py:127-133 | the k-th exported title belongs to the k-th processed cadet |
| Pipeline.ClassifiedKeys | Socio_and_Sagabz/run_obj.py:113-136 | the classification dictionary has exactly the processed cadets' names as keys |
| Pipeline.ClassifiedLast | Socio_and_Sagabz/run_obj.py:136 | a repeated name keeps the entry of its last processed cadet |
| Pipeline.SkipStep | Socio_and_Sagabz/run_obj.py:121-125 | skipping a cadet before the start keeps the still-to-process list |
| Pipeline.TakeStep | Socio_and_Sagabz/run_obj.py:127-136 | processing one cadet extends the titles and the dictionary by that cadet |
| Pipeline.ProcessPersons | Socio_and_Sagabz/run_obj.py:115-136 | the loop titles exactly the cadets from the start cadet onwards, in order, and the dictionary maps each processed name to its last title |
| Pipeline.SocioAndSagabz.constructor | Socio_and_Sagabz/run_obj.py:33-41 | the arguments are stored; the flags start on and the start task then switches them off as `analyze_start_task` does; nothing is exported yet |
| Pipeline.SocioAndSagabz.AnalyzeStartTask | Socio_and_Sagabz/run_obj.py:68-82 | no start task keeps every flag; "split_excel" turns off combining; "statistics" also turns off splitting; any other task turns off all three stages; nothing else changes |
| Pipeline.SocioAndSagabz.CreateIndividualExcel | Socio_and_Sagabz/run_obj.py:109-136 | the cadets from the start onwards are processed in order; titles are exported only when splitting is on, and the dictionary maps each processed name to its last title |
| Pipeline.SocioAndSagabz.WordStartCadet | Socio_and_Sagabz/run_obj.py:158 | the Word reports pass the start cadet on exactly when the start task is "word_build" and a cadet was given |
| Classification.SmartWait.constructor | Socio_and_Sagabz/socio_to_classification.py:15-18 | the counter starts at zero |
| Classification.SmartWait.Next | Socio_and_Sagabz/socio_to_classification.py:24-29 | each call increments the counter and asks to sleep exactly when the counter is a multiple of the batch count; a batch count of 0 raises ZeroDivisionError |
| Classification.SleepsCount | Socio_and_Sagabz/socio_to_classification.py:24-29 | over k calls with n batches, the waiter sleeps exactly k div n times |
| Classification.DivStep | Socio_and_Sagabz/socio_to_classification.py:26 | one more call adds one sleep exactly when it reaches a multiple |
| Classification.Offset | Socio_and_Sagabz/socio_to_classification.py:134-157 | each category's column offset is below 6 |
| Classification.Rank | Socio_and_Sagabz/socio_to_classification.py:136-158 | a category's rank is its position in the test order |
| Classification.Lower | Socio_and_Sagabz/socio_to_classification.py:132 | lower-casing keeps the length and lower-cases each character |
| Classification.Classify | Socio_and_Sagabz/socio_to_classification.py:132-158 | a text mentioning the "other" keyword is always "other", whatever else it mentions |
| Classification.ClassifyMeaning | Socio_and_Sagabz/socio_to_classification.py:136-158 | a text gets category c exactly when it mentions c's keyword and none of the keywords tested before c |
| Classification.ClassifyNone | Socio_and_Sagabz/socio_to_classification.py:136-158 | no category is marked exactly when no keyword occurs |
| Classification.PriorityComplete | Socio_and_Sagabz/socio_to_classification.py:136-158 | the test order lists every category |
| Classification.LowerIdempotent | Socio_and_Sagabz/socio_to_classification.py:132 | lower-casing twice is lower-casing once |
| Classification.ClassifyIgnoresCase | Socio_and_Sagabz/socio_to_classification.py:132 | the classification of a text and of its lower-cased form agree |
| Classification.Column | Socio_and_Sagabz/socio_to_classification.py:134-157 | improvement texts go to columns I..N and preservation texts to B..G, base letter plus the category's offset |
| Classification.ColumnInjective | Socio_and_Sagabz/socio_to_classification.py:134-157 | different (kind, category) pairs land in different columns |
| Classification.Header | Socio_and_Sagabz/socio_to_classification.py:172-186 | the header row of the classification sheet |
| Classification.HeaderConsistent | Socio_and_Sagabz/socio_to_classification.py:172-186 | the column a text is marked in carries the header of its category, with "2" on the improvement side |
| Classification.ClassificationModel.constructor | Socio_and_Sagabz/socio_to_classification.py:172-186 | the sheet starts with no marks |
| Classification.ClassificationModel.SetClassifications | Socio_and_Sagabz/socio_to_classification.py:131-158 | a classified text sets exactly one cell, its category's column in the row, to TRUE; an unclassified text changes nothing |
| Sorting.Insert | Sociogram/clique_slides.py:45-49 | insertion keeps the elements and adds one |
| Sorting.Sort | Sociogram/clique_slides.py:45-49 | sorting keeps the length and gives a list sorted under the order |
| Sorting.SortPermutes | Sociogram/clique_slides.py:45-49 | sorting only rearranges: the result has the same elements with the same multiplicities |
| Sorting.SortStable | Sociogram/clique_slides.py:235 | elements that compare equal keep their relative order, as in Python's stable `sorted` |
| Sorting.SortedUnique | Sociogram/clique_slides.py:49 | under an antisymmetric order there is only one sorted permutation |
| Sorting.SortIgnoresInputOrder | Sociogram/clique_slides.py:45-49 | under an antisymmetric order the result does not depend on the input order, which is why line 45's sort has no effect |
| Sorting.MapSeq | Sociogram/clique_slides.py:47 | mapping over a list applies the function elementwise |
| Sorting.MapSeqPermutation | Sociogram/clique_slides.py:47 | mapping over permutations gives permutations |
| Sorting.IntLe | Sociogram/clique_slides.py:47 | integer order is a total, antisymmetric preorder |
| Sorting.LexLeTotal | Sociogram/clique_slides.py:49 | lexicographic order on lists is total |
| Sorting.LexLeTransitive | Sociogram/clique_slides.py:49 | lexicographic order on lists is transitive |
| Sorting.LexLeAntisymmetric | Sociogram/clique_slides.py:49 | lexicographic order on lists is antisymmetric |
| Sorting.CliqueOrder | Sociogram/clique_slides.py:49 | the (length, members) key is a total, antisymmetric preorder |
| Sorting.LongestFirst | Sociogram/clique_slides.py:45 | the descending-length key is a total preorder |
| DiGraphs.CliquePermutation | Sociogram/clique_slides.py:47 | reordering a clique's members keeps it a clique with the same members |
| DiGraphs.DistinctPermutation | Sociogram/clique_slides.py:47 | reordering a duplicate-free list keeps it duplicate-free |

## Left out

- Node identifiers are integers and are ordered numerically. The source types them as strings, whose `sorted` order is lexicographic ("10" before "9"). The model assumes numeric identifiers, so `CliquePartition.ProcessingOrder` and `NodeAssignment.SortedNodes` give the numeric order.
- `RelationalFeatures.Bidirectional`, `RelationalFeatures.UnidirectionalFrom`, `RelationalFeatures.UnidirectionalTo`, `RelationalFeatures.Formed` and `RelationalFeatures.Deformed` are sets; the source builds lists in edge order. Only the order of the printed lists is lost.
- The clique enumeration `nx.find_cliques` is not modelled. Its output list is an input to `CliquePartition.FindCliquesWithLimit`, assumed to hold cliques of the graph.
- `CliquePartition.Residual`: the source turns a set difference into a list, so its order is undefined. The model keeps the clique's sorted order. Only the written tables see the difference.
- Writing the unassigned cadets to a text file (`Sociogram/clique_slides.py:140-144`) is I/O and is left out. The remaining list is returned.
- `NodeAssignment.AssignRemainingNodes`: the leftover nodes are a duplicate-free list standing for the source's set. Floats are exact reals, so ties break as with exact arithmetic, not IEEE doubles.
- Rounding and number formatting (percentages, `round(..., 2)`) in texts and tables are left out. Shares and ratios are exact reals.
- Empty survey cells (pandas NaN rows) are the `Missing` choice in `GraphConstruction`. Malformed cells of other types are not modelled.
- `Popularity.Tally`: an empty (NaN) choice cell is not expressible; its cells are integers. In the source such a cell makes `num_connections[value - 1]` index with a float and raise IndexError, so a sheet with an empty choice fails there.
- `Popularity.Tally`: numpy's fixed-width integer overflow is not modelled. Counts are unbounded integers.
- `Popularity.PopularitySummary`: the save-to-file branch and the `results` table are left out. The table is only written to Excel.
- Closeness centrality, percentiles, layout, drawing, and the slide and Word document output are left out. They are numeric library calls or rendering.
- The Girvan–Newman and Louvain community options are not part of this model.
- `RelationalFeatures.Features`: a node absent from the previous round gets that round's in-degree 0 and formed and lost sets computed as for a node without edges. In the source, `in_degree(node)` at `Sociogram/private_slides.py:77` and `in_edges(node)` at line 82 are asked about a node the earlier graph lacks, and the graph library then raises an error instead of answering 0. That error path is not modelled.
- `Pipeline.SocioAndSagabz.CreateIndividualExcel`: the real dictionary value is the classification read back from the cadet's sheet. The model stores the title of the file it was run on. Reading spreadsheets is I/O.
- `Pipeline.FileTitle`: `os.path.join` is modelled as joining with "/", and Excel writing is recorded as the list of exported titles.
- Calls to the language model, translation and the remote classification service are left out. The keyword classifier takes their text as an input.
- `Classification.Lower` lower-cases ASCII letters only. Python's `str.lower` covers all of Unicode. The keywords are ASCII.
- `Classification.SmartWait.Next` returns whether to sleep; `time.sleep` itself is an effect and is left out.
- `Classification.ClassificationModel.SetClassifications` addresses a cell by the (column, row) pair, not by the "K7" address string.
- `TextHelpers.MyHash` and `TextHelpers.Dehash` work on code points, not Dafny chars, because Python strings may hold surrogates and Dafny chars may not.
- `MatrixSymmetry.SymmetrizeMatrix` requires a square matrix, because numpy raises on a non-square one. That error path is not modelled.
- Reading and writing Excel, Word and text files, concurrency and the command-line entry points are left out.

## Findings

| source | as written | input that shows it | evidently intended | confidence | as-written member | corrected member |
|---|---|---|---|---|---|---|
| Sociogram/popularity.py:66-67 | the "more connections" line prints the last count | counts 1 then 7: the line says "has 7 more connections" | print the rise, 6, as the "less" line on line 69 prints the fall | not executed | Popularity.MoreLineAsWrittenWrong | Popularity.NotesRules |
