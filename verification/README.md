# OpenFst: transformations of weighted transducers

This project models the core of OpenFst, a library for weighted finite-state transducers, and proves what its
transformations of whole automata and its delayed-evaluation machinery promise. A transducer is a sequence of states,
each with a final weight and a sequence of arcs; a path is the sequence of the positions of its arcs, so that two arcs
with the same labels are two paths. Weights are values of any semiring: a semiring is a record of its two operations,
and each theorem names the laws it needs.

| File | What it models |
|---|---|
| `Semiring.dfy`, `Sequences.dfy`, `Fst.dfy`, `Weights.dfy` | weights, transducers, paths |
| `ComposeFilter.dfy`, `Compose.dfy`, `ComposeFst.dfy`, `ComposedFst.dfy` | composition with the sequence, alt-sequence and match filters |
| `Determinize.dfy`, `DeterminizeFsa.dfy`, `DeterminizeRun.dfy`, `DeterminizeClosed.dfy`, `DeterminizeDistance.dfy` | weighted determinization and the distances it pushes |
| `Graph.dfy`, `CcVisitors.dfy`, `SccInvariants.dfy`, `SccComponents.dfy`, `SccFlags.dfy`, `DfsVisit.dfy` | depth-first visit and strongly connected components |
| `VectorFst.dfy`, `Connect.dfy`, `Condense.dfy` | trimming and condensation |
| `UnionFind.dfy`, `Equivalent.dfy` | equivalence of deterministic acceptors |
| `Disambiguate.dfy`, `Disambiguator.dfy`, `Predisambiguate.dfy`, `SplitExample.dfy` | removal of ambiguous paths |
| `FactorWeight.dfy`, `FactorWeightFst.dfy` | weight factoring |
| `CacheStore.dfy`, `CacheImpl.dfy` | cached states, their collection and enumeration |
| `EditFst.dfy`, `EditReplay.dfy`, `Accumulator.dfy`, `Complement.dfy` | edit overlay, prefix sums, complement |

Code that works step by step is a class with methods or a method with a loop, proved against a specification; what the
specification means is proved as lemmas about paths, strings or runs. Maps whose iteration order the library leaves open
are iterated in any order.

`dafny verify dfyconfig.toml` checks everything.

## Main results

- Composition: `ComposedFsts.ExactlyOnePath`, `ComposedFsts.ComposesWeighsProduct` — in the composed transducer each
  matching pair of paths is composed along exactly one path, for all three filters, with the product of the weights.
- Determinization: `DeterminizeFsas.DetPathUnique`, `DeterminizeFsas.DeterminizePreservesWeight` — at most one path for a
  string, and it weighs the sum over all input paths; `DeterminizeRuns.ExpandedStatesAreRight` and
  `DeterminizeRuns.FunctionalStatesAreRight` for the input this applies to; `DeterminizeDistances.OutDistIsSumOfFutures`
  for the distances; `DeterminizeClosed.DeterminizeAll` for deterministic input; `Determinize.MergesSafelyIff` and
  `Weights.ForksKeptIffRightSums` for the weights it is right for.
- Depth-first visit: `DfsVisits.DfsVisit` — equal component numbers iff mutually reachable, exact access, coaccess and
  cyclicity bits, and a nested trace; with it `Connects.TrimmedKeepsPaths`, `Condenses.CondensedReach` and
  `Condenses.CondensedFinalIsSum`.
- Equivalence: `Equivalents.UnweightedEquivalent` — terminates and decides equality of the accepted languages.
- Disambiguation: `Predisambiguates.DisambiguatePrepared` — a predisambiguated transducer is disambiguated without an
  error, and the result accepts exactly the strings of the original input, each along one path.
  `Disambiguators.Disambiguator.Disambiguate` has each part for more input: unless an error is reported, the result is
  unambiguous if arcs with one label lead to different heads, split states or not; and exactly when an error is reported.
- Factoring: `FactorWeights.FactoringKeepsPaths`, `FactorWeights.StringsFullyFactored` — a bijection of accepting paths that
  keeps weights, with nothing left to factor.
- Caching: `CacheStores.RunAll`, `CacheImpls.Enumerate` — over every run a stored state has exactly what was written to it
  since it was made, no state in use is evicted or made anew, and the size is within the limit; enumeration is complete.
- Edits: `EditReplays.Replay` — any sequence of operations on an overlay and its copies equals the plain one.
- Prefix sums: `Accumulators.FastLogAccumulator.Sum`, `Accumulators.CacheLogAccumulator.LowerBound`.
- Complement: `Complements.ComplementIffNoZeroArc`.

## Where the code does less than it says

- Determinization checks only that weights form a left semiring (determinize.h:582). Merging duplicate subset elements
  also uses distributivity from the right (`kRightSemiring`, weight.h:134): in a left semiring merging is safe iff that
  holds (`Determinize.MergesSafelyIff`), and determinizing two arcs with one label keeps all sums only
  then (`Weights.ForksKeptIffRightSums`).
  With it, determinization is right wherever the next point does not apply (`DeterminizeRuns.ExpandedStatesAreRight`,
  `DeterminizeFsas.DeterminizePreservesWeight`). `Weights.LeftSemiringIsNotEnough` is an acceptor over left strings, run
  through `Weights.DeterminizeFork`, that comes out with another weight. Without the law, weights are still preserved for
  functional input (`DeterminizeRuns.FunctionalStatesAreRight`, `Weights.FunctionalIsDeterminized`).
- Nothing keeps a list of destinations with only Zero weights from being normalised, and division by its divisor then has
  no result (float-weight.h:360-363, `Weights.TropicalDivisorIsZeroIff`). That happens iff the input reads some string
  through arcs of weight Zero only (`DeterminizeRuns.NoZeroListsIff`), as `Weights.ZeroListExample` does. The methods of
  the model accept such input; the preservation theorems exclude it.
- The complement assumes an unweighted acceptor, and an arc of weight Zero counts as unweighted (test-properties.h:136).
  `Complements.ZeroArcExample` is an acceptor for which complement and input reject the same string;
  `Complements.ComplementIffNoZeroArc` says exactly when the complement is right.
- `EditFstData::AddStates` reuses one external id; `EditFsts.EditFstData.AddStates` shows that it works iff at most one
  state is added. `SetStart` with no state falls back to the wrapped start; `EditFsts.EditFstData.SetStart` says when
  it does what a plain copy does.
- The comment on deleting n arcs (edit-fst.h:213) says that the first n stay; the code deletes the last n, and so does
  the model. The two agree iff there are no arcs or exactly 2n (`EditFsts.DropEndKeepsFirstIff`); with three arcs and
  n = 1 they do not (`EditFsts.DropEndExample`).
- Disambiguation repeats the search for ambiguities once after it has merged split states, and takes it for impossible that
  states are left to be merged (disambiguate.h:558). `SplitExamples.MergingLeavesSplit` is a transducer of the shape that
  the label maps give on which that happens: states 3 and 4 are merged, but their arcs, to states of one head, were not
  looked at, so those states are not. An error is reported exactly when merging leaves coreachable states with one head
  (`Disambiguators.Disambiguator.Disambiguate`).

## Model

| member | source | states |
|---|---|---|
| ComposeFilters.ComposeFilter.SetState | openfst/lib/compose-filter.h:243-253 | After setting, the cached epsilon flags describe the states set (`Valid` compares them with a definition without counting), also when the early return is taken; the same object models the alt-sequence and match filters |
| ComposeFilters.ComposeFilter.FilterArcs | openfst/lib/compose-filter.h:255-265 | The filter's answer depends only on the current states and filter state, not on what was set before |
| ComposeFilters.NumOutputEpsilons | openfst/lib/compose-filter.h:247-251 | The count is 0 iff no arc is an output epsilon and the number of arcs iff all are, which is what `alleps` and `noeps` test |
| ComposeFilters.NumInputEpsilons | openfst/lib/compose-filter.h:327-331 | The same for input epsilons |
| Compose.FirstMoveAllowed | openfst/lib/compose-filter.h:243-265 | In an open pair with something left to read, the first move of the interleaving is offered and let through, whatever the pruning flags |
| Compose.OnlyFirstMove | openfst/lib/compose-filter.h:404-441 | Whatever move the filter lets through into an open pair is the first move of the interleaving of the pair: no other order survives |
| Compose.WaitsOnlyToGoOn | openfst/lib/compose-filter.h:255-265 | A move after which the waiting side may not take its epsilons is let through iff that side is final or has an arc that is none, and the epsilons are then forbidden iff there are any; for the alt-sequence and match filters likewise |
| Compose.InterleaveComposes | openfst/lib/compose-filter.h:255-265 | Every matching pair of accepting paths is composed along its interleaving, so pruning loses none |
| Compose.ComposedIsInterleave | openfst/lib/compose-filter.h:335-345 | Every accepting composed path is the interleaving of the matching pair it projects to |
| Compose.ExactlyOneComposedPath | openfst/lib/compose-filter.h:369-441 | For the sequence, alt-sequence and match filters and all pairs of transducers: an accepting composed path projects to (p1, p2) iff the two match and it is their interleaving, so there is exactly one for a matching pair and none otherwise |
| Compose.ComposedWeightIsProduct | openfst/lib/compose.h:395-426 | In any commutative semiring the composed path weighs the product of the weights of its two paths, final weights included |
| Compose.ComposedLabelsAgree | openfst/lib/compose.h:395-401 | With epsilons erased, the composed path reads what FST1's path reads and writes what FST2's path writes |
| ComposeFsts.Find | openfst/lib/compose.h:377-379 | What a matcher enumerates: the implicit loop for label 0, only explicit epsilons for NO_LABEL, exact matches otherwise, each once |
| ComposeFsts.ComposeFst.FindState | openfst/lib/compose.h:395-401 | Equal tuples get one number, new tuples a new one, and known states keep theirs |
| ComposeFsts.ComposeFst.ComputeStart | openfst/lib/compose.h:403-411 | There is no start iff one input has none; otherwise it is the pair of starts with filter state 0 |
| ComposeFsts.ComposeFst.AddArc | openfst/lib/compose.h:395-401 | One arc is added iff the filter lets the offered move through, with FST1's input label, FST2's output label and the product of weights |
| ComposeFsts.ComposeFst.MatchArc | openfst/lib/compose.h:377-393 | The arcs added for one iterated arc are exactly the allowed moves with that arc, each once |
| ComposeFsts.ComposeFst.Expand | openfst/lib/compose.h:304-314 | Whichever side is matched on, expanding yields one arc for each allowed move of the tuple and no other |
| ComposedFsts.ComposeAll | openfst/lib/compose.h:1007-1058 | Expanding every state, those numbered on the way included, with any choice of the side to match on, ends, and gives a transducer whose arcs are exactly the allowed moves of each tuple, each once |
| ComposedFsts.ExactlyOnePath | openfst/lib/compose-filter.h:369-441 | In that transducer a pair of accepting paths of the two inputs is composed along exactly one accepting path if their labels match, and along none if not; weights without zero divisors, so that no product of final weights is Zero |
| ComposedFsts.ComposesWeighsProduct | openfst/lib/compose.h:395-426 | That path weighs the product of the weights of the two, reads what the first reads and writes what the second writes |
| Determinize.SortKeepsValue | openfst/lib/determinize.h:700 | Sorting keeps the elements of any subset, and what it is worth under every valuation of its states |
| Determinize.MergeKeepsValue | openfst/lib/determinize.h:702-717 | Merging two elements of one state keeps the value under every valuation if Times distributes from the right, or if the two are equal and sums are idempotent |
| Determinize.MergesSafelyIff | openfst/lib/determinize.h:702-717 | In a left semiring, merging keeps the value of all subsets iff Times distributes over Plus from the right |
| Determinize.MergeDuplicates | openfst/lib/determinize.h:701-717 | For any sorted subset and any weights the loop computes the merged subset and the folded divisor that `MergeFoldKeeps` is about |
| Determinize.MergeFoldKeeps | openfst/lib/determinize.h:701-717 | After the scan each state occurs once, the value of the subset is unchanged, and the folded divisor divides every weight, also those that went into a merged one |
| Determinize.NormArc | openfst/lib/determinize.h:698-725 | For any list gathered, Zero weights included, the arc computed is `NormArcOf`, the function the next two rows are about |
| Determinize.NormArcKeepsValue | openfst/lib/determinize.h:698-725 | If duplicates can be merged and some gathered weight is not Zero, the arc weight is not Zero and times the destination subset is worth the gathered list |
| Determinize.NormArcShape | openfst/lib/determinize.h:698-725 | Whatever the weights, the destination subset has each state once, in order |
| Determinize.GatherValue | openfst/lib/determinize.h:678-695 | The value of a subset on a string is the value of the subset gathered for the first label on the rest of the string |
| Determinize.PathsFromExact | openfst/lib/determinize.h:664-672 | The listed paths are exactly the input paths that read the string, each once |
| Determinize.ValuesSumPaths | openfst/lib/determinize.h:664-672 | The recursive value of a string is the sum of the weights of all input paths that read it |
| DeterminizeFsas.DetPathUnique | openfst/lib/determinize.h:664-672 | No two output paths read the same string: every state has at most one arc for each label |
| DeterminizeFsas.DetPathWeightIsSum | openfst/lib/determinize.h:698-725 | From any state, the weight of an output path is the sum over the subset of residual times the weights of all input paths reading its string |
| DeterminizeFsas.NoDetPathIsZero | openfst/lib/determinize.h:678-695 | If the run on a string stops at an expanded state, the sum over all input paths that read the string is Zero |
| DeterminizeFsas.DeterminizePreservesWeight | openfst/lib/determinize.h:617-736 | The path of a determinized automaton that reads a string from the start weighs exactly the sum of the weights of all input paths that read it |
| DeterminizeFsas.ExpandedIsDeterminized | openfst/lib/determinize.h:664-725 | What the code caches, for any weights, is a determinized automaton if every gathered list can be merged and has a weight that is not Zero |
| DeterminizeRuns.ExpandedStatesAreRight | openfst/lib/determinize.h:617-736 | Whatever calls were made, over weights with both distributive laws in which only Zeros sum and multiply to Zero, and for input in which each string that is read is read without an arc of weight Zero: the theorems on paths and distances apply to the states expanded so far |
| DeterminizeRuns.FunctionalStatesAreRight | openfst/lib/determinize.h:390-391 | The same without distributivity from the right, for weights that are idempotent and can be cancelled, if paths of the input with one string into one state have one weight |
| DeterminizeRuns.FunctionalByState | openfst/lib/determinize.h:390-391 | That holds for functional input from all of whose states some path goes on with a weight that is not Zero |
| DeterminizeRuns.AlongStates | openfst/lib/determinize.h:678-725 | The subset a string leads to has exactly the states that paths reading the string end in |
| DeterminizeRuns.AlongZero | openfst/lib/determinize.h:698-725 | A residual is not Zero iff some path reads the string to its state without an arc of weight Zero |
| DeterminizeRuns.AlongWeighs | openfst/lib/determinize.h:698-725 | For such input, the arc weights along a string times a residual are the weight of a path that reads the string to the state |
| DeterminizeRuns.NoZeroListsIff | openfst/lib/determinize.h:719-724 | No gathered list has only Zero weights, which could not be divided, iff each string that the input reads is read without an arc of weight Zero |
| DeterminizeRuns.NonZeroArcsZeroFree | openfst/lib/determinize.h:678-695 | Input without arcs of weight Zero is of that kind |
| DeterminizeClosed.DeterministicAlong | openfst/lib/determinize.h:698-725 | With divisors that divide a single weight to One: in deterministic input without arcs of weight Zero a string leads to one state with residual One, or nowhere |
| DeterminizeClosed.SinglesOnly | openfst/lib/determinize.h:640-646 | So all numbered subsets are single input states with residual One, and there are at most as many as input states |
| DeterminizeClosed.SameArcs | openfst/lib/determinize.h:664-725 | Each arc of such a state has the labels and the weight of an arc of its input state and leads to the same destination |
| DeterminizeClosed.DeterminizeAll | openfst/lib/determinize.h:617-725 | Expanding all states that are numbered on the way ends, with at most as many states as the input |
| DeterminizeDistances.FuturesSumPaths | openfst/lib/determinize.h:649-660 | `Futures` is the sum of the weights of all paths onwards of at most n arcs: the list of them is exact and without repetition |
| DeterminizeDistances.DetFutures | openfst/lib/determinize.h:649-660 | For every n and every state expanded to depth n: the value of its subset under the futures of the input of at most n arcs is the sum over the futures of at most n arcs of the determinized state |
| DeterminizeDistances.OutDistIsSumOfFutures | openfst/lib/determinize.h:640-660 | For input and weights of either kind: if in_dist is the sum over all accepting futures of each input state, reached from some number of arcs on, the out_dist pushed for a fully expanded state is the sum over all accepting futures of that state |
| DeterminizeDistances.DetDistances | openfst/lib/determinize.h:649-660 | For input distances that solve the distance equations, however obtained, the distances pushed solve those of the determinized automaton |
| DeterminizeFsas.DeterminizeFsa.SumOver | openfst/lib/determinize.h:651-660 | The loop computes the value of the subset under the given distances |
| DeterminizeFsas.DeterminizeFsa.FindState | openfst/lib/determinize.h:640-646 | Equal subsets get one number; the output distance of every state in the table is the value of its subset under the input distances, Zero for states they do not reach |
| DeterminizeFsas.DeterminizeFsa.ComputeStart | openfst/lib/determinize.h:617-624 | No start iff the input has none; otherwise the start subset is the input start with residual One |
| DeterminizeFsas.DeterminizeFsa.ComputeFinal | openfst/lib/determinize.h:626-638 | The final weight is the value of the subset on the empty string |
| DeterminizeFsas.DeterminizeFsa.GetLabelMap | openfst/lib/determinize.h:678-695 | For any input, Zero weights included: one proto-arc for each label that leaves the subset, formed from all that is gathered for it |
| DeterminizeFsas.DeterminizeFsa.Expand | openfst/lib/determinize.h:664-672 | For any input, Zero weights included: the state gets exactly one arc for each label that leaves its subset, in label order, with the weight and destination formed from the gathered list; no other state changes |
| Weights.TropicalIsDivisible | openfst/lib/determinize.h:71-78 | Tropical weights with the sum as common divisor meet all laws that determinization and composition ask of their weights; `TropicalNormalizes` and `TropicalResidualIsOne` say which divisor it is |
| Weights.TropicalNormalizes | openfst/lib/determinize.h:71-78 | The divisor of a single tropical weight is the weight, and leaves One |
| Weights.TropicalResidualIsOne | openfst/lib/determinize.h:698-725 | If some gathered weight is not Zero, some residual of the destination is One: the divisor is the least of the weights, and nothing more can be divided out |
| Weights.TropicalSumIsLeast | openfst/lib/float-weight.h:305-310 | The sum over a list of paths is the least of their weights |
| Weights.TropicalDivisorIsZeroIff | openfst/lib/float-weight.h:360-363 | The divisor of a gathered list is Zero, so that the division has no result, iff all of its weights are Zero |
| Weights.ZeroListExample | openfst/lib/determinize.h:719-724 | In the acceptor of one arc of weight Zero the list gathered for its label has the divisor Zero |
| Weights.StringsAreLeftSemiring | openfst/lib/string-weight.h:379-445 | Left string weights, with longest common prefix and concatenation, form a left semiring |
| Weights.LabelCommonDivisorDivides | openfst/lib/determinize.h:85-110 | The label common divisor divides both arguments from the left and has at most one letter |
| Weights.LabelCommonDivisorGreatest | openfst/lib/determinize.h:85-110 | Every common left factor of at most one letter is a left factor of the label common divisor |
| Weights.StringsAreLeftDivisible | openfst/lib/string-weight.h:447-463 | Left strings with this divisor and left division allow exact division, and their sum is idempotent |
| Weights.StringArcKeepsValue | openfst/lib/determinize.h:698-725 | For left strings, where duplicates of a state have equal strings, an arc keeps the value of its list and has at most one letter |
| Weights.FunctionalIsDeterminized | openfst/lib/determinize.h:390-391 | For left strings, and input whose accepting paths with one label string have one output string, from all of whose states some path goes on with a weight that is not Zero, and whose strings are each read without an arc of weight Zero: whatever calls were made, the states expanded so far are those of a determinized automaton, so that weights are preserved |
| Weights.ForksKeptIffRightSums | openfst/lib/weight.h:133-138 | For all weights with a common divisor: the determinized acceptor of two arcs with one label gives the string the sum over its paths, for all weights that are not both Zero, iff Times distributes over Plus from the right |
| Weights.DeterminizeFork | openfst/lib/determinize.h:617-725 | Running the class on such an acceptor and following the string gives the weight the previous row is about |
| Weights.LeftSemiringIsNotEnough | openfst/lib/determinize.h:582-588 | Over left strings, which pass the library's check: with "1" and "1 2" on the arcs and "2 3" at the end, the determinized acceptor gives "1 2 3" where the input gives "1 2" |
| CcVisitors.SccVisitor.FinishState | openfst/lib/cc-visitors.h:234-261 | The two do-while loops number and pop exactly the states above the root and pass lowlink and coaccess to the parent |
| SccComponents.FinishComponents | openfst/lib/cc-visitors.h:234-261 | Popping at a state whose lowlink is its own number removes exactly one strongly connected component |
| SccComponents.FinishNumbersUsed | openfst/lib/cc-visitors.h:254-255 | Every component number given out so far has a member |
| SccComponents.FinishLowBound | openfst/lib/cc-visitors.h:256-259 | Passing the lowlink to the parent keeps every frame's lowlink no larger than the oldest stack state its finished part leads to |
| SccFlags.FinishCoaccessed | openfst/lib/cc-visitors.h:235-260 | Finishing keeps coaccess sound for all states and complete for numbered ones |
| DfsVisits.PushInvariant | openfst/lib/dfs-visit.h:137-141 | Discovering a state keeps the whole visit invariant |
| DfsVisits.AdvanceInvariant | openfst/lib/dfs-visit.h:183-192 | Passing over a back, forward or cross arc keeps the whole visit invariant |
| DfsVisits.FinishInvariant | openfst/lib/dfs-visit.h:149-164 | Finishing a state keeps the whole visit invariant |
| DfsVisits.VisitResult | openfst/lib/cc-visitors.h:134-261 | When no state is white, the result holds: each number used, equal numbers iff mutually reachable, arcs to equal or larger numbers, access iff reachable, coaccess iff a final state is reached, and the cyclic, initial-cyclic, accessible and coaccessible bits exactly |
| DfsVisits.Step | openfst/lib/dfs-visit.h:142-193 | One turn of the inner loop keeps the invariant and the nesting, and makes progress |
| DfsVisits.VisitTree | openfst/lib/dfs-visit.h:138-194 | The inner loop ends with an empty stack, whatever the tree |
| DfsVisits.DfsVisit | openfst/lib/dfs-visit.h:111-211 | The visit terminates with the full result, in which every component number has a member, and a complete, nested trace |
| Connects.OnAcceptingPathIff | openfst/lib/connect.h:52-58 | A state is on an accepting path iff it is reachable from the start and reaches a final state |
| Connects.AcceptingStaysUseful | openfst/lib/connect.h:52-58 | An accepting path passes only states on accepting paths |
| Connects.ShiftKeepsPath | openfst/lib/connect.h:59 | A path through kept states is there after the deletion, with the same labels, weight and acceptance |
| Connects.ShiftInjective | openfst/lib/connect.h:59 | Different kept paths stay different |
| Connects.ShiftOnto | openfst/lib/connect.h:59 | Every path after the deletion was there before |
| Connects.TrimmedKeepsPaths | openfst/lib/connect.h:46-60 | Trimming is a bijection of accepting paths that keeps labels and weights |
| Connects.Connect | openfst/lib/connect.h:46-60 | The states deleted are exactly those on no accepting path; without a start state nothing is deleted |
| VectorFsts.VectorFst.DeleteStates | openfst/lib/vector-fst.h:263-299 | The kept states are renumbered in order, arcs into deleted states go, the others are led to the new numbers |
| VectorFsts.KeptArcAt | openfst/lib/vector-fst.h:280-293 | Where a kept arc ends up, and that only its destination number changes |
| Condenses.CondensedFrom | openfst/lib/connect.h:86-95 | Every condensed arc comes from an arc between two components |
| Condenses.CondensedAt | openfst/lib/connect.h:86-95 | Every arc between two components is kept, with label and weight |
| Condenses.CondensedFinalIsSum | openfst/lib/connect.h:84-86 | The final weight of a condensed state is the sum of the final weights of the members of its component, each once, in whatever order they are listed |
| Condenses.CondensedArcsOnce | openfst/lib/connect.h:87-95 | The arcs of a condensed state are the arcs that leave its component, each exactly once |
| Condenses.CondensedIsAcyclic | openfst/lib/connect.h:63-98 | The condensed transducer has no cycle |
| Condenses.CondensedReach | openfst/lib/connect.h:63-98 | One state reaches another in the input iff its component reaches the other's in the condensed transducer |
| Condenses.EnterState | openfst/lib/connect.h:79-96 | Entering a state adds its final weight to its component and exactly the arcs that leave the component |
| Condenses.Condense | openfst/lib/connect.h:66-98 | The output is the condensation by components that are the classes of mutual reachability, and each of its states is the component of some input state; empty without a start state |
| UnionFinds.Compress | openfst/lib/union-find.h:48-53 | Hanging a state under its root changes no representative |
| UnionFinds.UnionFind.FindSet | openfst/lib/union-find.h:40-54 | The representative or the failure value; path compression changes no set |
| UnionFinds.UnionFind.MakeSet | openfst/lib/union-find.h:61-70 | A new singleton; no other set changes, also when the vectors grow |
| UnionFinds.UnionFind.Union | openfst/lib/union-find.h:57 | The two classes become one and no other class changes |
| UnionFinds.UnionFind.Link | openfst/lib/union-find.h:84-93 | Linking by rank keeps the forest well-founded |
| Equivalents.MapState | openfst/lib/equivalent.h:70-78 | States map to numbers of their side's parity that unmap to them; only the missing state maps to the dead one |
| Equivalents.AcceptsDelta | openfst/lib/equivalent.h:137-160 | In a deterministic acceptor a string is accepted iff its rest is accepted where the first label leads, the dead state closing missing and Zero-weight arcs |
| Equivalents.RunAccepts | openfst/lib/equivalent.h:82-85 | A string is accepted iff its run ends in a final state |
| Equivalents.MergeGenerated | openfst/lib/equivalent.h:133-134 | After a merge the classes are those generated by the merged pairs: what all pairs agree on, every class agrees on |
| Equivalents.MergedPairsAgree | openfst/lib/equivalent.h:128-172 | With an empty queue all merged pairs agree on every string |
| Equivalents.AllHandledIsEquivalent | openfst/lib/equivalent.h:128-178 | An empty queue proves the acceptors equivalent |
| Equivalents.DistinguishedIsNotEquivalent | openfst/lib/equivalent.h:163-168 | A reached pair that differs in finality proves them different |
| Equivalents.CopyArcs | openfst/lib/equivalent.h:137-160 | The table holds on its side exactly where each label leads along arcs that are not Zero |
| Equivalents.PushPairs | openfst/lib/equivalent.h:161-171 | All pairs of the table are queued, or one that differs in finality is found |
| Equivalents.FindSet | openfst/lib/equivalent.h:88-96 | The representative, after making a set if there was none; no other set changes |
| Equivalents.Round | openfst/lib/equivalent.h:128-172 | A round keeps the invariant and makes the number of classes, or else the queue, smaller |
| Equivalents.UnweightedEquivalent | openfst/lib/equivalent.h:102-178 | Terminates, and returns true iff the two acceptors accept the same strings |
| Disambiguators.InitLabelMap | openfst/lib/disambiguate.h:190-206 | From sorted arcs each pair of label and destination is entered exactly once |
| Disambiguators.EntriesMakeHeadsApart | openfst/lib/disambiguate.h:190-206 | Arcs that come each from an entry of its own, into a state with the entry's head, lead to different heads if they have one label |
| Disambiguators.ArcsOfHead | openfst/lib/determinize.h:664-672 | The arcs made from the label map of a head, one for each entry: each label and destination of the head once, and arcs with one label into different heads |
| Disambiguate.CoreachableFound | openfst/lib/disambiguate.h:503-517 | Common paths from a found pair end in a found pair |
| Disambiguate.CandidatesFound | openfst/lib/disambiguate.h:476-522 | Every candidate is recorded: coreachable states with transitions that go on alike, larger head first |
| Disambiguate.SurvivorsPassSameStates | openfst/lib/disambiguate.h:525-535 | Two surviving paths with the same labels pass the same states |
| Disambiguate.UniqueIffNoMultiArc | openfst/lib/disambiguate.h:460-535 | Marking leaves one path for each label string iff no surviving path passes a state with a second unmarked arc with the same label and destination |
| Disambiguate.KernelIsUnique | openfst/lib/disambiguate.h:525-535 | Because the heads of candidates fall, the marks are one set, defined by the transducer and the heads alone |
| Disambiguate.UnmarkedPartner | openfst/lib/disambiguate.h:525-535 | If the state of every candidate's partner has a like wherever the candidate's is reached: of the transitions that go on alike where a string leads to, one is not marked |
| Disambiguate.StringSurvives | openfst/lib/disambiguate.h:525-584 | Then every accepted string keeps an accepting path without marked transitions |
| Disambiguate.AcceptingIffSurvives | openfst/lib/disambiguate.h:566-581 | After the redirection the accepting paths are exactly the surviving ones, labels and weights unchanged |
| Disambiguate.TrimmedUnambiguous | openfst/lib/disambiguate.h:582 | Trimming neither adds nor removes ambiguity |
| Disambiguators.Disambiguator.InsertCandidate | openfst/lib/disambiguate.h:324-328 | The candidate goes behind all keys that are not after it in the order of the arc ids; nothing else changes |
| Disambiguators.Disambiguator.FindAmbiguousPairs | openfst/lib/disambiguate.h:476-522 | Every pair of transitions of the two states has been looked at, also with the swapped second pass |
| Disambiguators.Disambiguator.FindAmbiguities | openfst/lib/disambiguate.h:460-473 | Terminates; states are to be merged iff two coreachable states have the same head, and then the classes are joined by exactly the split pairs the search gets to; otherwise the coreachable pairs are closed and all candidates recorded |
| Disambiguators.Disambiguator.Mark | openfst/lib/disambiguate.h:525-535 | A transition is marked iff some recorded partner is not |
| Disambiguators.UnionMergesHeads | openfst/lib/disambiguate.h:503-513 | Only states with the same head are ever merged |
| Disambiguators.MergedHeadsApart | openfst/lib/disambiguate.h:538-552 | Merging split states leaves arcs with one label leading to different heads |
| UnionFinds.MergedJoins | openfst/lib/disambiguate.h:503-513 | Merging the classes of a pair keeps the classes the finest in which all pairs so far are together |
| Disambiguators.Disambiguator.RemoveSplits | openfst/lib/disambiguate.h:538-563 | Every arc is led to the representative of its destination, with classes joined by exactly the split pairs found; the search is repeated, and an error is set iff coreachable states with the same head are left |
| Disambiguators.Disambiguator.RemoveAmbiguities | openfst/lib/disambiguate.h:566-584 | The marked arcs lead into a new dead state, the marked final weights are gone, and the result is trimmed |
| Disambiguators.RemovedUnambiguous | openfst/lib/disambiguate.h:460-584 | The chain of the steps: the result is unambiguous iff no surviving path passes a multiple arc, in particular if there is none |
| Disambiguators.Disambiguator.Disambiguate | openfst/lib/disambiguate.h:222-236 | The steps after the predisambiguation, for any input: unless an error is reported, the result is unambiguous if arcs with one label lead to different heads, split states or not, and in general iff no path that avoids the kernel passes a multiple arc; without split states nothing is merged; an error iff merging leaves some; the result has exactly the accepting paths that take no transition of the kernel of transducer and heads; under the condition of `UnmarkedPartner` it accepts the same strings |
| Predisambiguates.SetsAre | openfst/lib/disambiguate.h:169-188 | In a predisambiguated transducer, the set of a state holds exactly the states that the string leading to it leads to and that have a common future with the head |
| Predisambiguates.PreparedIsSplitFree | openfst/lib/disambiguate.h:500-512 | No two states that one string leads to have the same head |
| Predisambiguates.PreparedHeadsFollow | openfst/lib/disambiguate.h:375-378 | Wherever the state of a candidate is reached, a state with the head of its partner's is reached and goes on alike |
| Predisambiguates.PreparedStrings | openfst/lib/disambiguate.h:343-345 | The predisambiguated transducer accepts the strings of its input |
| Predisambiguates.DisambiguatePrepared | openfst/lib/disambiguate.h:588-592 | Disambiguation of a predisambiguated transducer reports no error, and its result accepts exactly the strings of the original input, each along one path |
| SplitExamples.MergingLeavesSplit | openfst/lib/disambiguate.h:557-562 | The error, which the code takes for unreachable, is reported on a transducer whose arcs with one label lead to different heads, whichever of two merged states stands for both |
| FactorWeights.OutArcValid | openfst/lib/factor-weight.h:372-412 | Residuals stay regular and tail residuals are never Zero |
| FactorWeights.Tail | openfst/lib/factor-weight.h:394-411 | The factored end of a path terminates because the residual gets shorter |
| FactorWeights.FactorPathCarries | openfst/lib/factor-weight.h:372-412 | An accepting path is factored into an accepting one whose weight is residual times the weight of the path |
| FactorWeights.FactorPathLabels | openfst/lib/factor-weight.h:372-412 | The factored path has the same labels, followed by those of the tail arcs |
| FactorWeights.FactorPathInjective | openfst/lib/factor-weight.h:372-412 | Different paths are factored differently |
| FactorWeights.FactorPathOnto | openfst/lib/factor-weight.h:372-412 | Every accepting factored path comes from an accepting input path |
| FactorWeights.FactoringKeepsPaths | openfst/lib/factor-weight.h:291-412 | From the start, factoring is a bijection of accepting paths that keeps weights and labels up to the tail |
| FactorWeights.FullyFactored | openfst/lib/factor-weight.h:372-412 | With both modes on, no arc weight and no final weight is left to factor: for strings at most one label each |
| FactorWeights.StringFactorIsSingle | openfst/lib/factor-weight.h:139-163 | First letter and rest multiply to the string, the first part is done and the rest is shorter |
| FactorWeights.StringsFullyFactored | openfst/lib/factor-weight.h:139-163 | Over left strings, with both modes on, no arc weight and no final weight has more than one letter |
| FactorWeights.FirstLetterCut | openfst/lib/factor-weight.h:145-156 | Of a longer string the arc keeps the first letter, and the rest is the residual |
| FactorWeights.GallicFactorIsSingle | openfst/lib/factor-weight.h:165-190 | The same for strings with a weight, over any weights with an annihilating Zero |
| FactorWeights.GallicFullyFactored | openfst/lib/factor-weight.h:165-190 | The same for the strings of Gallic weights |
| FactorWeights.ArcsUnfactored | openfst/lib/factor-weight.h:379-384 | Without the arc mode an element of residual One keeps its arcs as they are, and so do their destinations |
| FactorWeights.FinalsUnfactored | openfst/lib/factor-weight.h:394-396 | Without the final mode no arc is added and no final weight cut |
| FactorWeightFsts.ElementsDistinct | openfst/lib/factor-weight.h:349-368 | The two tables together number every element once |
| FactorWeightFsts.FactorWeightFst.FindState | openfst/lib/factor-weight.h:349-368 | The number of an element, a new one iff it is unknown |
| FactorWeightFsts.FactorWeightFst.Start | openfst/lib/factor-weight.h:291-298 | The start is the input's with residual One; none iff the input has none |
| FactorWeightFsts.FactorWeightFst.Final | openfst/lib/factor-weight.h:300-314 | The final weight of the element, Zero if it is to be cut |
| FactorWeightFsts.FactorWeightFst.Expand | openfst/lib/factor-weight.h:372-412 | The cached arcs are those of the element, input arc by input arc and then the tail arc, with numbered destinations |
| CacheStores.FirstCacheStore.GetMutableState | openfst/lib/cache.h:588-613 | Looking up any other id gives what it gave before, or nothing if nobody held a reference; a newly given state is empty |
| CacheStores.FirstCacheStore.ReuseFirst | openfst/lib/cache.h:595-609 | The first state is reused iff there is none or nobody refers to it; otherwise the reuse ends and nothing is lost |
| CacheStores.FirstCacheStore.Delete | openfst/lib/cache.h:652-658 | Deletes the state with the current id, also when it is the first one |
| CacheStores.GCCacheStore.Visit | openfst/lib/cache.h:805-819 | A visited state is evicted only if more than the target is cached, nobody refers to it, it is not the current one and, when those are spared, it was not used lately; and it is evicted if all of that holds |
| CacheStores.GCCacheStore.Evict | openfst/lib/cache.h:809-815 | The accounted size stays the total size of the counted states; the guard against underflow never loses a size |
| CacheStores.GCCacheStore.Sweep | openfst/lib/cache.h:804-820 | A sweep changes no contents, evicts no referenced state and none without need; if more than the target is left, every other state is referred to or was spared for its recent use |
| CacheStores.GCCacheStore.GC | openfst/lib/cache.h:793-835 | Afterwards the size is at most the limit; the limit is widened only when every state but the current one is referred to, and nothing is evicted when the target is met already; a state used recently goes only if all others that nobody refers to are gone |
| CacheStores.GCCacheStore.Widen | openfst/lib/cache.h:826-834 | The limit is doubled the least number of times after which the target, doubled as often, is no longer exceeded |
| CacheStores.GCCacheStore.GetMutableState | openfst/lib/cache.h:693-703 | The state asked for is stored with its contents, empty if new; others are as before or evicted without references; the size is within the limit |
| CacheStores.GCCacheStore.AddArc | openfst/lib/cache.h:706-712 | The arc is added to this state only, recorded as written for this id, and the size is within the limit |
| CacheStores.GCCacheStore.SetArcs | openfst/lib/cache.h:716-722 | The arcs of this state are those given, and the size is within the limit |
| CacheStores.GCCacheStore.DeleteArcs | openfst/lib/cache.h:725-730 | The arcs of this state go and their size is given back |
| CacheStores.GCCacheStore.IncrRefCount | openfst/lib/cache.h:1060-1067 | A reference is counted; from then on the state stays stored |
| CacheStores.GCCacheStore.DecrRefCount | openfst/lib/cache.h:1227 | A reference given back: the state was still stored, with the contents it had |
| CacheStores.RunAll | openfst/lib/cache.h:581-834 | After any sequence of lookups, writes, and references taken and given back: a stored state has exactly the contents that the operations since it was last made have given it, it has not been made anew while it was held, every state referred to is stored with the right count, and the size is the total and within the limit |
| CacheStores.HeldKeepsAll | openfst/lib/cache.h:793-835 | A state held since some operation is stored and has kept all that was written to it from there on |
| CacheImpls.CacheBaseImpl.SetExpandedState | openfst/lib/cache.h:1089-1099 | Keeps the index in range and the marks and the least unexpanded id correct |
| CacheImpls.CacheBaseImpl.MinUnexpandedState | openfst/lib/cache.h:1078-1084 | Returns an id that is unexpanded or beyond the largest expanded one |
| CacheImpls.CacheBaseImpl.SetArcs | openfst/lib/cache.h:972-983 | Expansion makes exactly the successors known, again after an eviction |
| CacheImpls.CacheStateIterator.Done | openfst/lib/cache.h:1181-1195 | True only when the ids yielded contain the start and are closed under arcs; false only when the current id is known |
| CacheImpls.ClosedReaches | openfst/lib/cache.h:1160-1165 | A set of ids that contains the start and is closed contains all reachable states |
| CacheImpls.Enumerate | openfst/lib/cache.h:1167-1205 | The iteration ends and yields every reachable state once, whatever was expanded or evicted before and whichever of its expansions go through the cache |
| EditFsts.EditFstData.GetEditableInternalId | openfst/lib/edit-fst.h:282-305 | Copying a state into the edits changes nothing a user can see |
| EditFsts.EditFstData.SetFinal | openfst/lib/edit-fst.h:160-172 | Only that final weight changes in the view; the old one is returned; the two maps keep disjoint keys |
| EditFsts.EditFstData.SetStart | openfst/lib/edit-fst.h:157 | The start is the one set iff it is a state or the wrapped transducer has no start |
| EditFsts.EditFstData.AddStates | openfst/lib/edit-fst.h:182-186 | Adding n states at once leaves the overlay valid iff n is at most 1, because the external id is reused |
| EditFsts.EditFstData.AddArc | openfst/lib/edit-fst.h:191-204 | The arc is appended to that state in the view; the previous last arc is returned |
| EditFsts.EditFstData.DeleteArcs | openfst/lib/edit-fst.h:214-221 | The last n arcs of that state go |
| EditFsts.DropEndKeepsFirstIff | openfst/lib/edit-fst.h:213-216 | What is left is the first n arcs, as the comment has it, iff there are no arcs or exactly twice as many as are deleted |
| EditFsts.EditFstImpl.Copy | openfst/lib/edit-fst.h:424-429 | A copy sees the same and no other copy notices |
| EditFsts.EditFstImpl.MutateCheck | openfst/lib/edit-fst.h:590-595 | Shared edits are copied before a change; all views stay |
| EditFsts.EditFstImpl.SetFinal | openfst/lib/edit-fst.h:487-492 | As on a plain mutable copy; the wrapped transducer and all other copies are unchanged |
| EditFsts.EditFstImpl.AddState | openfst/lib/edit-fst.h:495-499 | As on a plain mutable copy; the wrapped transducer and all other copies are unchanged |
| EditFsts.EditFstImpl.AddArc | openfst/lib/edit-fst.h:509-514 | As on a plain mutable copy; the wrapped transducer and all other copies are unchanged |
| EditFsts.EditFstImpl.DeleteArcs | openfst/lib/edit-fst.h:526-537 | As on a plain mutable copy; the wrapped transducer and all other copies are unchanged |
| EditFsts.EditFstImpl.SetStart | openfst/lib/edit-fst.h:480-484 | As on a plain mutable copy iff a state is set or the wrapped transducer has no start |
| EditReplays.Replay | openfst/lib/edit-fst.h:424-537 | After any sequence of operations on an edited transducer and its copies, and copies of those, each of them equals what the sequence makes of plain transducers that share nothing |
| Accumulators.CeilFloor | openfst/lib/accumulator.h:276-283 | The rounded bounds split the range: the stored part lies inside it, or the range lies inside one period |
| Accumulators.FastLogAccumulator.Sum | openfst/lib/accumulator.h:270-314 | Equals adding all masses from begin to end one by one, for every period; nothing after an initialisation error |
| Accumulators.FastLogAccumulator.Init | openfst/lib/accumulator.h:319-350 | Stores the sums of every full period for exactly the states with enough arcs; fails iff sums are there already or the limit is below the period |
| Accumulators.FastLogAccumulator.SetState | openfst/lib/accumulator.h:257-265 | Finds the stored sums of the state, if there are any |
| Accumulators.CacheLogAccumulator.SetState | openfst/lib/accumulator.h:516-539 | The sums of a state are cached iff caching is on and they were there or the state has enough arcs; all cached sums stay prefix sums of their states, also when some entries are dropped |
| Accumulators.CacheLogAccumulator.GC | openfst/lib/accumulator.h:456-471 | Drops whole entries only; the sums of the others do not change |
| Accumulators.CacheLogAccumulator.Extend | openfst/lib/accumulator.h:645-652 | Extends the sums without changing those there |
| Accumulators.CacheLogAccumulator.Sum | openfst/lib/accumulator.h:544-571 | Equals adding all masses from begin to end one by one |
| Accumulators.CacheLogAccumulator.LowerBound | openfst/lib/accumulator.h:578-598 | The first position from the current one whose accumulated mass is enough, the end if none; by binary search and by scanning alike |
| Accumulators.BinarySearch | openfst/lib/accumulator.h:583-585 | The first index from a position on whose sum is not below the mass |
| Complements.ArcIterator.Value | openfst/lib/complement.h:229-238 | At each position the arc of the completed acceptor: first the rho arc with weight One into the sink, then the input arcs with their labels and weight, to the state numbered one higher |
| Complements.ComplementKeepsKind | openfst/lib/complement.h:229-238 | The complement of an acceptor is an acceptor and that of an unweighted one is unweighted, with final weights One and Zero |
| Complements.ArcIterator.Done | openfst/lib/complement.h:220-226 | Done exactly after the counted arcs |
| Complements.ArcIterator.Seek | openfst/lib/complement.h:253-262 | Seeking keeps the inner iterator one behind |
| Complements.SinkAccepts | openfst/lib/complement.h:229-238 | The sink accepts every string of positive labels |
| Complements.ComplementFrom | openfst/lib/complement.h:82-95 | For epsilon-free deterministic input, the complement accepts a string of positive labels iff the input rejects it and its run takes no arc of weight Zero |
| Complements.ComplementIffNoZeroArc | openfst/lib/complement.h:144-153 | For epsilon-free deterministic input, the complement is right on all strings of positive labels iff no arc of weight Zero can be reached from the start; a start need not exist |
| Complements.ZeroArcExample | openfst/lib/complement.h:82-95 | A one-state acceptor with a Zero-weight loop, which counts as unweighted: it and its complement reject the same string |

## Left out

- Floating point: quantization is the identity, log weights are exact masses, and the share of the cache limit that a collection aims at is an exact fraction.
- `TrivialComposeFilter`, `NullComposeFilter`, `NoMatchComposeFilter`, look-ahead filters and the delayed matcher of a composition.
- Matcher internals: a matcher is what it enumerates for a label, in order; the choice of the side to match on is a parameter.
- TropicalDivide, StringDivide: division by Zero gives a weight here and a non-member in the library; the theorems divide by Zero nowhere.
- Determinization of transducers through Gallic weights, its other filters, subsequential labels and the pruning options.
- The predisambiguation as code: its result is described by `Predisambiguated`, for input without epsilons, and of the code that builds it only the label map and the arcs of a state are modelled; the weights that disambiguation gives to the paths it keeps are not compared with the sums of the input.
- The weighted branch of `Equivalent`, which needs `Push` and encoding; property and symbol-table checks before the unweighted one.
- Factor iterators that yield several pairs, as for general Gallic weights; `OneFactor` on final weights, whose tails do not end.
- DfsVisit: the model visits a transducer whose number of states is known, so the colour vector is not grown; arc filters, visits of accessible states only and visitors that stop early are not modelled.
- SccVisitor: its vectors have the number of states from the beginning instead of growing at discovery.
- Handles to cached states: a handle is modelled as the id it was obtained for, so a handle kept across the reuse of its state is not; counts of epsilons in cached states, copying and clearing of stores, hash-map stores and deleting only some arcs are not modelled either.
- SizeAccounted: arcs pushed one by one and counted at the end are one operation, so a collection between the two is not modelled.
- CacheBaseImpl: only the tracking used when collection is on; the store is consulted for expansion otherwise.
- FirstCacheStore: ids are non-negative, so a lookup of the missing id is not modelled.
- The bytes in the cache of `CacheLogAccumulator` are counted, but no bound on them is proved; copies that share that cache are not modelled.
- Edit overlay: deleting all states, mutable arc iterators and property bits; the edits are a value in the shared data object.
- The state iterator of the complement, and accumulators that are built from these two.
- Reading and writing, symbol tables, property bits other than those the visitor computes, thread safety and allocation.
