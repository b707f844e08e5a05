# Vitri

Vitri rewrites a propositional formula in conjunctive normal form under an exactness contract (the projected
models, the model count or the function is kept) and then builds a binary tree with one leaf per variable.
This project models the rewriting passes, the index and protocol code they rest on, the construction and
checking of the trees, and the page that reads and draws them, and proves what each of them promises.

An assignment is the set of true variables. Formulas, clauses and literals keep the ids of the source; a
variable is a number from 1 to 2^31-1. Model counts, weighted sums and projections are defined on
assignments directly, and each pass is proved exact against those definitions.

- `Cnf`, `Occ`, `FlatIndex`, `Ordering`, `Sequences`: clauses, resolution, occurrence lists, counting sort.
- `Elimination`, `Bve`: bounded elimination of projected variables, as an exact projection and as the worklist.
- `Payload`, `ForkResult`, `Fork`, `ForkVerdict`, `ForkedReduction`: the wire codec and the fork-with-deadline
  protocol, a state machine over a parent, a child, a bounded pipe, a clock and a host that may reap the child first.
- `UnionFind`, `Counting`, `Components`, `ComponentCount`: the component split and the factoring of the count.
- `ImplicationGraph`, `Scc`, `Equivalence`, `Substitution`, `EquivMapping`: literal equivalences and the reduction.
- `Refinement`, `ColourMeaning`, `Individualise`, `Canonical`, `CanonicalSymmetry`, `Interchangeable`: canonical forms
  of components, and when copies share one.
- `Vtrees`, `Reindex`, `Bisect`, `Grafting`, `VtreeCache`, `BuildCheck`, `ComponentBuild`: building, reusing,
  grafting and checking trees.
- `DualCnf`, `Projection`, `HiddenDefinability`: which hidden variables the shown ones define.
- `Rationals`, `Weights`, `WeightFold`, `FoldCopies`, `WeightTables`, `ShowSets`, `Monotone`: weights, show sets, the
  monotone test.
- `Dimacs`, `DimacsFile`, `DimacsWriter`: the file format both ways.
- `PlaneTrees`, `BreadthFirst`, `TreeWalk`, `VtreeText`, `VtreeListing`, `VtreeWriter`, `Expansion`, `ExpansionBudget`,
  `TreeLayout`: the page reading, measuring, expanding and drawing a tree, and the text the library writes for it.

Foreign code enters as a contract: the solver answers soundly (unsatisfiable means no model, satisfiable means
one, unknown says nothing), Tarjan returns exactly the components of size two or more, and the min-fill and
partition solvers return trees and splits over the variables they were given. A deadline is an arbitrary answer
at each poll, or in the fork protocol a clock that only goes forward.

Where the source and its own words differ, the model follows the code:

- `bindings/wasm/layout.js:40-42` says that expanding below a node adds at most `budget` drawn nodes. A node left
  expanded below a collapsed one is drawn again without being counted, so the drawing can grow further;
  `ExpansionBudget` proves by how much, and for every budget exactly when it stays within it.
- `src/projection.rs:125-130` says that variables that occur are listed hardest first in each category, and gives as
  the exception an unsatisfiable formula found by the check that absent variables need. A formula with an empty
  clause is another: lines 258-264 list everything as it was asked for. `HiddenDefinability` states the order both ways.
- `bindings/wasm/vtree.js:6-9` lists the checks a `.vtree` text must pass. A node listed twice passes them, the later
  line counting; children need not come before parents. `VtreeText` accepts both, as the code does.

## Model

| member | source | states |
|---|---|---|
| Cnf.NormalizeMeaning | src/cnf/mod.rs:103-110 | Normalizing drops a clause exactly when it holds a literal and its negation; otherwise the result is sorted without repeats and has the same literals. |
| Cnf.NormalFormIs | src/cnf/mod.rs:103-110 | A canonical clause is the normal form of every list of the same literals, so normal forms are unique. |
| Cnf.NormalizeKeepsModels | src/cnf/mod.rs:103-110 | Under every assignment a clause is true exactly when its normal form, if it has one, is. |
| Cnf.ResolveSorted | src/cnf/mod.rs:124-162 | The two-pointer merge of two canonical clauses equals normalizing their concatenation without the pivot, tautologies included. |
| Occ.OccurrenceListsOf | src/cnf/occ.rs:76-91 | Each list holds the indices of the clauses with that literal, in clause order and once per occurrence. |
| Occ.LiteralOccurrences.Of | src/cnf/occ.rs:104-136 | Counting, prefix sums, filling and shifting back leave a table that answers for exactly the clauses it was built from. |
| Occ.LiteralOccurrences.OfLiteral | src/cnf/occ.rs:139-142 | The slice of the flat table is the simple occurrence list of that literal. |
| FlatIndex.Build | src/cnf/occ.rs:104-136 | For any keyed list, the counting-sort index gives each key exactly its values in their original order. |
| Elimination.EliminationExact | src/preprocess/bve_project.rs:153-198 | Replacing the clauses of a variable by all its resolvents is satisfied by an assignment exactly when the old clauses are under one of the two values of the variable. |
| Elimination.ProjectionStep | src/preprocess/bve_project.rs:85-98 | One exact elimination after an exact projection is an exact projection with one more variable gone. |
| Elimination.ProjectionKeepsShown | src/preprocess/bve_project.rs:62-98 | If the eliminated variables are not shown, a choice of shown variables extends to a model of the output exactly when it extends to one of the input. |
| Bve.BveState.constructor | src/preprocess/bve_project.rs:111-149 | The fresh state holds the normalized clauses with agreeing occurrence lists, and every unshown variable that occurs is queued. |
| Bve.BveState.Pop | src/preprocess/bve_project.rs:85-98 | Takes the front of the queue; everything else agrees as before. |
| Bve.BveState.Requeue | src/preprocess/bve_project.rs:262-272 | A variable asked back in is queued once unless it is shown; no mark is lost. |
| Bve.BveState.PurgeBoth | src/preprocess/bve_project.rs:275-277 | The two lists of a variable come to hold exactly its live clauses, so their lengths are its live degrees. |
| Bve.BveState.Retire | src/preprocess/bve_project.rs:203-220 | The live clauses left are those without the variable, and every other unshown variable of a retired clause is queued. |
| Bve.BveState.AppendResolvents | src/preprocess/bve_project.rs:222-241 | The live clauses grow by exactly the resolvents, the occurrence lists still agree, and every unshown variable of a resolvent is queued. |
| Bve.BveState.EnterAll | src/preprocess/bve_project.rs:222-241 | Each literal of a new clause is entered in its own list and in no other. |
| Bve.BveState.Step | src/preprocess/bve_project.rs:153-198 | One step leaves the clauses alone or eliminates the variable exactly, never adds clauses on balance, and keeps the invariant that an unqueued variable is blocked; it stops exactly when a poll it made was answered stop. |
| Bve.BveState.ResolveAway | src/preprocess/bve_project.rs:178-198 | With both polarities present, the variable is resolved away unless that costs more clauses than it saves; it stops exactly when a poll it made was answered stop. |
| Bve.BveState.IntoFormula | src/preprocess/bve_project.rs:243-256 | The formula handed back has the same variables, ids unchanged, and exactly the live clauses. |
| Bve.EnumerateResolvents | src/preprocess/bve_project.rs:314-343 | Either all distinct non-tautological resolvents, at most as many as the clauses they replace, or a proof that there are more; or nothing, exactly when a poll it made was answered stop. |
| Bve.SettledAfter | src/preprocess/bve_project.rs:203-241 | After an elimination that queues the neighbours of the clauses it touched, every variable not queued is still blocked, so requeueing lazily misses nothing. |
| Bve.BveProjectUntil | src/preprocess/bve_project.rs:70-98 | For every formula, show mask and stop oracle: the output is the input with the eliminated, unshown variables quantified away, has no more clauses, and, if no poll of the run was answered stop, every unshown variable left has both polarities and more resolvents than occurrences. Terminates. |
| Payload.PrefixFree | src/preprocess/fork_budget.rs:472-476 | A decoder that inverts an encoding and whose answers do not change when bytes follow fails on every strict prefix of it. |
| Payload.UintInverts | src/preprocess/fork_payload.rs:18-29 | A little-endian number of any width reads back, leaving the bytes after it. |
| Payload.UintStable | src/preprocess/fork_payload.rs:63-80 | Bytes after a complete number do not change what is read. |
| Payload.LiteralInverts | src/preprocess/fork_payload.rs:37-44 | A literal reads back from its variable and sign byte. |
| Payload.LiteralStable | src/preprocess/fork_payload.rs:87-91 | Bytes after a complete literal do not change what is read. |
| Payload.TextInverts | src/preprocess/fork_payload.rs:30-33 | A text reads back from its length and bytes. |
| Payload.VecInverts | src/preprocess/fork_payload.rs:97-107 | A counted list reads back when each element does, past the guard that compares the count with the bytes left. |
| Payload.VecStable | src/preprocess/fork_payload.rs:97-107 | Bytes after a complete list do not change what is read, although the guard looks at how many are left. |
| Payload.Dec.Vec | src/preprocess/fork_payload.rs:97-107 | The reading loop moves the cursor over exactly the bytes of the list, or fails as the list decoder does. |
| ForkResult.FormulaInverts | src/preprocess/fork_result.rs:16-37 | A formula reads back clause by clause. |
| ForkResult.RationalInverts | src/preprocess/fork_result.rs:41-47 | A rational reads back from its exact text. |
| ForkResult.PutResult | src/preprocess/fork_result.rs:67-100 | The encoder appends exactly the encoding of the result. |
| ForkResult.GetResult | src/preprocess/fork_result.rs:102-120 | The decoder with a cursor returns what the functional decoder does and leaves the same bytes. |
| ForkResult.DecodeInverts | src/preprocess/fork_result.rs:67-120 | Every sendable reduction decodes to itself, whatever bytes follow. |
| ForkResult.DecodeStable | src/preprocess/fork_result.rs:102-120 | A successful decode of a reduction is unchanged by further bytes. |
| ForkResult.DecodeWeightedInverts | src/preprocess/fork_result.rs:124-154 | Every sendable weighted reduction decodes to itself, weights included. |
| ForkResult.DecodeWeightedStable | src/preprocess/fork_result.rs:142-154 | A successful decode of a weighted reduction is unchanged by further bytes. |
| ForkedReduction.ResultPrefixFree | src/preprocess/fork_result.rs:66-120 | No strict prefix of an encoded reduction decodes. |
| ForkedReduction.WeightedPrefixFree | src/preprocess/fork_result.rs:123-154 | No strict prefix of an encoded weighted reduction decodes. |
| Fork.DecodesOnlyWhole | src/preprocess/fork_budget.rs:501-511 | Bytes that are a prefix of what the child sends decode to a result only if they are all of it and the closure returned that result. |
| Fork.InvariantOnRuns | src/preprocess/fork_budget.rs:249-454 | In every interleaving of parent, child, clock, interruptions and a third-party reaper, the descriptors, the reaping, the bytes in flight and the end-of-file agree at every state. |
| Fork.ReturnsSafely | src/preprocess/fork_budget.rs:396-497 | Every return has closed both descriptors exactly once and follows a reap or a no-child answer; a completed return carries what the closure returned, and its whole encoding arrived. |
| Fork.NeverStuck | src/preprocess/fork_budget.rs:396-454 | No reachable state before the return is deadlocked: a named step is always enabled, and it needs the child to die only after a kill was sent. |
| Fork.ReturnsSoonAfterDeadline | src/preprocess/fork_budget.rs:396-454 | Once the deadline has passed the parent makes at most seven more moves before it returns. |
| Fork.DeadlineKills | src/preprocess/fork_budget.rs:404-414 | A parent that finds the deadline passed with the pipe still open returns killed and nothing else. |
| Fork.HeldOpenIsKilled | src/preprocess/fork_budget.rs:396-454 | While the child holds the pipe open the parent can only keep draining, take the kill path or abandon; it never reports a completed result. |
| ForkVerdict.ReturnsTheVerdict | src/preprocess/fork_budget.rs:396-497 | Whenever the parent returns: it says killed only past the deadline and a failed call only after one, both with the child killed; in every other case it drained the pipe to the end, a nonzero exit and a signal are exactly their own failures, and otherwise it reports the result of the closure exactly when the whole encoding arrived. |
| ForkVerdict.UndisturbedCompletes | src/preprocess/fork_budget.rs:396-511 | A closure that returns before the deadline, with no failing call and no kill, is reported complete with its result, in every interleaving, however often calls are interrupted and whoever reaps the child. |
| ForkVerdict.SomeRunCompletes | src/preprocess/fork_budget.rs:249-454 | For every result, every pipe that holds a byte and every deadline ahead there is a run that reports it. |
| ForkedReduction.ReportedReductionIsTheChilds | src/preprocess/fork_budget.rs:249-290 | With the real codec: a completed fork reports exactly the reduction the child computed. |
| ForkedReduction.ReportedWeightedIsTheChilds | src/preprocess/fork_budget.rs:249-290 | The same for a weighted reduction, its weights and multiplier included. |
| ForkedReduction.ReductionVerdict | src/preprocess/fork_budget.rs:487-511 | The exact outcome of a fork that was not cut short, for the channel of reductions with its real codec. |
| ForkedReduction.WeightedVerdict | src/preprocess/fork_budget.rs:487-511 | The same for weighted reductions. |
| ForkedReduction.ReductionCompletes | src/preprocess/fork_budget.rs:249-290 | An undisturbed child that returns a reduction before the deadline has it reported. |
| ForkedReduction.WeightedCompletes | src/preprocess/fork_budget.rs:249-290 | The same for weighted reductions. |
| UnionFind.UnionFind.constructor | src/cnf/union_find.rs:15-20 | Every element starts as its own class. |
| UnionFind.UnionFind.Find | src/cnf/union_find.rs:22-29 | Returns the root and, splitting paths, changes no root; terminates because ranks rise along parents. |
| UnionFind.UnionFind.Union | src/cnf/union_find.rs:32-46 | The roots are exactly the classes of the unions performed so far. |
| UnionFind.LinkMatches | src/cnf/union_find.rs:32-46 | Linking two roots makes two elements share a root exactly when the unions with the new pair connect them. |
| UnionFind.RankFits | src/cnf/union_find.rs:9-46 | A root of rank r heads at least 2^r elements, so with fewer than 2^64 elements a rank never leaves a byte. |
| Components.DetectComponentsIn | src/cnf/components.rs:85-133 | Splits into exactly the classes of clauses connected through shared variables, empty clauses together; refuses only when all clauses are one class. |
| Components.SplitIsUnique | src/cnf/components.rs:105-133 | At most one list of groups is such a split, order included, so the result does not depend on the order a hash map is walked in. |
| Components.KeysDiffer | src/cnf/components.rs:105-133 | The sort keys of two different groups differ. |
| ComponentCount.ExtractKeepsCount | src/cnf/components.rs:46-68 | The extracted component over its own variables has as many models as its clauses have over the variables they mention. |
| ComponentCount.CountFactors | src/cnf/components.rs:32-133 | The model count is the product over the components times two for every variable in no clause. |
| Counting.IndependentCount | src/cnf/components.rs:85-133 | Clauses over disjoint variables multiply their model counts. |
| Counting.RenamedCount | src/cnf/components.rs:46-68 | An injective renaming keeps the model count. |
| ImplicationGraph.ImplicationGraph.Of | src/preprocess/equivalence.rs:299-350 | The flat graph is valid for the clauses it was built from. |
| ImplicationGraph.ImplicationGraph.Out | src/preprocess/equivalence.rs:356-363 | After the original numbering, the successors of a node are the two contrapositive edges of each binary clause in clause order. |
| ImplicationGraph.OutEdgesAreEdges | src/preprocess/equivalence.rs:299-350 | A successor is listed exactly when some binary clause gives that implication. |
| Scc.SccRepresentatives | src/preprocess/equivalence.rs:79-88 | Given groups that are the components of size two or more, each node is mapped as the groups say. |
| Scc.RepresentativesAreLeast | src/preprocess/equivalence.rs:79-88 | The representative of a node is the smallest node of its component. |
| Scc.SameComponentSameLeast | src/preprocess/equivalence.rs:79-88 | Two nodes share a representative exactly when they are in one component. |
| Scc.NamedGroups | src/preprocess/equivalence.rs:65-72 | Components found on the compact graph, renamed back, are the components of the whole literal graph. |
| Equivalence.WalkIsSkew | src/preprocess/equivalence.rs:290-350 | Every walk of implications has a mirror walk through the negations. |
| Equivalence.MutualIsSkew | src/preprocess/equivalence.rs:290-350 | Two literals are in one component exactly when their negations are. |
| Equivalence.ComponentIsEquivalent | src/preprocess/equivalence.rs:65-72 | Under every model all literals of one component have the same value. |
| Equivalence.ImplicationSccs | src/preprocess/equivalence.rs:65-72 | The groups returned are exactly the components of size two or more of the literal graph. |
| Equivalence.VarToRepReads | src/preprocess/equivalence.rs:36-46 | The table read off the representatives gives each variable the literal its component stands for. |
| Equivalence.RepresentativesAreSelf | src/preprocess/equivalence.rs:36-46 | Without a contradiction every representative variable maps to its own positive literal. |
| Equivalence.ModelsRespect | src/preprocess/equivalence.rs:36-46 | Every model gives a variable the value of its representative literal. |
| Equivalence.ContradictionIsUnsat | src/preprocess/equivalence.rs:368-370 | A literal in one component with its negation leaves no model. |
| Equivalence.ContradictionFound | src/preprocess/equivalence.rs:368-370 | Comparing representatives finds a literal in one component with its negation exactly when there is one. |
| Equivalence.GroupsFound | src/preprocess/equivalence.rs:387-408 | There is a group exactly when two literals are in one component. |
| Substitution.OfKept | src/preprocess/renumber.rs:70-87 | The renumbering numbers the kept variables in order. |
| Substitution.SubstituteClause | src/preprocess/equivalence.rs:258-279 | The substituted clause is the normal form of the mapped literals. |
| Substitution.SubstituteClauses | src/preprocess/equivalence.rs:202-214 | The clauses kept are the substituted ones that are not tautologies, repeats dropped as the source drops them. |
| Substitution.SubstitutedMeaning | src/preprocess/equivalence.rs:202-279 | Under an assignment carried over the renaming, the substituted clauses hold exactly when the original ones do. |
| Substitution.SubstitutedModels | src/preprocess/equivalence.rs:413-435 | Substituted clauses plus the equivalence clauses are satisfied by exactly the models of the input. |
| Substitution.OnlyRepresentativesLeft | src/preprocess/equivalence.rs:202-279 | After substituting, every literal left is of a variable that stands for itself. |
| Substitution.BuildSubstitutedFormula | src/preprocess/equivalence.rs:413-435 | The formula built is the substituted clauses and then both implications for each folded variable; it has exactly the models of its input over the same variables. |
| EquivMapping.FromVarToRep | src/preprocess/equivalence.rs:124-150 | Representatives and their equivalent literals are listed exactly as the table has them. |
| EquivMapping.MappingPartitions | src/preprocess/equivalence.rs:124-150 | Each variable is a representative or belongs to exactly one, and the listed literals are the ones every model equates with it. |
| EquivMapping.ReduceFormula | src/preprocess/equivalence.rs:227-247 | The reduced formula is the substituted one over the renumbered representatives. |
| EquivMapping.ExpandUndoesReduce | src/preprocess/equivalence.rs:227-247 | Reducing a model and expanding it again gives the model back. |
| EquivMapping.ReduceUndoesExpand | src/preprocess/equivalence.rs:227-247 | Expanding a model of the reduced formula and reducing it gives that model back. |
| EquivMapping.ReducedCount | src/preprocess/equivalence.rs:227-247 | The reduced formula has as many models as the original. |
| EquivMapping.ReductionWellFormed | src/preprocess/equivalence.rs:227-247 | The reduced formula stays within its own variables. |
| EquivMapping.FindEquivalences | src/preprocess/equivalence.rs:387-408 | Says unsatisfiable exactly when a literal is in one component with its negation, and no equivalences exactly when no two literals share one; otherwise the table represents the formula and the count is the number of components of two literals or more. |
| EquivMapping.ExtractEquivalences | src/preprocess/equivalence.rs:441-473 | The whole pass keeps the model set and the variables. It reports unsatisfiable exactly on a contradiction, a mapping exactly when there is something to substitute, and then the substituted formula, the mapping of that table and the number of components; otherwise the input comes back unchanged. |
| Ordering.SortDependsOnBag | src/component/canonical.rs:255-266 | Sorting by a strict total order depends only on the bag of elements. |
| Refinement.RankSignaturesRanks | src/component/canonical.rs:255-266 | The rank given to a signature is the number of smaller distinct ones. |
| Refinement.ClassCountIsSize | src/component/canonical.rs:268-273 | Counting classes counts distinct colours. |
| Refinement.RefineRound | src/component/canonical.rs:214-232 | One round recolours both sides by the ranks of their signatures, both taken from the colours before the round. |
| Refinement.Refine | src/component/canonical.rs:207-234 | The loop over the colour arrays is the refinement function, including the work it leaves. |
| Refinement.RefineNeverMerges | src/component/canonical.rs:207-234 | No two colour classes are ever merged, and their order is kept. |
| Refinement.SplitsCount | src/component/canonical.rs:224-232 | Refining never lowers the number of classes, and an unchanged number means an unchanged partition. |
| Refinement.CompleteIsStable | src/component/canonical.rs:207-234 | A refinement reported complete is stable: equal colours have equal signatures. |
| ColourMeaning.SignatureTellsApart | src/component/canonical.rs:236-253 | Two nodes have one signature exactly when they have one colour and, for each polarity and each neighbour colour, equally many such links. |
| ColourMeaning.RoundTellsApart | src/component/canonical.rs:214-232 | After a round two nodes share a colour exactly when they did before it and had equally many links of each polarity to each colour. |
| ColourMeaning.NegativeFirst | src/component/canonical.rs:236-266 | Of two nodes of one colour, one with negative links only is ranked before one with positive links only. |
| ColourMeaning.TiedVariablesLookAlike | src/component/canonical.rs:87-134 | Variables a complete refinement leaves tied are both shown or both not, and each polarity of them is written equally often in the clauses of each colour, and so equally often in all. |
| ColourMeaning.TiedClausesLookAlike | src/component/canonical.rs:87-134 | Clauses it leaves tied have one length and, for each polarity, equally many literals over variables of each colour. |
| Individualise.FirstTiedMeaning | src/component/canonical.rs:193-200 | Finds no tie exactly when all colours differ; otherwise the first member of the lowest tied class. |
| Individualise.BumpColours | src/component/canonical.rs:165-185 | Doubling every colour and lowering one is done without leaving 32 bits. |
| Individualise.IndividualisationSplits | src/component/canonical.rs:165-185 | Each individualisation and refinement strictly increases the number of variable classes, so the loop ends. |
| Individualise.IndividualiseNeverMerges | src/component/canonical.rs:165-185 | The individualisation loop only splits classes. |
| Individualise.IndividualiseAll | src/component/canonical.rs:165-185 | The loop over the colour arrays is the individualisation function. |
| Individualise.CompleteColoursAreRanks | src/component/canonical.rs:207-234 | A complete refinement leaves colours that are ranks, so they stay below the number of nodes. |
| Canonical.BuildOccurrences | src/component/canonical.rs:138-164 | The occurrence table of the clause list. |
| Canonical.RefinedOrder | src/component/canonical.rs:138-189 | The order returned is the one the refinement defines, with its size limits. |
| Canonical.CanonicalFormWithLimit | src/component/canonical.rs:87-133 | The key and permutation are those of the relabelled, sorted clauses and show flags under the refined order. |
| Canonical.CanonicalToLocal | src/component/canonical.rs:72-78 | The inverse permutation, both ways round. |
| Canonical.EqualKeysAreIsomorphic | src/component/canonical.rs:83-133 | Equal keys, whatever orders produced them, give a renaming that carries one clause multiset and show mask onto the other. |
| Canonical.IsomorphismKeepsModels | src/component/canonical.rs:83-133 | That renaming carries models to models and back. |
| CanonicalSymmetry.RefineCarried | src/component/canonical.rs:207-234 | Refinement commutes with renaming variables and permuting clauses, work counts included. |
| CanonicalSymmetry.FirstRefinementCarried | src/component/canonical.rs:138-164 | So does the first refinement from the show mask and clause lengths. |
| CanonicalSymmetry.IndividualiseCarried | src/component/canonical.rs:165-185 | When at every tie broken the tied variables are images of the picked one under automorphisms, individualising a renamed copy ends in corresponding colours, under a renaming found on the way, although the two may pick different variables. |
| CanonicalSymmetry.CopiesMeet | src/component/canonical.rs:83-189 | Two renamed copies get the same key whenever the work limit tells every variable apart and every tie broken on the way is between variables an automorphism relates. |
| Interchangeable.WorkSuffices | src/component/canonical.rs:138-234 | A work limit that pays for one refinement per variable and the first one always tells every variable apart, within the size limit. |
| Interchangeable.SwapsAreSymmetric | src/component/canonical.rs:165-185 | If every two tied variables can be swapped, every tie broken on the way is between variables an automorphism relates. |
| Interchangeable.LeftoverTiesMeet | src/component/canonical.rs:83-189 | Copies get the same key also when ties are left to the local numbering, because the work ran out or the component is too large, if the variables left tied can be swapped. |
| Interchangeable.SwappableCopiesMeet | src/component/canonical.rs:83-189 | Renamed copies in which variables tied by the first refinement can be swapped get the same key under every work limit and at every size. |
| Vtrees.VtreeArena.AddLeaf | src/vtree/arena.rs:35-39 | Appends a leaf; the trees already in the arena stay. |
| Vtrees.VtreeArena.AddInternal | src/vtree/arena.rs:42-50 | Appends a node over two trees; the trees already in the arena stay. |
| Vtrees.VtreeArena.Graft | src/vtree/arena.rs:99-112 | Appends a copy of a whole tree with every leaf renamed. |
| Vtrees.VtreeArena.BalancedLeaves | src/vtree/arena.rs:64-90 | Appends the tree over the given leaves, in the given order, that splits them in the middle all the way down. |
| Vtrees.BalancedIsEven | src/vtree/arena.rs:64-90 | The balanced tree over some leaves is the only one with those leaves, in that order, whose right side has at every node as many leaves as the left one or one more. |
| Vtrees.VtreeArena.Truncate | src/vtree/arena.rs:121-123 | Drops every node from a length on; the trees below stay. |
| Vtrees.RenamedLeafSpace | src/vtree/arena.rs:99-112 | A tree with one leaf per local variable, renamed, has one leaf per outer variable. |
| Vtrees.ValidCountsLeaves | src/vtree/mod.rs:165-192 | The leaf count and the bottom-up leaves of a finished tree are those of its shape. |
| Reindex.BuildLevels | src/vtree/mod.rs:343-359 | The levels list the nodes reachable from the root breadth first. |
| Reindex.BottomUpMeaning | src/vtree/mod.rs:336-399 | Reversed, they put every child before its parent and hold each leaf of the tree once. |
| Reindex.PlaceLeaves | src/vtree/mod.rs:361-381 | Leaves are numbered first, and the inverse table finds each variable at its leaf. |
| Reindex.PlaceInners | src/vtree/mod.rs:383-401 | Inner nodes follow, pointing at the new numbers of their children. |
| Reindex.FromNodes | src/vtree/mod.rs:513-516 | The finished tree has the shape hanging at the root, with all its tables right. |
| Bisect.FromSideBits | src/decompose/bisect.rs:118-136 | Accepts exactly a bit per variable with both sides taken; the sides are the variables by bit, in order. |
| Bisect.BisectionSolver.Partition | src/decompose/bisect.rs:163-167 | A split offered by a solver has two non-empty sides that make up the variables. |
| Bisect.BisectionSolver.RefineSubtree | src/decompose/bisect.rs:190-200 | Refining a subtree keeps its leaves; the result is what the solver gave for it, or the subtree itself. |
| Bisect.MinfillSubtree | src/decompose/bisect.rs:64-90 | The small case appends the min-fill tree renamed to the variables, one leaf for each. |
| Bisect.BisectRecursive | src/decompose/bisect.rs:226-272 | For any sound solver the recursion appends one tree with exactly one leaf per variable, and it is the tree the splits of the solver, its small cases and its second looks determine. |
| Bisect.BisectUnsplit | src/decompose/bisect.rs:226-272 | Where no split is offered: the min-fill tree up to 256 variables, and beyond that one node over the trees of the two halves of the list. |
| Bisect.BisectDivided | src/decompose/bisect.rs:226-272 | Where one is: one node over the trees of its two sides, in order, replaced by the second look of the solver when it has one. |
| Bisect.RunBisection | src/decompose/bisect.rs:208-221 | The finished tree has one leaf for each variable 1 to n and is the tree of that recursion. |
| Grafting.GraftAll | src/component/mod.rs:719-724 | Each root carries, in order, the shape of its component tree with the leaves renamed to outer variables. |
| Grafting.AddFree | src/component/mod.rs:726-728 | Each free variable becomes one leaf, in order, after the roots there were. |
| Grafting.Chain | src/component/mod.rs:730-737 | The roots are joined from the left into one chain over the trees they carry, in order. |
| Grafting.GraftComponentVtrees | src/component/mod.rs:714-740 | The grafted tree is the chain, in order, of the component trees renamed to outer variables and then of one leaf per free variable. |
| Grafting.Relabeled | src/vtree/mod.rs:522-526 | Relabelling a finished tree renames its leaves and nothing else. |
| VtreeCache.Builders.BuildUncached | src/component/mod.rs:660-700 | The tree is the one the builder of that size answered with, a balanced one where min-fill has none; it has one leaf per local variable, and a tiny one is always built. |
| VtreeCache.RelabelledIntoIsomorph | src/component/mod.rs:622-658 | A cached tree relabelled through equal keys is the first component tree carried over by an exact isomorphism, one leaf per local variable. |
| VtreeCache.Store | src/component/mod.rs:647-658 | What is stored is sound for its key. |
| VtreeCache.Reuse | src/component/mod.rs:641-646 | A hit returns such a tree for the second component. |
| VtreeCache.BuildOrReuse | src/component/mod.rs:622-658 | A component whose key is in the cache is renamed from the first of that key by an exact isomorphism, and any other has the answer of its builder and is entered; either way one leaf per local variable, and the cache stays sound. |
| VtreeCache.BuildAndStore | src/component/mod.rs:647-658 | A component whose key is new gets its tree from its builder and puts it into the cache under that key, canonically numbered. |
| BuildCheck.CheckLeafSpace | src/bundle/export.rs:521-538 | Accepts exactly when every leaf is in range and none repeats. |
| BuildCheck.LeafCheckIsPermutation | src/bundle/export.rs:299-336 | Together with the leaf count that holds exactly when the leaves are 1 to n once each. |
| BuildCheck.ClaimComponentClauses | src/bundle/export.rs:369-404 | Accepts exactly when every clause exists and shares no variable with another component, and then claims exactly its variables. |
| BuildCheck.FindDisagreement | src/bundle/export.rs:346-349 | Finds the first place two lists differ at; finds none only if one list begins with the other. |
| BuildCheck.CheckLocalToOuterMatches | src/bundle/export.rs:338-367 | A refusal names the first variable numbered otherwise than the clauses number it, with both numbers, or, only when one list merely ends before the other, the two lengths; an accepted list is the one the clauses cut. |
| BuildCheck.CheckComponent | src/bundle/export.rs:314-334 | Accepts exactly a component whose tree and variable list are those of its clauses. |
| BuildCheck.CheckBuildBelongs | src/bundle/export.rs:299-336 | Accepts exactly the builds that belong to the formula. |
| ComponentBuild.PrepareComponentView | src/component/mod.rs:585-600 | The view is the extracted component with the show mask restricted to it, and its variables are marked. |
| ComponentBuild.GraftWithFreeVars | src/component/mod.rs:602-613 | The whole tree is the chain of the component trees and then of the variables in no component, ascending; one leaf per outer variable. |
| ComponentBuild.BuildPerComponent | src/component/mod.rs:511-565 | Every successful build over a split passes the exporter check on its formula. The whole tree is the chain of the trees handed back. The first component of each key has the tree a builder answered with for its own clauses and show flags, every later one the first renamed by an isomorphism, and builder calls and reuses add up to the components. |
| ComponentBuild.BuildComponent | src/component/mod.rs:529-554 | One round: the tree is built or renamed for the clauses and show flags of the component under local names, and the cache then has the first component of each key. |
| ComponentBuild.BuiltNext | src/component/mod.rs:647-658 | Building for a new key keeps what is known of every component so far and of the cache. |
| ComponentBuild.ReusedNext | src/component/mod.rs:641-646 | So does renaming for a key the cache has. |
| ComponentBuild.BuiltBelongs | src/component/mod.rs:511-565 | Any component trees over a split, grafted to one leaf per variable, belong to the formula. |
| DualCnf.LayoutFitsExactly | src/preprocess/dve/definability.rs:114-142 | The id layout fits exactly when the last indicator id is a 32-bit variable. |
| DualCnf.BuildDualClauses | src/preprocess/dve/definability.rs:165-244 | The solver is given the original clauses, the primed copy and the indicator clauses. |
| DualCnf.DualMeaning | src/preprocess/dve/definability.rs:165-244 | An assignment satisfies them exactly when both copies are models and each true indicator ties its variable. |
| DualCnf.PairIsDual | src/preprocess/dve/definability.rs:165-244 | Any two models agreeing off the candidates make one. |
| HiddenDefinability.RoomCanBeMissing | src/preprocess/dve/definability.rs:114-142 | A well-formed formula with one clause and a valid request for its variable whose dual has ids past 32 bits. |
| Projection.RequireShowWithin | src/projection.rs:37-49 | Accepts exactly show sets within the formula, and otherwise names a variable out of range. |
| Projection.EliminateHidden | src/projection.rs:62-72 | On such a show set, keeps exactly the projected models over the same variables, and leaves no hidden variable the bound would let go. |
| Projection.ProbeMeaning | src/projection.rs:367-403 | The probe for a variable is satisfiable exactly when two models agree on the shown variables and differ on it, although only shown variables that appear are tied. |
| Projection.BaseMeaning | src/projection.rs:217-243 | The unassumed dual formula is satisfiable exactly when the formula is. |
| Projection.AbsentIsFree | src/projection.rs:217-243 | A hidden variable in no clause is undefined exactly when the formula has a model. |
| Projection.Solver.Solve | src/projection.rs:411-429 | An answer is sound for the assumptions queued, which are then gone. |
| Projection.SolveWithLimits | src/projection.rs:411-429 | So is an answer under limits; assumptions stay queued only when the budget is spent. |
| HiddenDefinability.ValidateAndCollectHidden | src/projection.rs:318-365 | Accepts exactly valid requests, and drops repeats keeping first occurrences. |
| HiddenDefinability.CountIncidence | src/projection.rs:279-286 | Marks the variables that appear and counts their occurrences up to saturation. |
| HiddenDefinability.PartitionHiddenTargets | src/projection.rs:274-316 | Sends each target to the absent or the ordered list, the absent ones in the order asked for, the others hardest first. |
| HiddenDefinability.TrivialHiddenDefinability | src/projection.rs:245-265 | Settles, correctly, requests with nothing hidden, no clause or an empty clause, and no others. |
| HiddenDefinability.BuildDualWithinBudget | src/projection.rs:195-210 | A solver handed back holds exactly the dual clauses and no assumption; none is handed back exactly when there is no solver, too many clauses or a poll that said stop. |
| HiddenDefinability.ResolveAbsentHidden | src/projection.rs:217-243 | The verdict on absent variables is true of the formula, and it is left undecided only when the solver gave up on the query or a poll said stop. |
| HiddenDefinability.Probe | src/projection.rs:367-403 | The verdict on one variable is true of the formula, and it is left open only when the solver gave up on the query or a poll said stop. |
| HiddenDefinability.ProbeOrderedHidden | src/projection.rs:367-403 | Each ordered variable goes to the list its verdict names, in order, however the budget runs out. |
| HiddenDefinability.CutOff | src/projection.rs:19-31 | Giving up sends every variable not yet probed to the unknown list. |
| HiddenDefinability.ClassifyHiddenDefinedByShow | src/projection.rs:117-190 | For any sound solver and any budget, every distinct requested variable is in exactly one list; the defined ones are defined by the shown variables in all models, the not-defined ones are not. One is left unknown only when there is no solver, there are too many clauses, a poll of the call said stop or the solver gave up on one of the dual queries; otherwise the two other lists are exact. Each list has the absent variables, all or none and as asked for, before the others, hardest first; all are listed defined as asked for when there is an empty clause, and may be when asking after the absent ones shows there is no model. |
| HiddenDefinability.NothingOpen | src/projection.rs:117-190 | With nothing unknown, a requested variable is listed defined exactly when the shown variables define it, and else listed not defined. |
| Weights.PairsRoundTrip | src/cnf/weights.rs:300-418 | A table listed as literal pairs and read back is the same table. |
| WeightFold.Weights.FoldInto | src/cnf/weights.rs:453-463 | Multiplies one pair into the surviving literal, swapped under a negative sign. |
| WeightFold.Weights.FoldEliminated | src/cnf/weights.rs:467-472 | The loop folds every eliminated variable in turn. |
| WeightFold.FoldKeepsWeight | src/cnf/weights.rs:453-472 | When nothing is folded into a variable already gone, an assignment respecting the equivalences weighs before what its survivors weigh after. |
| WeightFold.FoldIntoGoneLosesWeight | src/cnf/weights.rs:467-472 | Without that condition it can fail: a chain folded into a gone variable loses weight. |
| FoldCopies.FoldsKeepExactly | src/cnf/weights.rs:453-472 | A batch of folds keeps the weight of an assignment that respects it, for every table, exactly when each eliminated variable arrives in a survivor once, which can be counted from the batch alone. |
| FoldCopies.ValidArrivesOnce | src/cnf/weights.rs:467-472 | Eliminating each variable once and never folding into one already gone is enough for that. |
| WeightFold.ExtendIsUnique | src/cnf/literal.rs:239-256 | A choice of survivors extends in exactly one way to an assignment respecting the equivalences. |
| WeightFold.ExtendRespects | src/cnf/literal.rs:239-256 | That extension respects them and leaves the survivors alone. |
| WeightFold.FoldedCount | src/cnf/weights.rs:443-472 | The weighted count under the equivalences equals the folded weighted count over the survivors. |
| WeightTables.FromDimacsPairs | src/cnf/weights.rs:113-131 | Accepts exactly in-range pairs without a lone weight outside the unit interval, and records the last weight given for each literal. |
| WeightTables.CheckLoneWeights | src/cnf/weights.rs:135-152 | Accepts exactly tables in which no such lone weight stands. |
| WeightTables.ComplementMeaning | src/cnf/weights.rs:249-252 | A lone weight in the unit interval has a complement, and the two add to one. |
| WeightTables.ToDeclaredVarPairs | src/cnf/weights.rs:212-224 | Lists both literals of every declared variable. |
| WeightTables.DeclaredPairsAreResolved | src/cnf/weights.rs:197-243 | Reading those pairs gives the same weights as resolving the table. |
| WeightTables.RowsRoundTrip | src/cnf/weights.rs:113-202 | A full weight table written as rows is read back and resolved to itself. |
| Rationals.ParsePrintedInt | src/cnf/dimacs.rs:23-25 | Decimal text of an integer reads back. |
| Rationals.ParsePrintedWeight | src/cnf/dimacs.rs:23-101 | The weight reader inverts the exact text of every rational in lowest terms. |
| Rationals.DecimalIsExact | src/cnf/dimacs.rs:66-101 | A decimal weight, with any leading signs, with or without a point and with or without an exponent, is read as exactly its digits times their power of ten, negative when the first sign is a minus. |
| ShowSets.FromVarsOfSet | src/cnf/show_set.rs:86-91 | Making a set of a set changes nothing. |
| ShowSets.FromVars | src/cnf/show_set.rs:86-91 | The set holds exactly the given variables, ascending without repeats. |
| ShowSets.Mask | src/cnf/show_set.rs:131-139 | The mask marks exactly the shown variables the formula has. |
| ShowSets.Restrict | src/cnf/show_set.rs:222-230 | The restricted set is the local variables whose outer variable is shown. |
| ShowSets.Search | src/cnf/show_set.rs:100-102 | The binary search finds a member exactly when there is one, or else its place. |
| ShowSets.ShownVars.Contains | src/cnf/show_set.rs:100-102 | Answers exactly whether the variable is in the set. |
| ShowSets.ShownVars.Insert | src/cnf/show_set.rs:142-146 | Inserting in place gives the set made anew from all the variables. |
| ShowSets.ShownVars.Remove | src/cnf/show_set.rs:149-153 | Removing takes out that variable and no other. |
| Monotone.LiteralFrequency | src/cnf/occ.rs:52-62 | Counts each literal occurrence in its own slot. |
| Monotone.IsMonotone | src/bundle/stage.rs:69-86 | Accepts exactly formulas with every variable written in one polarity and every clause over two distinct variables. |
| Monotone.FlipsStayModels | src/bundle/stage.rs:69-86 | Then one model stays a model when any single variable is flipped. |
| Monotone.NothingForcedOrDefined | src/bundle/stage.rs:69-86 | So no variable is forced and none is defined by the others. |
| Dimacs.LiteralRoundTrip | src/cnf/literal.rs:121-236 | A literal written as a signed number reads back. |
| Dimacs.WidestDecides | src/cnf/dimacs.rs:119-160 | Keeping only the widest id decides the range check for every id. |
| Dimacs.ReadClauseLine | src/cnf/dimacs.rs:437-461 | The loop over clause tokens reads them as the token by token definition does, across line ends. |
| Dimacs.ReadShowLine | src/cnf/dimacs.rs:356-376 | The loop over show tokens stops at the first zero and refuses negative ids. |
| Dimacs.ReadOneLine | src/cnf/dimacs.rs:223-433 | Each kind of line has its own effect or error; a clause left open goes on in the next clause line. |
| Dimacs.Finish | src/cnf/dimacs.rs:245-300 | Succeeds exactly on states whose header, ids and weights are in order, and hands back what they hold. |
| Dimacs.ShownVars | src/cnf/dimacs.rs:379-397 | The show ids become the same variables in the same order. |
| Dimacs.LinesHeld | src/cnf/dimacs.rs:223-266 | No line ever names an id the widest one does not cover, and every stored clause is canonical. |
| Dimacs.AcceptedInRange | src/cnf/dimacs.rs:152-300 | Every accepted file names only ids in 1 to its variable count. |
| DimacsFile.ParseDimacs | src/cnf/dimacs.rs:223-266 | A file is accepted exactly when every line up to the end mark is fine by itself, there is a header unless there are no clauses, every id is within the declared ones and the weights can be completed. Its clauses are then the normal forms of the zero-separated stretches of all clause numbers taken together, an unended last one included; the shown variables are those of all show lines, the weights those of all weight lines. Otherwise the first error comes back. |
| DimacsFile.SplitIsUnique | src/cnf/dimacs.rs:437-461 | There is one way to cut the clause numbers of a file into stretches that each end at a zero and one left open. |
| DimacsFile.LineTells | src/cnf/dimacs.rs:240-257 | Whatever came before, a line is accepted exactly when it is fine by itself, and adds what it says by itself. |
| DimacsFile.FileTells | src/cnf/dimacs.rs:223-266 | So the whole file tells what its lines say, added up in order. |
| DimacsFile.IgnoredChangesNothing | src/cnf/dimacs.rs:233-239 | A blank line or an ordinary comment may be put in anywhere. |
| DimacsFile.LineBreakChangesNothing | src/cnf/dimacs.rs:437-461 | A clause line may be broken in two between any two tokens, in the middle of a clause too. |
| DimacsFile.ShowLinesAddUp | src/cnf/dimacs.rs:356-376 | The variables of a further show line come in addition to those of the others, in the order of the lines. |
| DimacsFile.AlikeIsSame | src/cnf/dimacs.rs:223-266 | Files that say the same are accepted together and read as the same. |
| DimacsWriter.WriteDimacs | src/cnf/dimacs.rs:495-560 | The writer emits the problem line, the track, show and weight lines, then the clauses. |
| DimacsWriter.FileReads | src/cnf/dimacs.rs:495-560 | Reading what was written ends in the state the file describes. |
| DimacsWriter.WriteThenRead | src/cnf/dimacs.rs:223-560 | Reading a written file succeeds and every result is the same formula, track, show set and weights. |
| PlaneTrees.StretchAt | bindings/wasm/vtree.js:11-15 | A subtree fills a stretch of the preorder starting at its top. |
| PlaneTrees.UnderIsStretch | bindings/wasm/vtree.js:11-15 | A node lies below another, or is it, exactly when it stands in that stretch. |
| TreeWalk.WalkFindsTrees | bindings/wasm/vtree.js:85-109 | An accepting stack walk has listed the left-first preorders of the trees waiting on the stack. |
| TreeWalk.TreesAreWalked | bindings/wasm/vtree.js:85-109 | Tables that describe trees without a shared node are always walked to the end. |
| TreeWalk.WalkDecides | bindings/wasm/vtree.js:85-109 | The walk accepts exactly the tables of one tree on all nodes, and returns its preorder and parents. |
| TreeWalk.WalkTables | bindings/wasm/vtree.js:85-109 | The walk over arrays is that decision, with the node met twice or the number unreached otherwise. |
| VtreeText.NodesKept | bindings/wasm/vtree.js:42-80 | However often a node is listed again, a listed leaf is the one its variable is told to be on and children are in range. |
| VtreeText.FullListing | bindings/wasm/vtree.js:42-83 | Once all nodes are listed the tables can be walked and no variable is on two leaves. |
| VtreeText.ReadInto | bindings/wasm/vtree.js:42-80 | The loop over lines fills the typed arrays as the line by line definition does, with its first error. |
| VtreeText.MeasureDepths | bindings/wasm/vtree.js:116-123 | The forward loop gives every node its place and depth, and the tree its height. |
| VtreeText.MeasureSubtrees | bindings/wasm/vtree.js:124-133 | The backward loop gives every node its leaf count and the place of its last descendant. |
| VtreeText.ParseVtree | bindings/wasm/vtree.js:16-135 | Accepts exactly the texts whose tables describe one tree, and its order, parents, places, leaf counts, depths and height are that tree's. A refusal is for the first bad line, else for the first node never listed, else for not being a tree. |
| VtreeListing.ListingIsTold | bindings/wasm/vtree.js:42-83 | The node lines are read exactly when each is well formed and no variable is put on a leaf twice. Then every node is as the last line naming it says, the root is the node named last, and the widest variable is the greatest on any leaf line; otherwise the complaint is about the first line that does not fit. |
| VtreeListing.ReadIsTold | bindings/wasm/vtree.js:42-80 | The same from any line on, for tables that tell the lines before. |
| VtreeText.UnderIsDescendant | bindings/wasm/vtree.js:138-138 | Comparing places answers exactly whether a node lies below another. |
| VtreeWriter.WriteVtree | src/vtree/text.rs:151-171 | The writer lists the nodes bottom-up under their places. |
| VtreeWriter.WrittenIsRead | src/vtree/text.rs:134-171 | A written tree of at most 2^27 nodes is listed in full and is the same tree renumbered, each leaf with its variable; a larger one is refused for its size. |
| VtreeWriter.WriteAndRead | bindings/wasm/vtree.js:16-135 | What the one side writes the other reads back. |
| TreeLayout.LeafVariables | bindings/wasm/vtree.js:142-151 | The first leaf variables of a subtree left to right, and whether they are all. |
| TreeLayout.PlaceSlots | bindings/wasm/layout.js:67-89 | Drawn leaves take consecutive slots from the left; the nodes are listed in preorder of the drawn tree. |
| TreeLayout.PlaceInners | bindings/wasm/layout.js:90-93 | Every expanded node ends midway over its two children. |
| TreeLayout.SlotsInOrder | bindings/wasm/layout.js:79-89 | A drawn leaf or closed subtree stands over the middle of its own width, after all that the nodes listed before it take. |
| TreeLayout.WidthIsTaken | bindings/wasm/layout.js:79-89 | The drawing is as wide as its slots and stubs together. |
| TreeLayout.RowsGoRight | bindings/wasm/layout.js:67-93 | Of two drawn nodes of one depth the later in preorder stands strictly further right. |
| TreeLayout.BuildRows | bindings/wasm/layout.js:94-99 | The rows are a counting-sort index of the drawn nodes by depth. |
| TreeLayout.LayoutTree | bindings/wasm/layout.js:67-110 | All of it: the nodes in preorder of the drawn tree, rows, depth and height. Every leaf and closed subtree stands over the middle of its own slot or stub after all those taken before it, every expanded node midway over its two children, and the width is what is taken in all. |
| TreeLayout.RowIsDepth | bindings/wasm/layout.js:63-110 | A row lists exactly the drawn nodes of its depth, each strictly further right than the one before. |
| TreeLayout.SearchRow | bindings/wasm/layout.js:118-125 | The bisection stops at the first node not left of the point. |
| TreeLayout.NodeAt | bindings/wasm/layout.js:113-138 | A point beside a row is given the nearest node of that row, the left one of two as near, exactly when one is within reach. |
| TreeLayout.LayoutAnswers | bindings/wasm/layout.js:113-138 | The rows of every finished layout are as the search needs them. |
| TreeLayout.MeasuredDepths | bindings/wasm/layout.js:67-110 | The depths a read tree carries are the ones the layout needs. |
| Expansion.DrawnSize | bindings/wasm/layout.js:40-61 | The drawn tree has one node more than twice the expanded nodes that are drawn. |
| Expansion.InitialExpansion | bindings/wasm/layout.js:22-38 | Expands exactly the first inner nodes, level by level, that the budget pays for at two nodes each beside the root, and no other; so it draws at most the budget, everything exactly when it fits, hides nothing expanded and expands no node deeper than a collapsed one. |
| Expansion.ExpandBelow | bindings/wasm/layout.js:43-61 | Marks exactly the first budget/2 collapsed nodes of the subtree, level by level, and nothing else; counts two for each, and reports stopped exactly when something below is still collapsed. |
| BreadthFirst.QueueIsLevelOrder | bindings/wasm/layout.js:43-61 | A queue of nodes that appends the children of each node it takes meets the nodes level by level. |
| ExpansionBudget.GrowthOfDrawing | bindings/wasm/layout.js:40-61 | The drawing grows by the count reported plus two for every expanded node that was hidden and no longer is. |
| ExpansionBudget.HiddenUnlessUncovered | bindings/wasm/layout.js:40-61 | No hidden node stops being hidden exactly when no newly marked node has a child that was expanded already. |
| ExpansionBudget.QuietBeforehand | bindings/wasm/layout.js:40-61 | That can be read off before the call: it holds exactly when none of the first collapsed nodes, level by level, has an expanded child. |
| ExpansionBudget.WithinBudgetExactly | bindings/wasm/layout.js:40-61 | For every budget, the drawing grows within it exactly when a condition known before the call holds: a budget for every collapsed node must also pay for the hidden nodes; with a smaller one none of the nodes it pays for may have an expanded child. |
| ExpansionBudget.OvershootExample | bindings/wasm/layout.js:40-61 | With one hidden expanded node a budget of two draws four. |

## Left out

- ComponentBuild.BuildPerComponent: a formula with an empty clause is outside it, because the source stops with an assertion on a component without variables.
- HiddenDefinability.ClassifyHiddenDefinedByShow: the ids of the dual formula are taken to fit 32 bits, which the source does not check (`HiddenDefinability.RoomCanBeMissing` gives a formula and a request for which they do not), and a budget once spent stays spent.
- DimacsFile.ParseDimacs: the clause token -2147483648, on which the source panics, is outside it.
- CanonicalSymmetry.CopiesMeet: copies may get different keys when a tie is broken between variables no automorphism relates, or left to the local numbering between variables that cannot be swapped, as the source says of itself; that costs a reuse and nothing else.
- Monotone.LiteralFrequency: counts are unbounded where the source has 32 bits.
- Fork protocol: pipe, poll, read, write, wait, kill, exit and interruption are steps; thread counting, parent-death signals, buffer flushing and the inline fallback are not modelled. Nothing is assumed about scheduling: a step is shown enabled, not taken.
- Codec: lengths, ids and bytes are those the source can send (counts below 2^64, numbers within 32 bits, text in ASCII).
- Clocks: a deadline is one answer per poll; splitting it over components, telemetry and conflict limits are not modelled.
- Tarjan, CaDiCaL, Arjun, goatd, FlowCutter, min-fill and the solver portfolio: contracts on what they return.
- The remapping of an equivalence mapping onto a stripped variable space (`remap_for_stripped`): renaming only.
- Parent links, rotations, fingerprints and the cached filtered orders of a finished vtree.
- Hash maps are maps; of cached component artifacts only the trees are kept.
- DIMACS and `.vtree` texts are lines of fields: byte-level reading, the exact spacing of the header, underscores and non-ASCII digits in numbers, and exponents, or their difference with the number of fraction digits, beyond 64 bits are not modelled.
- Weighted sums are over reals where the source has exact rationals, and places on the page are reals where it has floating point.
- Scoring, candidate selection, dispersion statistics and budget scaling: calibration rather than theorems.
- Command line, environment, request and record JSON, bundle files, Graphviz, the controls and workers of the page: wiring.
- Simplification passes, gate extraction, backbones and the weighted lift are not part of this model.
