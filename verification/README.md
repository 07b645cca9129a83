# Stack graph path engine

This project models the path engine of the `stack-graphs` crate and proves what the engine relies on.

A stack graph resolves a reference to its definition by walking from node to node while a symbol stack and a
scope stack are pushed and popped. A *partial path* summarises a walk by patterns over those stacks, before and
after it. Summaries are computed file by file, stored, and later stitched together, in the place of walking the
graph. The claim behind this is one of compositional semantics: stitching summaries relates exactly the stacks
that walking relates. The project gives walks a concrete semantics (`Graphs`) and patterns a meaning under
valuations (`Patterns`), and proves that the operations of the engine make the two agree.

The layers, from the ground up:

- **Specification.** `Graphs` (node kinds, steps and runs on concrete stacks), `Patterns`, `Unification`,
  `PartialPaths` (the operations as functions).
- **The algebra of partial paths.** `CanonicalUnification` and `CanonicalJoin` (unification as a most general
  unifier), `Exactness`, `AppendExactness`, `Renaming`, `Composition`, `Concatenation`, `Settling` (what becomes
  of a walk that has come to a jump), `Stitching`, `CompletePaths`. `SharedVariables` says what happens when
  variables are not kept apart.
- **Chosen targets.** `LinearUnification`, `LinearComposition`, `ChosenJumps`: what `resolve_to_node` makes of a
  path that waits at a jump, and when joining such paths is still exact.
- **The same operations in place.** `BindingTables` and `PartialPathUpdates`: the vectors and records that the
  engine updates, with its loops, each proved to do what the functions say.
- **Cycles and preferences.** `Cyclicity`, `CycleDetection`, `ChosenBlocks` and `ChosenCycles` (the detector where
  cycles pass jumps), `RunningOut` (how often they can be gone round), `JumpingCycles` (where the detector fails),
  `Shadowing`, `SimilarPaths`, `JoinNodes`.
- **Search.** `Worklists` and `Stitcher` (phases as one first-in first-out worklist), `SearchCoverage`,
  `RecordedPaths` (edge lists record the walks of a search), `MinimalPathSet`, `SegmentSearch`, `SegmentCoverage`,
  `PathFinding` (the two searches), `DatabaseSearch`, `CycleCheck` and `RepeatChecks` (which paths the cycle check
  stops, and which it looks at), `SimilarSearch` and `ComparedPaths` (what the similarity check can lose, and what it
  turns away), `PanickingSearch` and `EndlessSearch` (a search that panics, and one that never ends), `EndToEnd`,
  `WalkCutting` and `SimpleWalks` (searching files first and stored paths then covers every walk that resolves a
  reference), `LocalNodes`.
- **Data structures.** `Deques`, `SymbolStackKeys`, `SupplementalArenas`, `RootIndex`, `NodeIDs`, `GraphEdges`,
  `Interner`.
- **Storage.** `StorageKeys`, `KeyMatching`, `LazyLoading`.

`dafny verify dfyconfig.toml` verifies the whole project.

## How to read the theorems

A path *summarises* a walk (`Exactness.Summary`) if it has the walk's ends, its pre- and postcondition relate
exactly the stacks that the walk takes to one another, and the scopes that its postcondition mentions are
exported scope nodes. `Canonical` is the shape of the preconditions that the engine builds: every attached
scope list and the scope stack is a variable of its own. The project does not assume summaries: lifting a node
gives one, and appending edges, renaming and concatenating keep it so.

A *jump* goes on at the scope on top of the scope stack. `Settling.Settle` says what becomes of a walk that comes to
one, in terms of its runs alone: if they all agree on the scope, the walk goes on there at once; if none of them has
any, it is stuck; otherwise it waits. A *journey* is the walk that fragments make up, settled after each of them.
Stitching is proved to be walking for journeys, jumps included. From empty stacks no journey ever waits
(`Settling.NowhereUndecided`, `CompletePaths.JourneyNeverWaits`), and in the search of a file no waiting path is
extended, so neither search ever leaves that ground. Only the blocks that the cycle detector rebuilds may wait and
then have their target chosen; `ChosenJumps` and the modules that build on it are about those.

Graphs are assumed to be well formed in one respect (`Graph.AttachedScopesExist`): a scope that a push scoped
symbol node attaches exists and is exported. Everything else that a theorem needs is among its preconditions.

`depth` stands for the room on the call stack. `unify` and `add` call each other (`partial.rs:1420-1421`), so the
functions count the nested calls and report `StackOverflow` when they run out; the theorems on canonical paths hold
for every depth, and show that the overflow does not happen there; on paths with chosen targets, any room is enough.
`Panic` stands for an `unwrap` of a missing value, and is likewise shown not to happen. `patience` in `PathFinding`
is the number of phases after which a caller cancels a search. `Panicked` is the outcome of a search whose cycle
check has failed (`stitching.rs:994-996`); `PathFinding` says in which step, and that it takes a cycle that passes a
jump, of the kind that `ChosenCycles.CyclesSound` excludes; `PanickingSearch` is a search in which it happens.

Where a search is said to find everything, it is up to what its own checks cut off: `SearchCoverage.CutOff`
says that, in the very run that the search makes, the cycle check has stopped a path, or the similarity check
has turned one away, from which the missing path would have been extended. `SimilarSearch` shows what the
similarity check adds to that: whatever it turns away, a path that relates the same stacks has been kept, and
stands in for it from then on. So only the cycle check, of a path or of one that stands in for it, can lose a
resolution. `CycleCheck.CycleCheckStops` says in terms of the journey which paths that check stops, and
`SimpleWalks.SimpleWalksFound` what is therefore found for certain.

## Where the code and its documentation disagree

The model follows the code.

- `concatenate` is documented to bind variables that both sides share to the same values
  (`partial.rs:2466-2470`). On preconditions that are not canonical it may overflow the call stack instead:
  `SharedVariables.SharedVariablesOverflow`. On canonical ones it never overflows
  (`SharedVariables.JoinNeverOverflows`), but may join paths that no stacks meet
  (`SharedVariables.SharedVariablesMislead`; when exactly, for stacks of one symbol:
  `SharedVariables.FoundOrNot`). All uses of it in path finding rename first, and the composition theorems
  require variables apart.
- The cycle detector is documented never to raise an error if appending all fragments succeeds
  (`cycles.rs:323-324`), and the stitcher panics if it does. `JumpingCycles.DetectorFails` is a path on which it
  does, and `PanickingSearch.SearchPanics` a search for complete paths that comes to this path and panics.
  `resolve_to_node` rewrites the preconditions when it chooses the target of a jump, but leaves the scopes attached
  in the symbol postcondition (`partial.rs:2214-2223`). The outcome summarises its walk exactly if none of the
  attached lists ends in the variable that has been waited for (`ChosenJumps.ResolveToNodeExact`); otherwise a
  block rebuilt from its own start need not fit the others. Joining has a condition as exact: the result must keep
  no variable that its precondition has lost (`LinearComposition.JoinedLinear`). While both are met in the blocks
  and cycles that the detector builds, and so in particular without a cycle that passes a jump, the claim holds
  (`ChosenCycles.DetectorThroughJumps`, `ChosenCycles.AvoidingIsSound`, `CycleDetection.DetectorReports`).
- Cycles are looked for only where a path ends at its start or at a join; elsewhere, a comment says, no path ends in
  a cycle (`stitching.rs:990-991`). That is so if candidates have led to the node both times
  (`RepeatChecks.FirstRepeatChecked`), and a first repeat goes unchecked only if a jump has
  (`RepeatChecks.UncheckedByJump`), which no degree counts. `EndlessSearch.NeverEnds` is a search that goes round
  such a cycle for ever.
- `Cyclicity::Free` and `StrengthensPostcondition` are documented as leaving the stacks alone and as
  introducing symbols (`partial.rs:2012-2019`). A cycle that leaves the stacks alone is reported as
  `StrengthensPostcondition` if it has a symbol stack variable: `Cyclicity.CycleKind`.
- Unifying two symbol stacks that end in the same variable, one of them longer, reports the error of scope
  stacks (`partial.rs:731-735`); `Unification.MatchTails` keeps that.
- The storage patterns escape wildcards but not the escape character (`storage.rs:741-767`), and leave out the
  separator after an empty first symbol. Lazy loading therefore misses stored paths for such symbols; exactly
  when: `KeyMatching.OwnPatternMatches`, `KeyMatching.SameNamesFound`, `KeyMatching.CompatibleFound`, and
  `LazyLoading.CompatibleMatchesExactly` for the rows of a storage.
- The minimal set of a file is documented to cover all complete paths when used for stitching
  (`stitching.rs:1188-1189`). Root paths without precondition symbols are in the set but not in the index
  (`RootIndex.EmptyPreconditionNeverFound`), so what needs one is not found; `EndToEnd.ResolutionsCovered` and
  `WalkCutting.WalksCovered` state what is.
- `add_path` is documented to return false for a path like one seen before, and true otherwise
  (`cycles.rs:110-112`). The code returns true for a path that is turned away, and the stitcher relies on that.
- The introduction to the cycle module speaks of limiting the number of paths with the same ends
  (`cycles.rs:32-36`); the code keeps one path per class of equal paths, and has no such limit.

## Model

| member | source | states |
|---|---|---|
| `Graphs.RunSplice` | stack-graphs/src/partial.rs:2232-2348 | What a node does to concrete stacks is compositional: running a walk that is spliced from two, the shared node counted once, is running the first and then the moves of the second |
| `Unification.UnifyScopesMostGeneral` | stack-graphs/src/partial.rs:1028-1128 | Scope stack unification from empty bindings is most general: it fails, always with the scope stack error, exactly when no valuation makes both sides equal; otherwise a valuation equates them iff it satisfies the bindings produced, and the result then denotes the common stack |
| `Unification.UnifyScopesSymmetric` | stack-graphs/src/partial.rs:1028-1128 | Whether scope stack unification succeeds does not depend on the order of its sides |
| `Unification.EvalMatched` | stack-graphs/src/partial.rs:1058-1127 | Each case of the analysis after the common prefix demands exactly the binding that makes both sides equal, or fails because none does |
| `Unification.StripScopesShape` | stack-graphs/src/partial.rs:1034-1053 | Popping equal scopes off both fronts removes the longest common prefix, and fails only where two scopes differ |
| `Unification.EvalSubstStack` | stack-graphs/src/partial.rs:596-617 | Substituting bindings and then reading the stack is reading the original stack with every bound variable read through its binding, one level deep |
| `Unification.UnificationErrors` | stack-graphs/src/partial.rs:1028-1128 | The errors of unification are the two unsatisfiable-stack errors, or running out of call stack |
| `CanonicalUnification.UnifyCanonical` | stack-graphs/src/partial.rs:628-749 | Against a canonical side, symbol stack unification succeeds iff the common prefix has the same symbols, each with or without scopes on both sides, and the tails match; every attached variable gets what stands opposite, and `add` never recurses |
| `CanonicalJoin.SymbolsMostGeneral` | stack-graphs/src/partial.rs:628-749 | Against a canonical side with variables apart, a valuation equates both symbol stacks iff unification succeeds and the valuation satisfies its bindings |
| `CanonicalJoin.UnifyStacksMostGeneral` | stack-graphs/src/partial.rs:2556-2583 | Unifying symbol and scope stacks against a canonical side: never overflows, fails only when no valuation equates both sides, and otherwise yields a most general table in solved form whose bindings come from the two sides |
| `CanonicalJoin.ThroughSatisfies` | stack-graphs/src/partial.rs:604-617 | For a table in solved form, substituting one level is enough: what variables then stand for satisfies the table |
| `CanonicalJoin.TailBinding` | stack-graphs/src/partial.rs:713-747 | Which symbol stack variable is bound, and to which rest of the other side, follows from the two lengths |
| `BindingTables.ScopeTable.Get` | stack-graphs/src/partial.rs:1400-1405 | Reading a variable from the vector gives what the table as a map holds for it, also beyond the end |
| `BindingTables.ScopeTable.Add` | stack-graphs/src/partial.rs:1410-1425 | Updating the vector in place does what adding to the map does: a first binding is stored, a second one unified with the first, which may add others |
| `BindingTables.SymbolTable.Add` | stack-graphs/src/partial.rs:1320-1336 | The same for symbol stacks, with both tables updated |
| `BindingTables.UnifyScopeStacks` | stack-graphs/src/partial.rs:1028-1128 | The loop that pops both stacks, and the cases after it, compute the result and the table of the unification function |
| `BindingTables.UnifyFronts` | stack-graphs/src/partial.rs:640-684 | The loop that unifies the symbols both stacks start with leaves stacks whose unification, with these symbols in front, is that of the originals |
| `BindingTables.UnifySymbolStacks` | stack-graphs/src/partial.rs:628-749 | Symbol stack unification over the mutable tables computes what the unification function says, error for error |
| `BindingTables.ApplyToScopes` | stack-graphs/src/partial.rs:999-1018 | Applying scope bindings in place substitutes one level |
| `BindingTables.ApplyToSymbols` | stack-graphs/src/partial.rs:596-617 | Applying both tables to a symbol stack substitutes one level, attached scopes included |
| `BindingTables.RenameSymbols` | stack-graphs/src/partial.rs:504-518 | The loop that offsets a symbol stack offsets every attached variable and the final one |
| `BindingTables.LargestScopeVariable` | stack-graphs/src/partial.rs:846-855 | The loop finds a largest attached scope stack variable, 0 if there is none |
| `SharedVariables.UnifyWithItself` | stack-graphs/src/partial.rs:1072-1074 | Unifying a variable with itself binds it to itself |
| `SharedVariables.SelfBoundNeverBinds` | stack-graphs/src/partial.rs:1410-1425 | Binding a self-bound variable once more never succeeds: it fails if the new stack ends in that very variable below some scopes, and otherwise overflows whatever the size of the call stack |
| `SharedVariables.SharedVariablesOverflow` | stack-graphs/src/partial.rs:2466-2530 | If a precondition is not canonical, concatenating paths with a common variable can overflow although every valuation makes the sides agree, against the documentation; renamed apart, the same paths join |
| `SharedVariables.KeepingOverflows` | stack-graphs/src/partial.rs:2534-2597 | Of these non-canonical paths, joining two overflows iff they have the same variable |
| `SharedVariables.JoinNeverOverflows` | stack-graphs/src/partial.rs:2534-2597 | Against a canonical precondition, unification never overflows, whatever variables are shared |
| `SharedVariables.FoundOrNot` | stack-graphs/src/partial.rs:2534-2597 | One symbol with scopes above a scope stack, against a canonical precondition: unification succeeds although no valuation equates the sides iff each side's variable is to stand for the other's with scopes in between; it never misses what a valuation equates |
| `SharedVariables.OnceIsEnoughWhen` | stack-graphs/src/partial.rs:604-617 | There, substituting the bindings once solves them iff none is bound to the other variable, or the other variable is bound to itself |
| `SharedVariables.SharedVariablesMislead` | stack-graphs/src/partial.rs:2466-2530 | Two canonical paths with shared variables concatenate with success although no stacks meet |
| `Exactness.AppendNodeEnters` | stack-graphs/src/partial.rs:2232-2348 | For every node kind, entering it takes the postcondition through the node's step, under a precondition that is met exactly by the stacks that can take the step; it fails exactly if none can |
| `Exactness.PostVariablesOccurInPre` | stack-graphs/src/partial.rs:1731-1764 | The postcondition of a sound path mentions no variable that its precondition lacks |
| `Exactness.ExactDenotes` | stack-graphs/src/partial.rs:1719-1727 | Soundness and completeness make the pre- and postcondition relate exactly the stacks that the walk relates |
| `AppendExactness.AppendNodeExact` | stack-graphs/src/partial.rs:2232-2348 | Entering a node makes an exact summary of the longer walk, and fails only if no stacks can run that walk |
| `AppendExactness.EntryErrors` | stack-graphs/src/partial.rs:2232-2348 | Which error a refused entry gives: nothing to pop iff all runs of the walk end with an empty symbol stack; the wrong symbol iff all end with another symbol on top; missing attached scopes, or unexpected ones, iff all end with this symbol on top, without scopes or with; an unknown scope iff the node has none to attach |
| `AppendExactness.FromNodeSummary` | stack-graphs/src/partial.rs:1731-1764 | Lifting a node never fails; the result summarises the walk that only enters it, is canonical and has no edges |
| `AppendExactness.ResolveExact` | stack-graphs/src/partial.rs:2161-2185 | Resolving a jump from the postcondition follows the only target there is; fails when there is none; and waits exactly when every exported scope is possible |
| `AppendExactness.AppendSummary` | stack-graphs/src/partial.rs:2125-2156 | Appending an edge to a summary succeeds iff stacks can run the longer walk, and summarises it |
| `AppendExactness.TraceSummary` | stack-graphs/src/partial.rs:2125-2185 | Folding `append` over any edges, jumps from the postcondition included, arrives only at canonical summaries of the walk made |
| `AppendExactness.EdgeByEdge` | stack-graphs/src/partial.rs:1731-2156 | Edge-by-edge summaries are exact: over any jump-free chain, the fold fails iff no stacks can complete the walk; otherwise the path relates exactly its runs, is canonical, mentions no postcondition variable that the precondition lacks, and records the edges |
| `Renaming.OffsetRelates` | stack-graphs/src/partial.rs:2059-2082 | Renaming keeps the relation that a path denotes |
| `Renaming.RenamedIsApart` | stack-graphs/src/partial.rs:2059-2082 | After `ensure_no_overlapping_variables`, no variable occurs in both preconditions |
| `Composition.HalfOpenLeft` | stack-graphs/src/partial.rs:2426-2460 | The postcondition of a summary can always be half-opened, which undoes the effect of its end node if that pushes, and nothing else |
| `Composition.HalfOpenRight` | stack-graphs/src/partial.rs:2371-2424 | The precondition of a canonical summary can always be half-opened, which undoes the effect of its start node if that pops, and stays canonical |
| `Composition.HalfOpened` | stack-graphs/src/partial.rs:2371-2424 | The precondition of any summary can be half-opened, canonical or not, which undoes its start node's pop and brings in no variables |
| `Composition.MeetingRuns` | stack-graphs/src/partial.rs:2534-2597 | Stacks on which the half-open conditions agree run the right walk on from where the left one ends |
| `Composition.RunMeets` | stack-graphs/src/partial.rs:2534-2597 | Every run of both walks is a valuation on which the half-open conditions agree |
| `Composition.JoinedExact` | stack-graphs/src/partial.rs:2472-2530 | Joining succeeds iff stacks can run both walks, and is exact |
| `Concatenation.JoinedSummary` | stack-graphs/src/partial.rs:2472-2597 | Concatenation is exact composition: for summaries that meet in a node, the right one canonical and variables apart, it succeeds iff some stacks can run the left walk and then the right one, the join node counted once, and relates exactly the stacks that they relate; it keeps paths canonical and neither panics nor overflows |
| `Concatenation.ConcatenateSummary` | stack-graphs/src/partial.rs:2472-2530 | The same, followed by the jump at the end of the right walk: an error although both walks can be run means that no jump is possible |
| `Concatenation.AppendPathSummary` | stack-graphs/src/stitching.rs:134-145 | Renaming and concatenating while stitching extends a summary, and fails iff stacks cannot run the longer walk |
| `Settling.NowhereUndecided` | stack-graphs/src/partial.rs:2161-2185 | From empty stacks every jump is decided: the walk goes on at the scope on top |
| `Settling.KnownIsDecided` | stack-graphs/src/partial.rs:2161-2185 | A summary knows the target of its jump iff all runs of its walk agree on it, and finds the scope stack empty iff all of them do |
| `Settling.ResolveSettles` | stack-graphs/src/partial.rs:2161-2185 | Resolving the jump gives a summary of the settled walk, and fails iff no run has a scope to go on at |
| `Settling.AppendPathSettles` | stack-graphs/src/stitching.rs:134-145 | Renaming, concatenating and resolving extends a summary by a stored path that may end in a jump; it fails iff no stacks can run the longer walk or none leaves a scope to jump to |
| `Settling.AppendEdgeSettles` | stack-graphs/src/stitching.rs:102-111 | The same for an edge |
| `PartialPathUpdates.Path.FromNode` | stack-graphs/src/partial.rs:1731-1764 | The record lifted from a node is the path of that node |
| `PartialPathUpdates.Path.Enter` | stack-graphs/src/partial.rs:2232-2348 | Updating the conditions in place has the node's effect; on an error the precondition's symbols and the scope postcondition are as before |
| `PartialPathUpdates.Path.EnsureNoOverlappingVariables` | stack-graphs/src/partial.rs:2059-2082 | The record ends up renamed apart from the other one |
| `PartialPathUpdates.Path.EliminatePreconditionStackVariables` | stack-graphs/src/partial.rs:2085-2123 | The record ends up with empty stacks for the variables that end its preconditions |
| `PartialPathUpdates.Path.ResolveFromPostcondition` | stack-graphs/src/partial.rs:2161-2185 | The record follows a known jump; on an error it is as before |
| `PartialPathUpdates.Path.ResolveToNode` | stack-graphs/src/partial.rs:2191-2227 | The record is led to the node by rewriting its preconditions; on an error it is as before |
| `PartialPathUpdates.Path.Append` | stack-graphs/src/partial.rs:2125-2156 | Appending an edge in place gives the appended path; if the sink cannot be entered, only the symbol postcondition may have changed |
| `PartialPathUpdates.Path.ComputeJoin` | stack-graphs/src/partial.rs:2534-2597 | The tables that join the record to another one |
| `PartialPathUpdates.Path.Concatenate` | stack-graphs/src/partial.rs:2472-2530 | Concatenating in place gives the concatenated path; if the paths do not join, the record is as before |
| `PartialPathUpdates.Path.AppendPath` | stack-graphs/src/stitching.rs:134-145 | Stitching a stored path on in place: resolve, rename, concatenate |
| `PartialPathUpdates.Path.AppendEdge` | stack-graphs/src/stitching.rs:102-111 | Stitching an edge on in place: resolve, append |
| `PartialPathUpdates.Path.IsCyclic` | stack-graphs/src/partial.rs:1854-1897 | The check on the record gives its kind of cycle and changes nothing |
| `Stitching.AppendFragmentSummary` | stack-graphs/src/stitching.rs:102-145 | Appending any fragment, edge or path, whether or not it ends in a jump, succeeds iff stacks can run the longer walk and, at a jump, leave a scope to go on at; the result summarises the longer walk with its jump settled, and counts its edges |
| `Stitching.StitchSummary` | stack-graphs/src/stitching.rs:134-145 | Stitching equals walking: a list of fragments, ending in jumps or not, is stitched with success iff stacks can run the journey they make up, jumps between them included; the result relates exactly what that journey relates, and records one more edge for every jump |
| `Stitching.StitchPlain` | stack-graphs/src/stitching.rs:134-145 | Without jumps: stitching succeeds iff stacks can run the spliced walk, and relates exactly what that walk relates |
| `Stitching.CutsAgree` | stack-graphs/src/stitching.rs:102-145 | Two ways of cutting one journey into fragments stitch to the same relation, or both fail |
| `Stitching.StitchingEqualsWalking` | stack-graphs/src/stitching.rs:102-145 | Stitching stored pieces of a jump-free chain agrees with appending its edges one at a time |
| `Stitching.AppendAssociative` | stack-graphs/src/stitching.rs:134-145 | Appending paths is associative up to renaming, whatever jumps they end in |
| `Stitching.SettledPart` | stack-graphs/src/partial.rs:2161-2185 | Following the jump at the end of a walk's last part before or after joining it to the rest makes no difference |
| `Stitching.FragmentsNeverFail` | stack-graphs/src/cycles.rs:323-325 | If stitching a list of fragments succeeds, stitching any contiguous run of it from that run's start node succeeds too, as long as no jump comes between the fragments of the run; across a jump, the blocks that the detector builds of such a run join if choices are free (`ChosenCycles.DetectorThroughJumps`), and need not if not (`JumpingCycles.DetectorFails`) |
| `Cyclicity.SymbolVariableCarriedThrough` | stack-graphs/src/partial.rs:1854-1897 | The symbol stack variable of a sound precondition also ends the postcondition |
| `Cyclicity.JoinTails` | stack-graphs/src/partial.rs:2534-2597 | Which variable a join binds to what, in terms of the half-open numbers of symbols |
| `Cyclicity.CycleKind` | stack-graphs/src/partial.rs:1854-1897 | `is_cyclic` on an open cycle: no cycle iff it cannot be run twice in a row; otherwise StrengthensPrecondition iff its half-open precondition has more symbols than its half-open postcondition, else StrengthensPostcondition, never Free |
| `Cyclicity.CycleKindOfWalk` | stack-graphs/src/partial.rs:1854-1897 | Two canonical summaries of one cycle are of the same kind |
| `Cyclicity.AppendCycle` | stack-graphs/src/stitching.rs:992-1013 | Appending a cycle to a path without precondition variables shortens its symbol postcondition by exactly the difference of the half-open lengths |
| `Cyclicity.StrengtheningRunsOut` | stack-graphs/src/stitching.rs:992-1013 | So a cycle that strengthens the precondition can be repeated at most as often as the path's symbol stack is long |
| `RunningOut.RunsOut` | stack-graphs/src/partial.rs:1854-1897 | The same for any cycle that strengthens the precondition, whatever jumps it passes: from any stacks it can be gone round at most as often as there are symbols and scopes on them, and once more |
| `RunningOut.TakersShorten` | stack-graphs/src/partial.rs:1854-1897 | Why: if going round twice takes more scopes than once, then going round always ends with the scopes that were there, less some |
| `CycleDetection.InitialSummary` | stack-graphs/src/stitching.rs:1272-1283 | The initial path of a search summarises the walk of its node, from any stacks or from empty ones |
| `CycleDetection.StitchFromEmptyStacks` | stack-graphs/src/stitching.rs:1272-1283 | A path that starts with empty stacks keeps an empty precondition whatever is stitched to it, jumps included |
| `CycleDetection.BlockBuilds` | stack-graphs/src/cycles.rs:362-381 | Any block of fragments without jumps between them is stitched with success from its own start node |
| `CycleDetection.JoinBlocks` | stack-graphs/src/cycles.rs:383-392 | Joining a block to the cycle found before it builds the longer suffix |
| `CycleDetection.BuiltKind` | stack-graphs/src/cycles.rs:383-403 | Built block by block or fragment by fragment, a suffix is a cycle of the same kind |
| `CycleDetection.CycleLength` | stack-graphs/src/cycles.rs:345-361 | The inner loop finds the shortest remaining suffix that starts at the end node, if there is one |
| `CycleDetection.RoundBuilds` | stack-graphs/src/cycles.rs:362-392 | Without jumps in between, a block and the cycle behind it are built without error, into the longer suffix |
| `CycleDetection.DetectCycles` | stack-graphs/src/cycles.rs:325-405 | On any fragments whatever, the loops compute what `Detected` says: kinds of the cycles rebuilt block by block from the end, or the first error |
| `CycleDetection.DetectorReports` | stack-graphs/src/cycles.rs:323-405 | On fragments that were appended with success and none of whose cycles passes a jump, the detector succeeds and reports the kinds of exactly those suffixes that start where the path ends |
| `JumpingCycles.DetectorFails` | stack-graphs/src/cycles.rs:323-325 | On fragments that were appended with success and have a cycle that passes a jump, it can fail: a path from a reference on which it does |
| `JumpingCycles.DetectorLetsPass` | stack-graphs/src/cycles.rs:343-405 | Where that path comes to its last node the times before, the detector reports no cycle, and then one that does not stop it; so a search goes on to the path |
| `JumpingCycles.PushingBlock` | stack-graphs/src/partial.rs:2191-2227 | An instance of `ChosenJumps.ResolveToNodeExact`: the block of that path whose target is chosen from an attached list does not summarise its walk |
| `ChosenJumps.ResolveToNodeExact` | stack-graphs/src/partial.rs:2191-2227 | Choosing the target of a jump at which a summary waits gives a summary of the longer walk iff none of the scope lists attached in the symbol postcondition ends in the variable that is waited for |
| `ChosenJumps.AppendAfterChoice` | stack-graphs/src/stitching.rs:134-145 | Once the target has been chosen, appending goes on as if the path had ended there all along |
| `LinearUnification.UnifyStacksLinear` | stack-graphs/src/partial.rs:2556-2583 | Against a side each of whose variables occurs once, some of them below scopes: unification fails only when no valuation equates both sides, and otherwise a valuation equates them iff it satisfies the bindings, and those of scope variables can always be satisfied; it never overflows, although variables may have to be bound twice |
| `LinearComposition.JoinedLinear` | stack-graphs/src/partial.rs:2472-2597 | Joining to a path whose targets have been chosen succeeds iff stacks can run both walks; the result is exact iff its postcondition has kept no variable that is gone from its precondition, which substituting the bindings once may leave there |
| `LinearComposition.JoinedChosen` | stack-graphs/src/partial.rs:2472-2597 | The same for summaries; and joining keeps to paths of this kind |
| `ChosenBlocks.ChosenBlockBuilds` | stack-graphs/src/cycles.rs:362-381 | A block that passes jumps is rebuilt without error and summarises its part of the way, or waits one node before its end, if no choice in it is from an attached list |
| `ChosenCycles.ChosenCycleKind` | stack-graphs/src/partial.rs:1854-1897 | On a cycle with chosen targets, `is_cyclic` reports what the walk says: no cycle iff it cannot be run twice in a row; StrengthensPrecondition iff going round takes off more symbols than it puts there, or twice round more scopes than once; otherwise StrengthensPostcondition |
| `ChosenCycles.ChosenRound` | stack-graphs/src/cycles.rs:362-392 | Through jumps, a round builds the block and joins the cycle behind it without error; the longer cycle summarises the longer rest of the way if its postcondition has kept no variable that is gone from its precondition |
| `ChosenCycles.DetectorThroughJumps` | stack-graphs/src/cycles.rs:323-405 | On fragments that were appended with success, jumps passed or not: the detector succeeds, and reports the kinds of exactly those parts of the way that lead from its end back to its end, as long as the targets in its blocks are not chosen from attached lists and its cycles lose no variable |
| `ChosenCycles.AvoidingIsSound` | stack-graphs/src/cycles.rs:323-405 | Fragments none of whose cycles passes a jump meet that condition |
| `CompletePaths.CompletePathsResolve` | stack-graphs/src/partial.rs:1821-1837 | Stitching from a reference, through any jumps, succeeds iff the journey can be run from empty stacks and does not end at a jump; the path then relates exactly its run, and is complete iff the journey resolves the reference to a definition with nothing left on the symbol stack |
| `CompletePaths.JourneyNeverWaits` | stack-graphs/src/partial.rs:2161-2185 | From a reference, a journey that can be run never waits at a jump |
| `Shadowing.ShadowsByPrecedence` | stack-graphs/src/partial.rs:1485-1487 | Of two recorded walks, one shadows the other iff, at the node where they part, the edge that it takes has the higher precedence |
| `Shadowing.EdgeListShadows` | stack-graphs/src/partial.rs:1595-1608 | The loop finds whether, at some position up to which all sources agree, the first list's edge shadows the second's; for the lists of two walks, whether the first walk parts from the second along an edge of higher precedence |
| `Shadowing.ShadowsAtFirstDifference` | stack-graphs/src/partial.rs:1595-1608 | Of two real walks, one shadows the other iff the first edges in which they differ leave the same node, the first walk's with the higher precedence |
| `Shadowing.ShadowsIrreflexive` | stack-graphs/src/partial.rs:1595-1608 | No list shadows itself |
| `Shadowing.ShadowsAsymmetric` | stack-graphs/src/partial.rs:1595-1608 | On real walks in one graph, shadowing is asymmetric |
| `Shadowing.ShadowsTransitive` | stack-graphs/src/partial.rs:1595-1608 | On real walks in one graph, shadowing is transitive |
| `Shadowing.ShadowsMutual` | stack-graphs/src/partial.rs:1595-1608 | On arbitrary lists it is neither: two lists can shadow each other |
| `Shadowing.TraceIsReal` | stack-graphs/src/partial.rs:2125-2156 | The edge list of a path built edge by edge from a graph records a walk in it |
| `Shadowing.ConcatenationIsReal` | stack-graphs/src/partial.rs:2517-2525 | So does the edge list of a concatenation |
| `RecordedPaths.StitchRecords` | stack-graphs/src/partial.rs:2125-2185 | Whatever is stitched from fragments that record their walks records the journey they make up, the jumps between them included |
| `RecordedPaths.RunRecorded` | stack-graphs/src/stitching.rs:970-1110 | In a search whose candidates record walks, so does every path pending or found |
| `Shadowing.KeepUnshadowed` | stack-graphs/src/assert.rs:200-207 | The loops keep exactly the paths that none of the others shadows, in order: of paths that record walks, exactly those from whose walk no other one parts along an edge of higher precedence |
| `Shadowing.KeptByPrecedence` | stack-graphs/src/assert.rs:200-207 | So of two paths that part at a node, the one over the edge of lower precedence is dropped |
| `Shadowing.DroppedIsShadowedByKept` | stack-graphs/src/assert.rs:200-207 | Every dropped path is shadowed by a kept one |
| `Shadowing.SomethingIsKept` | stack-graphs/src/assert.rs:200-207 | Something is kept of every non-empty list |
| `SimilarPaths.Compare` | stack-graphs/src/stitching.rs:1058-1075 | The comparator relates only paths that are equal but for their edges, and finds the left one less iff it shadows the right one; for recorded walks, less iff its walk is preferred where they part, greater iff the other one is, and equal otherwise |
| `SimilarPaths.SimilarPathDetector.AddPath` | stack-graphs/src/cycles.rs:113-167 | One offer: a path like a kept one is turned away and counted, or takes its place and its count if it shadows it; any other path is kept with count 0; other buckets stay as they are |
| `SimilarPaths.SweepBucket` | stack-graphs/src/cycles.rs:129-160 | The loop over a bucket, removing as it goes, does what one offer does |
| `SimilarPaths.AlikeShareKey` | stack-graphs/src/cycles.rs:74-86 | Equal paths share a bucket |
| `SimilarPaths.BucketsRepresentOffers` | stack-graphs/src/cycles.rs:113-167 | Over any sequence of offers of real paths: every bucket holds offers of its key, one for each class of equal paths and never two, none shadowed by any path of its class offered so far, with the number of its class turned away |
| `SimilarPaths.CountsSumToRejections` | stack-graphs/src/cycles.rs:113-188 | Over any sequence of offers, the counts sum to the number of paths turned away |
| `SimilarSearch.RunRepresents` | stack-graphs/src/stitching.rs:1050-1075 | In any run of a search over recorded paths, every bucket of its detector represents all that the run has offered, which is every extension made after a split that ends at a join: one path of each class, none shadowed by any of its class |
| `ComparedPaths.LaterIsBetter` | stack-graphs/src/stitching.rs:1051-1084 | In any run with a detector: of two paths found after a split that end at the same join (at any node, if all are checked), with the same ends and conditions, the later one parts from the earlier one along an edge of higher precedence |
| `ComparedPaths.OnlyComparedTurnedAway` | stack-graphs/src/stitching.rs:1051-1084 | An extension is turned away only by a detector, only after a split, and only at a join (at any node, if all are checked) |
| `ComparedPaths.RunSplit` | stack-graphs/src/stitching.rs:1046-1051 | A path has split iff, somewhere on the way to it, more than one candidate could be appended |
| `ComparedPaths.StartDetects` | stack-graphs/src/stitching.rs:854-889 | The initial paths have not split |
| `SimilarSearch.StitchLikeFound` | stack-graphs/src/stitching.rs:970-1110 | With or without the similarity check: of whatever candidates can be stitched to an initial path, that or a path equal to it but for its edges is found, unless the cycle check has stopped one that stands in for it on the way |
| `SimilarSearch.ResolutionLikeVisited` | stack-graphs/src/stitching.rs:1260-1311 | So for every resolution that candidates can be stitched to, a search for complete paths visits one that relates the same stacks, unless the cycle check has stopped one that stands in for it on the way |
| `SimilarSearch.StoreRespectsAlike` | stack-graphs/src/stitching.rs:383-405 | The candidates that a database gives do not depend on a path's edges |
| `SimilarSearch.StoreRecorded` | stack-graphs/src/stitching.rs:383-504 | The candidates of a database of paths that record walks do |
| `SimilarSearch.FileRecorded` | stack-graphs/src/stitching.rs:219-250 | The candidates of the search of a file are edges of the graph, recorded as they are |
| `LocalNodes.FixedPoint` | stack-graphs/src/stitching.rs:549-598 | Once a sweep changes nothing, the ends outside both sets are the nodes that neither are reachable from nor can reach root or jump-to through partial paths |
| `LocalNodes.LocalNodeFinder.Sweep` | stack-graphs/src/stitching.rs:562-597 | A sweep marks only connected nodes, and either sets a mark or finds both sets closed |
| `LocalNodes.LocalNodeFinder.FindLocalNodes` | stack-graphs/src/stitching.rs:549-598 | It terminates, and leaves exactly the local nodes |
| `Worklists.StepsCompose` | stack-graphs/src/stitching.rs:1127-1180 | Steps compose: phases of any size add up to one run |
| `Worklists.NothingLost` | stack-graphs/src/stitching.rs:1127-1180 | What was there and what was added is what was processed and what is pending, in the same order |
| `Worklists.InitialNeverAsked` | stack-graphs/src/stitching.rs:1144-1153 | `extend_while` is asked about every processed path but the initial ones |
| `Worklists.CompleteRunsAgree` | stack-graphs/src/stitching.rs:1127-1180 | Complete runs process and discover the same paths in the same order, however they were divided |
| `Worklists.ProcessedAt` | stack-graphs/src/stitching.rs:1144-1153 | The path that a step processes is the one at the front of the worklist |
| `Stitcher.ExtensionTracked` | stack-graphs/src/stitching.rs:1018-1037 | An extension is stitched from candidates one after the other, and summarises the journey that its fragments make up |
| `Stitcher.RunsOrderly` | stack-graphs/src/stitching.rs:970-1110 | Over any run, every pending and every discovered path is stitched from candidates and summarises the journey that they make up, from the origin of the search, wherever jumps lead it |
| `Stitcher.CheckFailsAtJumps` | stack-graphs/src/stitching.rs:992-1001 | The cycle check panics only on a path with a cycle that passes a jump; and, given any room on the call stack, only if one of the detector's blocks has a target chosen from an attached list, or one of its cycles has lost a variable |
| `Stitcher.StartOrderly` | stack-graphs/src/stitching.rs:854-889 | The initial paths do |
| `Stitcher.ForwardPartialPathStitcher.TryCandidates` | stack-graphs/src/stitching.rs:1018-1056 | The loop keeps exactly the candidates that can be appended, in order |
| `Stitcher.ForwardPartialPathStitcher.Extend` | stack-graphs/src/stitching.rs:970-1110 | Extending a path panics iff the cycle detector fails on its fragments; otherwise it drops the path, without looking anything up, if the cycle check stops it (for which see `CycleCheck.CycleCheckStops`), and hands on its dissimilar extensions if not; the work is the number of candidates looked up |
| `CycleCheck.CycleCheckStops` | stack-graphs/src/stitching.rs:982-1013 | In terms of the journey: a path whose end node is checked is stopped iff some part of its journey leads from its end node back to it and, if the search is from any stacks, can be gone round twice in a row; if it is from empty stacks, moreover takes neither symbols nor scopes off. A path that is stopped looks no candidates up; any other tries them all |
| `CycleCheck.AllCandidatesTried` | stack-graphs/src/stitching.rs:1018-1045 | Then exactly what candidates can be appended to is found, if no similar paths are looked for |
| `CycleCheck.LetPassRunsOut` | stack-graphs/src/stitching.rs:997-1013 | If a path from empty stacks is let pass, every cycle that it ends in runs out |
| `CycleCheck.FileCyclesInOrder` | stack-graphs/src/stitching.rs:1199-1245 | In the search of a file all this holds of every path |
| `CycleCheck.SearchRecordsJumps` | stack-graphs/src/cycles.rs:362-403 | In a search whose candidates record walks, a fragment that comes to a jump has edges |
| `Stitcher.ForwardPartialPathStitcher.ProcessNext` | stack-graphs/src/stitching.rs:1144-1163 | Taking a path off the queue is one step of the worklist; it panics iff the step extends the path and the cycle detector fails on it |
| `Worklists.PhaseUnique` | stack-graphs/src/stitching.rs:1141-1163 | The work bound decides how many steps a phase takes |
| `Stitcher.ForwardPartialPathStitcher.ProcessNextPhase` | stack-graphs/src/stitching.rs:1127-1180 | A phase takes the steps of one first-in first-out worklist up to the first one that extends a path and brings the number of candidates looked up to the bound, and otherwise through all paths that were there at its start; the next iteration then holds what these steps discovered; it panics iff one of the steps does, and that is its last |
| `SearchCoverage.RunGenealogy` | stack-graphs/src/stitching.rs:970-1110 | Over any run, if no lookup gives a candidate twice, no two paths found are stitched from the same fragments, and each continues a processed one |
| `SearchCoverage.RunStitched` | stack-graphs/src/stitching.rs:1018-1056 | Every path found is what its fragments stitch to |
| `SearchCoverage.RunRooted` | stack-graphs/src/stitching.rs:970-1110 | Every path found goes back to one that the search started with |
| `SearchCoverage.StitchFound` | stack-graphs/src/stitching.rs:970-1180 | In a complete run, whatever candidates can be stitched to an initial path is found, unless the cycle check or the similarity check cuts it or a part of it off; lookups may give a candidate twice |
| `SearchCoverage.StitchComes` | stack-graphs/src/stitching.rs:970-1180 | Without similar path detection, also in runs that never end: whatever candidates can be stitched to comes to the front at some step, if the cycle check lets the parts before it pass |
| `SearchCoverage.OnlyCyclesCut` | stack-graphs/src/stitching.rs:895-907 | Without similar path detection, only the cycle check cuts anything off |
| `MinimalPathSet.CutIntoSegments` | stack-graphs/src/stitching.rs:1199-1245 | Every chain in a file from an endpoint to an endpoint or a jump splits into segments with neither strictly inside |
| `MinimalPathSet.SplitUnique` | stack-graphs/src/stitching.rs:1199-1245 | It does so in one way only |
| `MinimalPathSet.SegmentsMinimal` | stack-graphs/src/stitching.rs:1186-1198 | No segment is made up of others |
| `SegmentSearch.SearchSensible` | stack-graphs/src/stitching.rs:1199-1245 | The candidates of the search in a file continue its paths: from the endpoints, no path that has reached a jump is extended |
| `SegmentSearch.TrackedOnTrack` | stack-graphs/src/stitching.rs:1199-1245 | Every path of the search follows an uninterrupted chain of edges of the file from an endpoint, and is its settled summary |
| `SegmentSearch.NeverPanics` | stack-graphs/src/stitching.rs:992-1001 | In the search of a file the cycle check never panics: no cycle of its paths passes a jump |
| `SegmentSearch.VisitedIsSegment` | stack-graphs/src/stitching.rs:1210-1243 | A visited path, ending in a jump or not, is the exact summary of the segment its fragments follow, settled if that comes to a jump |
| `SegmentSearch.SegmentNotExtended` | stack-graphs/src/stitching.rs:1144-1163 | No path found continues a segment |
| `SegmentCoverage.ChainOfCandidates` | stack-graphs/src/stitching.rs:219-250 | Along an uninterrupted chain that stacks can run, every edge is a candidate and can be appended |
| `SegmentCoverage.SegmentVisitedOnce` | stack-graphs/src/stitching.rs:1199-1245 | Every segment that stacks can run, jump-ended ones included, and that neither check cuts off is visited, and exactly once |
| `SegmentCoverage.SegmentsPassable` | stack-graphs/src/stitching.rs:1199-1245 | If stacks can run a chain between endpoints, they can run each of its segments |
| `PathFinding.VisitPhase` | stack-graphs/src/stitching.rs:1234-1243 | The loop visits the accepted paths of a phase, in order |
| `PathFinding.RunPhases` | stack-graphs/src/stitching.rs:1223-1244 | Phases run to the end visit exactly the accepted paths that the worklist discovers, in order, and the cycle check panics in none of the steps; if it does panic, it is in the last step; the search is given up only after a step or more for each phase that the caller puts up with, while paths are left; a run that is complete by then, without a panic, succeeds |
| `PathFinding.FileNeverPanics` | stack-graphs/src/stitching.rs:992-1001 | No step of a search of a file panics |
| `PathFinding.PanicsAtJumps` | stack-graphs/src/stitching.rs:992-1001 | A step of a search that panics does so on a path with a cycle that passes a jump, where a choice is not free or a cycle has lost a variable |
| `PathFinding.FindAllCompletePartialPaths` | stack-graphs/src/stitching.rs:1260-1311 | Sound: whatever is visited is stitched from one of the references with candidates, relates on empty stacks exactly what their journey relates, jumps included, and that journey resolves the reference. Covering: whatever candidates can be stitched to that is complete is visited, unless one of the checks cuts it off in the run. The paths come in the order in which the run discovers them. A panic takes a path of the run with a cycle that passes a jump, where a choice is not free or a cycle has lost a variable. It gives up only when patience is spent and paths are left |
| `PanickingSearch.JumpingSensible` | stack-graphs/src/stitching.rs:1260-1311 | A small graph and its edges, searched for complete paths from a reference, meet everything that the search requires |
| `PanickingSearch.SearchPanics` | stack-graphs/src/stitching.rs:992-996 | Some step of that very search panics: the path on which the detector fails comes to the front |
| `PanickingSearch.SearchNeverSucceeds` | stack-graphs/src/stitching.rs:1285-1303 | So the search never ends with success |
| `PathFinding.FindMinimalPartialPathSetInFile` | stack-graphs/src/stitching.rs:1199-1245 | Minimal: whatever is visited is the exact summary of a segment from one of the given nodes, and can be stored. Covering: every segment from them that stacks can run, jump-ended ones included, is summarised by a visited path, unless one of the checks cuts it off in the run, and exactly once: each visited path is that of a segment of its own. It never panics, and gives up only when patience is spent and paths are left |
| `DatabaseSearch.StoreSensible` | stack-graphs/src/stitching.rs:383-405 | Searching a database of stored summaries from references meets what the searches require, whether or not a path is stored twice |
| `DatabaseSearch.AppendableIsCandidate` | stack-graphs/src/stitching.rs:383-504 | A stored path that can be appended is a candidate, unless it starts at the root without precondition symbols |
| `DatabaseSearch.ChainOfStoredPaths` | stack-graphs/src/stitching.rs:383-504 | Along a journey over indexed paths that can be run, each is a candidate and can be appended |
| `DatabaseSearch.JourneyFound` | stack-graphs/src/stitching.rs:1247-1311 | Every journey over indexed paths that resolves a reference is found by a search of the database, as a path that relates exactly what it relates, unless one of the checks cuts it off |
| `EndToEnd.VisitedStorable` | stack-graphs/src/stitching.rs:1183-1189 | Whatever the search of a file visits can be stored |
| `EndToEnd.ResolutionsCovered` | stack-graphs/src/stitching.rs:1183-1189 | Once files have been searched one by one and what was visited is stored, every journey over segments of the files that resolves a reference is found by searching the stored paths; it is lost only if a check cuts off one of its segments or their stitch, or if a segment leaves the root on an empty symbol stack |
| `WalkCutting.ResolutionIsJourney` | stack-graphs/src/stitching.rs:1186-1245 | Every walk along edges inside files and over jumps that resolves a reference is the journey of some segments of the files |
| `WalkCutting.WalksCovered` | stack-graphs/src/stitching.rs:1183-1189 | So every such walk is found by searching the stored paths, as a path that relates exactly what it relates, up to what the checks cut off and the index does not return |
| `SimpleWalks.SimpleNotStopped` | stack-graphs/src/stitching.rs:982-1013 | A path that leads back to none of its nodes is never stopped |
| `SimpleWalks.SimpleFound` | stack-graphs/src/stitching.rs:970-1180 | Without similar path detection, whatever candidates can be stitched to without coming back to a node on the way is found |
| `SimpleWalks.SimpleWalksFound` | stack-graphs/src/stitching.rs:1183-1189 | And so every walk along edges inside files and over jumps that resolves a reference, and comes to no node but jumps twice, is found for certain by searching the stored paths, up to what the index does not return |
| `Deques.ContentKept` | stack-graphs/src/arena.rs:639-680 | Whatever is added to the arena, every list keeps its content |
| `Deques.ElementsKept` | stack-graphs/src/arena.rs:913-1073 | Every older copy of a deque keeps its elements |
| `Deques.DequeArena.ReverseCells` | stack-graphs/src/arena.rs:761-789 | The loop copies a list in reverse, and the last copy is cached as the reversal's reversal |
| `Deques.DequeArena.ReverseList` | stack-graphs/src/arena.rs:699-724 | Reversing gives the reversed content; it adds no cells if the reversal is known; reversing the result leads back to the same list |
| `Deques.ReversalMutual` | stack-graphs/src/arena.rs:626-724 | Cached reversals are true reversals and come in mutual pairs |
| `Deques.DequeArena.PushFront` | stack-graphs/src/arena.rs:982-986 | One more element in front, and nothing else changed |
| `Deques.DequeArena.PushBack` | stack-graphs/src/arena.rs:988-992 | One more element at the back |
| `Deques.DequeArena.PopFront` | stack-graphs/src/arena.rs:995-999 | The first element and the others, or nothing if there is none |
| `Deques.DequeArena.PopBack` | stack-graphs/src/arena.rs:1002-1006 | The last element and the others, or nothing if there is none |
| `Deques.DequeArena.EnsureSameDirection` | stack-graphs/src/arena.rs:1032-1043 | Two deques end up in one direction and keep their elements |
| `Deques.DequeArena.ListEqualsWith` | stack-graphs/src/arena.rs:792-809 | The loop over two lists finds equal elements up to a shared cell, or the end of both |
| `Deques.SharingIsEqual` | stack-graphs/src/arena.rs:792-809 | For a reflexive callback, stopping at shared cells does not change the answer: the elements are pairwise equal |
| `Deques.SharingMatters` | stack-graphs/src/arena.rs:792-809 | For a callback that is not reflexive it does |
| `Deques.SharingIsCompared` | stack-graphs/src/arena.rs:811-831 | For a callback that finds every element equal to itself, the comparison that stops at shared cells is lexicographic |
| `Deques.DequeArena.EqualsWith` | stack-graphs/src/arena.rs:1050-1056 | Two deques are equal iff their elements are, in whichever directions they are stored |
| `Deques.DequeArena.CompareWith` | stack-graphs/src/arena.rs:1058-1072 | Two deques compare as their elements do, lexicographically from the front |
| `SupplementalArenas.Updated` | stack-graphs/src/arena.rs:349-356 | Indexing for an update grows the vector with defaults, and changes what is read for no other handle |
| `SupplementalArenas.SaturatedPlus` | stack-graphs/src/graph.rs:1461-1475 | Adding degrees is adding counts, saturated |
| `SymbolStackKeys.SameSymbolsSameKey` | stack-graphs/src/stitching.rs:696-745 | Two keys share a handle iff they hold the same symbols |
| `SymbolStackKeys.KeyArena.PushBack` | stack-graphs/src/stitching.rs:726-739 | A key with one more symbol; no cell is added iff there was a key for these symbols already |
| `SymbolStackKeys.KeyArena.FromSymbols` | stack-graphs/src/stitching.rs:748-758 | The key of a symbol stack; the only new keys are those of its prefixes |
| `RootIndex.Database.AddPartialPath` | stack-graphs/src/stitching.rs:331-378 | Adding a path keeps every index right: for each key, or start node, the handles of the paths that belong there, in order, and the saturated number of paths ending at each node |
| `RootIndex.Database.AddPrefixes` | stack-graphs/src/stitching.rs:342-370 | The loop over a key's tails stores the path under all its proper non-empty prefixes |
| `RootIndex.Database.FindFromRoot` | stack-graphs/src/stitching.rs:409-504 | The lookup gives the candidates for a symbol stack |
| `RootIndex.Database.FindCandidates` | stack-graphs/src/stitching.rs:383-405 | The lookup by end node or by symbol stack |
| `RootIndex.RootCandidatesExact` | stack-graphs/src/stitching.rs:409-504 | For a stack with symbols, these are exactly the stored root paths whose precondition has symbols and is compatible: the same symbols as far as both go, and a variable on the shorter side |
| `RootIndex.RootCandidatesOnce` | stack-graphs/src/stitching.rs:409-504 | Each of them is found once |
| `RootIndex.UnifiableIsCompatible` | stack-graphs/src/partial.rs:628-749 | Whatever unifies is compatible, so no path that can be joined is missed |
| `RootIndex.EmptyPreconditionNeverFound` | stack-graphs/src/stitching.rs:360-370 | Root paths without precondition symbols are never found |
| `NodeIDs.SameIDSameNode` | stack-graphs/src/graph.rs:429-435 | Two nodes are the same iff their IDs are |
| `NodeIDs.NodeTable.AddNode` | stack-graphs/src/graph.rs:685-692 | A node is added iff its ID is new; nothing else changes |
| `NodeIDs.NodeTable.NodeForID` | stack-graphs/src/graph.rs:673-683 | The lookup finds exactly the node with the ID |
| `NodeIDs.NodeTable.UnusedID` | stack-graphs/src/graph.rs:1196-1203 | The new ID is one that no node has |
| `NodeIDs.NodeTable.NodesForFile` | stack-graphs/src/graph.rs:1205-1211 | Each node of the file once, and no others |
| `GraphEdges.BinarySearchBySink` | stack-graphs/src/graph.rs:1304-1318 | The search finds the edge to a sink, or where it belongs |
| `GraphEdges.StackGraph.AddEdge` | stack-graphs/src/graph.rs:1302-1308 | An edge is added unless there is one between the two nodes; vectors stay sorted, and degrees are the saturated numbers of edges that end at each node |
| `GraphEdges.StackGraph.SetEdgePrecedence` | stack-graphs/src/graph.rs:1311-1322 | Only the precedence of an existing edge changes |
| `GraphEdges.StackGraph.OutgoingEdges` | stack-graphs/src/graph.rs:1324-1334 | Exactly the edges that leave the node, sorted by sink |
| `GraphEdges.StackGraph.IncomingEdgeDegree` | stack-graphs/src/graph.rs:1336-1342 | The saturated number of edges that end at the node |
| `JoinNodes.FirstRepeatOverEdges` | stack-graphs/src/stitching.rs:982-991 | On any walk over edges of the graph, the first node to repeat is the walk's start node, or many edges end there |
| `JoinNodes.FirstRepeatOverPaths` | stack-graphs/src/stitching.rs:372-378 | The same over stored partial paths |
| `JoinNodes.FirstRepeatWhileLoading` | stack-graphs/src/stitching.rs:1284-1303 | While paths are still being loaded and degrees grow: on any walk over paths loaded by then, the first node to repeat is the walk's start, or has a degree of many already, and will still have it when all paths are loaded; so a check at join nodes only does not pass over the first repeat |
| `RepeatChecks.FirstRepeatChecked` | stack-graphs/src/stitching.rs:982-989 | The first time that a path comes back to a node, the search checks it: the node is its start, or two different candidates lead there, as long as the path has come there by candidates both times |
| `RepeatChecks.UncheckedByJump` | stack-graphs/src/stitching.rs:990-991 | A first repeat that is not checked has come about by a jump, the first time or the second |
| `RepeatChecks.StoreJoinsKnown` | stack-graphs/src/stitching.rs:372-378 | A database counts the paths that end at each node, so a search of it meets the hypothesis |
| `EndlessSearch.NeverEnds` | stack-graphs/src/stitching.rs:982-989 | A jump does close a cycle that is never checked: a graph on which the search for complete paths has one path to extend for ever, with or without similar path detection, and never panics |
| `EndlessSearch.ComesRound` | stack-graphs/src/stitching.rs:990-991 | Every third time, that path is equal to itself but for its edges, against the comment that it cannot end in a cycle |
| `Interner.InternedStringArena.Add` | stack-graphs/src/graph.rs:103-126 | A string is copied in, and all those stored before are where they were and read the same; the invariant holds again: no buffer is filled beyond its capacity, and k >= 1 full buffers mean more than 512 * 2^(k-1) bytes stored |
| `Interner.InternedStringArena.MakeRoom` | stack-graphs/src/graph.rs:107-119 | There is room for the string afterwards; a buffer without room is put aside as it is, and what was stored plus the new string then exceeds 512 * 2^(k-1) bytes if k buffers are full |
| `Interner.BiggerPower` | stack-graphs/src/graph.rs:108-117 | The next buffer holds the string and is at least twice as big as the one before |
| `Interner.SameStringSameHandle` | stack-graphs/src/graph.rs:189-203 | Two symbol handles are equal iff their strings are |
| `Interner.SymbolArena.AddSymbol` | stack-graphs/src/graph.rs:189-203 | The handle stands for the string; earlier strings keep their handles and read the same |
| `Interner.SymbolArena.AsString` | stack-graphs/src/graph.rs:134-145 | Reading a handle gives the string it was given out for |
| `StorageKeys.StorageKey` | stack-graphs/src/storage.rs:726-739 | The loop builds the tag, the separator and the names, separated |
| `StorageKeys.StorageKeyPatterns` | stack-graphs/src/storage.rs:741-767 | The loop builds a pattern for every non-empty prefix with a variable, one for the stack without, and one for all longer stacks if the stack has a variable |
| `StorageKeys.SamePatternMatches` | stack-graphs/src/storage.rs:726-767 | If no name has a backslash and no empty name comes first of several, the pattern for a stack matches the key of the same names |
| `StorageKeys.LongerPatternMatches` | stack-graphs/src/storage.rs:757-765 | The pattern for longer stacks matches their keys, with or without a variable |
| `StorageKeys.BackslashNotFound` | stack-graphs/src/storage.rs:741-767 | An instance of `KeyMatching.OwnPatternMatches`: for the single name `a\b`, the own pattern does not match the own key |
| `StorageKeys.EmptySymbolNotFound` | stack-graphs/src/storage.rs:741-767 | Another instance: an empty name before `b` |
| `KeyMatching.OwnPatternMatches` | stack-graphs/src/storage.rs:726-767 | For names without a backslash before a percent sign: a stack's own pattern matches its own key iff the first of several names is not empty and every backslash stands before an underscore |
| `KeyMatching.SameNamesFound` | stack-graphs/src/storage.rs:741-767 | For such names, the first of several not empty: some pattern of the whole query matches the key of the same names iff every backslash stands before an underscore |
| `KeyMatching.CompatibleFound` | stack-graphs/src/storage.rs:741-767 | For names without backslashes and separators: some pattern of the query matches the key of a compatible stack iff the first of the names that both have is not empty or the only one, or the queried names are all empty and a variable follows |
| `KeyMatching.Misses` | stack-graphs/src/storage.rs:741-767 | Otherwise none of the patterns matches the row |
| `LazyLoading.CompatibleMatches` | stack-graphs/src/storage.rs:631-687 | For a stack that can be queried, one of its patterns matches the key of every stored path that is compatible with it |
| `LazyLoading.CompatibleMatchesExactly` | stack-graphs/src/storage.rs:631-687 | For names without backslashes and separators: exactly when a row that holds a candidate is found by the query for it |
| `RootIndex.CandidatesContinue` | stack-graphs/src/stitching.rs:383-405 | The candidates are exactly the stored paths that may continue the path |
| `LazyLoading.Reader.LoadPathsForNode` | stack-graphs/src/storage.rs:580-625 | The paths of the node's rows are added in order, each row once, unless the node has been loaded; nothing else is |
| `LazyLoading.Reader.LoadPathsForRoot` | stack-graphs/src/storage.rs:631-687 | The paths of the rows whose keys are like one of the patterns are added, pattern by pattern, unless that pattern has been loaded; nothing else is |
| `LazyLoading.Reader.LoadForwardCandidates` | stack-graphs/src/storage.rs:690-706 | Whatever was queried before, the paths that may continue the path are then loaded as if everything had been |
| `LazyLoading.Reader.GetForwardCandidates` | stack-graphs/src/storage.rs:779-785 | The candidates are then, as a set of paths, those of the whole storage |

## Left out

What the repository does and the model does not:

- SQLite, its transactions, pragmas and binary encoding, the writer's and reader's error paths, and the status of files (`storage.rs:149-577`): input and output. The tables are sequences of rows, `LIKE` is a function of which only literal matches are required, since SQLite's ignores ASCII case.
- Loading the graphs of files (`storage.rs:527-577`): the graph is fixed while paths are loaded. A reader of several files gets the same candidates only once the graphs of their rows are there.
- Names with a backslash before a percent sign, in the exact conditions of `KeyMatching`: the pattern then has a wildcard that its writer did not mean, which may find a key by luck; so may patterns of other lengths if names contain the separator characters. What `Queryable` promises is not affected.
- `find_candidate_partial_paths_from_root` without a symbol stack (`stitching.rs:484-503`): path finding never asks for all root paths.
- The width of handles and variables: both are unbounded numbers. The code assumes fewer than 2^32 of each.
- Invalid handles: a handle outside the arena reads as a plain scope node. Handles always come from the graph's own arena.
- Exactly when stitching ends: the code only has heuristics. `RunningOut.RunsOut` bounds how often one cycle is gone round, and `EndlessSearch.NeverEnds` is a search without an end. The searches are modelled with a number of phases after which they are cancelled; the theorems are about searches that end, and about every run of them.
- What the cycle detector reports once one of its blocks has chosen a target from an attached scope list, or one of its cycles has lost a variable: such a path no longer summarises its walk (`ChosenJumps.ResolveToNodeExact` and `LinearComposition.JoinedLinear` say exactly when that is so), and whether it happens to fit the others depends on all the scopes that it mentions. That the detector may then fail is proved, and that it fails in no other case.
- Degrees and candidates that grow during a search: a search has one set of join nodes and one lookup, those of a database that is loaded in full. Looking for cycles at join nodes only is documented as incorrect while paths are loaded (`stitching.rs:905-911`), and `find_all_complete_partial_paths` does so; `JoinNodes.FirstRepeatWhileLoading` shows that the first repeat on a path is still checked. The similarity check, which looks at join nodes too, may then miss a path like an earlier one, and keep both.
- Searches of one's own making, from arbitrary stacks, that do extend paths waiting at a jump: `Stitcher.Sensible` excludes them. The two searches of the crate do not.
- `matches` on partial stacks (`partial.rs:336-356, 576-594, 979-997`), `cmp` on partial paths, and the `ensure_forwards` and `ensure_both_directions` helpers: not used by path finding, or without effect on content.
- `HandleSet`, `SupplementalArena::with_capacity` and the iterators over arenas (`arena.rs:214-452`): sets of handles are sets. `List` (`arena.rs:455-600`) is what `ReversibleList` is without the cache; the lists of appended fragments are sequences.
- Deques inside partial stacks and edge lists: partial paths hold sequences. `Deques` proves that a deque is one, whatever is done to the arena it shares.
- Rust's callbacks (`extend_while`, comparators, visitors) are functions without effects; `visit` is modelled by the list of visited paths.
- The binary search in `SmallVec` is the standard library's; its contract is modelled by `GraphEdges.BinarySearchBySink`.
- The growth policy of Rust's vectors: `Vec::with_capacity` and `String::with_capacity` are taken to be exact.
- Turning on statistics of the similar path detector after paths have been offered (`cycles.rs:102-108`), and all statistics but its counts: floating point, or bookkeeping without influence on results.
- `StackGraph::add_from_graph`, source and debug information, file names, and interned strings other than symbols: copying, or the same as symbols.
- `get_incoming_path_degree` (`stitching.rs:537-539`) reads a supplemental arena out of range if no path ends at or beyond the node; the model reads a zero there.
- The foreign interface, serialisation, display, visualisation, the command line, language packs and the assertion language itself: no part of path finding.

Contracts that say less than they might:

- PartialPathUpdates.Path.Append: when the sink of the edge cannot be entered, it does not say what is left of the symbol postcondition, because the code has popped the symbol that did not match and callers discard the path.
- PartialPathUpdates.Path.Enter: the same.
- PartialPathUpdates.Path.AppendPath: on an error it does not say what the path is left as, because the code has already renamed or resolved it and callers discard it.
- BindingTables.UnifyScopeStacks: on an error it does not say what the table is left as, because callers discard it.
- BindingTables.UnifySymbolStacks: the same.
- PathFinding.FindAllCompletePartialPaths: it says nothing of the paths that a search has visited before it is cancelled or panics.
- PathFinding.FindMinimalPartialPathSetInFile: the same for a search that is cancelled.
- CycleDetection.DetectorReports: only for cycles that do not pass a jump; `ChosenCycles.DetectorThroughJumps` is about all others whose choices are free.
- CycleCheck.CycleCheckStops: only for paths whose cycles are as `ChosenCycles.DetectorThroughJumps` needs them, as all are in the search of a file; for others, what the detector reports is open, for the reason given above.
- SimpleWalks.SimpleWalksFound: only without similar path detection; with it, `SimilarSearch.ResolutionLikeVisited` says what is found.
- ChosenCycles.DetectorThroughJumps: only as long as no choice is from attached scopes and no cycle loses a variable, for the reason given above.
- Stitching.FragmentsNeverFail: only for runs of fragments without a jump between them; across jumps, `ChosenBlocks.ChosenBlockBuilds` is about runs whose choices are free, and others need not summarise their walks, for the reason given above.
- SimilarSearch.ResolutionLikeVisited: the path that the cycle check may have stopped is one that stands in for the missing one, with other edges; whether it is stopped can depend on them.
- EndToEnd.ResolutionsCovered: up to segments that leave the root on an empty symbol stack, because the index does not return their paths; `WalkCutting.WalksCovered` the same.
- LazyLoading.Reader.LoadForwardCandidates: it promises completeness only for queries that `Queried` admits; `LazyLoading.CompatibleMatchesExactly` says what other queries find.
- SharedVariables.FoundOrNot: only for stacks of one symbol without a symbol stack variable, because path finding never concatenates paths that share variables; the theorems on composition say all there is about those that do not.
- SharedVariables.OnceIsEnoughWhen: only for the bindings that such stacks lead to.
- Shadowing.TraceIsReal: only for traces whose edges come to no jump; `RecordedPaths.StitchRecords` is about those that do.
- KeyMatching.OwnPatternMatches: not for names with a backslash before a percent sign, for the reason given above.
- KeyMatching.SameNamesFound: the same, and not for stacks whose first of several names is empty.
- KeyMatching.CompatibleFound: not for names with backslashes or separators, for the reason given above.
- LazyLoading.CompatibleMatchesExactly: the same.
