# krusty, verified

krusty is a Kotlin compiler written in Rust. This project models the parts of it whose correctness is an
argument rather than a lookup, and proves what each of them is for.

* **Assignability.** `Types`, `Hierarchy`, `Flexible` and `Assignable` give the relation over Kotlin types with
  all its arms, in the source's order. The source's recursion has no bound of its own, so the model counts
  levels: `Assign(n, ...)` answers `Yes`, `No` or `Exhausted`, and `Exhausted` never becomes a verdict.
  `Stability` shows that more levels never change an answer, and `Termination` gives the weight that bounds the
  levels, also while capture binds variables. `Relation` drops the levels and gives the answer for every two
  types, and `Capturing` says what capture finds. `Declarations` says what declared supertypes are and what the
  walk makes of them, and `Transitivity` proves that law over them. `Meaning` gives types their values,
  `Soundness` proves a `Yes` to be an inclusion of values, and `NullLiteral` says where null may go. `Example` is
  a hierarchy that meets the conditions of termination and transitivity, `LibraryValues` its models. `Limits`
  holds programs without an answer or without transitivity; `SoundnessLimits` says exactly when an answer outside
  the soundness theorem is an inclusion.
* **Default arguments.** `Defaults` merges `expect` and `actual` headers and lists self-owned defaults;
  `Overrides` passes providers along override edges in rounds. Both run on a mutable header arena.
* **Test modules.** `Modules`, `ChainOrder` and `ModuleUnits` fold `dependsOn` chains into build units,
  `LineAutomata` holds the two line automata that read one test grammar, `Sampling` the stride sampler.
* **Body groups.** `BodyGroups` sorts, re-roots and groups the work of one source, and places the declarations
  that have no body.
* **Settings and diagnostics.** `Features` keeps the features of one compilation and rebuilds them from a list;
  `Diag` runs nested ownership scopes and removes duplicates.
* **Arithmetic and text.** `IntegerConstant` folds constants in their width, `CodeSpan` writes and reads
  release-note titles, `LspDiff` compares two servers' diagnostics.

`Options` and `Sorting` hold the small shared parts: optional values, the stable library sort and `dedup`.
Code that the source runs in place is a class or a method with loops, proved equal to a function; the laws are
lemmas about that function.

## Where the code does less than its comments say

Each of these is kept as the code has it, with a failing input and the exact condition under which the code does
what is said or meant.

* `src/conformance.rs:701-703` says that the collector of Kotlin sources delegates to the module splitter so that
  the two cannot read different grammars. It has an automaton of its own. `LineAutomata.AutomataAgree` gives the
  condition under which the two agree, and `LineAutomata.TextLeaks` a source where they do not: text of a Java
  file in front of the first module header ends in the first Kotlin file below it.
* `src/conformance.rs:827-828` says that every name a fragment refines is another fragment of its unit.
  `ModuleUnits.RefinesEarlier` shows that it is one if and only if the name is a declared module;
  `ModuleUnits.UndeclaredRefined` is the module whose one fragment refines a name that is no fragment.
* `src/diag.rs:216-218` says that nested scopes intersect. `Diag.OwnershipIntersects` shows that they do for
  every nesting if and only if the reported span does not end before it starts.
* `scripts/lsp-diff.py:275` classifies greedily, and `LspDiff.GreedyLosesMatch` is a match lost to the order of
  the reference list. `LspDiff.MatchesExactly` counts the lost matches of a run, and `LspDiff.NeverLostExactly`
  gives the condition on the two lists under which no order loses any. The counts and the verdict "no
  difference" are exact all the same.
* `src/conformance.rs:52-73` promises `limit` samples; `Sampling.EvenlySample` has them if and only if no product
  wraps.
* `src/assignable.rs:195-497` has no bound on its recursion. Where both types mention variables that capture may
  bind it need not end, although nothing else recurs (`Limits.CaptureNeverAnswers`); where one of them mentions
  none, or the two are equal, or their arguments are such in turn, it ends (`Termination.Terminates`).
* `src/assignable.rs:502-550` captures a variable under an `out` projection whether or not inference owns it:
  every class type fits `C<out T>` for a `T` nothing is known of, which is an inclusion in every model if and
  only if the argument is `Nothing` (`SoundnessLimits.CaptureFitsAnything`, `SoundnessLimits.CaptureExactly`).
* `src/assignable.rs:469-475` compares a star or an `out` projection in a contravariant slot the wrong way round,
  which is an inclusion if and only if the expected argument is `Nothing`, the guard that lines 451-456 place on
  an `in` target (`SoundnessLimits.StarFitsAnything`, `SoundnessLimits.ContravariantExactly`). An `in` projection
  in a covariant slot is compared through its lower bound, an inclusion if and only if the expected argument is
  `Any?` (`SoundnessLimits.InReadsLowerBound`, `SoundnessLimits.CovariantInExactly`).
* `src/types/intersection.rs:3-6` keeps null on an intersection when every component admits it. The canonical
  form keeps the null its parts share if and only if a condition on their spelling holds
  (`SoundnessLimits.NullKeptExactly`); `SoundnessLimits.VariableBoundHidesNull` is a variable whose bounds fail it.

Of the conditions on transitivity, nominal functions, incoherent ancestors, slots against the declared variance,
bindings, platform types, `T & Any` and a star in a contravariant slot each have a program in `Limits` where the law
fails. Mutable faces, raw arguments, arguments left out and projections elsewhere are outside the statement without
one. Of the conditions on termination, supertypes, declared bounds and capture have one; read-only faces and bounds of
class parameters have none.

## Model

| member | source | states |
|---|---|---|
| Types.MakeNullableHeight | src/assignable.rs:270-273 | Making a type nullable adds at most one level, which is what lets the platform arm widen its argument and still end |
| Hierarchy.AppliedSupertypeLoop | src/assignable.rs:694-721 | The loop over the stack and the visited names ends on a finite class universe and answers what the specification walk answers |
| Hierarchy.WorklistExact | src/assignable.rs:694-721 | When supertype names depend on the class name only, the walk answers exactly if some reachable class matches the target, and then answers one of those, although it drops later instantiations of a name |
| Hierarchy.WorklistOnPath | src/assignable.rs:704-719 | Whatever the oracle, the answer lies on a path of direct supertypes from the source and matches the target |
| Hierarchy.WorklistOrderIndependent | src/assignable.rs:712-718 | When supertype names depend on the class name only and each reachable ancestor has one instantiation, listing supertypes in another order gives the same answer |
| Hierarchy.LastMatchWins | src/assignable.rs:704-719 | Where direct supertypes differ in their answer, the walk takes the last that matches and that no earlier one shares its name with, when nothing listed after it leads to a match |
| Flexible.UpperFaceHeight | src/assignable.rs:106-117 | The upper face of a platform type is at most one level taller than the type when the oracle's face does not grow, so flexible equality terminates |
| Flexible.SameReflexive | src/assignable.rs:553-667 | Flexible equality is reflexive on types whose raw erasures are plain or platform types over plain ones |
| Flexible.SameSymmetric | src/assignable.rs:553-667 | Flexible equality is symmetric on those types, through every pairing of platform, mutable, raw, star and `out` forms |
| Flexible.FlexibleMatchesFaces | src/assignable.rs:654-661 | Matching a flexible interval is being the same argument as one of its faces: lower, lower nullable, upper, upper nullable |
| Flexible.PlatformsAgree | src/assignable.rs:636-661 | A platform type equals, on either side, what one of its faces equals; two are equal when the lower face of either equals some face of the other |
| Flexible.HeadsAgree | src/assignable.rs:555-556 | Flexible equality compares variables by symbol and kind, classes by name and functions by contexts, receiver, suspension and arity, with their arguments and signatures pair by pair |
| Flexible.ProjectionsAgree | src/assignable.rs:587-601 | A star equals every other star and every raw argument, and the `out` projection of its readable bound; a raw argument is its erasure otherwise |
| Flexible.DefiniteAgrees | src/assignable.rs:558-574 | `T & Any` equals the variable of that symbol whose bound excludes null, on either side, and no other variable |
| Flexible.MutabilityAgrees | src/assignable.rs:640-667 | A flexible collection equals what its mutable or its read-only face equals, on either side |
| Flexible.AdmitsNullIs | src/types.rs:925-937 | A bound admits null exactly when the chain of bounds from it ends at a nullable, platform or null type and meets no symbol twice |
| Flexible.RawIntervals | src/assignable.rs:587-592 | Two raw arguments over platform erasures are the same exactly when some face of one equals some face of the other |
| Flexible.RawOverStarAsymmetric | src/assignable.rs:587-592 | A raw argument whose erasure is a plain type or a projection compares alike both ways with a raw argument of plain erasure if and only if its erasure is no star |
| Stability.EveryLevelStable | src/assignable.rs:195-497 | A verdict found with fewer levels is the verdict with more, for every pair of types and every context |
| Stability.AnswerStable | src/assignable.rs:195-497 | An answer other than `Exhausted` never changes with the depth allowed |
| Relation.OutcomeIs | src/assignable.rs:195-497 | Freed of levels the relation says of any two types, in any context, what the arms of the source say in their order, each in terms of what it asks next: among them errors and `Nothing`, the null literal, stars, platform types and flexible collections, bindings, every kind of argument slot and the context that capture leaves |
| Relation.ArraysCovary | src/assignable.rs:106-117 | A Java array accepts the arrays whose element fits its own, although arrays are invariant and elsewhere their elements have to be equal |
| NullLiteral.NullAnswer | src/assignable.rs:282-303 | The null literal fits nullable, platform and error types, flexible collections and projections over such, intersections of such, and nothing else; every other target refuses it |
| NullLiteral.NullExactly | src/assignable.rs:289-303 | Null is assignable to a type that no variable decides if and only if it is one of its values, in any model |
| NullLiteral.AnyExactly | src/assignable.rs:304-380 | A type that no variable and no `T & Any` decides is assignable to `Any` if and only if null is none of its values, in any model |
| Capturing.CaptureRecovers | src/assignable.rs:502-551 | Whatever types a template is made of, capture binds each open variable to the type that stands in its place, through classes, functions, `?`, intervals and projections, and changes no other binding |
| Capturing.CaptureMeets | src/assignable.rs:545-549 | Against an intersection of variables every open one is bound to the whole argument |
| Termination.CaptureInert | src/assignable.rs:502-551 | Capture leaves the context alone when every variable it could bind is bound already |
| Termination.CaptureFits | src/assignable.rs:502-551 | What capture binds stays in order: taking pieces, through supertypes too, of a type that mentions nothing capturable and is no deeper than the cap, it keeps every binding below its variable's rank and free of capturable variables |
| Termination.AppliedFit | src/assignable.rs:694-721 | What the hierarchy walk answers has arguments no deeper than the type it started from |
| Termination.UpperFit | src/assignable.rs:69-101 | A variable weighs more than its binding and more than the intersection of its bounds |
| Termination.LevelDecided | src/assignable.rs:195-497 | One comparison asks only for comparisons of smaller joint weight: every arm, contravariant flips, platform widening, projections and the context that capture leaves included |
| Termination.OrderlyFits | src/assignable.rs:502-551 | The same where the two types share variables: a variable that meets itself stays unbound, and every piece that is bound mentions nothing capturable |
| Termination.AlignedLevelDecided | src/assignable.rs:195-497 | Types that are aligned part by part ask only for lighter comparisons of aligned types |
| Termination.DepthWithout | src/assignable.rs:502-513 | The weight of a type does not depend on the ranks of variables it does not mention, so these can be ranked above it |
| Termination.Terminates | src/assignable.rs:195-551 | Over classes and variables whose supertypes, bounds and bindings are ranked, the relation never recurses deeper than the joint weight of the two types, whatever capture binds, if the two types are equal, or one of them mentions no variable that capture may bind, or what their nullable forms, arguments or signatures compare and capture is such in turn |
| Declarations.FillSubst | src/symbol_resolver/hierarchy_projection.rs:137-168 | Applying a supertype's template to templates and then to arguments is applying it to the applied arguments |
| Declarations.SuitsSubst | src/assignable.rs:455-494 | A template valid for a class's declared variance, put in terms of a subclass, is valid for the subclass's |
| Declarations.AncestorCompose | src/assignable.rs:712-718 | Declared supertype steps compose, and so do the templates they are applied to |
| Declarations.SuspendAlike | src/libraries/function_classifiers.rs:118-131 | What a suspending function type inherits, a plain one of its arity inherits through as many steps under the same templates |
| Declarations.WalkFindsAncestor | src/assignable.rs:694-721 | The walk finds every declared ancestor under the one instantiation its declarations give it |
| Transitivity.SubIs | src/assignable.rs:195-497 | On the fragment, the relation at its own depth satisfies the arms' equations with no level counting left |
| Transitivity.FillMonotone | src/assignable.rs:455-494 | Arguments that fit a class slot by slot fit, through any template valid for its variance, wherever the template stands |
| Transitivity.SlotsTransitive | src/assignable.rs:455-494 | Arguments compared slot by slot compose under declared variance through a change of class |
| Transitivity.FunctionsTransitive | src/symbol_resolver/hierarchy_projection.rs:141-158 | If one function type is below another and that one below a class, the first is below the class, through whatever classifiers function types have above them |
| Transitivity.Transitive | src/assignable.rs:195-497 | If A is a subtype of B and B of C then A is a subtype of C: applied classes, functions, nullable types, `Nothing`, variables with any bounds and intersections, over any coherent hierarchy of templates valid for their declared variance |
| Transitivity.AssignTransitive | src/assignable.rs:184-195 | Two answers of yes, found at any depths, give the third at every depth that decides it |
| Example.ConditionsMet | src/assignable.rs:20-66 | Covariant collections, one of them of lists, a class comparable with itself, and functions below their own classifiers and `Function<out R>` meet every condition of transitivity |
| Example.CaptureEnds | src/assignable.rs:502-551 | In that hierarchy every comparison ends, in both directions, where one type mentions none of the variables capture may bind |
| Example.CaptureBindsWord | src/assignable.rs:510-521 | Capture does bind there: `Table<Word>` against `Collection<out List<T>>` is decided, and binds `T` to `Word` |
| Example.SharedEnds | src/assignable.rs:502-513 | An unbound variable may stand on both sides: `Table<T>` against `Collection<out Collection<T>>` is decided |
| Meaning.IntersectionHasNull | src/types/intersection.rs:20-60 | The canonical form of parts that share null has it exactly when every piece is nullable or every core has it |
| Meaning.MakeIntersectionSound | src/types/intersection.rs:20-60 | A value in every component of an intersection is a value of its canonical form, null included where the components' spelling keeps it |
| Meaning.MakeIntersectionMeans | src/types/intersection.rs:3-6 | Null apart, a canonical intersection has exactly the values that all its parts share |
| Meaning.MakeNullableMeans | src/types.rs:788-798 | `T?` has exactly the values of `T` and null |
| Meaning.NonNullMeans | src/types.rs:939-948 | The non-null form of a type has, null apart, exactly its values |
| Soundness.DeclaredUpperSound | src/assignable.rs:86-101 | Every value of a variable belongs to the intersection of its bounds, and every non-null one to the tightened intersection |
| Soundness.SameMeans | src/assignable.rs:635-652 | Types equal as flexible types denote the same values, and are interchangeable as arguments |
| Soundness.Sound | src/assignable.rs:195-497 | Whenever the relation answers yes, in every interpretation closed under the hierarchy, with variables inside all their bounds and equal to their bindings, all values of the source are values of the target |
| Soundness.NullNeverFlows | src/assignable.rs:212-228 | A type that may be null is never assignable to a class, a function, `Unit`, `Nothing` or `T & Any` |
| LibraryValues.LibraryModels | src/assignable.rs:20-66 | Any stock of lists, tables, collections and words, holding whatever they hold, is such an interpretation of the example hierarchy |
| LibraryValues.NullableElementsRejected | src/assignable.rs:455-494 | A list of nullable elements is never assignable to a collection of non-null ones: in some stock a list holds null |
| LibraryValues.CollectionsAreNoLists | src/assignable.rs:694-721 | No collection is assignable to a list, whatever the elements of either |
| Limits.ExpansiveNeverAnswers | src/assignable.rs:406-497 | With `class A : C<C<A>>` and `C` contravariant, the relation asks itself the same question at every depth |
| Limits.RecursiveBoundNeverAnswers | src/assignable.rs:69-101 | With a variable `T : C<C<T>>` it does so as well |
| Limits.CaptureNeverAnswers | src/assignable.rs:505-550 | Where both types mention variables that capture binds it does so without supertypes and with no bounds but `Any?`: `B<D<C<R>, C<L>, R>>` against `B<out D<L, R, L>>` |
| Limits.NominalFunctionNotTransitive | src/assignable.rs:372-388 | A class that is a function breaks transitivity: it is a `() -> Unit`, which is a `suspend () -> Unit`, but it is no `suspend () -> Unit` |
| Limits.IncoherentNotTransitive | src/assignable.rs:712-718 | So does an ancestor applied in two ways, of which the walk meets one |
| Limits.InvalidVarianceNotTransitive | src/assignable.rs:455-475 | So does a covariant parameter in a contravariant slot of a supertype |
| Limits.BindingNotTransitive | src/assignable.rs:488-494 | So does a binding, since invariant arguments are resolved as a whole only |
| Limits.PlatformNotTransitive | src/assignable.rs:254-262 | So does a platform type, which stands between its faces |
| Limits.DefiniteNotTransitive | src/assignable.rs:215-225 | So does `T & Any`, which knows a non-null form of the bounds of `T` that its subtypes do not |
| Limits.StarNotTransitive | src/assignable.rs:443-475 | So does a star in a contravariant slot |
| SoundnessLimits.StarFitsAnything | src/assignable.rs:469-475 | A star in a contravariant slot fits every class, function, `Unit`, `Nothing` and nullable form of these |
| SoundnessLimits.ContravariantExactly | src/assignable.rs:451-475 | That is an inclusion in every model if and only if the expected argument is `Nothing`, for stars and `out` projections alike |
| SoundnessLimits.CaptureFitsAnything | src/assignable.rs:505-513 | Against `C<out T>` for an unbound `T`, an argument of one of these forms fits if and only if it is not spelled nullable |
| SoundnessLimits.CaptureExactly | src/assignable.rs:505-513 | That is an inclusion in every model if and only if the argument is `Nothing` |
| SoundnessLimits.InReadsLowerBound | src/assignable.rs:469-475 | An `in` projection in a covariant slot is compared through its lower bound |
| SoundnessLimits.CovariantInExactly | src/assignable.rs:469-475 | That is an inclusion in every model if and only if the expected argument is a nullable form of `Any` |
| SoundnessLimits.NullKeptExactly | src/types/intersection.rs:3-6 | The canonical form keeps the null its parts share, whatever classes, functions and variables mean, if and only if every piece is nullable, or a piece without `?` is never null, or each nullable core stands without its `?` as well |
| SoundnessLimits.VariableBoundHidesNull | src/assignable.rs:86-101 | With bounds `T` and `A?` a variable that may be null is assignable to `A` |
| Sorting.SortSorted | src/frontend.rs:636-649 | Sorting by a total preorder gives a sorted list; its multiset of elements is the function's own contract |
| Sorting.SortStable | src/compiler.rs:615-621 | Elements the order does not tell apart stay in the order they had |
| Sorting.DedupDistinct | src/frontend.rs:650-650 | Removing equal neighbours keeps a list of distinct elements as it is |
| Sorting.DedupOrdered | src/frontend.rs:650-650 | In a sorted list every element is kept once and the order stays |
| Defaults.HeaderArena.SetDefaults | src/fir/header.rs:644-650 | Setting defaults only turns slots on, and touches no other declaration |
| Defaults.Actualize | src/frontend.rs:419-482 | The merging loop changes the headers and collects the items as the specification fold does |
| Defaults.MergeAllSound | src/frontend.rs:419-482 | With distinct actuals, after every merge each slot on in a merged header has exactly one provider among its items, and no slot of anything has two |
| Defaults.MergeProviders | src/frontend.rs:458-481 | With distinct actuals, every collected item comes from one pair: it is the actual's own item with the defaults it had from the start, or the `expect`'s with those that only the `expect` has once the pairs before it are merged |
| Defaults.PairsActualize | src/frontend.rs:447-481 | With distinct actuals, each pair of callables of one arity whose `expect` has a default when it is met marks the actual with the defaults of both, supplied by the actual where it has its own and otherwise by the `expect` as an actualized declaration; any other pair leaves the header alone and supplies nothing |
| Defaults.DefaultsActualized | src/frontend.rs:447-481 | When no actual is the `expect` of another pair, the same from the headers as they were |
| Defaults.SignatureDefaultWork | src/frontend.rs:602-652 | The enumeration of self-owned defaults, extended, sorted and deduplicated, is the specification list |
| Defaults.InitialWorkSound | src/frontend.rs:419-652 | After merging and enumeration, the masks of the items of every callable that is no pair's `expect` are disjoint and their union is its header's mask |
| Defaults.InitialProviders | src/frontend.rs:419-652 | After enumeration a default that a declaration has is supplied by itself, and one that only its `expect` has by the `expect` |
| Defaults.EnumeratedExactly | src/frontend.rs:602-637 | An `expect` that supplies some actual gets no work of its own; every other declaration that is no actual supplies all its defaults itself |
| Defaults.TidyOrdered | src/frontend.rs:638-650 | Work is kept in strict order: by provider, target, relation from own to inherited, and mask, with every item once |
| Defaults.TidyKeeps | src/frontend.rs:637-651 | Sorting and deduplicating loses no item and no provider |
| Overrides.InheritRound | src/frontend.rs:674-749 | One round over the edges, on the provider map rebuilt from the work, is the specification round |
| Overrides.InheritOverrideDefaultWork | src/frontend.rs:660-771 | The loop ends; at its end every equal-arity override edge whose overridden side has work has a target with work, and every inherited item names a provider of base work at the end of a shortest chain of such edges |
| Overrides.LevelIsReach | src/frontend.rs:673-757 | After n rounds the targets are exactly those within n override links of the base targets |
| Overrides.RoundIsSound | src/frontend.rs:679-750 | A round adds exactly the targets one link further out, changes only their headers and keeps one provider per slot |
| Overrides.FirstEdgeFeeds | src/frontend.rs:679-750 | In a round a callable without work takes all the work of the first of its equal-arity edges that leads to any, as inherited and with the marks that go with it, and nothing else |
| Overrides.FixpointLeast | src/frontend.rs:673-757 | The targets reached are contained in every set of targets that holds the base and is closed under the links |
| Overrides.PipelineExact | src/frontend.rs:419-771 | Over merging, enumeration and every round, each default slot of a callable that is no pair's `expect` has exactly one provider, and no slot has two |
| Modules.ChainBuilder.Add | src/conformance.rs:869-885 | The recursive visitor with its visited set and chain does what the specification fold does |
| Modules.ChainIsClosure | src/conformance.rs:868-895 | In an acyclic hierarchy a chain is the transitive closure of `dependsOn` over declared modules, without repetition, dependencies first, ending with the module itself |
| ChainOrder.ChainUnfolds | src/conformance.rs:869-886 | In an acyclic hierarchy a chain is the chains of the direct dependencies, in the order declared and each without what came before, and then the module itself |
| Modules.BuiltInOrder | src/conformance.rs:864-890 | The built modules are those no module depends on, in declaration order, each as often as it is declared |
| Modules.EveryModuleFolded | src/conformance.rs:886-895 | Every declared module is reached from some built unit |
| ModuleUnits.Firsts | src/conformance.rs:923-950 | Collecting through a visited set keeps each name once and loses none |
| ModuleUnits.CollectRepresentatives | src/conformance.rs:897-904 | The map of representatives gives each name the first built unit that folds it in, and itself if none does |
| ModuleUnits.CollectDependencies | src/conformance.rs:919-951 | The nested loops with two visited sets produce the deduplicated, remapped lists, own dependencies first |
| ModuleUnits.ModuleUnits | src/conformance.rs:862-968 | The whole construction is the specification list of units |
| ModuleUnits.FragmentsPartition | src/conformance.rs:907-918 | Fragment counts cut a unit's files, in order and without remainder, into the files of its chain's members; the common count is the prefix before its own |
| ModuleUnits.JavaFilesInOrder | src/conformance.rs:913-918 | A unit's Java files are cut, in chain order and without remainder, into the Java files of its chain's members |
| ModuleUnits.RefinesEarlier | src/conformance.rs:827-828 | In an acyclic hierarchy a name that a fragment refines is a fragment of its unit, and then an earlier one, if and only if it is declared |
| ModuleUnits.UndeclaredRefined | src/conformance.rs:952-959 | A module that depends on an undeclared name becomes a unit whose one fragment refines a name that is no fragment |
| ModuleUnits.RepresentativeFolds | src/conformance.rs:897-904 | A folded name is represented by the first unit that folds it |
| ModuleUnits.UnitDependsExactly | src/conformance.rs:923-951 | A unit's dependencies are, once each, what represents the dependencies and friends of its chain, itself excepted; friends likewise, and every friend is a dependency |
| ModuleUnits.DependenciesInOrder | src/conformance.rs:919-951 | Dependencies and friends stand in the order of their first mention, from the unit's own module back to the source sets it folds, and in each module dependencies ahead of friends |
| ModuleUnits.UnitParts | src/conformance.rs:862-968 | Each unit of a test is named after the built module in its place, and its files, fragments, Java files, dependencies and friends are those of the chain of that name |
| ModuleUnits.DeclaredIsFolded | src/conformance.rs:886-903 | Every declared module has a unit that represents it and folds it in |
| ModuleUnits.DependenciesAreUnits | src/conformance.rs:923-951 | When dependencies are declared, each dependency of a unit is another built unit |
| LineAutomata.SplitModulesLoop | src/conformance.rs:563-653 | The splitter's loop over its current file and buffer is the specification run |
| LineAutomata.KotlinSourceBlocks | src/conformance.rs:704-769 | The collector's loop is the specification run, and an unpartitioned source is one block |
| LineAutomata.SplitAccepts | src/conformance.rs:582-652 | The splitter accepts exactly sources with no malformed header and no foreign file, with two modules and with something opened below a header; its modules carry the names and groups of the headers, in order |
| LineAutomata.FilesKept | src/conformance.rs:563-653 | Every marker below a header becomes a file of that header's module, Kotlin or Java, in order, with the text down to the next marker, and so does code with no marker above it; there are no others, and only the first file can hold text from above the headers |
| LineAutomata.BlocksKept | src/conformance.rs:712-769 | On any source the collector returns one block for each Kotlin marker and for code that comes first below a header, with the text down to the next marker, and leaves out code below other markers |
| LineAutomata.AutomataAgree | src/conformance.rs:563-769 | On an accepted source the collector returns the modules' Kotlin files, with module, stem and text, in order, if and only if no Kotlin file precedes the first header and no text from there runs into a Kotlin file below |
| LineAutomata.HeaderFirstAgrees | src/conformance.rs:563-769 | In particular the two agree whenever the first marker is a module header |
| LineAutomata.RunAlike | src/conformance.rs:567-580 | Below a header the two automata stay in step from any pair of matching states; text carried over ends in front of the first block only |
| LineAutomata.TextLeaks | src/conformance.rs:567-580 | A Java file before the first header leaks its text into the first Kotlin file below it |
| Sampling.EvenlySample | src/conformance.rs:52-73 | The counter loop returns nothing for limit 0, everything for a limit the list does not exceed, and otherwise the items at floor(k * total / limit) in order; all `limit` of them if and only if the largest product stays inside the 64-bit `usize`, and those before the first product that wraps otherwise |
| Sampling.StrideIncreases | src/conformance.rs:64-67 | Those indices strictly increase and stay inside the list |
| Sampling.StrideEven | src/conformance.rs:64-67 | Neighbouring indices are floor(total / limit) or one more apart |
| BodyGroups.FirstMinIs | src/compiler.rs:637-648 | The candidate picked is of least width, and the first of its width |
| BodyGroups.OrphanJoinsInnermost | src/compiler.rs:623-654 | A local classifier without an owner joins the root of the innermost work around it, the earliest of equals, and stays its own root only when there is none |
| BodyGroups.BodyCheckGroups | src/compiler.rs:556-586 | The loop that finds or opens a group and extends it in place is the specification fold |
| BodyGroups.ActiveBodyCheckGroups | src/compiler.rs:592-720 | Sorting, re-rooting, grouping, placing declarations and sorting again is the specification, of which the next four say where everything goes |
| BodyGroups.WorkPartitioned | src/compiler.rs:556-656 | The groups hold a permutation of the work, one group per root, each with exactly the units of its root in lexical order and exactly their declarations marked |
| BodyGroups.WorkPlaced | src/compiler.rs:615-656 | Every unit is in the group of its ordinary root, and only there; if that root is a hoisted local classifier inside other work, in the group of the ordinary root of the narrowest work around it, the earliest of equals |
| BodyGroups.WorkOrdered | src/compiler.rs:615-720 | Groups and the work in them come in source order, what has no span last, and the units of one declaration in the order given |
| BodyGroups.MetadataPartitioned | src/compiler.rs:664-720 | Every stable declaration with metadata is the root of a group or one entry in one group, never both; a local one is with the innermost working group around it, an empty group stands only for one that no working group could take; groups come in lexical order |
| Features.LangFeatures.ForRelease | src/features.rs:126-145 | A new set has exactly the defaults of its release and versions on, and nothing explicit |
| Features.DefaultsExactly | src/features/table.rs:116-123 | A feature is on by default if and only if the table has a row of its name that has been introduced and whose language and API levels are reached |
| Features.DefaultsGrow | src/features/table.rs:116-123 | A later release has on by default whatever an earlier one had |
| Features.LangFeatures.Set | src/features.rs:283-290 | Setting a feature turns it on or off and records it, and leaves every other alone |
| Features.LangFeatures.Extend | src/features.rs:338-352 | Merging another set, in whatever order it lists its features, is the specification merge |
| Features.LangFeatures.ApplyDirective | src/features.rs:372-380 | The last token about a feature decides, `+` for on and `-` for off, and is recorded; features no token is about stay as they were |
| Features.LangFeatures.ApplyExplicitApiMode | src/features.rs:428-438 | The three known modes are recognised; the state is that of the mode's settings |
| Features.LangFeatures.ApplyAssertionsMode | src/features.rs:443-453 | The two known modes are recognised; any other changes nothing |
| Features.ModesExclude | src/features.rs:428-453 | A mode turns on exactly the feature it names and turns its counterpart off, recording both, whatever was on before, and leaves every other feature alone |
| Features.ExtendIsUnion | src/features.rs:338-352 | Merging turns on what either set has on, and records exactly what was recorded, what it turned on and what the other set has on explicitly |
| Features.RunKeepsOverridden | src/features.rs:283-453 | After any sequence of settings, directives, modes and merges, what is on is the defaults overridden by what was set explicitly |
| Features.OverriddenInForce | src/features.rs:283-352 | What a run leaves is in force, so it can be merged into another run |
| Features.FeatureSettings | src/language_settings.rs:70-103 | The list gives every explicit setting once, by name, then every remaining difference from the defaults once, by name |
| Features.ForRelease | src/language_settings.rs:41-62 | An API level above the language level is an error; otherwise the settings are applied in order to the defaults |
| Features.SettingsRebuild | src/language_settings.rs:65-103 | Rebuilding from the list always restores what is on, and restores the explicit settings as well if and only if what is on is the defaults overridden by them |
| Features.RunRebuilds | src/language_settings.rs:41-103 | After any run the list rebuilds the features exactly, opt-ins apart |
| Diag.DiagSink.AddDiagnostic | src/diag.rs:206-212 | A report is recorded, stamped with the current file, exactly when the ownership in force accepts its span |
| Diag.DiagSink.WithAuthoritativeRanges | src/diag.rs:219-242 | A scope narrows the ownership for its operation and gives the prior ownership back |
| Diag.DiagSink.CollapseDuplicatesFrom | src/diag.rs:384-412 | Collapsing in place is the specification of keeping first occurrences behind `start` |
| Diag.MeetRanges | src/diag.rs:226-234 | The nested loops collect the non-empty intersections of every outer with every inner range |
| Diag.KeepFirst | src/diag.rs:387-410 | Filtering through two separate sets of seen keys keeps the first diagnostic of each key |
| Diag.OwnershipIntersects | src/diag.rs:206-242 | Ownership under any nesting is the conjunction of the scopes, for all nestings, if and only if the span does not end before it starts |
| Diag.RunRecords | src/diag.rs:206-242 | A run of reports, file changes and nested scopes with well-formed spans records exactly the reports that every scope around them covers, in order |
| Diag.RunRestores | src/diag.rs:236-240 | Whatever the spans, a run gives back the ownership it found and only appends |
| Diag.KeptIsFirst | src/diag.rs:390-410 | What is kept are the diagnostics that duplicate no earlier one, in order, and all of them: duplicates are of one file, severity, name and kind, and of one identity or, without any, of one place and message |
| Diag.CollapsedOnce | src/diag.rs:384-412 | The prefix stays, of later duplicates one is kept, and collapsing again changes nothing |
| IntegerConstant.SignedFolds | src/integer_constant.rs:80-119 | Signed arithmetic never fails to fold and never becomes unsigned |
| IntegerConstant.FoldsExactly | src/integer_constant.rs:80-119 | An expression folds exactly when it is signed throughout, or unsigned throughout, in width and without division by zero |
| IntegerConstant.DivisionByZeroExactly | src/integer_constant.rs:82-91 | A signed expression folds to a division by zero exactly when some part divides by something that folds to zero |
| IntegerConstant.WrapsOnce | src/integer_constant.rs:92-95 | Without division, wrapping at every step equals the exact value wrapped once to 32 bits |
| IntegerConstant.UnsignedWrapsOnce | src/integer_constant.rs:105-116 | The same for unsigned expressions modulo 2^32 |
| IntegerConstant.DivisionGivesBack | src/integer_constant.rs:92-103 | Quotient times divisor plus remainder folds back to the dividend, also for the minimum divided by -1, and elsewhere the quotient is the exact one |
| IntegerConstant.UnsignedDivisionGivesBack | src/integer_constant.rs:105-116 | Unsigned quotient times divisor plus remainder folds back to the dividend, with the remainder below the divisor |
| IntegerConstant.RestBounds | src/integer_constant.rs:100-103 | A remainder is smaller than its divisor and has the sign of the dividend |
| IntegerConstant.RepresentativeFits | src/integer_constant.rs:121-147 | A list has a representative unless it is empty or mixes signedness, and the representative fits a type exactly when every constituent does |
| IntegerConstant.RepresentativeLast | src/integer_constant.rs:121-147 | Every constituent after the representative is narrower: some type takes it and not the representative |
| IntegerConstant.SignedFits | src/integer_constant.rs:54-62 | A signed constant fits exactly the signed types of 8, 16, 32 and 64 bits whose two's complement range includes it |
| IntegerConstant.UnsignedFits | src/integer_constant.rs:65-71 | An unsigned constant fits exactly the unsigned types wide enough for its magnitude |
| IntegerConstant.DivisionByZeroFits | src/integer_constant.rs:63-64 | A division by zero fits exactly the types that take every `Int` |
| CodeSpan.FormatNotes | scripts/format-release-notes.py:28-36 | The loop renders every line in order |
| CodeSpan.RenderedInOrder | scripts/format-release-notes.py:28-36 | Each line stands where the lines before it end, and a line that is no change stands there as it is |
| CodeSpan.FenceIs | scripts/format-release-notes.py:18-24 | The fence is one backtick longer than the longest run in the title |
| CodeSpan.SpanReads | scripts/format-release-notes.py:18-24 | Reading the code span of any non-empty title, whatever backtick runs it holds, ends at its own fence |
| CodeSpan.TitleRoundTrips | scripts/format-release-notes.py:18-24 | By section 6.1 of CommonMark 0.31.2 the span of a title reads as the title, whatever follows short of a backtick, if and only if the title is not empty and has no line ending |
| CodeSpan.ChangeReads | scripts/format-release-notes.py:28-36 | In a rendered change the title reads back and the bullet, attribution and line end are untouched |
| LspDiff.NormalizeComparesWords | scripts/lsp-diff.py:269-271 | Messages compare equal exactly when they have the same words, and normalising twice changes nothing |
| LspDiff.WordsKeepText | scripts/lsp-diff.py:269-271 | Splitting a message loses white space only, and no word has any |
| LspDiff.KeysTellRanges | scripts/lsp-diff.py:257-266 | Keys read off complete ranges and are equal exactly for equal ones, and a missing range is a place of its own |
| LspDiff.Compare | scripts/lsp-diff.py:274-308 | The loop that removes from the remaining list is the specification fold |
| LspDiff.StepExactly | scripts/lsp-diff.py:278-304 | A reference diagnostic takes the first remaining one that is equal; where there is none, the first in its place, as reworded; where there is none, the first that says the same, as moved; or it is missing |
| LspDiff.ComparisonSteps | scripts/lsp-diff.py:274-308 | A comparison takes those steps in the order of the reference, and what remains is extra, in its own order |
| LspDiff.ComparisonConserves | scripts/lsp-diff.py:274-308 | The classes hold each reference and each krusty diagnostic once, by place and text; reworded ones differ in text, moved ones in place |
| LspDiff.ComparisonCounts | scripts/lsp-diff.py:274-308 | The counts of the classes add up to both lists |
| LspDiff.NoDifferenceExactly | scripts/lsp-diff.py:274-308 | The four difference classes are all empty if and only if both lists hold the same diagnostics, counted by place and normalised text |
| LspDiff.MatchesExactly | scripts/lsp-diff.py:274-308 | The matches a comparison loses are, one for one, the steps in which a reference diagnostic takes a different one that a later one needs; it makes every match the lists allow if and only if there is no such step |
| LspDiff.NeverLostExactly | scripts/lsp-diff.py:279-297 | However the two lists are ordered, and however often diagnostics krusty has too few of are repeated in the reference, every match is made: if and only if none of those shares its place or its text with a different diagnostic that both sides have |
| LspDiff.GreedyLosesMatch | scripts/lsp-diff.py:279-297 | Two diagnostics at one place with different texts match or not depending on their order in the reference |

## Left out

- Transitivity.Transitive: is stated without projections, platform and flexible types, `T & Any`, inferred bindings and classes that are function classifiers; `Limits` has programs where these break it.
- Transitivity.Transitive: templates of supertypes are parameters, fixed types and classes over these; a nullable or function type over a parameter is not among them.
- Soundness.Sound: excludes error, platform, flexible and raw types, a star or `out` projection in a contravariant slot and an `in` projection in a covariant one, capture of unbound variables, and variables whose bounds do not keep null; `SoundnessLimits` says when answers of the last four kinds are inclusions.
- SoundnessLimits.ContravariantExactly: speaks, like the other exact conditions on arguments, of a class with one parameter and of expected arguments that are no variables at their head.
- Termination.Terminates: asks that arguments of supertypes are no deeper than the subtype and that variables capture may bind stand on one side only, or meet themselves. The guard is not exact: a comparison that binds such a variable to a piece with another one may end. A variable is ranked above the bounds it declares, so `T : Comparable<T>` is covered where the recursive bound is the one the type carries, and not where the oracle declares it.
- Hierarchy.AppliedSupertypeLoop: ranges over finitely many classifiers, so the example hierarchy has function types up to any one number of parameters.
- Modules.ChainIsClosure: speaks of acyclic hierarchies; on a cycle the visitor still ends, and dependencies-first has no meaning.
- ModuleUnits.DependenciesAreUnits: asks that dependency names are declared; an undeclared name is kept as it is.
- Sampling.EvenlySample: wraps products as a release build does; a build with overflow checks stops at the first product that wraps.
- CodeSpan.FormatNotes: takes each line as already split into bullet, title and attribution.
- Features.RunRebuilds: does not cover opt-in markers, which the source does not list as settings either.
- CodeSpan.TitleRoundTrips: takes the change line as already split into bullet, title and attribution; the pattern that splits it is not modelled.
- The order in which canonical intersections list components, and the identities behind it: components are kept in first-occurrence order.
- Type-parameter and inference-variable names are numbers, and one constructor with a flag stands for both kinds.
- Process-wide targets, tracing, file and subprocess I/O, the LSP client, and parsing of options and of test directives inside lines: lines, tokens and versions come classified.
- Splitting a `// LANGUAGE:` payload into tokens, and the other source directives: tokens come classified.
- The release tables of language features: the table is a parameter, and a feature is on by default as `src/features/table.rs:116-123` says.
- Checker roots in `src/fir/body_work/checker_roots.rs`: which declaration is the ordinary root of another is a parameter of `BodyGroups`.
- The callable index and the override resolution behind `src/frontend.rs:666-676`: override edges come as pairs of declarations.
- Which headers are excluded after matching, `aliased` expects and diagnostics for missing actuals.
- Sorting diagnostics by source order, module-wide warnings and errors, `-Xwarning-level`.
- Reading JSON, walking directories and printing in the scripts.
- The remaining policies and tables, KLIB providers, backends and printers, which would add only easy members.
