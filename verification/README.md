# Sonite: a verified model of the type checker, the package manager and the language server

This project models four parts of the Sonite toolchain and proves what they promise.

* **The type checker.** Structural type equality and union normalisation (`Types`), assignability over
  a value denotation (`Assignability` for what it accepts, `Subtyping` for what it refuses), narrowing of
  types by facts (`Narrowing`), facts taken from conditions (`Conditions`), and that neither loses anything
  (`Precision`); the checking of statements (`Statements` as functions, `Checker` as the imperative walk that
  edits one scope map), what it accepts (`Acceptance`), a big-step execution of the same statements
  (`Execution`), and the proofs that what the checker believes about a variable stays true in every run
  (`FlowTyping`) and that constants stay constant (`ConstBindings`), with accepted programs outside of what
  can be proved (`FlowLimits`).
* **Layout, matching and order.** Itables of interfaces (`Interfaces`, `InterfaceMembers`,
  `InterfaceCollection`), fields and vtables of classes (`Classes`, `ClassMembers`, `ClassCollection`), the
  tables of all modules together (`ModuleTables`), type-argument inference as first-order matching
  (`Inference`), and the order in which modules are collected (`Graphs`, `ModuleOrder`).
* **The package manager.** Version precedence and requirements (`SemVer`), reachability and cycles
  (`DependencyGraph`), the resolver's fixpoint (`Resolve` states what a result means, `Resolver` is the
  algorithm, `DeadCycle` and `StalePath` two runs of it over the releases in `Releases`), and the shared
  package store (`Store` as functions on states, `PackageStore` for commands and runs of several projects,
  `ProjectInstalls` for when they succeed and what they leave, `StoreManager` as the operations that edit the
  index and the disk).
* **The language server.** The reverse-dependency index (`ReverseDeps`), the LRU analysis cache that pins
  open documents (`AnalysisCache`), the event state machine over both (`LanguageServer`), and the order of use
  that it keeps (`Recency`).

Code that changes state in place is a class or a method with loops here, proved equal to a
specification function; the theorems are about that function and about runs of it.

## How the parts fit together

Values: a type denotes a set of values (`Assignability.HasType`). Class tables and interface tables are
those the collectors build: collecting all modules one after another gives tables whose every entry is
finished, and where no mangled names collide also registered (`ModuleTables.CollectModules`), such tables are closed
(`Assignability.CollectedTablesAreClosed`), and on closed tables assignability is sound. It is also complete
between types that have a value of their own, one that belongs to no type they are not assignable to
(`Subtyping.AssignableIffIncluded`), so there it is inclusion of values. A value boxed into a
union carries one of the nine tags of `codegen/llvm.ts:171-182`, a value without a tag of its own the one of
objects. Execution takes an oracle for calls and for evaluation that throws, so a statement about every run
quantifies over what calls return and where exceptions arise. Loops run on fuel: every statement holds for
every fuel, that is for every finite prefix of every run.

Tests: `typeof` and `is` look at a variable by the type it is stored with, which narrowing does not change
(`Narrowing.TypeofValue`, `Narrowing.IsValue`): a union of null and references is a bare pointer, any other
union has a tag, and for all other types the answer is fixed when the code is generated. Where types show
that such a test comes out as for a boxed value (`Narrowing.PlainTypeofExact`, `Narrowing.PlainIsExact`), the
facts taken from it are true.

Collecting: a declaration has a definition of its own, found by following its `extends` lists to the end
(`InterfaceCollection.DefOf`, `ClassCollection.ClassDefOf`). The collectors walk and mark names instead, and
are proved to yield these definitions, with a diagnostic exactly where one is missing. When a layout is in
order is said on the declarations (`InterfaceMembers.ItableOkIff`, `ClassMembers.LayoutOkIff`).

Definite assignment: declarations in the bodies of `for`, `switch` and `try` stay in the checker's scope
although the body may not have run. `FlowTyping` follows the variables that have certainly been assigned, and
its theorem is about those.

Resolution: the registry, published manifests and package directories are maps that do not change during
one resolution. The order in which JavaScript maps are walked is left open (`:|`), so the results hold for
every order. The version parser of the `semver` library is a function parameter; precedence and the three
kinds of requirement are modelled as that library computes them.

The store: `name@version` keys are strings; names contain no `@`, which is what the package-name pattern
of `deps/manifest.ts:10` enforces. Registry answers, existing directories and the outcome of the resolver
are inputs of each command.

The language server: a result records how often each file had been edited when it was made, so that
"computed after the last edit" is a statement about its contents.

## Where the code does not do what it or its documentation says

* `InterfaceDef.methods` is documented as prefix-compatible with each base at its recorded offset
  (`typecheck.ts:272-279`). With methods shared between direct bases it is not:
  `Interfaces.DirectSlicesMatchIff`, `Interfaces.DiamondLosesSlice`.
* The false branch of `&&` inverts both facts at once (`typecheck-advanced.ts:783-786`), which is wrong when only
  one side is false: `Conditions.ConjunctionFalseFacts` says exactly when they hold, `Conditions.FactsExact` does so
  for every condition; `FlowLimits.ConjunctionNarrowsTooFar`.
* `for`, `switch` and `try` bodies are checked in the caller's scope map, so narrowing inside them leaks
  out: `FlowLimits.ForLeaksNarrowing`, `FlowLimits.SwitchLeaksNarrowing`, `FlowLimits.TryLeaksNarrowing`. So do
  declarations, whether or not the body runs: `FlowLimits.ForLeaksDeclaration`. A catch parameter takes the
  place of a variable of the same name: `FlowLimits.CatchOverwrites`.
* `typeof` narrows wrongly where untagged arms report `object` (`Narrowing.TagGuardIsExact`), and on
  `string | null`, where a string reports `object` too: `Narrowing.PointerTypeofIff`, `FlowLimits.TypeofMissesString`.
* `is` compares tags for every target that is no class, so it narrows wrongly between arms that share one:
  `Narrowing.IsGuardIsExact`, `Narrowing.LiteralTestUnsound`.
* `bodyReturnsValue` accepts a `try` that returns although its `catch` does not:
  `Execution.CatchFallsThrough`.
* An intersection without arms is assignable to everything (`Assignability.EmptyIntersectionUnsound`). An
  interface is assignable to a base although it has an index signature that the base lacks
  (`Assignability.IndexedBaseUnsound`; `Assignability.PrimIndexesCohereIff` and
  `Assignability.IndexCoherenceIsExact` say exactly when that is right). A map is assignable to an interface
  with an index signature whatever methods that has (`Assignability.MapWithoutMethods`;
  `Assignability.InterfaceValuesConformIff`).
* Function types are documented as compatible with contravariant parameters (`docs/spec/types.md:96`); the code
  requires equal ones (`Subtyping.InvariantIff`). An intersection is not assignable to its own arms unless the
  other arms are, and null to no intersection (`Subtyping.FromIntersectionIff`, `Subtyping.ToIntersectionIff`,
  `Subtyping.IntersectionRefused`); nor are maps to objects without fields, and objects with an index signature
  to interfaces with the same one (`Subtyping.IndexedRefused`). All their values would fit.
* A project module's id is the base name of its file, and nothing keeps two files apart. Where they declare
  interfaces of one name, the later takes the earlier one's place in the table, and a class that implements the
  earlier is assignable to it without having its methods: `ModuleTables.CollidingModules`. It has those of the
  definition it was checked against (`Assignability.AssignableClassImplements`).
* A local without initialiser is accepted for every type, and has a value of it only where zero is one:
  `FlowLimits.UninitializedLocalIff`, `Execution.ZeroFitsIff`.
* Matching `() => T` against a void function fails although `Future<T>` against `Future<void>` succeeds
  (`Inference.InferenceComplete` says exactly when), and matching ignores `async` (`Inference.InferenceSound`).
* The eviction loop's exits for pinned documents ("drop oldest anyway after one pass",
  `server.ts:206-214`) are never taken; with 65 open documents it rotates for ever
  (`AnalysisCache.StopsIff`).
* The resolver keeps packages that nothing needs when they form a dependency cycle
  (`Resolve.SelectionIsReachableIff` says exactly when it does, `DeadCycle.KeepDeadCycle` is a run). A registry
  package that has lost all its constraints stays at its old version while a path dependency names it
  (`Resolve.UnconstrainedIsPathTarget`; `StalePath.KeepStalePackage` is a run); one that no path dependency
  names sits right (`Resolve.SitsRightUnlessPathTarget`).
* A re-exported file is not among the imports from which dependents are collected (`protocol.ts:624-636`), so an
  edit of it leaves the result of the file that re-exports it in the cache: `LanguageServer.ReexportStaleIff`,
  `LanguageServer.ReexportGoesStale`.
* Versions that the resolver fetches and rejects stay registered: `Store.LeftoverRegistrations`.
* A resolution that fails keeps the lockfile, but what it has fetched by then has released the locked versions of
  the same names: `Store.LockSurvivesIff`, `Store.FetchThenFailure`.
* A package directory is deleted before the archive is extracted. When extraction breaks off, a registered
  version can be missing (`Store.FetchSoundIff`), or half there and later taken for good
  (`Store.InstallHalfIff`, `Store.HalfInstalled`).

## Model

| member | source | states |
|---|---|---|
| Types.EqualIffErased | packages/compiler/src/typecheck-advanced.ts:264-365 | structural equality over all nested types is exactly equality after erasing shape names and constraints |
| Types.EqualIsEquivalence | packages/compiler/src/typecheck-advanced.ts:264-365 | type equality is reflexive, symmetric and transitive |
| Types.FlattenLeaves | packages/compiler/src/typecheck-advanced.ts:129-134 | flattening collects exactly the non-union parts of nested unions |
| Types.FlattenInOrder | packages/compiler/src/typecheck-advanced.ts:129-134 | arm after arm, in order |
| Types.BuildUnion | packages/compiler/src/typecheck-advanced.ts:136-148 | the loop over the arms builds the union the specification function gives |
| Types.MakeUnionNormal | packages/compiler/src/typecheck-advanced.ts:136-148 | a made union is flat and duplicate free, has exactly the input arms up to equality, and rebuilding it from its arms is the identity |
| Interfaces.SameShapeIsEquivalence | packages/compiler/src/typecheck.ts:2804-2814 | comparing signatures by parameters and return type is an equivalence |
| InterfaceCollection.MangleInjective | packages/compiler/src/modules/mangle.ts:5-10 | within one module different names mangle differently |
| InterfaceCollection.LayOut | packages/compiler/src/typecheck.ts:2794-2887 | the two loops that push methods and record offsets compute the specified itable |
| InterfaceCollection.LayOutBase | packages/compiler/src/typecheck.ts:2800-2841 | the loop over one base's methods skips names that have a slot, fails on unequal signatures, and pushes the rest |
| InterfaceCollection.LayOutOwn | packages/compiler/src/typecheck.ts:2843-2887 | the loop over own methods refuses taken names and unresolved signatures and pushes the rest |
| InterfaceCollection.RecordBase | packages/compiler/src/typecheck.ts:2801-2806 | the base is recorded at the current length, its own bases at shifted offsets unless already recorded |
| InterfaceCollection.InterfaceCollector.constructor | packages/compiler/src/typecheck.ts:2736-2740 | the collector starts with nothing done and the collection invariant, whether or not the module's names are taken |
| InterfaceCollection.InterfaceCollector.FinishInterface | packages/compiler/src/typecheck.ts:2742-2934 | every visit keeps the invariant that each finished name has a definition laid out from resolved bases; a null result has reported an error; a declaration with a definition that meets no name being visited gives none |
| InterfaceCollection.InterfaceCollector.Lookup | packages/compiler/src/typecheck.ts:2761-2790 | a base name resolves to a finished definition through a namespace, the module itself, or the imports, and does so without a diagnostic if it has one |
| InterfaceCollection.CollectInterfaces | packages/compiler/src/typecheck.ts:2936-2942 | there is no diagnostic if and only if every declaration has a definition: it is in no cycle, all it extends is known, and it and its bases are in order; then each stands in the table under its name; every entry is finished, entries of other modules' names are kept, and all are registered where no earlier module took the names |
| Interfaces.OffsetKeysAreBases | packages/compiler/src/typecheck.ts:2794-2806 | the offset table has exactly the reflexive-transitive bases as keys |
| Interfaces.OffsetKeyDefined | packages/compiler/src/typecheck.ts:2794-2806 | every key of an offset table is a registered, finished interface that is strictly lower |
| Interfaces.BaseMethodsProvided | packages/compiler/src/typecheck.ts:2807-2841 | every method of every transitive base appears with an equal signature |
| Interfaces.NamedBase | packages/compiler/src/typecheck.ts:2794-2841 | every name in an offset table is that of a finished base definition all of whose methods are present, whatever the tables hold under that name |
| Interfaces.SlicesMatchBases | packages/compiler/src/typecheck.ts:272-279 | with hereditarily disjoint method names the slice at each recorded offset is that base's table, for all transitive bases |
| Interfaces.DirectSlicesMatchIff | packages/compiler/src/typecheck.ts:272-279 | the recorded offsets of the direct bases are right if and only if no two of them have a method of the same name |
| Interfaces.SharedMethodBreaksSlice | packages/compiler/src/typecheck.ts:2807-2832 | a method shared by two direct bases makes the later base's slice wrong |
| Interfaces.DiamondLosesSlice | packages/compiler/src/typecheck.ts:2807-2832 | the smallest diamond: the second base's slice is lost |
| InterfaceMembers.ItableOkIff | packages/compiler/src/typecheck.ts:2792-2887 | an itable is accepted if and only if no two bases have methods of one name with different signatures, and the declared methods resolve, differ, and are new |
| InterfaceMembers.ItableMembers | packages/compiler/src/typecheck.ts:2792-2887 | the table holds methods of the bases, and behind them exactly the declared ones in order |
| InterfaceCollection.CompleteDenotes | packages/compiler/src/typecheck.ts:2742-2934 | what the walk has collected for a name is what its declaration defines over the definitions of its bases |
| ClassCollection.ReadMembers | packages/compiler/src/typecheck.ts:3143-3285 | the member loop computes the specified fields, own methods and constructor |
| ClassCollection.ReindexFields | packages/compiler/src/typecheck.ts:3287-3291 | fields are renumbered from one in order |
| ClassCollection.IndexSlots | packages/compiler/src/typecheck.ts:3298-3298 | the name-to-slot map agrees with searching the table |
| ClassCollection.PlaceOwn | packages/compiler/src/typecheck.ts:3300-3398 | overriding in place and appending with the slot map is the specified vtable |
| ClassCollection.CheckClass | packages/compiler/src/typecheck.ts:3400-3484 | a class passes exactly when it is abstract or has no abstract slot, complies with its interfaces, and its constructor is in order |
| ClassCollection.ClassCollector.constructor | packages/compiler/src/typecheck.ts:3040-3044 | the collector starts with nothing done and the collection invariant, whether or not the module's names are taken |
| ClassCollection.ClassCollector.ResolveImplements | packages/compiler/src/typecheck.ts:3096-3141 | the implements list yields each named interface once; there is an error exactly when one is unknown or named twice |
| ClassCollection.ClassCollector.FinishClass | packages/compiler/src/typecheck.ts:3046-3518 | every visit keeps the invariant that each finished name has a definition laid out on a finished superclass; a declaration with a definition that meets no name being visited gives no diagnostic |
| ClassCollection.ClassCollector.FinishOver | packages/compiler/src/typecheck.ts:3096-3518 | over a known superclass the implements list and the layout give no diagnostic if the declaration has a definition |
| ClassCollection.ClassCollector.LayOut | packages/compiler/src/typecheck.ts:3143-3518 | a class is registered exactly when its layout passes all checks, under its mangled name |
| ClassCollection.ClassCollector.LookupSuperclass | packages/compiler/src/typecheck.ts:3063-3094 | the superclass name resolves to a finished class through a namespace, the module, or the imports, without a diagnostic if it has a definition |
| ClassCollection.CollectClasses | packages/compiler/src/typecheck.ts:3520-3527 | the same for classes: no diagnostic if and only if every declaration has a definition over its superclass chain and its implements list; then each stands in the table under its name |
| ClassCollection.ResolvedClassDenotes | packages/compiler/src/typecheck.ts:3046-3518 | without a diagnostic, what the walk has collected for a name is what its declaration defines |
| ModuleTables.CollectModule | packages/compiler/src/typecheck.ts:1976-1998 | one module after others: its imports are finished definitions, the tables stay collected where its names are free, entries of other names are kept, and without a diagnostic its declarations stand in the table |
| ModuleTables.CollectModules | packages/compiler/src/typecheck.ts:694-704 | collecting all modules in order gives tables whose every entry is finished, and where no names collide also registered, with every declaration in its place if there was no diagnostic; the last module's declarations are there even where names collide |
| ModuleTables.CollidingModules | packages/compiler/src/modules/mangle.ts:13-16 | two files of one base name collect without a diagnostic to tables of finished entries in which a class is assignable to an interface whose method it lacks |
| Classes.FinishedClassFields | packages/compiler/src/typecheck.ts:3143-3145 | the superclass's fields are an index-preserving prefix and field i has index i + 1 |
| ClassMembers.FieldLayout | packages/compiler/src/typecheck.ts:3143-3291 | the fields of a class are those of its superclass and then exactly its declared instance fields in order, each with its name and type, and declared by this class |
| ClassMembers.FieldLayoutIsLookup | packages/compiler/src/typecheck.ts:3143-3291 | a field is in the layout if and only if a class on the chain declares it, and as the nearest such class has it |
| ClassMembers.ConstructorLayout | packages/compiler/src/typecheck.ts:3462-3484 | a declared constructor has its parameters; without one a class is constructed from nothing, and so is its superclass |
| ClassMembers.ScanOkIff | packages/compiler/src/typecheck.ts:3156-3285 | the members are read without error if and only if each is in order by itself and no two get in each other's way |
| ClassMembers.LayoutOkIff | packages/compiler/src/typecheck.ts:3143-3484 | a class passes all checks if and only if its members are in order, its methods keep the signatures they override, lookup finds no abstract method in a concrete class and a public method of equal signature for each interface method, and its constructor is in order |
| Classes.PlaceMethodsFacts | packages/compiler/src/typecheck.ts:3293-3398 | the table extends the inherited one, each slot holds an own method or the inherited one, and no own method is missing |
| Classes.VtableIsLookup | packages/compiler/src/typecheck.ts:3293-3411 | slot i has number i, names are unique, each slot's implementing class is the nearest on the superclass chain that declares the method, a method is in the table if and only if lookup finds it, and a concrete class has no abstract slot |
| Classes.AncestorLayoutIsPrefix | packages/compiler/src/typecheck.ts:3293-3398 | every ancestor's table is a name-and-signature prefix and every ancestor's fields are a prefix |
| Classes.SatisfyingClassConforms | packages/compiler/src/typecheck.ts:3413-3460 | a class that satisfies an interface through superclasses and base interfaces has all its methods with equal parameter and return types |
| Classes.SatisfiedDefinition | packages/compiler/src/typecheck.ts:3961-3972 | a finished class that satisfies an interface by name has every method of some finished definition of that name |
| Assignability.EqualTypesSameValues | packages/compiler/src/typecheck-advanced.ts:264-365 | equal types have the same values |
| Assignability.AssignableSound | packages/compiler/src/typecheck-advanced.ts:478-619 | if a type is assignable to another, every value of the first is a value of the second, where index signatures are handed on to bases assignably |
| Assignability.LiteralBaseHasNoMapCase | packages/compiler/src/typecheck-advanced.ts:500-509 | assigning a literal through its base type never needs the map-to-interface case, so the recursion decreases |
| Assignability.NominalSound | packages/compiler/src/typecheck.ts:3552-3590 | class chains, class-to-interface and interface-to-base assignability preserve values |
| Assignability.EmptyIntersectionUnsound | packages/compiler/src/typecheck-advanced.ts:531-537 | the empty intersection is assignable to string but has null as a value |
| Assignability.IndexCoherenceIsExact | packages/compiler/src/typecheck.ts:3581-3603 | interface-to-base assignability preserves values if and only if index signatures are handed on to the bases |
| Assignability.AssignableIndexesCohere | packages/compiler/src/typecheck.ts:3581-3603 | index signatures that the checker finds assignable to those of all bases are handed on |
| Assignability.PrimIndexesCohereIff | packages/compiler/src/typecheck.ts:3581-3603 | for index signatures of primitive types it does so if and only if every base has the same one |
| Assignability.IndexedBaseUnsound | packages/compiler/src/typecheck.ts:3581-3603 | tables the collectors accept, an accepted assignment to the base, and a map that is lost: an index signature the base lacks |
| Assignability.InterfaceValuesConformIff | packages/compiler/src/typecheck.ts:3593-3603 | every value of an interface type answers all its methods if and only if the interface has no methods or no index signature |
| Assignability.MapWithoutMethods | packages/compiler/src/typecheck.ts:3593-3603 | a map type is assignable to such an interface, and no map answers any method |
| Assignability.CollectedTablesAreClosed | packages/compiler/src/typecheck.ts:2921-2933 | tables built by the collectors are closed under superclasses, implemented and base interfaces |
| Assignability.AssignableClassConforms | packages/compiler/src/typecheck.ts:3567-3580 | a class type assignable to an interface type has every method of the interface with an equal shape |
| Assignability.AssignableClassImplements | packages/compiler/src/typecheck.ts:3961-3972 | in any tables of finished classes, an assignable class has every method of a finished definition of the interface's name, hence of the table's if that is the one |
| Subtyping.AssignableIffIncluded | packages/compiler/src/typecheck-advanced.ts:478-619 | between unions of types that have a value of their own and plain targets, a type is assignable to another if and only if all its values are values of it |
| Subtyping.ClassAssignableIff | packages/compiler/src/typecheck.ts:3552-3580 | a class is assignable to a class or a registered interface if and only if all instances of it and its subclasses are values of that |
| Subtyping.InterfaceAssignableIff | packages/compiler/src/typecheck.ts:3581-3590 | an interface is assignable to exactly its reflexive-transitive bases |
| Subtyping.UnionAssignableIff | packages/compiler/src/typecheck-advanced.ts:516-522 | however unions are nested, one is assignable to another if and only if each arm is assignable to some arm |
| Subtyping.NullAssignableIff | packages/compiler/src/typecheck-advanced.ts:487-498 | null is assignable exactly to null, pointers, and unions with such an arm |
| Subtyping.ToIntersectionIff | packages/compiler/src/typecheck-advanced.ts:524-526 | a type other than null is assignable to an intersection if and only if it is to all arms; null never is |
| Subtyping.FromIntersectionIff | packages/compiler/src/typecheck-advanced.ts:528-530 | an intersection is assignable to a type if and only if all its arms are |
| Subtyping.IntersectionRefused | packages/compiler/src/typecheck-advanced.ts:528-530 | an intersection of two object types is refused where one of them is expected, although all its values fit |
| Subtyping.IndexedRefused | packages/compiler/src/typecheck-advanced.ts:532-565 | maps are refused for objects without fields and indexed objects for interfaces with the same index signature, although all their values fit |
| Subtyping.InvariantIff | packages/compiler/src/typecheck-advanced.ts:567-585 | array types and function types are assignable exactly to equal ones |
| Narrowing.FlattenMeaning | packages/compiler/src/typecheck-advanced.ts:129-134 | a type has the values of its flattened arms |
| Narrowing.MakeUnionMeaning | packages/compiler/src/typecheck-advanced.ts:136-148 | a made union denotes exactly the union of its inputs |
| Narrowing.TypeofSound | packages/compiler/src/typecheck-advanced.ts:408-422 | a typeof test keeps the value in the narrowed type, under the guard on positive tests |
| Narrowing.NullSound | packages/compiler/src/typecheck-advanced.ts:424-445 | a null test keeps the value in the narrowed type |
| Narrowing.IsSound | packages/compiler/src/typecheck-advanced.ts:447-474 | an is test keeps the value in the narrowed type under the guard on shared tags |
| Narrowing.IsGuardIsExact | packages/compiler/src/codegen/llvm.ts:8322-8330 | over arms of simple types, a successful tag test narrows rightly if and only if every arm with the tested tag is the tested type or a literal of it; a failed one always does |
| Narrowing.LiteralTestUnsound | packages/compiler/src/codegen/llvm.ts:8322-8330 | testing one of two string literals admits the other |
| Narrowing.PlainTypeofExact | packages/compiler/src/codegen/llvm.ts:6878-6912 | where the types show it for the tested tag, typeof of a variable by its stored type reports that tag exactly when its value has it |
| Narrowing.PlainIsExact | packages/compiler/src/codegen/llvm.ts:8214-8352 | and is compares it |
| Narrowing.PointerTypeofIff | packages/compiler/src/codegen/llvm.ts:6880-6900 | on a nullable pointer, typeof narrows rightly if and only if no string or future is taken for an object and no string for null |
| Narrowing.NarrowSound | packages/compiler/src/typecheck-advanced.ts:696-705 | a true fact keeps the value inside the narrowed type |
| Narrowing.TagGuardIsExact | packages/compiler/src/typecheck-advanced.ts:371-422 | positive typeof narrowing is right if and only if no untagged arm can report the tested tag |
| Narrowing.NarrowShrinks | packages/compiler/src/typecheck-advanced.ts:696-705 | where a fact holds of some value, the narrowed type has no new values |
| Narrowing.NullTestOnNonNull | packages/compiler/src/typecheck-advanced.ts:436-445 | a null test on a type without null narrows to null, in a branch no value enters |
| Precision.NarrowExact | packages/compiler/src/typecheck-advanced.ts:408-474 | where the arms of a type decide a fact and one of them is selected, the narrowed type has exactly the values of the old one for which the fact is true |
| Conditions.FactsSound | packages/compiler/src/typecheck-advanced.ts:681-788 | true facts hold when a condition is true, false facts when it is false, by polarity, excluding inverted conjunctions with facts |
| Conditions.FactsExact | packages/compiler/src/typecheck-advanced.ts:681-788 | for every condition and store, the facts of either branch are true if and only if the tests behind them come out as assumed |
| Precision.FactsTellAll | packages/compiler/src/typecheck-advanced.ts:681-788 | a condition made of tests and conjunctions holds exactly when its true facts do, one made of tests and disjunctions fails exactly when its false facts do |
| Conditions.ConjunctionFalseFacts | packages/compiler/src/typecheck-advanced.ts:783-786 | the false facts of a conjunction hold if and only if both tests fail, on one variable or two; beside a condition without facts, if and only if the test fails |
| Conditions.InvertedConjunctionUnsound | packages/compiler/src/typecheck-advanced.ts:783-786 | for any two tests of different variables that can be decided apart, the inverted facts of their conjunction fail in some store |
| Conditions.PlainTestsRead | packages/compiler/src/codegen/llvm.ts:6878-6912 | tests that are plain by the types in scope come out as for boxed values |
| Conditions.InvertedFactsFail | packages/compiler/src/typecheck-advanced.ts:681-694 | inverted facts all hold if and only if every fact fails, and inverting twice gives the facts back |
| Conditions.ApplyFactsSound | packages/compiler/src/typecheck-advanced.ts:790-804 | true and guarded facts leave every variable inside its narrowed type and the new scope below the old one |
| Checker.ApplyNarrowingFacts | packages/compiler/src/typecheck-advanced.ts:790-804 | a fresh narrowed copy, the given scope untouched |
| Checker.MutateScopeWithFacts | packages/compiler/src/typecheck-advanced.ts:807-818 | the scope narrowed in place, fact by fact |
| Checker.CheckDeclaration | packages/compiler/src/typecheck.ts:7089-7226 | a declaration binds its annotated or inferred type, or reports an error and binds nothing |
| Checker.CheckAssignment | packages/compiler/src/typecheck.ts:7776-7839 | an assignment is accepted exactly when the target is a mutable local whose type accepts the value |
| Checker.CheckStatements | packages/compiler/src/typecheck.ts:6986-7039 | the loop computes exits, the resulting scope and the errors of the specification, unreachable code included |
| Checker.CheckIf | packages/compiler/src/typecheck.ts:7329-7406 | branches on narrowed copies, then the other branch's facts applied in place when exactly one branch exits |
| Checker.CheckLoop | packages/compiler/src/typecheck.ts:7407-7553 | while bodies are checked on a narrowed copy, for and for-in bodies on the shared scope |
| Checker.CheckSwitch | packages/compiler/src/typecheck.ts:7554-7660 | cases share the scope in order; labels distinct and assignable, one default |
| Checker.CheckTryStatement | packages/compiler/src/typecheck.ts:7699-7756 | try and finally share the scope, catch works on a copy with the error bound |
| Checker.CheckStatement | packages/compiler/src/typecheck.ts:7077-7774 | every statement kind edits scope and errors, and reports exits, as specified |
| Checker.CheckFunctionBody | packages/compiler/src/typecheck.ts:6289-6301 | a body is accepted exactly when its statements check and a non-void one returns |
| Acceptance.LiteralAssignableIff | packages/compiler/src/typecheck-advanced.ts:500-512 | a literal type is assignable to exactly the types its value belongs to |
| Acceptance.LiteralAcceptedIff | packages/compiler/src/typecheck.ts:12347-12397 | a literal is accepted exactly where the value it is turned into belongs, integer widths included |
| Acceptance.AcceptedIffIncluded | packages/compiler/src/typecheck.ts:12347-12397 | any other expression is accepted exactly where all values of its type belong |
| Acceptance.AssignAfterDecl | packages/compiler/src/typecheck.ts:7089-7226 | a declared variable takes what its annotation takes, and can be assigned exactly if it was declared with let |
| Acceptance.GuardedUses | packages/compiler/src/typecheck.ts:7329-7441 | in the branches of an if and in the body of a while a variable is accepted exactly if its narrowed type is |
| Acceptance.UseAfterIf | packages/compiler/src/typecheck.ts:7376-7405 | after an if whose one branch leaves it is accepted exactly if the type that the other branch leaves it is |
| Acceptance.UseInConjunction | packages/compiler/src/typecheck.ts:10127-10135 | the right operand of a conjunction is checked at the narrowed type |
| Acceptance.GuardedUseIff | packages/compiler/src/typecheck-advanced.ts:696-705 | where the arms decide the test, a guarded use is accepted if and only if every value that passes the test belongs |
| Acceptance.TestTypedIff | packages/compiler/src/typecheck.ts:10109-10200 | a test has a type exactly if its variable is known, can be compared with null or has a tag, as the test needs |
| Acceptance.EqualityIsSymmetric | packages/compiler/src/typecheck.ts:10138-10200 | which operands an equality takes does not depend on their order |
| Acceptance.SwitchIsEquality | packages/compiler/src/typecheck.ts:7554-7575 | a subject can be switched on exactly if it can be compared with itself, null apart |
| Acceptance.SwitchTargetIff | packages/compiler/src/typecheck.ts:7576-7660 | in an accepted switch labels are values of the type of the subject, no two are equal, there is one default at most, and it jumps to a label if and only if that has the value |
| Acceptance.ThrowableIff | packages/compiler/src/typecheck.ts:3795-3815 | a class can be thrown if and only if all its instances are errors |
| Acceptance.BodyAcceptedIff | packages/compiler/src/typecheck.ts:6289-6301 | a body is accepted exactly when it checks and, in a non-void function, some statement of it returns a value on its paths |
| Acceptance.AcceptedNotStuck | packages/compiler/src/typecheck.ts:7077-7774 | where variables have values of their types, an accepted statement reads only variables with values, tests bools, walks arrays, throws errors and does arithmetic on numbers |
| Acceptance.ForTestIsBool | packages/compiler/src/typecheck.ts:7443-7496 | so does the test of an accepted for loop |
| ConstBindings.BlockKeeps | packages/compiler/src/typecheck.ts:7796-7805 | in every execution of an accepted list a constant in scope holds one value at every point and at the end, unless a catch clause binds its name |
| ConstBindings.ConstDeclared | packages/compiler/src/typecheck.ts:7089-7226 | a constant keeps the value of its declaration for the rest of its list |
| ConstBindings.ConstItem | packages/compiler/src/typecheck.ts:7497-7553 | a constant loop variable keeps its item for the whole round |
| Execution.ExitingBlockNeverCompletes | packages/compiler/src/typecheck.ts:6986-7039 | whenever a list is reported to exit, no execution of it completes normally, well typed or not |
| Execution.ExitingStmtNeverCompletes | packages/compiler/src/typecheck.ts:7073-7087 | whenever a statement is reported to exit, no execution of it completes normally |
| Execution.StmtExitsIff | packages/compiler/src/typecheck.ts:7073-7087 | whether a statement is reported to exit depends on its shape alone, not on scopes or types |
| Execution.BlockExitsIff | packages/compiler/src/typecheck.ts:6986-7039 | a list is reported to exit exactly when some statement of it leaves |
| Execution.StmtWellPlaced | packages/compiler/src/typecheck.ts:7661-7680 | an accepted statement breaks, continues and returns only where it may |
| Execution.BlockWellPlaced | packages/compiler/src/typecheck.ts:7661-7680 | the same for accepted lists |
| Execution.NoFallThrough | packages/compiler/src/typecheck.ts:7042-7071 | an accepted non-void body without catch never completes normally |
| Execution.NoFallThroughWithCatch | packages/compiler/src/typecheck.ts:7042-7071 | with catch clauses the same holds where each returning try also returns from its catch |
| Execution.CatchFallsThrough | packages/compiler/src/typecheck.ts:7050-7057 | an accepted non-void body whose catch returns nothing completes normally |
| Execution.ZeroFitsIff | packages/compiler/src/codegen/llvm.ts:9929-9995 | the zero bits of a type are one of its values if and only if the type is a number, bool, char, enum, literal 0, null, pointer, nullable pointer union, or made of such |
| FlowTyping.ExprSound | packages/compiler/src/typecheck.ts:7329-7345 | an expression's value has its inferred type |
| FlowTyping.AcceptsSound | packages/compiler/src/typecheck.ts:12347-12397 | an accepted value has the expected type, with integer literals at their target width |
| FlowTyping.ViewTypeOf | packages/compiler/src/typecheck.ts:7329-7345 | an expression over assigned variables has its type from them alone |
| FlowTyping.AssignSound | packages/compiler/src/typecheck.ts:7776-7839 | an accepted assignment, also += and -=, leaves a value of the variable's type |
| FlowTyping.IfSound | packages/compiler/src/typecheck.ts:7329-7406 | an if keeps types, including what flows on when exactly one branch exits |
| FlowTyping.WhileSound | packages/compiler/src/typecheck.ts:7407-7441 | a while keeps types for any number of iterations, also after break and continue |
| FlowTyping.ConditionSound | packages/compiler/src/typecheck.ts:10127-10135 | wherever an if or while condition gets to the right of a conjunction, every assigned variable has the type narrowed by what is to the left |
| FlowTyping.TriedSound | packages/compiler/src/typecheck.ts:7699-7756 | a try with its catch keeps types, and what the body declares is assigned afterwards where there is no catch or the catch leaves |
| FlowTyping.StmtSound | packages/compiler/src/typecheck.ts:7077-7774 | an accepted statement of the fragment keeps every variable in its type at every point |
| FlowTyping.BlockSound | packages/compiler/src/typecheck.ts:6986-7039 | the same for lists |
| FlowTyping.FlowTypingSound | packages/compiler/src/typecheck.ts:6986-7039 | at every point of every execution of an accepted body of the fragment every assigned variable has the type the checker has for it there, and returned values have the return type |
| FlowLimits.ForLeaksNarrowing | packages/compiler/src/typecheck.ts:7486-7496 | breaking out of a for on null leaves the variable believed non-null |
| FlowLimits.SwitchLeaksNarrowing | packages/compiler/src/typecheck.ts:7589-7599 | so does breaking out of a switch case |
| FlowLimits.TryLeaksNarrowing | packages/compiler/src/typecheck.ts:7708-7718 | so does throwing inside a try whose catch swallows it |
| FlowLimits.ConjunctionNarrowsTooFar | packages/compiler/src/typecheck-advanced.ts:783-786 | after an exiting if on a conjunction both variables are believed null though one is not |
| FlowLimits.UninitializedLocalIff | packages/compiler/src/typecheck.ts:7124-7151 | a declaration without initialiser is accepted for every type, and leaves a value of the type if and only if zero fits it |
| FlowLimits.ForLeaksDeclaration | packages/compiler/src/typecheck.ts:7486-7496 | a variable declared in a for body that never ran is in scope without a value, and returning it is accepted |
| FlowLimits.CatchOverwrites | packages/compiler/src/typecheck.ts:7719-7735 | a catch parameter with the name of a variable in scope leaves the error in it |
| FlowLimits.TypeofMissesString | packages/compiler/src/codegen/llvm.ts:6880-6900 | after returning where typeof finds a string, a string in a nullable variable is believed null |
| Inference.UnifySound | packages/compiler/src/typecheck.ts:5807-5890 | a match makes the annotation, under these or any later solutions, the argument's type exactly when both agree on async |
| Inference.UnifyComplete | packages/compiler/src/typecheck.ts:5807-5890 | if a substitution makes the annotation the argument's type and no function result void, matching succeeds below it |
| Inference.InferenceSound | packages/compiler/src/typecheck.ts:5801-5901 | after success every parameter annotation has become its argument's type, exactly where both agree on async, and every occurring parameter is solved |
| Inference.InferenceComplete | packages/compiler/src/typecheck.ts:5801-5901 | given any substitution that fits, inference succeeds if and only if it makes no function result void, and then agrees with it on every occurring parameter |
| Inference.VoidResultUnmatched | packages/compiler/src/typecheck.ts:5862-5872 | a type parameter as a function result does not match void |
| Inference.Unifier.constructor | packages/compiler/src/typecheck.ts:5806-5806 | no solutions at the start |
| Inference.Unifier.Set | packages/compiler/src/typecheck.ts:5881-5886 | a parameter is overwritten by an equal type and refuses a different one |
| Inference.Unifier.Match | packages/compiler/src/typecheck.ts:5807-5890 | the recursive matcher with its mutable map computes the specified solutions |
| Inference.Unifier.MatchAll | packages/compiler/src/typecheck.ts:5892-5896 | the argument loop stops at the first mismatch |
| Inference.InferTypeArgsPartial | packages/compiler/src/typecheck.ts:5801-5901 | one slot per type parameter, empty for the ones never met |
| ModuleOrder.LastStands | packages/compiler/src/typecheck.ts:628-628 | the last module of a path stands for it |
| ModuleOrder.Visitor.constructor | packages/compiler/src/typecheck.ts:628-631 | nothing visited |
| ModuleOrder.Visitor.Visit | packages/compiler/src/typecheck.ts:633-651 | a visit keeps the white, grey and black sets and a finishing order of the black modules |
| ModuleOrder.Visitor.VisitAll | packages/compiler/src/typecheck.ts:642-647 | after it every known target is finished or still on the way down |
| ModuleOrder.ModulesInDependencyOrder | packages/compiler/src/typecheck.ts:625-657 | each module exactly once, and an imported module placed after its importer reaches that importer |
| ModuleOrder.OrderIsTopologicalIff | packages/compiler/src/typecheck.ts:621-624 | imported modules come before importers everywhere if and only if the import graph is acyclic |
| SemVer.PrecedenceIsTotalOrder | packages/cli/src/deps/semver.ts:101-112 | precedence is a total order that identifies exactly the versions that differ in build metadata |
| SemVer.CompareIsPrecedence | packages/cli/src/deps/semver.ts:101-112 | the comparison is precedence as section 11 of Semantic Versioning 2.0.0 defines it, pre-release fields decided at their first difference |
| SemVer.SatisfiesIffAllowed | packages/cli/src/deps/semver.ts:4-13 | the comparator pairs of exact, caret and tilde allow exactly the versions the requirement is documented to allow, pre-releases included |
| SemVer.SortIsDescending | packages/cli/src/deps/semver.ts:108-111 | the sort puts higher versions first |
| SemVer.SortIsStable | packages/cli/src/deps/semver.ts:108-111 | versions of equal precedence keep their order |
| SemVer.VersionsMatchingAll | packages/cli/src/deps/semver.ts:101-112 | the result holds exactly the valid versions that meet all requirements, in descending precedence |
| SemVer.FirstIsHighest | packages/cli/src/deps/semver.ts:101-112 | its first element is a highest one |
| SemVer.SingletonMatch | packages/cli/src/deps/semver.ts:75-84 | filtering a single version is checking it |
| DependencyGraph.ComputeReachable | packages/cli/src/deps/resolve.ts:368-389 | the worklist returns exactly the nodes some root reaches |
| DependencyGraph.PushSuccessors | packages/cli/src/deps/resolve.ts:379-386 | marking and queueing successors keeps the worklist invariant |
| DependencyGraph.AnchoredIsReachedIff | packages/cli/src/deps/resolve.ts:200-228 | in a graph where every non-root has a predecessor, the roots reach every node if and only if they reach every cycle |
| DependencyGraph.CycleSearch.Dfs | packages/cli/src/deps/resolve.ts:470-493 | the search keeps the stack a path and the finished nodes in topological order; a returned path is a cycle |
| DependencyGraph.FindDependencyCycle | packages/cli/src/deps/resolve.ts:463-503 | a returned path is a dependency cycle, and null is returned if and only if there is none |
| Graphs.TopologicalMeansAcyclic | packages/cli/src/deps/resolve.ts:495-502 | only acyclic graphs have a topological order |
| Resolver.CollectConstraints | packages/cli/src/deps/resolve.ts:505-547 | collects exactly the constraints of the project and of every selected version, and fails exactly on an unreadable range |
| Resolver.Walk | packages/cli/src/deps/resolve.ts:200-220 | the walk marks the roots, all constrained names and all dependencies of the roots, and otherwise only dependencies of selected packages |
| Resolver.Resolution.FollowPathDeps | packages/cli/src/deps/resolve.ts:177-184 | adds exactly the names of the missing path dependencies of one package, each as loaded from its directory, and keeps all other entries |
| Resolver.Resolution.DiscoverPaths | packages/cli/src/deps/resolve.ts:171-186 | terminates, and without a change every path dependency is selected |
| Resolver.Resolution.SelectConstrained | packages/cli/src/deps/resolve.ts:188-198 | exactly the constrained names that are missing are added, without a version |
| Resolver.Resolution.DropUnreachable | packages/cli/src/deps/resolve.ts:200-228 | neither roots nor their dependencies are dropped; without a change every selected package is marked |
| Resolver.Resolution.PickOne | packages/cli/src/deps/resolve.ts:230-300 | succeeds exactly when a version can be picked and its manifest is published, and sets this entry to it; without a change the entry is a path package, or sits at its override or at the picked version |
| Resolver.Resolution.Pick | packages/cli/src/deps/resolve.ts:230-301 | in any order, succeeds exactly when every constrained package can be picked, and sets exactly those entries |
| Resolver.Resolution.Round | packages/cli/src/deps/resolve.ts:168-305 | every round keeps the selection grounded; a round without a change has checked everything; a settled selection is left alone; and with nothing to load or drop the next selection is determined |
| Resolver.Seed | packages/cli/src/deps/resolve.ts:149-165 | succeeds exactly when all path roots load; they are loaded from their directories and version roots start unselected |
| Resolver.ResolveDependencies | packages/cli/src/deps/resolve.ts:102-355 | a successful result comes from a resolved selection, for which everything stated under Resolve holds; it marks dev exactly what the production roots do not reach, and passes the lock check for the same roots; and where the rounds pass the same selections in any order up to one that changes nothing, within 64, it succeeds with that |
| Resolve.UpToDateIsPicked | packages/cli/src/deps/resolve.ts:236-285 | being up to date against the list of all constraints is sitting at the right version |
| Resolve.SelectionIsClosed | packages/cli/src/deps/resolve.ts:168-305 | the selection is closed under dependencies, and each version requirement is met by the registry package selected for it |
| Resolve.SelectionSitsRight | packages/cli/src/deps/resolve.ts:442-457 | each constrained registry package sits at its override, else at its preferred version if not floating and allowed, else at a highest allowed published version |
| Resolve.UnconstrainedIsPathTarget | packages/cli/src/deps/resolve.ts:200-228 | a registry package without constraints is named by a path dependency of a selected package |
| Resolve.SitsRightUnlessPathTarget | packages/cli/src/deps/resolve.ts:200-228 | a registry package that no selected package names by a path is constrained and sits at its override, preferred or highest allowed version |
| Resolve.SelectionPassesLockCheck | packages/cli/src/deps/resolve.ts:756-783 | a successful selection passes lockSatisfiesRootsAt for the same roots |
| Resolve.LockSatisfiedIff | packages/cli/src/deps/resolve.ts:756-783 | the lock check passes if and only if each path root is locked at its directory and each other root at a version its range allows |
| Resolve.SelectionIsReachableIff | packages/cli/src/deps/resolve.ts:200-228 | the selection is exactly what the roots reach if and only if they reach every dependency cycle in it |
| Resolve.AcyclicSelectionIsReachable | packages/cli/src/deps/resolve.ts:200-228 | so it is without dependency cycles |
| DeadCycle.NextStage | packages/cli/src/deps/resolve.ts:168-305 | each of five rounds from the seed, whatever order they work in, gives the next of five selections, and the last changes nothing |
| DeadCycle.KeepDeadCycle | packages/cli/src/deps/resolve.ts:102-305 | the resolver ends with a selection taken for resolved that holds a cycle nothing reaches |
| StalePath.NextStage | packages/cli/src/deps/resolve.ts:168-305 | each of four rounds from the seed, whatever order they work in, gives the next of four selections, and the last changes nothing |
| StalePath.KeepStalePackage | packages/cli/src/deps/resolve.ts:102-305 | the resolver ends with a selection taken for resolved that holds an unconstrained registry package below a published version nothing forbids |
| Store.SplitKey | packages/cli/src/deps/store.ts:15-22 | names without an at sign are read back from their keys |
| Store.PrefixIsName | packages/cli/src/deps/store.ts:161-165 | the keys that start with a name and an at sign are those of that name |
| StoreManager.Manager.constructor | packages/cli/src/deps/store.ts:41-45 | an absent index is empty |
| StoreManager.Manager.AddDependant | packages/cli/src/deps/store.ts:86-101 | the project is added to the version's dependants |
| StoreManager.Manager.RemoveDependant | packages/cli/src/deps/store.ts:107-124 | the project is removed; without dependants left, key and directory go |
| StoreManager.Manager.GcPackageVersion | packages/cli/src/deps/store.ts:127-148 | deletes a version exactly when it has no dependants |
| StoreManager.Manager.ReleasePreviousVersion | packages/cli/src/deps/store.ts:154-176 | the loop over a key snapshot releases all other versions of the name at once |
| StoreManager.Manager.DownloadAndExtract | packages/cli/src/deps/install-fetch.ts:86-123 | a failed download or a checksum mismatch changes nothing; an extraction that breaks off leaves the old directory deleted; otherwise it is replaced |
| StoreManager.Manager.InstallPackageVersion | packages/cli/src/deps/install-fetch.ts:36-84 | the sequence of cache check, download, release and registration is one transition |
| StoreManager.Manager.RemoveGone | packages/cli/src/deps/install.ts:176-181 | the loop unregisters exactly the old registry entries whose names are gone |
| StoreManager.Manager.InstallEvery | packages/cli/src/deps/install.ts:183-193 | installs in order and stops at the first failure |
| StoreManager.Manager.ResolveAndInstall | packages/cli/src/deps/install.ts:156-207 | the steps compose to the specified transition, the lockfile written last |
| StoreManager.Manager.InstallLocked | packages/cli/src/deps/install.ts:243-272 | locked packages are installed in order up to a missing path package |
| StoreManager.Manager.InstallProjectDependencies | packages/cli/src/deps/install.ts:213-289 | after success every locked registry package is present and the project registered on exactly that version |
| StoreManager.Manager.RemoveInstalledPackage | packages/cli/src/deps/install.ts:360-378 | removal by version, by lock entry, or of all versions |
| Store.FetchSoundIff | packages/cli/src/deps/install-fetch.ts:108-117 | a fetch keeps every registered version on disk unless it replaces a registered one by an archive that breaks off before its manifest |
| Store.FetchSound | packages/cli/src/deps/install-fetch.ts:36-76 | fetching touches no registrations, a success removes no version, and success means presence |
| Store.InstallHalfIff | packages/cli/src/deps/install-fetch.ts:47-76 | a successful install leaves a half extracted package exactly where there was one that it did not fetch again |
| Store.HalfInstalled | packages/cli/src/deps/install-fetch.ts:64-69 | after a broken extraction an install without a checksum records the published one and succeeds, and later ones with it do |
| Store.FetchVerifies | packages/cli/src/deps/install-fetch.ts:47-76 | a fetch with an expected checksum succeeds only if the recorded checksum is that one up to case, and touches no other version |
| Store.InstallVerifies | packages/cli/src/deps/install-fetch.ts:36-84 | an installed version carries the requested checksum |
| Store.InstallSound | packages/cli/src/deps/install-fetch.ts:36-84 | registered versions stay on disk on success, and on failure unless an extraction broke off before its manifest; other projects' registrations are untouched, and the project ends registered on exactly this version of the name |
| ProjectInstalls.InstallOkIff | packages/cli/src/deps/install-fetch.ts:36-84 | an install succeeds if and only if the version is at hand with the expected checksum, or its checksum is published, or the registry delivers it whole |
| ProjectInstalls.InstallPackagesOkIff | packages/cli/src/deps/install.ts:173-207 | a new selection is installed if and only if each of its registry packages is obtainable, natives install and checksums are known |
| ProjectInstalls.InstallFreesIff | packages/cli/src/deps/store.ts:154-176 | a successful install frees exactly the other versions of the package that the project was registered on and nobody else |
| ProjectInstalls.GcIff | packages/cli/src/deps/store.ts:127-148 | collecting a version frees it exactly when nobody depends on it, and touches nothing else |
| ProjectInstalls.RemoveIff | packages/cli/src/deps/install.ts:360-378 | a removal unregisters the project from exactly the version given, or the locked one, or all it has, and the last project to leave one frees it |
| Store.InstallAllSound | packages/cli/src/deps/install.ts:183-193 | after installing packages of distinct names each is installed as requested |
| Store.DropSound | packages/cli/src/deps/store.ts:107-124 | dropping registrations of one project keeps all registered versions on disk and all other registrations |
| Store.ResolveAndInstallSound | packages/cli/src/deps/install.ts:156-207 | after success every locked registry package is present and registered; after failure the lockfile is the old one |
| Store.RegisteredByLast | packages/cli/src/deps/install.ts:183-193 | after installs that may have stopped at a failure, a project is registered on the version asked for last of each name |
| Store.LockSurvivesIff | packages/cli/src/deps/install.ts:156-207 | after a failure the old lockfile is still installed if and only if each of its packages was last fetched at the locked version, if at all, and not dropped |
| Store.FetchThenFailure | packages/cli/src/deps/install.ts:156-207 | a failure after fetching another version of a locked package leaves the lockfile as it is and its version released |
| Store.LeftoverRegistrations | packages/cli/src/deps/install.ts:173-193 | for names outside the new lockfile, exactly the registrations other than the old lockfile's versions remain |
| PackageStore.EachIsAll | packages/cli/src/deps/install.ts:243-272 | a lockfile install with a missing directory is an install of a prefix |
| PackageStore.ProjectInstallSound | packages/cli/src/deps/install.ts:213-289 | whichever way a project install takes, success leaves its lockfile installed and other lockfiles alone |
| ProjectInstalls.LockfileIsInstalled | packages/cli/src/deps/install.ts:231-275 | a lockfile that fits is installed: the resolver is not asked, no lockfile changes, it succeeds if and only if every locked package is at hand, natives install and checksums are known, and then the project is registered on exactly the locked versions |
| ProjectInstalls.ReinstallChangesNothing | packages/cli/src/deps/install.ts:231-275 | an installed project is installed again without the network, and nothing changes |
| ProjectInstalls.NoRootsUninstalls | packages/cli/src/deps/install.ts:222-229 | without dependencies the lockfile ends empty and exactly the registry packages of the old one are unregistered |
| ProjectInstalls.OtherwiseResolved | packages/cli/src/deps/install.ts:277-281 | otherwise the lockfile becomes what the resolver selected, or stays after a failure |
| PackageStore.StepSound | packages/cli/src/deps/store.ts:86-176 | every command keeps registered versions on disk and the registrations and lockfiles of all other projects |
| PackageStore.RunSound | packages/cli/src/deps/store.ts:86-176 | in every run registered versions stay on disk, and a project that takes no part keeps its registrations and lockfile |
| PackageStore.RunFromEmpty | packages/cli/src/deps/store.ts:41-45 | so they do in every run from an empty store |
| PackageStore.InstalledStaysInstalled | packages/cli/src/deps/store.ts:86-176 | an installed project stays installed whatever other projects do |
| ReverseDeps.CollectReverseDeps | packages/lsp/src/protocol.ts:624-636 | collects exactly the import edges of all modules of an analysis |
| ReverseDeps.Index.ReplaceForResult | packages/lsp/src/protocol.ts:641-662 | the in-place edits compute the specified index |
| ReverseDeps.Index.Merge | packages/lsp/src/server.ts:427-433 | adds edges and nothing else |
| ReverseDeps.ReplacedEdges | packages/lsp/src/protocol.ts:638-662 | the entry's edges become exact, edges of other importers are only added, no empty set is left |
| AnalysisCache.TouchFacts | packages/lsp/src/server.ts:192-219 | a touch leaves at most 64 paths, evicts at most one entry and only the least recent one that is not open, and keeps cache keys inside the order |
| AnalysisCache.TouchedMovesToEnd | packages/lsp/src/server.ts:192-197 | touching moves the path to the recent end and keeps the order of the others |
| AnalysisCache.FewOpenTerminates | packages/lsp/src/server.ts:198-218 | with at most 64 open documents the sweep finds a victim |
| AnalysisCache.StopsIff | packages/lsp/src/server.ts:198-218 | the sweep stops if and only if nothing has to go or some path is not open |
| AnalysisCache.PinnedForEver | packages/lsp/src/server.ts:206-216 | with 65 open documents it never stops and never evicts |
| LanguageServer.Server.TouchCache | packages/lsp/src/server.ts:192-219 | the loop terminates, and rotates the pinned paths it passed behind the rest |
| LanguageServer.Server.SetAnalysisCache | packages/lsp/src/server.ts:221-224 | caches and touches |
| LanguageServer.Server.InvalidateDependents | packages/lsp/src/server.ts:245-254 | drops the file and all its listed importers from the cache, nothing else |
| LanguageServer.Server.RunAnalyze | packages/lsp/src/server.ts:284-336 | a superseded version does nothing; a finished analysis is cached and replaces its entry's edges |
| LanguageServer.Server.EnsureAnalyzed | packages/lsp/src/server.ts:338-348 | a cached result is returned and touched, otherwise the new one is stored and returned |
| LanguageServer.Server.OnDidOpen | packages/lsp/src/server.ts:486-492 | opening invalidates and schedules |
| LanguageServer.Server.OnDidChangeContent | packages/lsp/src/server.ts:494-500 | a change invalidates and schedules |
| LanguageServer.Server.OnDidClose | packages/lsp/src/server.ts:502-516 | closing invalidates and unschedules |
| LanguageServer.Server.Handle | packages/lsp/src/server.ts:486-516 | every handler whose sweep ends does end and keeps the invariant |
| LanguageServer.StepFresh | packages/lsp/src/server.ts:245-348 | every event keeps each cached result newer than the last edit of its file and of every file it directly imports, however many documents are open |
| LanguageServer.EndsIff | packages/lsp/src/server.ts:198-218 | whether the sweep of an event ends is decided by the order and the open documents |
| LanguageServer.StepBounded | packages/lsp/src/server.ts:192-224 | an event whose sweep ends keeps the cache bounded |
| LanguageServer.RunFresh | packages/lsp/src/server.ts:245-348 | so every sequence of events keeps cached results fresh |
| LanguageServer.ReexportStaleIff | packages/lsp/src/protocol.ts:624-636 | an edit of a re-exported file leaves the cached result behind if and only if the file is not also listed as imported |
| LanguageServer.ReexportGoesStale | packages/lsp/src/server.ts:245-254 | a run from the start that ends with a result older than the last edit of the file it re-exports |
| LanguageServer.RunFromStart | packages/lsp/src/server.ts:192-348 | from the start of the server: fresh after any events, bounded as long as every sweep ends, as with at most 64 open documents each does |
| LanguageServer.TimerTakenIff | packages/lsp/src/server.ts:284-300 | in every reachable state a debounced analysis is cached exactly when its version is not below the document's: the check against the scheduled version adds nothing |
| LanguageServer.OpenStaysCached | packages/lsp/src/server.ts:203-204 | analysing or using other files never evicts an open document's result |
| Recency.RunRanked | packages/lsp/src/server.ts:192-219 | in every reachable state the closed files with results stand in the order in the order of their last uses |
| Recency.LeastRecentIsEvicted | packages/lsp/src/server.ts:198-218 | no event evicts the result of a file while that of a closed file stays that was used less recently |
| Recency.UsedIsKeptIff | packages/lsp/src/server.ts:221-224 | a used file has its result afterwards, the cached or the new one, unless it is closed and 64 other paths are pinned |
| Recency.EditDropsIff | packages/lsp/src/server.ts:245-254 | an edit drops exactly the results of the file and of its listed importers |
| Recency.DocumentsAreOpen | packages/lsp/src/server.ts:486-516 | the documents that pin their results are those last opened or changed and not closed since, at their last version |

## Left out

- Lexer, parser, formatter, monomorphiser and LLVM code generation; syntax trees and type annotations are datatypes.
- Generic structs, classes and functions beyond matching type arguments, and writing solutions back as annotations.
- Numeric widths and wrap-around at run time: scalars carry an unbounded number and their width as a tag.
- Object types with both fields and an index signature denote records all of whose entries fit the index type.
- A variable name has one stored type in a function, and temporaries other than calls are tested like boxed values.
- Lambda capture.
- makeIntersection and object merging, keyof, mapped, conditional and indexed-access types.
- Visibility and `isAsync` across overrides, which the override check does not compare, and the tables of static members.
- ModuleTables.CollectModules: registration holds where no mangled names collide, since a later definition replaces an earlier one of its name; ModuleTables.CollidingModules is the program for which it fails.
- ModuleTables.CollectModule: after an error in a module's interfaces its classes are not collected, since they may implement unfinished stubs; the program is refused in either case.
- Assignability.AssignableClassConforms: speaks of collected tables; Assignability.AssignableClassImplements says what holds in all others.
- ClassCollection.ReadMembers: drops static fields, visibility and readonly of fields, which the layout does not use.
- ClassCollection.PlaceOwn: skips static methods, whose separate table is not modelled.
- Checker.CheckDeclaration: leaves out array destructuring and constant expressions.
- Checker.CheckAssignment: leaves out module-level variables and member and element targets.
- Checker.CheckSwitch: labels are literals, not names of constants or enum members.
- Checker.CheckStatement: leaves out the check on async functions and the unused-binding warnings.
- FlowTyping.ExprSound: covers variables, literals, calls and tests; all other expressions stand behind calls.
- FlowTyping.AcceptsSound: leaves out coercions of float and array literals.
- FlowTyping.AssignSound: takes the width of an assigned literal from the value the variable holds, which for a variable of one integer type is the declared width.
- Execution.ZeroFitsIff: zeroed structs, objects, fixed arrays, functions and interfaces count as no value of their type, because their fields are not modelled.
- Narrowing.TagGuardIsExact: excludes types with an intersection arm, whose values can carry any tag.
- Narrowing.IsGuardIsExact: covers arms that are primitives, literals, structs, enums, functions, fixed arrays and type parameters; for the others IsSound gives one direction.
- Narrowing.PointerTypeofIff: excludes intersection arms.
- Narrowing.PlainIsExact: an instance test on a payload that is no class instance is taken to fail.
- Inference.InferTypeArgsPartial: solutions stay types; writing them back as annotations is not modelled.
- FlowTyping.FlowTypingSound: holds on a fragment stated as a predicate. Its conditions on polarity, tags, zeroed locals, leaking scopes and catch parameters each have an exactness lemma or a program that fails without them; the fragment as a whole is not claimed to be the largest. It takes a shadowing catch parameter and a positive test for objects on a pointer that holds none to be outside even where nothing reads them afterwards.
- Subtyping.AssignableIffIncluded: leaves out sources with arrays, which are invariant, with intersections and with interfaces, and targets with intersections and objects without entries; there is an exact condition or a refused program for each.
- Acceptance.AcceptedIffIncluded: the same.
- Acceptance.AcceptedNotStuck: speaks of the statement's own expressions; statements inside it are met at their own points.
- ConstBindings.BlockKeeps: leaves out catch clauses that bind the name of the constant, for which FlowLimits.CatchOverwrites is a program.
- Precision.NarrowExact: leaves out types where an arm can pass and fail the test, or where no arm is selected and the code keeps the type or takes null.
- FlowTyping.ConditionSound: speaks of if and while conditions; conjunctions elsewhere are checked as expressions only.
- Assignability.AssignableSound: excludes empty intersections, and tables where an index signature is not assignable to those of the bases; there is an unsound witness for each, and an exactness lemma for the tables.
- Inference.InferenceSound: covers annotations built from primitives, arrays, functions, futures and parameters; other annotations match anything in the code.
- Resolver.ResolveDependencies: success is claimed for runs without packages to load or drop during the rounds; a selection that keeps changing fails after 64, as in the code, and the dropping pass can drop path dependencies again and again.
- Resolver.ResolveDependencies: returns a map from names instead of a list sorted by name, and error texts are shortened.
- Provenance fields (publisher, time) and native artifacts; whether native artifacts install is an input.
- The semver library's parser, the registry protocol, tar, SHA-256, TOML and the file system, which are maps and function parameters.
- Path normalisation of project roots, and a dependants file that does not parse, which the code treats as empty.
- A crash between two steps of one store operation, and two processes that edit the store at the same time.
- LanguageServer.RunFresh: covers direct imports only; invalidation is one level deep by design, so importers of importers may be stale, and re-exports are not followed at all (LanguageServer.ReexportStaleIff).
- Files that change on disk without an editor event; diagnostics, export index, hover, completion and tokens.
