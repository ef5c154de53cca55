# A verified model of the cppan package resolver

cppan resolves the packages a project asks for against a database of projects, versions and
dependencies, downloads them, and prints build scripts. This project models the parts of it that
decide: which version answers a request, which packages a set of requests pulls in, which packages
depend on a package, what the build scripts gather, who cleans what when calls run concurrently,
when the resolver tries again, and how versions, paths, package names and macro arguments are
read. Everything below is proved for all inputs; `dafny verify dfyconfig.toml` checks it.

## How the model is laid out

| module | models |
|---|---|
| `Versions`, `VersionLookup` | versions, their order and text; the four-stage lookup of the row that answers a request |
| `PackagesDatabase`, `DependencyGraph` | the tables as sequences of rows with the keys of the schema; the graph of resolved dependencies |
| `DependencyWalk`, `DependencySearch`, `PreparedDependencies` | the memoized recursive walk, `findDependencies`, and the preparation by id |
| `EnteredPackages` | the walk reduced to which packages it enters, how it meets each of them and what makes it fail, and exactly when it does |
| `Dependents` | direct and transitive dependents with their cache; agreement of the forward and the reverse walk |
| `Examples`, `Counterexamples` | small databases on which the walks fall short; inputs at which texts, orders, runs and merges do |
| `GatherDependencies`, `ConfigProjects`, `Names`, `Graphs` | the gatherings of the CMake printer, the inclusion of subdirectory projects, reachability |
| `CleanPackages`, `ResolverRetry` | the locking protocol of `cleanPackage`; the fallback and retry of `Resolver::resolve` |
| `StringBlocks`, `Arguments` | the bracket scanner and the splitting of macro arguments |
| `ProjectPaths`, `PathOrder`, `LikePattern`, `PackageNames`, `Strings` | project paths, their order, SQL `like`, package names, text routines |
| `ParallelChecks` | dealing checks to workers and merging them |
| `OrdinaryTexts` | which versions, branches, paths and blanks are accepted, up to the edges |

## Modelling decisions

- A database is well formed (`PackagesDatabase.WellFormed`): the primary keys, unique index and
  foreign keys of the schema hold; ids are not zero; a version row holds a branch name or three
  non-negative numbers that are not all zero, once per project; stored flags never have the
  direct-dependency bit. Row order is arbitrary, which covers every `order by path`.
- Exceptions are `Result` failures. A failure leaves the state that was reached behind, as an
  exception does; this is what makes swallowed lookups visible.
- A package is known by its path and a `VersionKey`, since `operator==` of versions ignores the
  type and, for branches, the numbers.
- Maps and sets that the source iterates are taken apart in an arbitrary order, so every theorem
  about them holds for every iteration order. A pass of `getTransitiveDependentPackages` meets
  every package gathered when it begins and any of those that it takes in itself.
- Flag words are sets of bits. Numbers are unbounded except where text is turned into a number,
  where more than `INT_MAX` is refused as by `std::stoi`; string lengths are taken to fit an `int`.
- `cleanPackage` is a transition system over any number of calls, one step per critical section.
- The answers of the local database, of the remotes and of the resolve action are parameters of
  `ResolverRetry.Resolver.Resolve`.
- Where code and intention differ the model follows the code, the exact condition is proved, and
  a concrete input shows that the case occurs:
  - a lookup that fails behind one child of a root project is swallowed, and the result is then
    incomplete (`DependencySearch.FindDependencies`, `Examples.SuccessCanBeInexact`); a request
    can even succeed although no child is served, because what failed behind the first child
    counts as known for the second (`EnteredPackages.ProjectSucceedsIff`,
    `DependencySearch.ChildrenSucceedIff`, `Examples.SuccessWithoutServedChild`); without root
    projects neither happens;
  - a warm cache can hide transitive dependents (`Dependents.CompleteIffCacheIsHarmless`): a
    repeated query returns direct dependents only (`Dependents.RepeatedQueryKeepsDirect`,
    `Examples.RepeatedQueryCanMissDependents`);
  - the reverse query takes every dependency on a branch for one on any version of the project
    (`Dependents.NumbersAreFoundIff`, `Dependents.BranchIsFoundIff`);
  - the comment at src/common/database.cpp:1140 says that all children of a root project are
    returned; `like` also returns strangers if the path has an underscore
    (`ProjectPaths.ChildrenHaveRootIff`, `Counterexamples.StrangerBecomesChild`);
  - an action that raises a hash exception although no local database is queried makes `resolve`
    return normally (`ResolverRetry.ReturnMeansCompletedIff`, `Counterexamples.ReturnCanMeanFailure`);
    the downloading action never does (`ResolverRetry.DownloadingRunIsSound`);
  - `parse_arguments` also strips brackets that belong to an argument
    (`Arguments.ParsingUndoesJoining`, `Counterexamples.BracketsAreLost`);
  - names of packages on branches with a dash cannot be read back (`PackageNames.ExtractJoined`,
    `Counterexamples.DashedBranchIsNotReadBack`), though they still differ from all other names
    (`PackageNames.TargetNamesDiffer`);
  - the order of project paths cannot sort some sets of paths (`PathOrder.CanSortIff`,
    `Counterexamples.TwoNamespacesCannotBeSorted`);
  - a worker that failed loses its checks (`ParallelChecks.MergeRestoresIff`,
    `Counterexamples.CheckOfFailedWorkerIsLost`).

## Model

| member | source | states |
|---|---|---|
| DependencySearch.FindDependencies | src/common/database.cpp:1102-1194 | terminates on every graph; the walk reduced to entered packages decides everything: whether it succeeds and with which error it fails, which packages are found, and how each was met. If no request names a root project, it succeeds exactly when every request is served, and then the result is exact; otherwise being served is enough and being answered is necessary. In every success packages are filed under their ids; a requested one is marked and has the flags of its project and version, any other those of the dependency by which the walk first met it, a dependency of another package of the result; each has exactly its resolved edges if its walk came to its end, otherwise none, and then a lookup fails behind it; each recorded dependency is itself found; all are reached; and the result is exact if and only if no lookup fails behind a request |
| DependencySearch.FindRequest | src/common/database.cpp:1105-1179 | after each request the entries are those of a walk from all rows requested so far, for a root project from those of its children; what is entered, how it was met and the error are those of the reduced walk; a success that names no root project keeps complete entries complete; an unknown project is reported as such |
| DependencySearch.FindDeps | src/common/database.cpp:1128-1134 | a requested package is entered anew, marked and walked; only a lookup that fails behind it makes it fail; success keeps complete entries complete; what is entered, how it was met and the error are those of the reduced walk |
| DependencySearch.ChildrenSucceedIff | src/common/database.cpp:1155-1174 | a request for a root project succeeds exactly when some child, walked with what the children before it have entered, does not fail |
| EnteredPackages.EnteringSucceedsIff | src/common/database.cpp:1342-1376 | a walk fails exactly when a dependency has no version, or one behind it that is met through packages not entered before has none |
| EnteredPackages.ProjectSucceedsIff | src/common/database.cpp:1128-1134 | the same of a requested package, which is entered anew |
| DependencySearch.RequestsMeetInside | src/common/database.cpp:1363-1371 | whatever is met is met by a dependency of a package that has been entered |
| DependencySearch.FailureIsDue | src/common/database.cpp:1105-1174 | a search fails only for one of its requests: its path is no project's, its root project has no children or none that is served, or a lookup that the error names has no answer |
| DependencySearch.FileById | src/common/database.cpp:1182-1193 | every entry is filed under its own id with the ids of its recorded dependencies, and nothing else is |
| DependencySearch.FiledWalk | src/common/database.cpp:1182-1193 | what a finished walk says of packages holds of the result by id |
| DependencySearch.CompleteIsExact | src/common/database.cpp:1342-1376 | without failing lookups the entries are closed under resolved edges, hence exactly what is reached |
| DependencySearch.DeadIsNotExact | src/common/database.cpp:1161-1168 | a lookup that fails behind a request excludes an exact result |
| DependencySearch.RootMarked | src/common/database.cpp:1130-1132 | marking a request keeps "marked if and only if requested" in whatever order requests and discoveries meet |
| DependencyWalk.Walk.GetProjectDependencies | src/common/database.cpp:1342-1376 | returns exactly the package's resolved edges; everything newly entered is reached and complete, everything older is untouched; it fails only if a lookup fails behind the package, and even then every recorded dependency is an entry with the same id, and every new entry has all its edges or a lookup fails behind it; it enters and meets what the reduced walk does and fails with its error |
| DependencyWalk.Walk.VisitDependency | src/common/database.cpp:1363-1374 | resolves one dependency; if the package is new, it is entered with the flags of this very dependency and walked behind, with the same guarantees |
| DependencyWalk.RecordingGrows | src/common/database.cpp:1370-1371 | entering a package first and its edges later keeps every recorded dependency an entry with the same id |
| DependencyWalk.RecordingCompletes | src/common/database.cpp:1370-1371 | once its edges are recorded, the package and all that was entered behind it are complete |
| DependencyWalk.EntryStays | src/common/database.cpp:1370-1371 | a package whose walk failed stays behind, reached and without edges |
| DependencyGraph.RecordedIdsAreTargets | src/common/database.cpp:1187-1191 | the ids collected from the recorded edges are the ids of the rows these edges resolve to |
| DependencyGraph.RecordOneMore | src/common/database.cpp:1363-1374 | recording the next edge under its path overwrites no earlier edge |
| DependencyGraph.KeyOfIsInjective | src/common/package.h:51 | path and version of a stored package determine its row |
| VersionLookup.GetExactProjectVersionId | src/common/database.cpp:1214-1340 | finds the branch asked for, or the newest numbered row of the project that the request can be: every other row that may answer has a smaller major number, or the same and a smaller minor one, or the same both and a smaller patch; completes the version, merges the flags, returns the hash; fails if and only if there is no such row |
| VersionLookup.AnswerIsNewest | src/common/database.cpp:1258-1301 | the answer to a request for numbers is newer, number by number, than every other row that may answer |
| VersionLookup.LookUpNumbers | src/common/database.cpp:1228-1316 | the four stages together find the newest row that the request can be, compared number by number |
| VersionLookup.ExactStage | src/common/database.cpp:1232-1251 | an exact row is the answer, and without one a request with a patch number has none |
| VersionLookup.MinorStage | src/common/database.cpp:1253-1272 | with only the patch open, the top row of the minor series is the answer or there is none |
| VersionLookup.MajorStage | src/common/database.cpp:1274-1293 | with minor and patch open, the top row of the major series is the answer or there is none |
| VersionLookup.ResolvesIffAnswered | src/common/database.cpp:1214-1340 | a request resolves exactly when some row of the project may answer it |
| VersionLookup.ResolveAgain | src/common/database.cpp:1254-1265 | resolving the completed version again gives the same row |
| VersionLookup.ResolveAfterInsert | src/common/database.cpp:1228-1316 | a new row leaves the answer alone or becomes the answer, and then the old answer has the smaller numbers |
| VersionLookup.BestIsUnique | src/common/database.cpp:1258 | the answer to a request is unique |
| PreparedDependencies.DownloadDependency.PrepareDependencies | src/common/dependency.cpp:24-36 | fails exactly when an id is missing; otherwise holds the packages of all ids but its own, each with that package's data |
| PreparedDependencies.PrepareIdDependencies | src/common/resolver.cpp:689-701 | succeeds exactly when every id is present; the result has every package, prepared |
| PreparedDependencies.GetDependenciesFromDb | src/common/resolver.cpp:682-687 | preparation never misses an id after a search, so it fails only as the search does; in every success each package is reached and carries the data by which it was met, from a request or from a dependency of another package of the outcome; its dependencies are the resolved ones but itself, each with the data it has in the outcome, or none if its walk has failed; without failing lookups the result is the reached part of the graph with self-dependencies left out; without root projects it succeeds exactly when every request is served |
| PreparedDependencies.EveryIdIsFound | src/common/dependency.cpp:28-30 | every id recorded by a search, even one that swallowed failures, names a result of the search |
| Dependents.GetDependentPackages | src/common/database.cpp:1461-1499 | returns exactly the packages with a dependency on the project that is, or can be, the version |
| Dependents.NumbersAreFoundIff | src/common/database.cpp:1479-1496 | for a numbered version the owner of a dependency is found exactly when the version may answer the dependency, where a dependency on a branch counts as leaving all numbers open |
| Dependents.BranchIsFoundIff | src/common/database.cpp:1479-1496 | for a branch the owner of a dependency is found exactly when it asks for this branch or leaves all numbers open, as a dependency on any branch does |
| Dependents.DependentsCache.GetTransitiveDependentPackages | src/common/database.cpp:1517-1561 | terminates and keeps the cache correct; everything returned depends on the input transitively and is not in it; with a harmless cache everything that does is returned; a cache closed under dependents stays closed, and from the empty cache exactly what is reached is cached |
| Dependents.OutcomeIsBetween | src/common/database.cpp:1525-1555 | in every iteration order the walk gathers all that is reached without passing through cached packages, what is one step further, and only what is reached |
| Dependents.LeastOutcomeExists | src/common/database.cpp:1530-1551 | some iteration order gathers no more than that |
| Dependents.CompleteIffCacheIsHarmless | src/common/database.cpp:1534-1538 | every iteration order gives the whole closure if and only if the cache is harmless |
| Dependents.CacheLeft | src/common/database.cpp:1541-1551 | a closed cache stays closed over all passes, and from the empty cache exactly what is reached gets cached |
| Dependents.RepeatedQueryKeepsDirect | src/common/database.cpp:1534-1555 | of a query whose packages are all cached, the packages kept in every order are themselves and their direct dependents |
| Dependents.RepeatedQueryIsCompleteIff | src/common/database.cpp:1534-1555 | such a query is complete in every order exactly when the direct dependents have no further ones |
| Dependents.ColdCacheIsHarmless | src/common/database.cpp:1522 | the empty cache, and any cache of unrelated packages, is harmless |
| Dependents.EdgeIsReversed | src/common/database.cpp:1479-1496 | a dependency that resolves to a package is found by the reverse query for it |
| Dependents.ForwardIsFoundBackwards | src/common/database.cpp:1461-1561 | if a depends on b however indirectly, a walk for b with an empty cache gathers a |
| Examples.SuccessCanBeInexact | src/common/database.cpp:1161-1168 | a database where the search succeeds although a lookup fails behind a child |
| Examples.SuccessWithoutServedChild | src/common/database.cpp:1155-1168 | a database where a request for a root project succeeds although a lookup fails behind each of its children |
| Examples.RepeatedQueryCanMissDependents | src/common/database.cpp:1534-1538 | a query from the empty cache leaves a cache with which the same query can miss dependents |
| GatherDependencies.Gatherer.GatherAllDeps | src/printers/cmake.cpp:374-383 | for every store: terminates on cycles, keeps what was there, and adds only listings that are reached; the dependencies of each package added are there by name |
| GatherDependencies.AllDependencies | src/printers/cmake.cpp:521-522 | for every store the listings gathered are reached, and the dependencies stored for their packages are there by name; where a name stands for one package they are exactly the names reached, each with its package, in every order |
| GatherDependencies.Gatherer.GatherBuildDeps | src/printers/cmake.cpp:557-575 | for every store: terminates on cycles; adds only direct executables at depth 0 and what is reached through linked dependencies, and all that follows from it by name |
| GatherDependencies.BuildDependencies | src/printers/cmake.cpp:652-653 | the same into an empty map for every store; where a name stands for one package, executable everywhere or nowhere, exactly the direct executables and what is reached through dependencies that are neither executables nor header-only nor include-only |
| GatherDependencies.Gatherer.GatherCopyDeps | src/printers/cmake.cpp:577-606 | for every store: terminates on cycles; adds only what is reached through copied dependencies, and all that follows from it by name |
| GatherDependencies.CopyDependencies | src/printers/cmake.cpp:952-953 | the same into an empty map for every store; where a name stands for one package, exactly what is reached through dependencies that are to be copied |
| GatherDependencies.WhatIsFollowed | src/printers/cmake.cpp:561-602 | which flags make a dependency be built, linked and copied |
| ConfigProjects.Config.IncludeReferenced | src/common/config.cpp:235-258 | terminates with the least set that holds the initial projects and every subdirectory project a member names; initial ones are unchanged, others are as their subdirectory describes them |
| ConfigProjects.Config.IncludedByPass | src/common/config.cpp:240-253 | one pass takes in exactly the subdirectory projects named and not yet there, and reports whether there were any |
| CleanPackages.EveryTargetIsCleanedOnce | src/common/package.cpp:223-313 | in every interleaving of any number of calls claims on a package are disjoint, their union is what is recorded, and when all are done it is all that was requested by the calls that passed the installed check |
| CleanPackages.OnlyInstalledAreCleaned | src/common/package.cpp:223-225 | a package that is never installed is never cleaned: every call on it is turned away |
| CleanPackages.InstalledAreCleaned | src/common/package.cpp:223-247 | no call is turned away from an installed package whose sources nobody asks to remove, and when all are done it is cleaned of everything requested on it |
| CleanPackages.LeavesByRemoval | src/common/package.cpp:307-312 | a package stops being installed only by a call that has claimed its sources and finished |
| CleanPackages.GoneIffRemoved | src/common/package.cpp:223-312 | over a run without installations of it, an installed package is gone in the end exactly when such a call has finished |
| CleanPackages.InstalledUnlessRemoved | src/common/package.cpp:223-312 | once installed, a package is there in the end unless such a call has finished since |
| CleanPackages.ArrivesByInstallation | src/common/package.cpp:223-225 | nothing but an installation brings a package in |
| CleanPackages.RunKeepsInvariant | src/common/package.cpp:223-247 | every step keeps claims disjoint, recorded and within the request |
| CleanPackages.TakeKeepsInvariant | src/common/package.cpp:237-247 | so does the exclusive section, whatever happened since the shared one |
| CleanPackages.SharedCheckChangesNoOutcome | src/common/package.cpp:227-235 | the protocol with the shared pre-check and the one without it have the same outcomes |
| CleanPackages.StepIsSimple | src/common/package.cpp:227-247 | each step is a step of the protocol without the pre-check, or none |
| CleanPackages.SimpleStepIsReal | src/common/package.cpp:227-247 | each step of the protocol without the pre-check can be taken with it |
| ResolverRetry.Resolver.Resolve | src/common/resolver.cpp:128-201 | what happens, event by event, and how it ends is what the loop-free script says |
| ResolverRetry.Resolver.ResolveRemoteDeps | src/common/resolver.cpp:138-162 | remotes are queried from the current one on, up to the first that answers |
| ResolverRetry.EveryRunIsSound | src/common/resolver.cpp:128-201 | for an honest action a normal return means that it completed; remotes are queried at most once each, in list order; giving up happens exactly when all have failed |
| ResolverRetry.DownloadingRunIsSound | src/common/resolver.cpp:128-215 | with the downloading action all of this holds, and resolve returns exactly when all hashes match at the first start, or, if that used the local database, when a remote answers and all match at the second |
| ResolverRetry.AtMostTwoStarts | src/common/resolver.cpp:165-200 | the action starts at most twice, whatever it raises |
| ResolverRetry.DatabaseIsQueriedOnce | src/common/resolver.cpp:164-182 | the local database is left alone if the server is forced, otherwise queried first and once; one action uses its answer, and the remotes are left alone while that does not raise a hash exception |
| ResolverRetry.RemotesNeverGoBack | src/common/resolver.cpp:134-162 | whatever the action raises, no remote is queried after a later one |
| ResolverRetry.ReturnMeansCompletedIff | src/common/resolver.cpp:192-198 | exactly which actions can make the attempts run out on a hash exception |
| Counterexamples.ReturnCanMeanFailure | src/common/resolver.cpp:192-198 | with an action that always raises a hash exception resolve returns after a failed start |
| ResolverRetry.DownloadsAreHonest | src/common/resolver.cpp:203-215 | downloads raise a hash exception only while the local database is queried, and another one only otherwise, and complete exactly when all hashes match |
| StringBlocks.GetEndOfStringBlock | src/support/cppan_string.cpp:19-59 | terminates for every text and start, and returns what the recursive scan returns |
| StringBlocks.BlockEnd | src/support/cppan_string.cpp:19-59 | the end lies between the start and the end of the text |
| StringBlocks.BlockIsSkipped | src/support/cppan_string.cpp:19-59 | for every nested text with escaped quotes, between any prefix and suffix, the scan from behind the opener ends just past the matching closer |
| StringBlocks.SkippedIsBlock | src/support/cppan_string.cpp:19-59 | what a scan skips is a nested text with its closer exactly when one follows the opener; otherwise the scan runs to the end of the text |
| StringBlocks.NothingIsOpen | src/support/cppan_string.cpp:19-59 | behind a character that opens no block nothing is skipped |
| StringBlocks.ScanText | src/support/cppan_string.cpp:26-57 | inside a block with any such text left, the scan ends just past the closer |
| Arguments.ParseArguments | src/client/autotools.cpp:112-152 | the scanning loop returns what the recursion over positions gives, about which the next rows speak |
| Arguments.AddTo | src/client/autotools.cpp:119-127 | adds nothing for a blank piece, otherwise the piece without blanks and surrounding brackets |
| Arguments.ParsingUndoesJoining | src/client/autotools.cpp:112-152 | parsing any list of arguments joined with commas, words with quotes in them, blocks in brackets or parentheses, words with a block behind, or nothing, with blanks around, gives in order what they say, with outer brackets stripped; the very texts exactly when none is itself in brackets |
| Arguments.WordsAreParsed | src/client/autotools.cpp:112-152 | words without special characters, joined with commas, are parsed into just these |
| Arguments.UnclosedTakesAll | src/client/autotools.cpp:141-151 | a bracket or parenthesis that is never closed takes in the rest of the text as one argument |
| OrdinaryTexts.BlanksAreTrimmed | src/client/autotools.cpp:119-122 | exactly six characters are blanks |
| Counterexamples.BracketsAreLost | src/client/autotools.cpp:123-124 | "[[a]]" is parsed as "a", though the argument is "[a]" |
| Versions.PrintThenParse | src/common/version.cpp:31-76 | reading the text of a version gives the same version of the same type |
| Versions.ParsePrintParse | src/common/version.cpp:31-107 | for every accepted text, printing what it denotes and reading that gives the same again |
| Versions.PrintingIsInjective | src/common/version.cpp:87-107 | printing tells versions apart; equal versions print alike but for "=" and "*" |
| Versions.ToAnyVersion | src/common/version.cpp:87-107 | growing the text number by number and cutting the last dot joins the given numbers with dots |
| Versions.LessIsStrictTotalOrder | src/common/version.cpp:141-159 | the order is irreflexive, transitive and total, and ties exactly the equal versions |
| Versions.NewerIsGreater | src/common/version.cpp:141-150 | branches come before numbers; of two versions with numbers the first number that differs decides, and the smaller one comes first |
| Strings.LexLessAt | src/common/version.cpp:144 | of two texts the first character that differs decides, or a beginning comes first |
| OrdinaryTexts.OneNumberIsRead | src/common/version.cpp:59-62 | one number is a version exactly when it fits an int |
| OrdinaryTexts.TwoNumbersAreRead | src/common/version.cpp:54-58 | so are two |
| OrdinaryTexts.ThreeNumbersAreRead | src/common/version.cpp:48-53 | so are three that are not all zero |
| OrdinaryTexts.FourNumbersAreRefused | src/common/version.cpp:71-75 | four numbers, an empty number and the empty text are no versions |
| OrdinaryTexts.BranchesAreRead | src/common/version.cpp:21 | which characters begin a branch and which may follow |
| OrdinaryTexts.NumbersAreDecimal | src/common/version.cpp:48-62 | numbers are read and printed with base ten |
| ProjectPaths.ParseProjectPath | src/common/project_path.cpp:41-62 | the loop over the symbols lowers, refuses and splits as intended |
| ProjectPaths.PrintProjectPath | src/common/project_path.cpp:69-78 | the text is the elements joined with dots |
| ProjectPaths.PrintParsed | src/common/project_path.cpp:41-78 | a path prints as its text in lower case, without dashes, and reads back the same |
| OrdinaryTexts.PathsAreRead | src/common/project_path.cpp:41-51 | exactly the texts of up to 2048 letters, digits, dots and underscores are paths |
| OrdinaryTexts.PathsAreLowered | src/common/project_path.cpp:52-61 | Org.ZLib has the elements org and zlib; elements may be empty |
| ProjectPaths.CheckRootOf | src/common/project_path.cpp:187-197 | decides whether the elements are a proper prefix |
| ProjectPaths.Back | src/common/project_path.cpp:199-215 | returns what has to be appended to the root, or nothing if it is no root |
| ProjectPaths.RootOfIffAppended | src/common/project_path.cpp:187-236 | a root is exactly a path to which something can be appended with operator/ |
| ProjectPaths.RootOfIffBelow | src/common/project_path.cpp:187-197 | on texts, being a root is being a prefix that a dot follows |
| ProjectPaths.ChildrenHaveRootIff | src/common/database.cpp:1140-1142 | the select for children finds the paths below the root exactly when the root has no underscore |
| Counterexamples.StrangerBecomesChild | src/common/database.cpp:1140-1142 | axb.c is selected as a child of a_b |
| LikePattern.ChildrenAreBelowIffNoUnderscore | src/common/database.cpp:1141-1142 | the same for any stored text |
| LikePattern.LikeIgnoresCase | src/common/database.cpp:1141-1142 | the pattern does not look at the case of letters |
| PathOrder.LessIsPartialOrder | src/common/project_path.cpp:106-128 | the order of paths is irreflexive and transitive |
| PathOrder.NamespacesInOrder | src/common/project_path.cpp:108-127 | org comes before pvt and pvt before the others; a root comes before what is below it |
| PathOrder.FirstDifferenceDecides | src/common/project_path.cpp:116-117 | within a namespace the first element that differs decides |
| PathOrder.CanSortIff | src/common/project_path.cpp:106-128 | ties are transitive on a set exactly when no namespace but org and pvt has two members while another such has one |
| Counterexamples.TwoNamespacesCannotBeSorted | src/common/project_path.cpp:106-128 | com.a, com.b and loc.a cannot be sorted |
| PackageNames.ExtractJoined | src/common/package.cpp:138-149 | path, dash and version read back as the same package exactly when the branch has no dash, and fail otherwise |
| PackageNames.ExtractTargetName | src/common/package.cpp:94-161 | target names read back likewise, with or without a version |
| PackageNames.UndashedNames | src/common/package.cpp:138-161 | a text without a dash is refused where a version is asked for, and otherwise read as a path at any version |
| PackageNames.TargetNamesDiffer | src/common/package.cpp:94-98 | target names tell all packages apart that were read from text, also those on branches with a dash |
| OrdinaryTexts.OrdinaryTargetNames | src/common/package.cpp:94-98 | org.zlib at 1.2 is named org.zlib-1.2, and at any version org.zlib |
| Counterexamples.DashedBranchIsNotReadBack | src/common/package.cpp:138-149 | a on branch x-y is a package, and a-x-y cannot be read |
| ParallelChecks.Checks.RemoveKnownVars | src/common/checks.cpp:844-852 | leaves exactly the checks whose variable is not known |
| ParallelChecks.Checks.Scatter | src/common/checks.cpp:854-873 | every check but declarations is in exactly one worker, no declaration is in any, and workers differ by at most one check |
| ParallelChecks.Checks.Merge | src/printers/cmake.cpp:3612-3615 | the checks become the union of what the valid workers hold |
| ParallelChecks.MergeRestoresIff | src/printers/cmake.cpp:3612-3615 | merging restores what was dealt exactly when every failed worker had nothing to do |
| Counterexamples.CheckOfFailedWorkerIsLost | src/printers/cmake.cpp:3612-3615 | the only worker fails, and nothing is left of its check |

## Left out

- SQLite, CSV loading, downloading of the database, git and HTTP: queries are functions on rows.
- `check_version_age` and clocks: a failure that depends on the time, not on the rule.
- Unpacking, file locks, stamps and the removal of files by `cleanPackage`: file system effects; only the claims and the installed set are kept.
- `Remote::downloadPackage`: a parameter says whether hashes match.
- Hashes, variable names and reference data of packages.
- Values given by value in the source (versions, paths, packages) are values here, so updating them in place and aliasing are not captured.
- The reading of project files, settings and source descriptors; the text of generated CMake scripts; the parsers made with flex and bison.
- Dependents.DependentsCache.GetTransitiveDependentPackages: the source inserts into the hash set that it iterates; that a rehash would then invalidate the iteration, and that concurrent calls may fill the cache meanwhile, is not modelled.
