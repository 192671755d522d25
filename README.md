# RemoveTransitiveReferences — a verified model of the pruning engine

RemoveTransitiveReferences deletes redundant `PackageReference` items from an
SDK-style .NET project file. For each declared package it expands the
transitive closure of its dependencies through the local NuGet package cache.
A declared package whose name is found in the closure of some declared
package is redundant, unless the project's built assembly references an
assembly with that name. Redundant references are deleted in name order.

This project models the engine in `Parser.cs` and proves properties of it.
The modules are:

- `Versions`: package versions and their order.
- `Strings`: ordinal substring search and ordinal string order.
- `PackageCache`: the local package cache as data, and the choice of a cached
  version for a requested one: the exact match, else the first in listing order
  that is at least the request.
- `Frameworks`: the choice of one dependency set of a package for the consuming
  project's target framework.
- `Resolution`: the closure of one package, as a function that returns
  `(dependency, level)` entries or an error.
- `Decision`: which declared references are deleted, as a function of the
  closures and the built assembly's references.
- `ProjectParser`: the tool's driver. It has a class `Parser`, whose field
  `targetFramework` is set by `Parse` and read when dependency sets are chosen,
  and a class `ProjectFile`, whose list of package references is updated in
  place.

Each method of `Parser` is proved against a specification function:

| method | specification function |
|---|---|
| `ReadDependenciesRecursive` | `Closure` |
| `ReadDependencies` | `DependenciesClosure` |
| `MarkReferences` | `TransitiveIds` |
| `Parse` | `Run` |
| `RemoveRedundant` | `Prune` |

The lemmas then state what those functions promise. The closure is closed
under the dependency relation and every entry is grounded in it. Levels are
only tags. Errors are explained by the cache, and a cycle error names a
package version whose selected dependency sets lead back to itself. A reference is deleted exactly
when the rule says so. Pruning is idempotent.

Where the code and its written description disagree, the model follows the
code:

- Version choice takes the first qualifying version in listing order, not the
  smallest one. `SelectVersionIsMinimalWhenAscending` shows the two agree when
  the listing is ascending.
- A declared reference is marked when its name appears in any declared
  reference's closure, its own included. The code does not require "a different
  declared reference".
- The deleted names come out in ordinal name order, one log entry per visited
  reference, duplicates included, as the removal loop prints them.

## Model

| member | source | states |
|---|---|---|
| PackageCache.ExactMatches | RemoveTransitiveReferences/Parser.cs:136 | the `Where` filter for equal versions keeps at most as many entries as the listing has; ExactMatchesMembers states which |
| PackageCache.FirstAtLeast | RemoveTransitiveReferences/Parser.cs:140 | the `First` search for a version at least the request yields a position inside the listing, if any; FirstAtLeastIsFirst states which |
| PackageCache.ExactMatchesMembers | RemoveTransitiveReferences/Parser.cs:136 | an entry is an exact match iff it is cached with exactly the requested version |
| PackageCache.FirstAtLeastIsFirst | RemoveTransitiveReferences/Parser.cs:140 | the position found holds a version at least the requested one and every earlier entry is below it; nothing is found iff all are below |
| PackageCache.SelectVersion | RemoveTransitiveReferences/Parser.cs:136-141 | a selected version is one of the cached entries |
| PackageCache.SelectVersionSpec | RemoveTransitiveReferences/Parser.cs:136-141 | the result is the requested version iff exactly one entry has it; it fails as ambiguous iff several have it; otherwise it is the first entry at least the request; it fails as unavailable iff every entry is below the request; a chosen version is always at least the request |
| PackageCache.Resolve | RemoveTransitiveReferences/Parser.cs:125-141 | resolution fails with PackageNotFound iff the package has no cache entry; a resolved version is cached for that package |
| PackageCache.ResolveIsAtLeastRequested | RemoveTransitiveReferences/Parser.cs:136-141 | the resolved version is at least the requested one |
| PackageCache.SelectVersionIsMinimalWhenAscending | RemoveTransitiveReferences/Parser.cs:140 | on an ascending listing the first qualifying version is the smallest qualifying one |
| Frameworks.ConsumerRule | RemoveTransitiveReferences/Parser.cs:171-182 | the "standard" set rule applies iff the target framework contains "core"; the "core" set rule applies iff it contains "standard" but not "core" |
| Frameworks.Accepts | RemoveTransitiveReferences/Parser.cs:173-181 | the three predicates of the `FirstOrDefault` calls; a set is accepted only when it is unscoped or names a supported framework |
| Frameworks.FirstAccepted | RemoveTransitiveReferences/Parser.cs:173-181 | `FirstOrDefault` over the rule's predicate yields a position inside the list of sets, if any; FirstAcceptedIsFirst states which |
| Frameworks.FirstAcceptedIsFirst | RemoveTransitiveReferences/Parser.cs:173-181 | the position found holds an accepted set and no earlier set is accepted; nothing is found iff no set is accepted |
| Frameworks.SelectDependencySet | RemoveTransitiveReferences/Parser.cs:162-185 | a package with exactly one set gets that set whatever the consumer; any set chosen is one of the package's sets |
| Frameworks.SelectDependencySetSpec | RemoveTransitiveReferences/Parser.cs:169-184 | with other than one set, a set is chosen iff the consumer's rule accepts one, and it is the first accepted |
| Frameworks.NoSetsSelectNothing | RemoveTransitiveReferences/Parser.cs:173-181 | a package with no dependency sets yields no set |
| Frameworks.CoreTestComesFirst | RemoveTransitiveReferences/Parser.cs:171-175 | a moniker containing both "core" and "standard" follows the "core" rule and skips a set that only supports "core" |
| Frameworks.NetCoreAppRule | RemoveTransitiveReferences/Parser.cs:171 | "netcoreapp2.0" follows the "core" rule |
| Frameworks.NetStandardRule | RemoveTransitiveReferences/Parser.cs:175 | "netstandard2.0" follows the "standard" rule |
| Frameworks.NetFrameworkRule | RemoveTransitiveReferences/Parser.cs:179-181 | "net461" follows neither marker rule |
| Frameworks.NetCoreAppConsumerMissesNetStandardSet | RemoveTransitiveReferences/Parser.cs:171-173 | a netcoreapp consumer offered a ".NETStandard" set and a ".NETFramework" set takes neither, because the case-sensitive test for "standard" fails on ".NETStandard" |
| Frameworks.NetStandardConsumerMissesNetCoreAppSet | RemoveTransitiveReferences/Parser.cs:175-177 | a netstandard consumer offered a ".NETCoreApp" set and a ".NETFramework" set takes neither, because the test for "core" fails on ".NETCoreApp" |
| Frameworks.FullFrameworkConsumerTakesFrameworkSet | RemoveTransitiveReferences/Parser.cs:179-181 | a net461 consumer skips a scoped ".NETStandard" set and takes the ".NETFramework" set |
| Resolution.AtLevel | RemoveTransitiveReferences/Parser.cs:152 | each dependency of the selected set is tagged with the current level, in order |
| Resolution.Closure | RemoveTransitiveReferences/Parser.cs:123-160 | a package missing from the cache fails with PackageNotFound; every entry has level at least the starting level |
| Resolution.DependenciesClosure | RemoveTransitiveReferences/Parser.cs:155-158 | every entry of the concatenated closures has level at least the starting level |
| Resolution.ClosureStopsEarly | RemoveTransitiveReferences/Parser.cs:127-150 | a resolution error is returned as is, a package already being expanded is a cycle error, and a package with no selected set has an empty closure |
| Resolution.ClosureOfSelectedSet | RemoveTransitiveReferences/Parser.cs:152-159 | with a selected set, the closure is the set's dependencies at this level followed by their closures one level deeper |
| Resolution.ClosureSucceeds | RemoveTransitiveReferences/Parser.cs:145-159 | a successful closure resolved the package, did not meet it among its ancestors, and equals its direct dependencies at this level followed by their successful closures one level deeper |
| Resolution.ClosureErrorIsExplained | RemoveTransitiveReferences/Parser.cs:123-160 | a failed closure reports something the cache really lacks: no entry, several equal versions, or every version below the request; a cycle error names either a package version whose selected sets lead back to itself, or an ancestor that this request leads to |
| Resolution.DependenciesClosureErrorIsExplained | RemoveTransitiveReferences/Parser.cs:155-158 | the same for a list of dependencies, where the ancestor is led to from one of the listed dependencies |
| Resolution.RootClosureErrorIsExplained | RemoveTransitiveReferences/Parser.cs:123-160 | a closure expanded from scratch fails only for a reason the cache explains; a cycle error names a package version that depends, directly or not, on itself |
| Resolution.AcyclicClosureHasNoCycleError | RemoveTransitiveReferences/Parser.cs:152-158 | when no package version depends on itself, no closure expanded from scratch reports a cycle |
| Resolution.TwoPackageCycle | RemoveTransitiveReferences/Parser.cs:152-158 | with A 1.0 depending on B 1.0 and B 1.0 on A 1.0, A's closure fails with a cycle on A 1.0, and A 1.0 is on a cycle |
| Resolution.LeafIsNotOnCycle | RemoveTransitiveReferences/Parser.cs:145-150 | a package version without dependency sets is on no cycle, so no cycle error can name it |
| Resolution.PartIsIncluded | RemoveTransitiveReferences/Parser.cs:155-158 | what the closure of a listed dependency holds, the list's closure holds |
| Resolution.MemberComesFromPart | RemoveTransitiveReferences/Parser.cs:155-158 | every entry of a list's closure comes from the successful closure of one listed dependency |
| Resolution.PartsSucceed | RemoveTransitiveReferences/Parser.cs:155-158 | when a list's closure succeeds, the closure of every listed dependency succeeds |
| Resolution.DependenciesClosurePrefixFails | RemoveTransitiveReferences/Parser.cs:155-158 | the first failing dependency decides the error of the whole list |
| Resolution.UnmatchedPackageContributesNothing | RemoveTransitiveReferences/Parser.cs:147-150 | a package that resolves and lists no dependency for this consumer has an empty closure, which is not an error |
| Resolution.NetCoreAppClosureMissesNetStandardSet | RemoveTransitiveReferences/Parser.cs:145-173 | a netcoreapp consumer expanding a package whose version offers a ".NETStandard" set and a ".NETFramework" set gets an empty closure, without error |
| Resolution.ClosureStartsWithDirect | RemoveTransitiveReferences/Parser.cs:152 | a closure starts with the package's own dependencies at the starting level |
| Resolution.DirectOfPartIsIncluded | RemoveTransitiveReferences/Parser.cs:152-158 | the direct dependencies of a listed dependency are in the list's closure |
| Resolution.ClosureIsClosed | RemoveTransitiveReferences/Parser.cs:152-158 | for every entry of a closure, each dependency of that entry's selected set is in the closure, one level deeper |
| Resolution.DependenciesClosureIsClosed | RemoveTransitiveReferences/Parser.cs:155-158 | the same for a list of dependencies |
| Resolution.ClosedStep | RemoveTransitiveReferences/Parser.cs:152-158 | an entry of the direct level or of the deeper closures has its own dependencies in the deeper closures |
| Resolution.ClosureIsGrounded | RemoveTransitiveReferences/Parser.cs:152-158 | every entry is either a direct dependency of the root at the starting level or a dependency of another entry found one level higher |
| Resolution.ClosureShift | RemoveTransitiveReferences/Parser.cs:152-157 | starting `k` levels deeper gives the same closure with every level raised by `k`, and the same error |
| Resolution.ClosureShiftSelected | RemoveTransitiveReferences/Parser.cs:152-157 | the shift for a package that expands a selected set |
| Resolution.DependenciesClosureShift | RemoveTransitiveReferences/Parser.cs:154-157 | the same for a list of dependencies |
| Decision.Ids | RemoveTransitiveReferences/Parser.cs:58 | the ids named by a closure are exactly the ids of its entries |
| Decision.Closures | RemoveTransitiveReferences/Parser.cs:51-53 | one closure per declared reference, at its declared version from level 0 |
| Decision.CollectIds | RemoveTransitiveReferences/Parser.cs:51-65 | the id gathering of the outer loop; a failed gathering reports the error of one of the closures |
| Decision.CollectIdsOneMore | RemoveTransitiveReferences/Parser.cs:51-65 | gathering one more successful closure adds its ids |
| Decision.CollectIdsSucceeds | RemoveTransitiveReferences/Parser.cs:51-65 | gathering succeeds iff every closure succeeded |
| Decision.CollectIdsMembers | RemoveTransitiveReferences/Parser.cs:51-65 | an id is gathered iff some closure names it |
| Decision.CollectIdsFirstError | RemoveTransitiveReferences/Parser.cs:51-53 | a failed gathering reports the error of the first failed closure |
| Decision.CollectIdsPrefixFails | RemoveTransitiveReferences/Parser.cs:51-53 | once a prefix fails, the whole gathering fails the same way |
| Decision.TransitiveIds | RemoveTransitiveReferences/Parser.cs:51-65 | the ids are found iff the closure of every declared reference succeeds |
| Decision.TransitiveIdsMembers | RemoveTransitiveReferences/Parser.cs:51-65 | a name is found iff it is the id of an entry in some declared reference's closure |
| Decision.TransitiveIdsFirstError | RemoveTransitiveReferences/Parser.cs:51-53 | on failure the error is that of the first declared reference whose closure fails |
| Decision.Without | RemoveTransitiveReferences/Parser.cs:74 | a reference remains iff it was there and its name is not deleted |
| Decision.WithoutCounts | RemoveTransitiveReferences/Parser.cs:74 | every copy of a reference with a deleted name goes and every other reference keeps all its copies |
| Decision.WithoutDeletesExactly | RemoveTransitiveReferences/Parser.cs:74 | when every deleted name is carried by some reference, a name is deleted iff some reference carried it and none left carries it |
| Decision.WithoutNoMatch | RemoveTransitiveReferences/Parser.cs:74 | deleting names that no reference carries changes nothing |
| Decision.WithoutAppend | RemoveTransitiveReferences/Parser.cs:74 | deletion works item by item, keeping the order of what remains |
| Decision.WithoutOneMore | RemoveTransitiveReferences/Parser.cs:67-75 | deleting one more name after a set of names equals deleting them all at once |
| Decision.WithoutAgreeing | RemoveTransitiveReferences/Parser.cs:74 | two sets of names that agree on the references' names delete the same references |
| Decision.RemovalNames | RemoveTransitiveReferences/Parser.cs:67-74 | every name deleted is found in some closure, is not referenced by the built assembly and is carried by a declared reference |
| Decision.Prune | RemoveTransitiveReferences/Parser.cs:48-75 | the decision of `Parse`: the kept references are declared ones, and pruning fails iff some declared reference's closure fails |
| Decision.PruneDecides | RemoveTransitiveReferences/Parser.cs:48-75 | a reference loses all its copies iff its name is found in some declared reference's closure and the built assembly does not reference it; otherwise it keeps all of them |
| Decision.VetoedReferenceIsKept | RemoveTransitiveReferences/Parser.cs:69-72 | a reference whose name the built assembly references is kept |
| Decision.UnreachableReferenceIsKept | RemoveTransitiveReferences/Parser.cs:56-63 | a reference found in no closure is kept |
| Decision.RedundantReferenceIsRemoved | RemoveTransitiveReferences/Parser.cs:56-74 | a reference named by an entry of a declared reference's closure, and not referenced by the assembly, leaves no reference of that name |
| Decision.PruneFails | RemoveTransitiveReferences/Parser.cs:51-53 | pruning fails iff some declared reference's closure fails, and then with the first such error |
| Decision.PruneIsIdempotent | RemoveTransitiveReferences/Parser.cs:48-75 | pruning the pruned references again deletes nothing more |
| Decision.ScenarioClosures | RemoveTransitiveReferences/Parser.cs:123-160 | with A 1.0 depending on B 1.0, A's closure is B at level 0 and B's is empty |
| Decision.ScenarioTransitiveIds | RemoveTransitiveReferences/Parser.cs:51-65 | the closures of A and B together name only B |
| Decision.TwoPackageScenario | RemoveTransitiveReferences/Parser.cs:48-75 | B is deleted, unless the assembly references "B", in which case both stay |
| ProjectParser.IsProjectSdk | RemoveTransitiveReferences/Parser.cs:80-88 | true iff the Sdk attribute is present and is exactly "Microsoft.NET.Sdk" |
| ProjectParser.OutputType | RemoveTransitiveReferences/Parser.cs:95-103 | "" with no OutputType, its value with one, an error with more than one |
| ProjectParser.AssemblyPath | RemoveTransitiveReferences/Parser.cs:30-38 | the path is base directory, bin, debug, target framework, then the file; the file ends ".exe" iff the output type is "Exe", else ".dll" |
| ProjectParser.Run | RemoveTransitiveReferences/Parser.cs:16-75 | the whole of `Parse` on values; a successful run is on an SDK project with one target framework and keeps only declared references |
| ProjectParser.RunSucceeds | RemoveTransitiveReferences/Parser.cs:16-65 | a run succeeds iff the project is an SDK project with one target framework, at most one output type and a built assembly, and every declared closure expands |
| ProjectParser.RunDecides | RemoveTransitiveReferences/Parser.cs:46-75 | on success, every copy of a reference is deleted iff its name is found in some closure and the assembly does not reference it |
| ProjectParser.FirstByName | RemoveTransitiveReferences/Parser.cs:67 | a non-empty set of positions has one whose name comes first in ordinal order |
| ProjectParser.DependenciesClosureStep | RemoveTransitiveReferences/Parser.cs:155-158 | expanding one more dependency appends its closure, or stops at its error |
| ProjectParser.StepwiseSortedIsSorted | RemoveTransitiveReferences/Parser.cs:67 | names ordered pairwise by neighbours are sorted |
| ProjectParser.NamesAt | RemoveTransitiveReferences/Parser.cs:67 | the name at each visited position, in visiting order |
| ProjectParser.Unvetoed | RemoveTransitiveReferences/Parser.cs:67-73 | a visited name is logged iff the assembly does not reference it |
| ProjectParser.UnvetoedOneMore | RemoveTransitiveReferences/Parser.cs:67-73 | visiting one more name logs it unless the assembly references it |
| ProjectParser.UnvetoedSorted | RemoveTransitiveReferences/Parser.cs:67-73 | skipping vetoed names keeps the log sorted |
| ProjectParser.VisitedNamesAreRemovalNames | RemoveTransitiveReferences/Parser.cs:56-75 | visiting every marked position deletes exactly the names of marked references that the assembly does not reference |
| ProjectParser.RemovalOutcome | RemoveTransitiveReferences/Parser.cs:67-75 | deleting the unvetoed names of the marked positions, visited in name order, leaves the pruned references; a name is logged iff it was declared and is gone afterwards; the log is in name order |
| ProjectParser.OrderByName | RemoveTransitiveReferences/Parser.cs:67 | the marked positions each once, sorted by name in ordinal order |
| ProjectParser.ProjectFile.constructor | RemoveTransitiveReferences/Parser.cs:105-121 | the project file holds the given properties and references |
| ProjectParser.ProjectFile.RemovePackageReferences | RemoveTransitiveReferences/Parser.cs:74 | every reference with that name is deleted and the others stay in order |
| ProjectParser.Parser.constructor | RemoveTransitiveReferences/Parser.cs:14 | a new parser has no target framework yet |
| ProjectParser.Parser.ReadDependenciesRecursive | RemoveTransitiveReferences/Parser.cs:123-160 | the entries or the error computed equal the package's closure for the field `targetFramework` |
| ProjectParser.Parser.ReadDependencies | RemoveTransitiveReferences/Parser.cs:152-158 | the loop over the selected set's dependencies equals the list's closure |
| ProjectParser.Parser.Parse | RemoveTransitiveReferences/Parser.cs:16-78 | the outcome is the run's result. On success the project file holds the kept references and a name is logged iff it was declared and no reference of it is left. On failure the references are unchanged and nothing is logged. The log is in ordinal order. The field `targetFramework` becomes the project's target framework when it is an SDK project with exactly one, and keeps its old value otherwise |
| ProjectParser.Parser.RemoveRedundant | RemoveTransitiveReferences/Parser.cs:48-75 | the result is the pruned references of the declared ones; on success the project file holds them, a name is logged iff it was declared and is gone, and the log is in name order; on failure nothing changes and nothing is logged |
| ProjectParser.Parser.MarkReferences | RemoveTransitiveReferences/Parser.cs:48-65 | it fails iff some closure fails, with the first error; on success it marks exactly the positions whose name is found in some closure |
| ProjectParser.Parser.MarkClosure | RemoveTransitiveReferences/Parser.cs:53-64 | it fails iff the declared reference's closure fails, with its error; otherwise it adds the positions of the references the closure names |
| ProjectParser.Parser.MarkNamed | RemoveTransitiveReferences/Parser.cs:56-63 | it adds the positions of the references named by some entry of a closure |
| ProjectParser.Parser.RemoveMarked | RemoveTransitiveReferences/Parser.cs:67-75 | the log is the visited names the assembly does not reference, and the project file loses every reference carrying a logged name |

## Left out

- XML handling is not modelled. The project file is the `ProjectFile` object:
  - the `Sdk` attribute as an option;
  - the `TargetFramework` and `OutputType` values as lists;
  - the `PackageReference` items as (name, version) records in document order.

  `XElement.Remove` is the deletion of those records.
- Reading the built assembly's references with Mono.Cecil is not modelled.
  Each built assembly path maps to the list of names it references, given as
  the `builds` parameter. `File.Exists` is membership in that map.
- File-system and environment access is left out: the `UserProfile` variable,
  `Directory.Exists`, `Directory.GetDirectories` and the backslash splitting of
  directory names. The package cache is the `Cache` map. A package's listing is
  in directory order, whatever order the file system gives. On Windows
  `Directory.Exists` ignores case, so a dependency id "Newtonsoft.Json" finds
  the cache folder "newtonsoft.json"; the model's `id in cache` test and the
  cycle guard's (id, version) pairs compare ids exactly.
- NuGet archive reading (`ZipPackage`) is not modelled. Each cached version
  carries its dependency sets as data.
- NuGet's `SemanticVersion` parsing and prerelease labels are not modelled.
  A version is four numbers compared in order. An unparsable directory name or
  declared version, which throws in the code, is not represented.
- Version ranges are reduced to their lower bound, the only part the code uses.
- A dependency declared without a version range, or with a range that has no
  lower bound, is not modelled. The code reads `dependency.VersionSpec.MinVersion`
  and compares it with the cached versions, and fails when either is null.
  Every modelled `Dependency` carries a lower bound, so that failure path is
  absent.
- A case-insensitive marker test is not modelled. The code tests framework
  identifiers with ordinal, case-sensitive `Contains`, and the model keeps
  that. On NuGet's identifiers ".NETStandard" and ".NETCoreApp" the "standard"
  and "core" tests fail. A "core" or "standard" consumer of a package with
  several dependency sets therefore gets no set and an empty closure for that
  package (`NetCoreAppConsumerMissesNetStandardSet`,
  `NetStandardConsumerMissesNetCoreAppSet`, `NetCoreAppClosureMissesNetStandardSet`).
  This is plausibly unintended; it is read from the code alone.
- Exceptions are modelled as error results:
  - a missing package directory is `PackageNotFound`;
  - `SingleOrDefault` over several equal versions is `AmbiguousVersion`;
  - `First` with no qualifying version is `VersionNotAvailable`;
  - `Single` over the target frameworks is `TargetFrameworkNotSingle`;
  - `SingleOrDefault` over the output types is `OutputTypeNotSingle`.

  Console messages other than the "Removing" lines (the `log`) are left out.
- Resolution.Closure: the code has no cycle guard and recurses without bound
  on cyclic package metadata. The model carries the (id, version) pairs being
  expanded on each branch and reports `CyclicDependency` instead. The guard
  fires only on a package version whose selected dependency sets lead back to
  itself (`RootClosureErrorIsExplained`), so on acyclic metadata it never fires
  (`AcyclicClosureHasNoCycleError`). That every cycle is reported is not
  promised: an earlier error, or a dependency set not selected for the
  consumer, can keep the cycle from being expanded.
- ProjectParser.OrderByName: `OrderBy` uses the current culture's string
  comparison. The model sorts by ordinal order. References of equal name are
  visited in an unspecified order, which affects neither the log nor the
  project file.
- ProjectParser.Parser.Parse: the code uses one `HashSet` of reference objects
  for the marked references. The model marks positions in the list, so two
  declared references with the same name are two marks, as two distinct
  objects are. After the early returns, `RemoveRedundant` runs the code's
  three loops as `MarkReferences` (one `MarkClosure` per declared reference),
  `OrderByName` and `RemoveMarked`.
- `Converter.cs` (file reading and writing around `Parse`) and `Program.cs`
  (command-line handling, the directory scan and the per-file catch) are not
  part of this model.
