/**
 * The tool's driver, `Parser`: it checks that the project file is an SDK
 * project, locates the assembly the last debug build produced, expands the
 * closure of every declared package reference through the local package
 * cache, and deletes from the project file the references that are redundant.
 *
 * The project file is the object `ProjectFile`, whose list of package
 * references is updated in place. The local package cache and the build
 * output are values given to the parser: the cache as a `Cache`, the build
 * output as a map from the path of each built assembly to the names of the
 * assemblies it references.
 */
module ProjectParser {
  import opened Wrappers
  import opened Versions
  import opened Strings
  import opened PackageCache
  import opened Frameworks
  import opened Resolution
  import opened Decision

  /** Why a run stops without touching the project file. */
  datatype ParseError =
    | NotSdkProject                       // the Project element has no Sdk="Microsoft.NET.Sdk"
    | TargetFrameworkNotSingle(count: nat) // not exactly one TargetFramework property
    | OutputTypeNotSingle(count: nat)      // more than one OutputType property
    | AssemblyNotFound(path: seq<string>)  // the project has not been built
    | Unresolved(error: ResolveError)      // a closure could not be expanded

  /** The only SDK the tool accepts. */
  const SdkName: string := "Microsoft.NET.Sdk"

  /**
   * The project is an SDK-style project: the `Sdk` attribute of its `Project`
   * element is present (`None` when the attribute or the element is missing)
   * and is exactly the .NET SDK.
   */
  function IsProjectSdk(sdk: Option<string>): (r: bool)
    ensures r ==> sdk.Some? && sdk.value == SdkName
    ensures sdk.Some? && sdk.value == SdkName ==> r
  {
    match sdk
    case None => false
    case Some(value) => value == SdkName
  }

  /** The `OutputType` property: its value when there is one, the empty string when there is none. */
  function OutputType(outputTypes: seq<string>): (r: Result<string, ParseError>)
    ensures outputTypes == [] ==> r == Ok("")
    ensures |outputTypes| == 1 ==> r == Ok(outputTypes[0])
    ensures |outputTypes| > 1 ==> r == Err(OutputTypeNotSingle(|outputTypes|))
  {
    if |outputTypes| == 0 then Ok("")
    else if |outputTypes| == 1 then Ok(outputTypes[0])
    else Err(OutputTypeNotSingle(|outputTypes|))
  }

  /**
   * The path, as a list of components, of the assembly the debug build of
   * project `assemblyName` in `baseDir` produces for `targetFramework`: an
   * executable for an `Exe` project, a library otherwise.
   */
  function AssemblyPath(baseDir: string, targetFramework: string, assemblyName: string, outputType: string): (r: seq<string>)
    ensures |r| == 5
    ensures r[..4] == [baseDir, "bin", "debug", targetFramework]
    ensures r[4] == assemblyName + ".exe" || r[4] == assemblyName + ".dll"
    ensures r[4] == assemblyName + ".exe" <==> outputType == "Exe"
  {
    var extension := if outputType == "Exe" then ".exe" else ".dll";
    assert (assemblyName + ".exe")[|assemblyName| + 1] == 'e';
    assert (assemblyName + ".dll")[|assemblyName| + 1] == 'd';
    [baseDir, "bin", "debug", targetFramework, assemblyName + extension]
  }

  /**
   * What a run over a project file computes: the package references left in
   * it, or why it stops. `builds` maps each built assembly's path to the
   * assembly names it references.
   */
  function Run(sdk: Option<string>, targetFrameworks: seq<string>, outputTypes: seq<string>,
               refs: seq<PackageReference>, baseDir: string, assemblyName: string,
               cache: Cache, builds: map<seq<string>, seq<string>>): (r: Result<seq<PackageReference>, ParseError>)
    ensures r.Ok? ==> IsProjectSdk(sdk) && |targetFrameworks| == 1
    ensures r.Ok? ==> forall x :: x in r.value ==> x in refs
  {
    if !IsProjectSdk(sdk) then Err(NotSdkProject)
    else if |targetFrameworks| != 1 then Err(TargetFrameworkNotSingle(|targetFrameworks|))
    else match OutputType(outputTypes)
      case Err(e) => Err(e)
      case Ok(outputType) =>
        var path := AssemblyPath(baseDir, targetFrameworks[0], assemblyName, outputType);
        if path !in builds then Err(AssemblyNotFound(path))
        else match Prune(cache, targetFrameworks[0], refs, builds[path])
          case Err(e) => Err(Unresolved(e))
          case Ok(kept) => Ok(kept)
  }

  /**
   * A run succeeds exactly when the project is an SDK project with one target
   * framework and at most one output type, its assembly has been built, and
   * the closure of every declared reference expands.
   */
  lemma RunSucceeds(sdk: Option<string>, targetFrameworks: seq<string>, outputTypes: seq<string>,
                    refs: seq<PackageReference>, baseDir: string, assemblyName: string,
                    cache: Cache, builds: map<seq<string>, seq<string>>)
    ensures Run(sdk, targetFrameworks, outputTypes, refs, baseDir, assemblyName, cache, builds).Ok? <==>
      sdk == Some(SdkName) && |targetFrameworks| == 1 && |outputTypes| <= 1 &&
      AssemblyPath(baseDir, targetFrameworks[0], assemblyName, OutputType(outputTypes).value) in builds &&
      forall k :: 0 <= k < |refs| ==> ReferenceClosure(cache, targetFrameworks[0], refs[k]).Ok?
  {
    if sdk == Some(SdkName) && |targetFrameworks| == 1 && |outputTypes| <= 1 {
      var path := AssemblyPath(baseDir, targetFrameworks[0], assemblyName, OutputType(outputTypes).value);
      if path in builds {
        PruneFails(cache, targetFrameworks[0], refs, builds[path]);
      }
    }
  }

  /**
   * On success a run keeps a reference unless some declared reference's
   * closure names it and the built assembly does not reference it.
   */
  lemma RunDecides(sdk: Option<string>, targetFrameworks: seq<string>, outputTypes: seq<string>,
                   refs: seq<PackageReference>, baseDir: string, assemblyName: string,
                   cache: Cache, builds: map<seq<string>, seq<string>>, x: PackageReference)
    requires Run(sdk, targetFrameworks, outputTypes, refs, baseDir, assemblyName, cache, builds).Ok?
    ensures var tf := targetFrameworks[0];
      var assemblies := builds[AssemblyPath(baseDir, tf, assemblyName, OutputType(outputTypes).value)];
      multiset(Run(sdk, targetFrameworks, outputTypes, refs, baseDir, assemblyName, cache, builds).value)[x] ==
        if (exists k :: 0 <= k < |refs| && InClosureOf(cache, tf, refs[k], x.name)) && x.name !in assemblies
        then 0 else multiset(refs)[x]
  {
    var tf := targetFrameworks[0];
    var path := AssemblyPath(baseDir, tf, assemblyName, OutputType(outputTypes).value);
    PruneDecides(cache, tf, refs, builds[path], x);
  }

  /** Among the references at a non-empty set of positions, one whose name comes first in ordinal order. */
  lemma {:induction false} FirstByName(refs: seq<PackageReference>, positions: set<nat>) returns (k: nat)
    requires positions != {}
    requires forall j :: j in positions ==> j < |refs|
    ensures k in positions
    ensures forall j :: j in positions ==> OrdinalLe(refs[k].name, refs[j].name)
    decreases |positions|
  {
    var x :| x in positions;
    if positions == {x} {
      k := x;
      OrdinalLeTotal(refs[x].name, refs[x].name);
    } else {
      var rest := positions - {x};
      var y := FirstByName(refs, rest);
      OrdinalLeTotal(refs[x].name, refs[y].name);
      if OrdinalLe(refs[y].name, refs[x].name) {
        k := y;
      } else {
        k := x;
        OrdinalLeTotal(refs[x].name, refs[x].name);
        forall j | j in rest
          ensures OrdinalLe(refs[x].name, refs[j].name)
        {
          OrdinalLeTransitive(refs[x].name, refs[y].name, refs[j].name);
        }
      }
    }
  }

  /** Expanding one more dependency of a list extends the expansion of the list before it. */
  lemma DependenciesClosureStep(cache: Cache, targetFramework: string, deps: seq<Dependency>, i: nat,
                                level: int, ancestors: set<Node>)
    requires i < |deps|
    ensures DependenciesClosure(cache, targetFramework, deps[..i + 1], level, ancestors) ==
      match DependenciesClosure(cache, targetFramework, deps[..i], level, ancestors)
      case Err(e) => Err(e)
      case Ok(prefix) =>
        match Closure(cache, targetFramework, deps[i].id, deps[i].minVersion, level, ancestors)
        case Err(e) => Err(e)
        case Ok(es) => Ok(prefix + es)
  {
    assert deps[..i + 1][..i] == deps[..i];
  }

  /** The names are in ordinal order. */
  predicate SortedNames(names: seq<string>) {
    forall a, b :: 0 <= a < b < |names| ==> OrdinalLe(names[a], names[b])
  }

  /** Each name comes, in ordinal order, no later than the next one. */
  predicate StepwiseSorted(names: seq<string>) {
    forall a :: 0 <= a < |names| - 1 ==> OrdinalLe(names[a], names[a + 1])
  }

  lemma {:induction false} StepwiseSortedIsSorted(names: seq<string>)
    requires StepwiseSorted(names)
    ensures SortedNames(names)
  {
    if |names| > 1 {
      var init := names[..|names| - 1];
      assert StepwiseSorted(init);
      StepwiseSortedIsSorted(init);
      forall a, b | 0 <= a < b < |names|
        ensures OrdinalLe(names[a], names[b])
      {
        if b == |names| - 1 && a < b - 1 {
          assert OrdinalLe(init[a], init[b - 1]);
          OrdinalLeTransitive(names[a], names[b - 1], names[b]);
        } else if b < |names| - 1 {
          assert OrdinalLe(init[a], init[b]);
        }
      }
    }
  }

  /** The names of the references at the positions listed in `order`. */
  function NamesAt(refs: seq<PackageReference>, order: seq<nat>): (r: seq<string>)
    requires forall a :: 0 <= a < |order| ==> order[a] < |refs|
    ensures |r| == |order|
    ensures forall a :: 0 <= a < |order| ==> r[a] == refs[order[a]].name
  {
    seq(|order|, a requires 0 <= a < |order| => refs[order[a]].name)
  }

  /** The names, in order, that the built assembly does not reference. */
  function Unvetoed(names: seq<string>, assemblies: seq<string>): (r: seq<string>)
    ensures forall n :: n in r <==> n in names && n !in assemblies
  {
    if names == [] then []
    else
      var last := names[|names| - 1];
      Unvetoed(names[..|names| - 1], assemblies) + (if last in assemblies then [] else [last])
  }

  /** Visiting one name more appends it to the unvetoed names unless the assembly references it. */
  lemma UnvetoedOneMore(names: seq<string>, i: nat, assemblies: seq<string>)
    requires i < |names|
    ensures Unvetoed(names[..i + 1], assemblies) ==
      Unvetoed(names[..i], assemblies) + (if names[i] in assemblies then [] else [names[i]])
  {
    assert names[..i + 1][..i] == names[..i];
  }

  /** Leaving out the vetoed names keeps the others in order. */
  lemma {:induction false} UnvetoedSorted(names: seq<string>, assemblies: seq<string>)
    requires SortedNames(names)
    ensures SortedNames(Unvetoed(names, assemblies))
  {
    if names != [] {
      var init := names[..|names| - 1];
      var last := names[|names| - 1];
      assert SortedNames(init);
      UnvetoedSorted(init, assemblies);
      var kept := Unvetoed(init, assemblies);
      forall a | 0 <= a < |kept|
        ensures OrdinalLe(kept[a], last)
      {
        assert kept[a] in init;
      }
    }
  }

  /**
   * Visiting the marked positions, every name of a reference that is found in
   * some closure and that the built assembly does not reference is deleted,
   * and no other.
   */
  lemma VisitedNamesAreRemovalNames(refs: seq<PackageReference>, transitive: set<string>, assemblies: seq<string>,
                                    order: seq<nat>)
    requires forall a :: 0 <= a < |order| ==> order[a] < |refs|
    requires forall k :: k in order <==> 0 <= k < |refs| && refs[k].name in transitive
    ensures forall n :: n in Unvetoed(NamesAt(refs, order), assemblies) <==> n in RemovalNames(refs, transitive, assemblies)
  {
    var names := NamesAt(refs, order);
    forall n
      ensures n in Unvetoed(names, assemblies) <==> n in RemovalNames(refs, transitive, assemblies)
    {
      if n in names && n !in assemblies {
        var a :| 0 <= a < |names| && names[a] == n;
        assert order[a] in order;
        assert refs[order[a]] in refs;
      }
      if n in RemovalNames(refs, transitive, assemblies) {
        var r :| r in refs && r.name in transitive && r.name !in assemblies && r.name == n;
        var k :| 0 <= k < |refs| && refs[k] == r;
        assert k in order;
        var a :| 0 <= a < |order| && order[a] == k;
        assert names[a] == n;
      }
    }
  }

  /**
   * Visiting the marked positions in name order and deleting the unvetoed
   * names leaves the pruned references; a name is logged exactly when it was
   * declared and is gone afterwards, and the log is in name order.
   */
  lemma RemovalOutcome(refs: seq<PackageReference>, transitive: set<string>, assemblies: seq<string>,
                       order: seq<nat>, log: seq<string>, after: seq<PackageReference>)
    requires forall a :: 0 <= a < |order| ==> order[a] < |refs|
    requires forall k :: k in order <==> 0 <= k < |refs| && refs[k].name in transitive
    requires SortedNames(NamesAt(refs, order))
    requires log == Unvetoed(NamesAt(refs, order), assemblies)
    requires after == Without(refs, set n | n in log)
    ensures after == Without(refs, RemovalNames(refs, transitive, assemblies))
    ensures forall n :: n in log <==> (exists x :: x in refs && x.name == n) && (forall x :: x in after ==> x.name != n)
    ensures SortedNames(log)
  {
    VisitedNamesAreRemovalNames(refs, transitive, assemblies, order);
    UnvetoedSorted(NamesAt(refs, order), assemblies);
    assert (set n | n in log) == RemovalNames(refs, transitive, assemblies);
    WithoutDeletesExactly(refs, set n | n in log);
  }

  /** Each listed position holds a name that comes, in ordinal order, no later than the next one's. */
  predicate StepwiseByName(refs: seq<PackageReference>, order: seq<nat>)
    requires forall a :: 0 <= a < |order| ==> order[a] < |refs|
  {
    forall a :: 0 <= a < |order| - 1 ==> OrdinalLe(refs[order[a]].name, refs[order[a + 1]].name)
  }

  /**
   * The marked positions, sorted by the name of their reference in ordinal
   * order, each once; positions of equal names come in any order.
   */
  method OrderByName(refs: seq<PackageReference>, marked: set<nat>) returns (order: seq<nat>)
    requires forall k :: k in marked ==> k < |refs|
    ensures forall k :: k in order <==> k in marked
    ensures |order| == |marked|
    ensures forall a :: 0 <= a < |order| ==> order[a] < |refs|
    ensures SortedNames(NamesAt(refs, order))
  {
    var pending := marked;
    order := [];
    while pending != {}
      invariant pending <= marked
      invariant forall k :: k in marked ==> k in pending || k in order
      invariant forall a :: 0 <= a < |order| ==> order[a] in marked && order[a] !in pending
      invariant |order| + |pending| == |marked|
      invariant StepwiseByName(refs, order)
      invariant order != [] ==> forall j :: j in pending ==> OrdinalLe(refs[order[|order| - 1]].name, refs[j].name)
      decreases |pending|
    {
      ghost var least := FirstByName(refs, pending);
      var k: nat :| k in pending && forall j :: j in pending ==> OrdinalLe(refs[k].name, refs[j].name);
      order := order + [k];
      pending := pending - {k};
    }
    assert StepwiseSorted(NamesAt(refs, order));
    StepwiseSortedIsSorted(NamesAt(refs, order));
  }

  /** The project file, with the properties the tool reads and its package references. */
  class ProjectFile {
    /** The `Sdk` attribute of the `Project` element, if there is one. */
    const sdk: Option<string>
    /** The values of the `TargetFramework` properties, in document order. */
    const targetFrameworks: seq<string>
    /** The values of the `OutputType` properties, in document order. */
    const outputTypes: seq<string>
    /** The `PackageReference` items, in document order. */
    var packageReferences: seq<PackageReference>

    constructor(sdk: Option<string>, targetFrameworks: seq<string>, outputTypes: seq<string>,
                packageReferences: seq<PackageReference>)
      ensures this.sdk == sdk && this.targetFrameworks == targetFrameworks && this.outputTypes == outputTypes
      ensures this.packageReferences == packageReferences
    {
      this.sdk := sdk;
      this.targetFrameworks := targetFrameworks;
      this.outputTypes := outputTypes;
      this.packageReferences := packageReferences;
    }

    /** Deletes every package reference whose name is `name`, keeping the others in order. */
    method RemovePackageReferences(name: string)
      modifies this
      ensures packageReferences == Without(old(packageReferences), {name})
    {
      packageReferences := Without(packageReferences, {name});
    }
  }

  class Parser {
    /** The target framework of the project being processed; it selects dependency sets. */
    var targetFramework: string

    constructor()
      ensures targetFramework == ""
    {
      targetFramework := "";
    }

    /**
     * The closure of package `package` requested at `version`, found at
     * `level`: the dependencies of its selected set at this level, then the
     * closure of each of them one level deeper. `ancestors` are the package
     * versions being expanded on the way here.
     */
    method ReadDependenciesRecursive(cache: Cache, package: string, version: Version, level: int,
                                     ancestors: set<Node>) returns (r: Result<seq<Entry>, ResolveError>)
      ensures r == Closure(cache, targetFramework, package, version, level, ancestors)
      decreases Budget(cache, ancestors), 0
    {
      ClosureStopsEarly(cache, targetFramework, package, version, level, ancestors);
      var resolved := Resolve(cache, package, version);
      if resolved.Err? {
        return Err(resolved.error);
      }
      var c := resolved.value;
      if (package, c.version) in ancestors {
        return Err(CyclicDependency(package, c.version));
      }
      var selected := SelectDependencySet(c.dependencySets, targetFramework);
      if selected.None? {
        return Ok([]);
      }
      var dependencies := selected.value.dependencies;
      var inner := ancestors + {(package, c.version)};
      BudgetShrinks(cache, ancestors, package, c);
      ClosureOfSelectedSet(cache, targetFramework, package, version, level, ancestors, c, selected.value);
      var deeper := ReadDependencies(cache, dependencies, level + 1, inner);
      if deeper.Err? {
        return Err(deeper.error);
      }
      return Ok(AtLevel(dependencies, level) + deeper.value);
    }

    /**
     * The closures of `dependencies`, each resolved at its lower bound and
     * found at `level`, concatenated in list order; the first failure stops
     * the expansion.
     */
    method ReadDependencies(cache: Cache, dependencies: seq<Dependency>, level: int, ancestors: set<Node>)
      returns (r: Result<seq<Entry>, ResolveError>)
      ensures r == DependenciesClosure(cache, targetFramework, dependencies, level, ancestors)
      decreases Budget(cache, ancestors), 1
    {
      var all: seq<Entry> := [];
      var i := 0;
      assert dependencies[..i] == [];
      while i < |dependencies|
        invariant 0 <= i <= |dependencies|
        invariant DependenciesClosure(cache, targetFramework, dependencies[..i], level, ancestors) == Ok(all)
      {
        var dependency := dependencies[i];
        var sub := ReadDependenciesRecursive(cache, dependency.id, dependency.minVersion, level, ancestors);
        DependenciesClosureStep(cache, targetFramework, dependencies, i, level, ancestors);
        if sub.Err? {
          DependenciesClosurePrefixFails(cache, targetFramework, dependencies, i + 1, level, ancestors);
          return Err(sub.error);
        }
        all := all + sub.value;
        i := i + 1;
      }
      assert dependencies[..i] == dependencies;
      return Ok(all);
    }

    /**
     * Processes a project file: stops when it is not an SDK project, when its
     * target framework or output type is not single, or when its assembly has
     * not been built; otherwise marks every declared reference whose name is
     * found in the closure of some declared reference, then visits the marked
     * references in ordinal order of name and deletes from the project file
     * every reference of that name, unless the built assembly references it.
     * `log` holds the name of each reference deleted, once per visit.
     */
    method Parse(project: ProjectFile, baseDir: string, assemblyName: string, cache: Cache,
                 builds: map<seq<string>, seq<string>>)
      returns (outcome: Result<seq<PackageReference>, ParseError>, log: seq<string>)
      modifies this, project
      ensures outcome == Run(project.sdk, project.targetFrameworks, project.outputTypes, old(project.packageReferences),
                             baseDir, assemblyName, cache, builds)
      ensures outcome.Ok? ==> project.packageReferences == outcome.value
      ensures outcome.Err? ==> project.packageReferences == old(project.packageReferences) && log == []
      ensures outcome.Ok? ==> forall n :: n in log <==>
        (exists x :: x in old(project.packageReferences) && x.name == n) &&
        (forall x :: x in project.packageReferences ==> x.name != n)
      ensures SortedNames(log)
      ensures IsProjectSdk(project.sdk) && |project.targetFrameworks| == 1 ==> targetFramework == project.targetFrameworks[0]
      ensures !IsProjectSdk(project.sdk) || |project.targetFrameworks| != 1 ==> targetFramework == old(targetFramework)
    {
      log := [];
      if !IsProjectSdk(project.sdk) {
        return Err(NotSdkProject), log;
      }
      if |project.targetFrameworks| != 1 {
        return Err(TargetFrameworkNotSingle(|project.targetFrameworks|)), log;
      }
      targetFramework := project.targetFrameworks[0];
      var outputType := OutputType(project.outputTypes);
      if outputType.Err? {
        return Err(outputType.error), log;
      }
      var assembly := AssemblyPath(baseDir, targetFramework, assemblyName, outputType.value);
      if assembly !in builds {
        return Err(AssemblyNotFound(assembly)), log;
      }
      var assemblies := builds[assembly];
      var pruned;
      pruned, log := RemoveRedundant(project, cache, assemblies);
      if pruned.Err? {
        return Err(Unresolved(pruned.error)), log;
      }
      outcome := Ok(pruned.value);
    }

    /**
     * The three loops of a run once the built assembly is known: marks the
     * references found in some closure, visits them in ordinal order of name
     * and deletes every reference of a visited name that the assembly does
     * not reference. A failed closure leaves the project file untouched.
     */
    method RemoveRedundant(project: ProjectFile, cache: Cache, assemblies: seq<string>)
      returns (pruned: Result<seq<PackageReference>, ResolveError>, log: seq<string>)
      modifies project
      ensures pruned == Prune(cache, targetFramework, old(project.packageReferences), assemblies)
      ensures pruned.Ok? ==> project.packageReferences == pruned.value
      ensures pruned.Err? ==> project.packageReferences == old(project.packageReferences) && log == []
      ensures pruned.Ok? ==> forall n :: n in log <==>
        (exists x :: x in old(project.packageReferences) && x.name == n) &&
        (forall x :: x in project.packageReferences ==> x.name != n)
      ensures SortedNames(log)
    {
      log := [];
      var marking := MarkReferences(cache, project.packageReferences);
      if marking.Err? {
        return Err(marking.error), log;
      }
      ghost var refs := project.packageReferences;
      ghost var transitive := TransitiveIds(cache, targetFramework, refs).value;
      var order := OrderByName(project.packageReferences, marking.value);
      log := RemoveMarked(project, order, assemblies);
      RemovalOutcome(refs, transitive, assemblies, order, log, project.packageReferences);
      pruned := Ok(project.packageReferences);
    }

    /**
     * The positions of the references whose name is found in the closure of
     * some reference, computed reference by reference in declaration order;
     * the first closure that fails stops the computation.
     */
    method MarkReferences(cache: Cache, refs: seq<PackageReference>) returns (r: Result<set<nat>, ResolveError>)
      ensures r.Ok? <==> TransitiveIds(cache, targetFramework, refs).Ok?
      ensures r.Err? ==> r.error == TransitiveIds(cache, targetFramework, refs).error
      ensures r.Ok? ==> r.value == set k | 0 <= k < |refs| && refs[k].name in TransitiveIds(cache, targetFramework, refs).value
    {
      ghost var results := Closures(cache, targetFramework, refs);
      ghost var seen: set<string> := {};
      var marked: set<nat> := {};
      var i := 0;
      assert results[..i] == [];
      while i < |refs|
        invariant 0 <= i <= |refs|
        invariant CollectIds(results[..i]) == Ok(seen)
        invariant marked == set k | 0 <= k < |refs| && refs[k].name in seen
      {
        var step := MarkClosure(cache, refs, refs[i], marked);
        assert results[i] == ReferenceClosure(cache, targetFramework, refs[i]);
        if step.Err? {
          assert results[..i + 1][..i] == results[..i];
          CollectIdsPrefixFails(results, i + 1);
          return Err(step.error);
        }
        CollectIdsOneMore(results, i, seen, results[i].value);
        seen := seen + Ids(results[i].value);
        marked := step.value;
        i := i + 1;
      }
      assert results[..i] == results;
      return Ok(marked);
    }

    /**
     * One iteration of the marking loop: expands the closure of the declared
     * reference `r` and adds to `marked` the positions of the references it names.
     */
    method MarkClosure(cache: Cache, refs: seq<PackageReference>, r: PackageReference, marked: set<nat>)
      returns (step: Result<set<nat>, ResolveError>)
      ensures step.Ok? <==> ReferenceClosure(cache, targetFramework, r).Ok?
      ensures step.Err? ==> step.error == ReferenceClosure(cache, targetFramework, r).error
      ensures step.Ok? ==>
        step.value == marked + set k | 0 <= k < |refs| && refs[k].name in Ids(ReferenceClosure(cache, targetFramework, r).value)
    {
      var dependencies := ReadDependenciesRecursive(cache, r.name, r.version, 0, {});
      if dependencies.Err? {
        return Err(dependencies.error);
      }
      var updated := MarkNamed(refs, dependencies.value, marked);
      return Ok(updated);
    }

    /** Adds to `marked` the positions of the references named by some entry of a closure. */
    method MarkNamed(refs: seq<PackageReference>, entries: seq<Entry>, marked: set<nat>) returns (r: set<nat>)
      ensures r == marked + set k | 0 <= k < |refs| && refs[k].name in Ids(entries)
    {
      r := marked;
      var j := 0;
      while j < |entries|
        invariant 0 <= j <= |entries|
        invariant r == marked + set k | 0 <= k < |refs| && refs[k].name in Ids(entries[..j])
      {
        var id := entries[j].dependency.id;
        r := r + set k | 0 <= k < |refs| && refs[k].name == id;
        assert entries[..j + 1] == entries[..j] + [entries[j]];
        j := j + 1;
      }
      assert entries[..j] == entries;
    }

    /**
     * Visits the positions of `order` in turn and deletes every reference of
     * the visited name from the project file, unless `assemblies` holds that
     * name; returns the names deleted, in visiting order.
     */
    method RemoveMarked(project: ProjectFile, order: seq<nat>, assemblies: seq<string>) returns (log: seq<string>)
      requires forall a :: 0 <= a < |order| ==> order[a] < |project.packageReferences|
      modifies project
      ensures log == Unvetoed(NamesAt(old(project.packageReferences), order), assemblies)
      ensures project.packageReferences == Without(old(project.packageReferences), set n | n in log)
    {
      var refs := project.packageReferences;
      ghost var names := NamesAt(refs, order);
      ghost var removed: set<string> := {};
      log := [];
      WithoutNoMatch(refs, removed);
      var i := 0;
      assert names[..i] == [];
      while i < |order|
        invariant 0 <= i <= |order|
        invariant log == Unvetoed(names[..i], assemblies)
        invariant forall n :: n in removed <==> n in log
        invariant project.packageReferences == Without(refs, removed)
      {
        var name := refs[order[i]].name;
        UnvetoedOneMore(names, i, assemblies);
        if name !in assemblies {
          log := log + [name];
          project.RemovePackageReferences(name);
          WithoutOneMore(refs, removed, name);
          removed := removed + {name};
        }
        i := i + 1;
      }
      assert names[..i] == names;
      assert removed == set n | n in log;
    }
  }
}
