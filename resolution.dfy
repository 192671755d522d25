/**
 * The transitive closure of one package: every dependency of its selected
 * dependency set tagged with the current level, followed, dependency by
 * dependency, by the closure of each of them one level deeper, resolved at
 * the lower bound of its version range. Duplicates are kept.
 *
 * ReadDependenciesRecursive in Parser.cs does not guard the closure against
 * cycles in the package metadata. Here each branch carries the (id, version)
 * pairs it is expanding, and meeting one of them again is reported as
 * CyclicDependency instead of recursing without end. The guard fires only on
 * a package version that really depends on itself (RootClosureErrorIsExplained),
 * so on acyclic metadata it never fires (AcyclicClosureHasNoCycleError).
 */
module Resolution {
  import opened Wrappers
  import opened Versions
  import opened PackageCache
  import opened Frameworks

  /** A dependency found during the expansion, with the level at which it was found. */
  datatype Entry = Entry(dependency: Dependency, level: int)

  /** A package version of the cache: its id and its version. */
  type Node = (string, Version)

  ghost function Nodes(cache: Cache): set<Node> {
    set id, c | id in cache && c in cache[id] :: (id, c.version)
  }

  /** How many cached package versions a branch may still expand. */
  ghost function Budget(cache: Cache, ancestors: set<Node>): nat {
    |Nodes(cache) - ancestors|
  }

  lemma BudgetShrinks(cache: Cache, ancestors: set<Node>, id: string, c: CachedVersion)
    requires id in cache && c in cache[id] && (id, c.version) !in ancestors
    ensures Budget(cache, ancestors + {(id, c.version)}) < Budget(cache, ancestors)
  {
    var n := (id, c.version);
    assert n in Nodes(cache);
    assert Nodes(cache) - ancestors == (Nodes(cache) - (ancestors + {n})) + {n};
  }

  /** Every dependency of a list, tagged with the same level. */
  function AtLevel(deps: seq<Dependency>, level: int): (r: seq<Entry>)
    ensures |r| == |deps|
    ensures forall i :: 0 <= i < |deps| ==> r[i] == Entry(deps[i], level)
  {
    seq(|deps|, i requires 0 <= i < |deps| => Entry(deps[i], level))
  }

  /**
   * The dependencies listed by the selected set of package `id` resolved at
   * `version`; empty when the package does not resolve or no set applies.
   */
  function DirectDependencies(cache: Cache, targetFramework: string, id: string, version: Version): seq<Dependency> {
    match Resolve(cache, id, version)
    case Err(_) => []
    case Ok(c) =>
      match SelectDependencySet(c.dependencySets, targetFramework)
      case None => []
      case Some(s) => s.dependencies
  }

  /** The request `d` resolves to the cached package version `n`. */
  predicate ResolvesTo(cache: Cache, d: Dependency, n: Node) {
    Resolve(cache, d.id, d.minVersion).Ok? && n == (d.id, Resolve(cache, d.id, d.minVersion).value.version)
  }

  /** Each request of `walk` is listed by the selected set of the request before it. */
  predicate IsWalk(cache: Cache, targetFramework: string, walk: seq<Dependency>) {
    forall i :: 0 <= i < |walk| - 1 ==> walk[i + 1] in DirectDependencies(cache, targetFramework, walk[i].id, walk[i].minVersion)
  }

  /** `walk` starts at request `d` and ends at a request that resolves to `n`. */
  predicate Leads(cache: Cache, targetFramework: string, walk: seq<Dependency>, d: Dependency, n: Node) {
    |walk| >= 1 && walk[0] == d && IsWalk(cache, targetFramework, walk) && ResolvesTo(cache, walk[|walk| - 1], n)
  }

  /** Expanding request `d` leads, through zero or more dependency steps, to the package version `n`. */
  ghost predicate Reaches(cache: Cache, targetFramework: string, d: Dependency, n: Node) {
    exists walk :: Leads(cache, targetFramework, walk, d, n)
  }

  /** `walk` goes from a request for `n` through at least one dependency step back to `n`. */
  predicate IsCycle(cache: Cache, targetFramework: string, walk: seq<Dependency>, n: Node) {
    |walk| >= 2 && ResolvesTo(cache, walk[0], n) && IsWalk(cache, targetFramework, walk) &&
    ResolvesTo(cache, walk[|walk| - 1], n)
  }

  /** The package version `n` depends, directly or not, on itself. */
  ghost predicate OnCycle(cache: Cache, targetFramework: string, n: Node) {
    exists walk :: IsCycle(cache, targetFramework, walk, n)
  }

  /**
   * The cache really lacks what an error reports; a cycle error names a
   * package version that the selected dependency sets lead back to.
   */
  ghost predicate Explains(cache: Cache, targetFramework: string, e: ResolveError) {
    match e
    case PackageNotFound(id) => id !in cache
    case AmbiguousVersion(id, v) => id in cache && |ExactMatches(cache[id], v)| > 1
    case VersionNotAvailable(id, v) => id in cache && forall c :: c in cache[id] ==> Lt(c.version, v)
    case CyclicDependency(id, v) => OnCycle(cache, targetFramework, (id, v))
  }

  /** The closure of package `id` requested at `version`, found at `level`. */
  function Closure(cache: Cache, targetFramework: string, id: string, version: Version, level: int,
                   ancestors: set<Node>): (r: Result<seq<Entry>, ResolveError>)
    ensures id !in cache ==> r == Err(PackageNotFound(id))
    ensures r.Ok? ==> forall e :: e in r.value ==> e.level >= level
    decreases Budget(cache, ancestors), 0, 0
  {
    match Resolve(cache, id, version)
    case Err(e) => Err(e)
    case Ok(c) =>
      if (id, c.version) in ancestors then Err(CyclicDependency(id, c.version))
      else match SelectDependencySet(c.dependencySets, targetFramework)
        case None => Ok([])
        case Some(s) =>
          BudgetShrinks(cache, ancestors, id, c);
          match DependenciesClosure(cache, targetFramework, s.dependencies, level + 1, ancestors + {(id, c.version)})
          case Err(e) => Err(e)
          case Ok(rest) => Ok(AtLevel(s.dependencies, level) + rest)
  }

  /** The closures of a list of dependencies, concatenated in list order; the first failure wins. */
  function DependenciesClosure(cache: Cache, targetFramework: string, deps: seq<Dependency>, level: int,
                               ancestors: set<Node>): (r: Result<seq<Entry>, ResolveError>)
    ensures r.Ok? ==> forall e :: e in r.value ==> e.level >= level
    decreases Budget(cache, ancestors), 1, |deps|
  {
    if deps == [] then Ok([])
    else
      var last := deps[|deps| - 1];
      match DependenciesClosure(cache, targetFramework, deps[..|deps| - 1], level, ancestors)
      case Err(e) => Err(e)
      case Ok(prefix) =>
        match Closure(cache, targetFramework, last.id, last.minVersion, level, ancestors)
        case Err(e) => Err(e)
        case Ok(es) => Ok(prefix + es)
  }

  /** The closure of a package that does not resolve, is being expanded already or has no selected set. */
  lemma ClosureStopsEarly(cache: Cache, targetFramework: string, id: string, version: Version, level: int,
                          ancestors: set<Node>)
    ensures Resolve(cache, id, version).Err? ==>
      Closure(cache, targetFramework, id, version, level, ancestors) == Err(Resolve(cache, id, version).error)
    ensures Resolve(cache, id, version).Ok? && (id, Resolve(cache, id, version).value.version) in ancestors ==>
      Closure(cache, targetFramework, id, version, level, ancestors) ==
      Err(CyclicDependency(id, Resolve(cache, id, version).value.version))
    ensures (Resolve(cache, id, version).Ok? && (id, Resolve(cache, id, version).value.version) !in ancestors &&
             SelectDependencySet(Resolve(cache, id, version).value.dependencySets, targetFramework).None?) ==>
      Closure(cache, targetFramework, id, version, level, ancestors) == Ok([])
  {
  }

  /** The closure of a package that resolves, is not being expanded already and has a selected set. */
  lemma ClosureOfSelectedSet(cache: Cache, targetFramework: string, id: string, version: Version, level: int,
                             ancestors: set<Node>, c: CachedVersion, s: DependencySet)
    requires Resolve(cache, id, version) == Ok(c) && (id, c.version) !in ancestors
    requires SelectDependencySet(c.dependencySets, targetFramework) == Some(s)
    ensures Closure(cache, targetFramework, id, version, level, ancestors) ==
      match DependenciesClosure(cache, targetFramework, s.dependencies, level + 1, ancestors + {(id, c.version)})
      case Err(e) => Err(e)
      case Ok(rest) => Ok(AtLevel(s.dependencies, level) + rest)
  {
  }

  /**
   * A closure that succeeds is the package's direct dependencies at the
   * starting level followed by their own closures one level deeper, expanded
   * with the package among the ancestors.
   */
  lemma ClosureSucceeds(cache: Cache, targetFramework: string, id: string, version: Version, level: int,
                        ancestors: set<Node>) returns (c: CachedVersion, deps: seq<Dependency>, rest: seq<Entry>)
    requires Closure(cache, targetFramework, id, version, level, ancestors).Ok?
    ensures Resolve(cache, id, version) == Ok(c) && (id, c.version) !in ancestors
    ensures Budget(cache, ancestors + {(id, c.version)}) < Budget(cache, ancestors)
    ensures deps == DirectDependencies(cache, targetFramework, id, version)
    ensures DependenciesClosure(cache, targetFramework, deps, level + 1, ancestors + {(id, c.version)}) == Ok(rest)
    ensures Closure(cache, targetFramework, id, version, level, ancestors).value == AtLevel(deps, level) + rest
  {
    c := Resolve(cache, id, version).value;
    BudgetShrinks(cache, ancestors, id, c);
    var selected := SelectDependencySet(c.dependencySets, targetFramework);
    deps := DirectDependencies(cache, targetFramework, id, version);
    if selected.Some? {
      ClosureOfSelectedSet(cache, targetFramework, id, version, level, ancestors, c, selected.value);
      rest := DependenciesClosure(cache, targetFramework, deps, level + 1, ancestors + {(id, c.version)}).value;
    } else {
      rest := [];
      assert AtLevel(deps, level) + rest == [];
    }
  }

  /** A request listed by the selected set of request `d` extends a walk leaving from it. */
  lemma WalkPrepend(cache: Cache, targetFramework: string, d: Dependency, walk: seq<Dependency>)
    requires IsWalk(cache, targetFramework, walk) && |walk| >= 1
    requires walk[0] in DirectDependencies(cache, targetFramework, d.id, d.minVersion)
    ensures IsWalk(cache, targetFramework, [d] + walk)
  {
    var w := [d] + walk;
    forall i | 0 <= i < |w| - 1
      ensures w[i + 1] in DirectDependencies(cache, targetFramework, w[i].id, w[i].minVersion)
    {
      if i > 0 {
        assert w[i] == walk[i - 1] && w[i + 1] == walk[i];
      }
    }
  }

  /**
   * A package version `m` whose dependencies lead to `n` either lies on a
   * cycle itself, when `n` is `m`, or is led from to `n` as well.
   */
  lemma LeadsBack(cache: Cache, targetFramework: string, d: Dependency, m: Node, deps: seq<Dependency>, n: Node)
    requires ResolvesTo(cache, d, m) && deps == DirectDependencies(cache, targetFramework, d.id, d.minVersion)
    requires exists next :: next in deps && Reaches(cache, targetFramework, next, n)
    ensures n == m ==> OnCycle(cache, targetFramework, n)
    ensures Reaches(cache, targetFramework, d, n)
  {
    var next :| next in deps && Reaches(cache, targetFramework, next, n);
    var walk :| Leads(cache, targetFramework, walk, next, n);
    WalkPrepend(cache, targetFramework, d, walk);
    assert Leads(cache, targetFramework, [d] + walk, d, n);
    if n == m {
      assert IsCycle(cache, targetFramework, [d] + walk, n);
    }
  }

  /**
   * Resolution fails only when the cache really lacks what the error reports.
   * A cycle error either names a package version on a real dependency cycle,
   * or names one of the ancestors that this request leads back to.
   */
  lemma {:induction false} ClosureErrorIsExplained(cache: Cache, targetFramework: string, id: string, version: Version,
                                                   level: int, ancestors: set<Node>)
    requires Closure(cache, targetFramework, id, version, level, ancestors).Err?
    ensures var e := Closure(cache, targetFramework, id, version, level, ancestors).error;
      Explains(cache, targetFramework, e) ||
      (e.CyclicDependency? && (e.id, e.version) in ancestors &&
       Reaches(cache, targetFramework, Dependency(id, version), (e.id, e.version)))
    decreases Budget(cache, ancestors), 0, 0
  {
    var resolved := Resolve(cache, id, version);
    var d := Dependency(id, version);
    if resolved.Ok? {
      var c := resolved.value;
      if (id, c.version) in ancestors {
        assert Leads(cache, targetFramework, [d], d, (id, c.version));
      } else {
        var s := SelectDependencySet(c.dependencySets, targetFramework).value;
        var m := (id, c.version);
        BudgetShrinks(cache, ancestors, id, c);
        DependenciesClosureErrorIsExplained(cache, targetFramework, s.dependencies, level + 1, ancestors + {m});
        var e := DependenciesClosure(cache, targetFramework, s.dependencies, level + 1, ancestors + {m}).error;
        if e.CyclicDependency? && (e.id, e.version) in ancestors + {m} &&
           exists next :: next in s.dependencies && Reaches(cache, targetFramework, next, (e.id, e.version)) {
          LeadsBack(cache, targetFramework, d, m, s.dependencies, (e.id, e.version));
        }
      }
    } else if id in cache {
      assert resolved == SelectVersion(id, cache[id], version);
      SelectVersionSpec(id, cache[id], version);
    }
  }

  lemma {:induction false} DependenciesClosureErrorIsExplained(cache: Cache, targetFramework: string, deps: seq<Dependency>,
                                                               level: int, ancestors: set<Node>)
    requires DependenciesClosure(cache, targetFramework, deps, level, ancestors).Err?
    ensures var e := DependenciesClosure(cache, targetFramework, deps, level, ancestors).error;
      Explains(cache, targetFramework, e) ||
      (e.CyclicDependency? && (e.id, e.version) in ancestors &&
       exists d :: d in deps && Reaches(cache, targetFramework, d, (e.id, e.version)))
    decreases Budget(cache, ancestors), 1, |deps|
  {
    var n := |deps| - 1;
    if DependenciesClosure(cache, targetFramework, deps[..n], level, ancestors).Err? {
      DependenciesClosureErrorIsExplained(cache, targetFramework, deps[..n], level, ancestors);
      assert forall d :: d in deps[..n] ==> d in deps;
    } else {
      ClosureErrorIsExplained(cache, targetFramework, deps[n].id, deps[n].minVersion, level, ancestors);
      assert Dependency(deps[n].id, deps[n].minVersion) == deps[n];
    }
  }

  /**
   * Expanded from scratch, as the driver does, a closure fails only for a
   * reason the cache explains; in particular the cycle guard fires only on
   * a package version that really depends on itself.
   */
  lemma RootClosureErrorIsExplained(cache: Cache, targetFramework: string, id: string, version: Version, level: int)
    requires Closure(cache, targetFramework, id, version, level, {}).Err?
    ensures Explains(cache, targetFramework, Closure(cache, targetFramework, id, version, level, {}).error)
  {
    ClosureErrorIsExplained(cache, targetFramework, id, version, level, {});
  }

  /** On metadata without dependency cycles, no closure expanded from scratch reports a cycle. */
  lemma AcyclicClosureHasNoCycleError(cache: Cache, targetFramework: string, id: string, version: Version, level: int)
    requires forall n :: !OnCycle(cache, targetFramework, n)
    ensures !Closure(cache, targetFramework, id, version, level, {}).Err? ||
            !Closure(cache, targetFramework, id, version, level, {}).error.CyclicDependency?
  {
    if Closure(cache, targetFramework, id, version, level, {}).Err? {
      RootClosureErrorIsExplained(cache, targetFramework, id, version, level);
    }
  }

  /** The cycle A 1.0 -> B 1.0 -> A 1.0 of the metadata is reported on A, whatever the consumer. */
  lemma TwoPackageCycle(targetFramework: string, v: Version, setA: DependencySet, setB: DependencySet)
    requires setA.dependencies == [Dependency("B", v)] && setB.dependencies == [Dependency("A", v)]
    ensures var cache := map["A" := [CachedVersion(v, [setA])], "B" := [CachedVersion(v, [setB])]];
      Closure(cache, targetFramework, "A", v, 0, {}) == Err(CyclicDependency("A", v)) &&
      OnCycle(cache, targetFramework, ("A", v))
  {
    var cache := map["A" := [CachedVersion(v, [setA])], "B" := [CachedVersion(v, [setB])]];
    var a, b := ("A", v), ("B", v);
    assert Resolve(cache, "A", v) == Ok(CachedVersion(v, [setA]));
    assert Resolve(cache, "B", v) == Ok(CachedVersion(v, [setB]));
    assert SelectDependencySet([setA], targetFramework) == Some(setA);
    assert SelectDependencySet([setB], targetFramework) == Some(setB);
    assert a != b && {a} + {b} == {a, b} && {} + {a} == {a};
    assert Closure(cache, targetFramework, "A", v, 2, {a, b}) == Err(CyclicDependency("A", v));
    assert DependenciesClosure(cache, targetFramework, [Dependency("A", v)], 2, {a, b}) == Err(CyclicDependency("A", v));
    assert Closure(cache, targetFramework, "B", v, 1, {a}) == Err(CyclicDependency("A", v));
    assert DependenciesClosure(cache, targetFramework, [Dependency("B", v)], 1, {a}) == Err(CyclicDependency("A", v));
    assert DependenciesClosure(cache, targetFramework, [Dependency("B", v)], 1, {} + {a}) == Err(CyclicDependency("A", v));
    RootClosureErrorIsExplained(cache, targetFramework, "A", v, 0);
  }

  /** A package version without dependency sets is on no cycle: a cycle error never names it. */
  lemma LeafIsNotOnCycle(cache: Cache, targetFramework: string, id: string, v: Version)
    requires id in cache && forall c :: c in cache[id] ==> c.dependencySets == []
    ensures !OnCycle(cache, targetFramework, (id, v))
  {
    forall walk: seq<Dependency>
      ensures !IsCycle(cache, targetFramework, walk, (id, v))
    {
      if |walk| >= 2 && ResolvesTo(cache, walk[0], (id, v)) {
        var c := Resolve(cache, walk[0].id, walk[0].minVersion).value;
        assert c.dependencySets == [];
        NoSetsSelectNothing(targetFramework);
        assert walk[1] !in DirectDependencies(cache, targetFramework, walk[0].id, walk[0].minVersion);
      }
    }
  }

  /** Whatever the closure of a member of a list holds, the list's closure holds too. */
  lemma {:induction false} PartIsIncluded(cache: Cache, targetFramework: string, deps: seq<Dependency>,
                                          level: int, ancestors: set<Node>, i: nat, x: Entry)
    requires DependenciesClosure(cache, targetFramework, deps, level, ancestors).Ok?
    requires i < |deps|
    requires Closure(cache, targetFramework, deps[i].id, deps[i].minVersion, level, ancestors).Ok?
    requires x in Closure(cache, targetFramework, deps[i].id, deps[i].minVersion, level, ancestors).value
    ensures x in DependenciesClosure(cache, targetFramework, deps, level, ancestors).value
    decreases |deps|
  {
    var n := |deps| - 1;
    if i < n {
      assert deps[..n][i] == deps[i];
      PartIsIncluded(cache, targetFramework, deps[..n], level, ancestors, i, x);
    }
  }

  /** Whatever a list's closure holds comes from the successful closure of one of its members. */
  lemma {:induction false} MemberComesFromPart(cache: Cache, targetFramework: string, deps: seq<Dependency>,
                                               level: int, ancestors: set<Node>, x: Entry)
    requires DependenciesClosure(cache, targetFramework, deps, level, ancestors).Ok?
    requires x in DependenciesClosure(cache, targetFramework, deps, level, ancestors).value
    ensures exists i :: (0 <= i < |deps| &&
      Closure(cache, targetFramework, deps[i].id, deps[i].minVersion, level, ancestors).Ok? &&
      x in Closure(cache, targetFramework, deps[i].id, deps[i].minVersion, level, ancestors).value)
    decreases |deps|
  {
    var n := |deps| - 1;
    var last := Closure(cache, targetFramework, deps[n].id, deps[n].minVersion, level, ancestors);
    if x !in last.value {
      MemberComesFromPart(cache, targetFramework, deps[..n], level, ancestors, x);
      var i :| 0 <= i < n &&
        Closure(cache, targetFramework, deps[..n][i].id, deps[..n][i].minVersion, level, ancestors).Ok? &&
        x in Closure(cache, targetFramework, deps[..n][i].id, deps[..n][i].minVersion, level, ancestors).value;
      assert deps[..n][i] == deps[i];
    }
  }

  /** Every member of a list whose closure succeeds has a successful closure. */
  lemma {:induction false} PartsSucceed(cache: Cache, targetFramework: string, deps: seq<Dependency>,
                                        level: int, ancestors: set<Node>)
    requires DependenciesClosure(cache, targetFramework, deps, level, ancestors).Ok?
    ensures forall i :: 0 <= i < |deps| ==>
      Closure(cache, targetFramework, deps[i].id, deps[i].minVersion, level, ancestors).Ok?
    decreases |deps|
  {
    if deps != [] {
      var n := |deps| - 1;
      PartsSucceed(cache, targetFramework, deps[..n], level, ancestors);
      forall i | 0 <= i < n
        ensures deps[..n][i] == deps[i]
      {
      }
    }
  }

  /** Once the closure of a prefix of the list fails, the whole list fails the same way. */
  lemma {:induction false} DependenciesClosurePrefixFails(cache: Cache, targetFramework: string, deps: seq<Dependency>,
                                                          i: nat, level: int, ancestors: set<Node>)
    requires i <= |deps|
    requires DependenciesClosure(cache, targetFramework, deps[..i], level, ancestors).Err?
    ensures DependenciesClosure(cache, targetFramework, deps, level, ancestors) ==
            DependenciesClosure(cache, targetFramework, deps[..i], level, ancestors)
    decreases |deps|
  {
    if i < |deps| {
      var n := |deps| - 1;
      assert deps[..n][..i] == deps[..i];
      DependenciesClosurePrefixFails(cache, targetFramework, deps[..n], i, level, ancestors);
    } else {
      assert deps[..i] == deps;
    }
  }

  /**
   * A package that resolves, is not being expanded already and lists no
   * dependency for this consumer (no applicable set, or an empty one)
   * contributes an empty closure, which is not an error.
   */
  lemma UnmatchedPackageContributesNothing(cache: Cache, targetFramework: string, id: string, version: Version,
                                           level: int, ancestors: set<Node>)
    requires Resolve(cache, id, version).Ok?
    requires (id, Resolve(cache, id, version).value.version) !in ancestors
    requires DirectDependencies(cache, targetFramework, id, version) == []
    ensures Closure(cache, targetFramework, id, version, level, ancestors) == Ok([])
  {
    var c := Resolve(cache, id, version).value;
    if SelectDependencySet(c.dependencySets, targetFramework).Some? {
      var s := SelectDependencySet(c.dependencySets, targetFramework).value;
      BudgetShrinks(cache, ancestors, id, c);
      var anc := ancestors + {(id, c.version)};
      assert s.dependencies == [];
      assert DependenciesClosure(cache, targetFramework, s.dependencies, level + 1, anc) == Ok([]);
      assert AtLevel(s.dependencies, level) + [] == [];
    }
  }

  /**
   * A "netcoreapp" consumer expanding a package whose version offers a
   * ".NETStandard" set and a ".NETFramework" set finds no dependency of it:
   * its closure is empty, without error.
   */
  lemma NetCoreAppClosureMissesNetStandardSet(cache: Cache, id: string, version: Version, level: int,
                                              ancestors: set<Node>, standard: DependencySet, full: DependencySet)
    requires Resolve(cache, id, version).Ok?
    requires Resolve(cache, id, version).value.dependencySets == [standard, full]
    requires (id, Resolve(cache, id, version).value.version) !in ancestors
    requires standard.frameworkIdentifiers == [".NETStandard"] && full.frameworkIdentifiers == [".NETFramework"]
    ensures Closure(cache, "netcoreapp2.0", id, version, level, ancestors) == Ok([])
  {
    NetCoreAppConsumerMissesNetStandardSet(standard, full);
    ClosureStopsEarly(cache, "netcoreapp2.0", id, version, level, ancestors);
  }

  /** A closure starts with the dependencies of the package's own selected set, at the starting level. */
  lemma ClosureStartsWithDirect(cache: Cache, targetFramework: string, id: string, version: Version,
                                level: int, ancestors: set<Node>)
    requires Closure(cache, targetFramework, id, version, level, ancestors).Ok?
    ensures AtLevel(DirectDependencies(cache, targetFramework, id, version), level) <=
            Closure(cache, targetFramework, id, version, level, ancestors).value
  {
  }

  /** The direct dependencies of a member of a list are in the list's closure, one level deeper than the member. */
  lemma DirectOfPartIsIncluded(cache: Cache, targetFramework: string, deps: seq<Dependency>, level: int,
                               ancestors: set<Node>, i: nat, d: Dependency)
    requires DependenciesClosure(cache, targetFramework, deps, level, ancestors).Ok?
    requires i < |deps|
    requires d in DirectDependencies(cache, targetFramework, deps[i].id, deps[i].minVersion)
    ensures Entry(d, level) in DependenciesClosure(cache, targetFramework, deps, level, ancestors).value
  {
    PartsSucceed(cache, targetFramework, deps, level, ancestors);
    var sub := Closure(cache, targetFramework, deps[i].id, deps[i].minVersion, level, ancestors).value;
    ClosureStartsWithDirect(cache, targetFramework, deps[i].id, deps[i].minVersion, level, ancestors);
    var direct := DirectDependencies(cache, targetFramework, deps[i].id, deps[i].minVersion);
    var j :| 0 <= j < |direct| && direct[j] == d;
    assert sub[j] == Entry(d, level);
    PartIsIncluded(cache, targetFramework, deps, level, ancestors, i, Entry(d, level));
  }

  /** A member of the second part of a concatenation is a member of the whole. */
  lemma InSuffix(a: seq<Entry>, b: seq<Entry>, x: Entry)
    requires x in b
    ensures x in a + b
  {
    var j :| 0 <= j < |b| && b[j] == x;
    assert (a + b)[|a| + j] == x;
  }

  /**
   * The closure is closed under the dependency relation: for every entry,
   * each dependency its own selected set lists is in the closure, one level deeper.
   */
  lemma {:induction false} ClosureIsClosed(cache: Cache, targetFramework: string, id: string, version: Version,
                                           level: int, ancestors: set<Node>, e: Entry, d: Dependency)
    requires Closure(cache, targetFramework, id, version, level, ancestors).Ok?
    requires e in Closure(cache, targetFramework, id, version, level, ancestors).value
    requires d in DirectDependencies(cache, targetFramework, e.dependency.id, e.dependency.minVersion)
    ensures Entry(d, e.level + 1) in Closure(cache, targetFramework, id, version, level, ancestors).value
    decreases Budget(cache, ancestors), 1
  {
    var c, deps, rest := ClosureSucceeds(cache, targetFramework, id, version, level, ancestors);
    var anc := ancestors + {(id, c.version)};
    ClosedStep(cache, targetFramework, deps, level, anc, rest, e, d);
    InSuffix(AtLevel(deps, level), rest, Entry(d, e.level + 1));
  }

  /** One step of the closure: an entry of `AtLevel(deps, level) + rest` has its dependencies in `rest`. */
  lemma {:induction false} ClosedStep(cache: Cache, targetFramework: string, deps: seq<Dependency>, level: int,
                                      ancestors: set<Node>, rest: seq<Entry>, e: Entry, d: Dependency)
    requires DependenciesClosure(cache, targetFramework, deps, level + 1, ancestors) == Ok(rest)
    requires e in AtLevel(deps, level) + rest
    requires d in DirectDependencies(cache, targetFramework, e.dependency.id, e.dependency.minVersion)
    ensures Entry(d, e.level + 1) in rest
    decreases Budget(cache, ancestors), 3
  {
    if e in AtLevel(deps, level) {
      var i :| 0 <= i < |deps| && AtLevel(deps, level)[i] == e;
      DirectOfPartIsIncluded(cache, targetFramework, deps, level + 1, ancestors, i, d);
    } else {
      DependenciesClosureIsClosed(cache, targetFramework, deps, level + 1, ancestors, e, d);
    }
  }

  /** The closure of a list is closed under the dependency relation too. */
  lemma {:induction false} DependenciesClosureIsClosed(cache: Cache, targetFramework: string, deps: seq<Dependency>,
                                                       level: int, ancestors: set<Node>, e: Entry, d: Dependency)
    requires DependenciesClosure(cache, targetFramework, deps, level, ancestors).Ok?
    requires e in DependenciesClosure(cache, targetFramework, deps, level, ancestors).value
    requires d in DirectDependencies(cache, targetFramework, e.dependency.id, e.dependency.minVersion)
    ensures Entry(d, e.level + 1) in DependenciesClosure(cache, targetFramework, deps, level, ancestors).value
    decreases Budget(cache, ancestors), 2
  {
    MemberComesFromPart(cache, targetFramework, deps, level, ancestors, e);
    var i :| 0 <= i < |deps| &&
      Closure(cache, targetFramework, deps[i].id, deps[i].minVersion, level, ancestors).Ok? &&
      e in Closure(cache, targetFramework, deps[i].id, deps[i].minVersion, level, ancestors).value;
    ClosureIsClosed(cache, targetFramework, deps[i].id, deps[i].minVersion, level, ancestors, e, d);
    PartIsIncluded(cache, targetFramework, deps, level, ancestors, i, Entry(d, e.level + 1));
  }

  /**
   * Every entry of a closure is accounted for: either it is listed by the
   * root package's selected set at the starting level, or it is listed by
   * the selected set of another entry found one level higher.
   */
  lemma {:induction false} ClosureIsGrounded(cache: Cache, targetFramework: string, id: string, version: Version,
                                             level: int, ancestors: set<Node>, e: Entry)
    requires Closure(cache, targetFramework, id, version, level, ancestors).Ok?
    requires e in Closure(cache, targetFramework, id, version, level, ancestors).value
    ensures (e.level == level && e.dependency in DirectDependencies(cache, targetFramework, id, version)) ||
      exists p :: p in Closure(cache, targetFramework, id, version, level, ancestors).value &&
        e.level == p.level + 1 &&
        e.dependency in DirectDependencies(cache, targetFramework, p.dependency.id, p.dependency.minVersion)
    decreases Budget(cache, ancestors)
  {
    var c, deps, rest := ClosureSucceeds(cache, targetFramework, id, version, level, ancestors);
    var anc := ancestors + {(id, c.version)};
    var all := Closure(cache, targetFramework, id, version, level, ancestors).value;
    if e !in AtLevel(deps, level) {
      MemberComesFromPart(cache, targetFramework, deps, level + 1, anc, e);
      var i :| 0 <= i < |deps| &&
        Closure(cache, targetFramework, deps[i].id, deps[i].minVersion, level + 1, anc).Ok? &&
        e in Closure(cache, targetFramework, deps[i].id, deps[i].minVersion, level + 1, anc).value;
      var sub := Closure(cache, targetFramework, deps[i].id, deps[i].minVersion, level + 1, anc).value;
      ClosureIsGrounded(cache, targetFramework, deps[i].id, deps[i].minVersion, level + 1, anc, e);
      if e.level == level + 1 && e.dependency in DirectDependencies(cache, targetFramework, deps[i].id, deps[i].minVersion) {
        assert AtLevel(deps, level)[i] in all;
      } else {
        var p :| p in sub && e.level == p.level + 1 &&
          e.dependency in DirectDependencies(cache, targetFramework, p.dependency.id, p.dependency.minVersion);
        PartIsIncluded(cache, targetFramework, deps, level + 1, anc, i, p);
        assert p in all;
      }
    }
  }

  /** The same entries with every level raised by `k`. */
  function Shifted(es: seq<Entry>, k: int): (r: seq<Entry>)
    ensures |r| == |es|
    ensures forall i :: 0 <= i < |es| ==> r[i] == Entry(es[i].dependency, es[i].level + k)
  {
    seq(|es|, i requires 0 <= i < |es| => Entry(es[i].dependency, es[i].level + k))
  }

  function ShiftedResult(r: Result<seq<Entry>, ResolveError>, k: int): Result<seq<Entry>, ResolveError> {
    match r
    case Ok(es) => Ok(Shifted(es, k))
    case Err(e) => Err(e)
  }

  lemma ShiftedAppend(a: seq<Entry>, b: seq<Entry>, k: int)
    ensures Shifted(a + b, k) == Shifted(a, k) + Shifted(b, k)
  {
  }

  lemma ShiftedAtLevel(deps: seq<Dependency>, level: int, k: int)
    ensures Shifted(AtLevel(deps, level), k) == AtLevel(deps, level + k)
  {
  }

  /**
   * Levels are only tags: the closure found at `level + k` is the closure
   * found at `level` with every level raised by `k`, and it fails exactly
   * when that one fails, with the same error.
   */
  lemma {:induction false} ClosureShift(cache: Cache, targetFramework: string, id: string, version: Version,
                                        level: int, k: int, ancestors: set<Node>)
    ensures Closure(cache, targetFramework, id, version, level + k, ancestors) ==
            ShiftedResult(Closure(cache, targetFramework, id, version, level, ancestors), k)
    decreases Budget(cache, ancestors), 0, 1
  {
    ClosureStopsEarly(cache, targetFramework, id, version, level, ancestors);
    ClosureStopsEarly(cache, targetFramework, id, version, level + k, ancestors);
    var resolved := Resolve(cache, id, version);
    if resolved.Ok? {
      var c := resolved.value;
      var selected := SelectDependencySet(c.dependencySets, targetFramework);
      if (id, c.version) !in ancestors && selected.Some? {
        ClosureShiftSelected(cache, targetFramework, id, version, level, k, ancestors, c, selected.value);
      }
    }
  }

  /** The shift of a closure that expands a selected set. */
  lemma {:induction false} ClosureShiftSelected(cache: Cache, targetFramework: string, id: string, version: Version,
                                                level: int, k: int, ancestors: set<Node>, c: CachedVersion, s: DependencySet)
    requires Resolve(cache, id, version) == Ok(c) && (id, c.version) !in ancestors
    requires SelectDependencySet(c.dependencySets, targetFramework) == Some(s)
    ensures Closure(cache, targetFramework, id, version, level + k, ancestors) ==
            ShiftedResult(Closure(cache, targetFramework, id, version, level, ancestors), k)
    decreases Budget(cache, ancestors), 0, 0
  {
    var deps := s.dependencies;
    BudgetShrinks(cache, ancestors, id, c);
    var anc := ancestors + {(id, c.version)};
    ClosureOfSelectedSet(cache, targetFramework, id, version, level, ancestors, c, s);
    ClosureOfSelectedSet(cache, targetFramework, id, version, level + k, ancestors, c, s);
    DependenciesClosureShift(cache, targetFramework, deps, level + 1, k, anc);
    assert level + k + 1 == level + 1 + k;
    var r := DependenciesClosure(cache, targetFramework, deps, level + 1, anc);
    if r.Ok? {
      ShiftedAppend(AtLevel(deps, level), r.value, k);
      ShiftedAtLevel(deps, level, k);
    }
  }

  lemma {:induction false} DependenciesClosureShift(cache: Cache, targetFramework: string, deps: seq<Dependency>,
                                                    level: int, k: int, ancestors: set<Node>)
    ensures DependenciesClosure(cache, targetFramework, deps, level + k, ancestors) ==
            ShiftedResult(DependenciesClosure(cache, targetFramework, deps, level, ancestors), k)
    decreases Budget(cache, ancestors), 1, |deps|
  {
    if deps != [] {
      var n := |deps| - 1;
      DependenciesClosureShift(cache, targetFramework, deps[..n], level, k, ancestors);
      ClosureShift(cache, targetFramework, deps[n].id, deps[n].minVersion, level, k, ancestors);
      var prefix := DependenciesClosure(cache, targetFramework, deps[..n], level, ancestors);
      var last := Closure(cache, targetFramework, deps[n].id, deps[n].minVersion, level, ancestors);
      if prefix.Ok? && last.Ok? {
        ShiftedAppend(prefix.value, last.value, k);
      }
    }
  }
}
