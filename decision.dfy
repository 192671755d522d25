/**
 * Which declared package references are redundant. A declared reference is
 * marked when its name is the id of an entry in the closure of some declared
 * reference (its own included); a marked reference whose name is among the
 * built assembly's references is kept; every PackageReference carrying the
 * name of any other marked reference is deleted. Nothing is deleted when a
 * closure fails.
 */
module Decision {
  import opened Wrappers
  import opened Versions
  import opened PackageCache
  import opened Frameworks
  import opened Resolution

  /** A `PackageReference` item of the project file: the package name and the requested version. */
  datatype PackageReference = PackageReference(name: string, version: Version)

  /** The package ids named by the entries of a closure. */
  function Ids(es: seq<Entry>): (r: set<string>)
    ensures forall e :: e in es ==> e.dependency.id in r
    ensures forall n :: n in r ==> exists e :: e in es && e.dependency.id == n
  {
    set e | e in es :: e.dependency.id
  }

  /** The closure of a declared reference: its package at its version, from level 0. */
  function ReferenceClosure(cache: Cache, targetFramework: string, r: PackageReference): Result<seq<Entry>, ResolveError> {
    Closure(cache, targetFramework, r.name, r.version, 0, {})
  }

  /** `n` is the id of an entry in the closure of the declared reference `r`. */
  predicate InClosureOf(cache: Cache, targetFramework: string, r: PackageReference, n: string) {
    ReferenceClosure(cache, targetFramework, r).Ok? && n in Ids(ReferenceClosure(cache, targetFramework, r).value)
  }

  /** The closure of each declared reference, in declaration order. */
  function Closures(cache: Cache, targetFramework: string, refs: seq<PackageReference>): (r: seq<Result<seq<Entry>, ResolveError>>)
    ensures |r| == |refs|
    ensures forall k :: 0 <= k < |refs| ==> r[k] == ReferenceClosure(cache, targetFramework, refs[k])
  {
    seq(|refs|, k requires 0 <= k < |refs| => ReferenceClosure(cache, targetFramework, refs[k]))
  }

  /** The ids named by a list of closures, gathered in list order; the first failed closure stops the gathering. */
  function CollectIds(results: seq<Result<seq<Entry>, ResolveError>>): (r: Result<set<string>, ResolveError>)
    ensures r.Err? ==> exists k :: 0 <= k < |results| && results[k] == Err(r.error)
  {
    if results == [] then Ok({})
    else
      match CollectIds(results[..|results| - 1])
      case Err(e) => Err(e)
      case Ok(prefix) =>
        match results[|results| - 1]
        case Err(e) => Err(e)
        case Ok(es) => Ok(prefix + Ids(es))
  }

  /** Gathering one closure more, after a successful prefix. */
  lemma CollectIdsOneMore(results: seq<Result<seq<Entry>, ResolveError>>, i: nat, seen: set<string>, es: seq<Entry>)
    requires i < |results| && CollectIds(results[..i]) == Ok(seen) && results[i] == Ok(es)
    ensures CollectIds(results[..i + 1]) == Ok(seen + Ids(es))
  {
    assert results[..i + 1][..i] == results[..i];
  }

  /** Gathering succeeds exactly when every closure succeeded. */
  lemma {:induction false} CollectIdsSucceeds(results: seq<Result<seq<Entry>, ResolveError>>)
    ensures CollectIds(results).Ok? <==> forall k :: 0 <= k < |results| ==> results[k].Ok?
  {
    if results != [] {
      var m := |results| - 1;
      CollectIdsSucceeds(results[..m]);
      assert forall k :: 0 <= k < m ==> results[..m][k] == results[k];
    }
  }

  /** On success, the ids gathered are exactly those named in some closure. */
  lemma {:induction false} CollectIdsMembers(results: seq<Result<seq<Entry>, ResolveError>>, n: string)
    requires CollectIds(results).Ok?
    ensures n in CollectIds(results).value <==>
      exists k :: 0 <= k < |results| && results[k].Ok? && n in Ids(results[k].value)
  {
    if results != [] {
      var m := |results| - 1;
      var init := results[..m];
      CollectIdsMembers(init, n);
      assert forall k :: 0 <= k < m ==> init[k] == results[k];
      if n in CollectIds(init).value {
        var k :| 0 <= k < m && init[k].Ok? && n in Ids(init[k].value);
        assert results[k] == init[k];
      }
    }
  }

  /** On failure, the error is that of the first failed closure. */
  lemma {:induction false} CollectIdsFirstError(results: seq<Result<seq<Entry>, ResolveError>>)
    requires CollectIds(results).Err?
    ensures exists k :: (0 <= k < |results| && results[k] == Err(CollectIds(results).error) &&
      forall j :: 0 <= j < k ==> results[j].Ok?)
  {
    var m := |results| - 1;
    var init := results[..m];
    assert forall k :: 0 <= k < m ==> init[k] == results[k];
    if CollectIds(init).Err? {
      CollectIdsFirstError(init);
      var k :| 0 <= k < m && init[k] == Err(CollectIds(init).error) && forall j :: 0 <= j < k ==> init[j].Ok?;
      assert results[k] == init[k];
    } else {
      CollectIdsSucceeds(init);
    }
  }

  /** Once gathering fails on a prefix of the closures, it fails the same way on all of them. */
  lemma {:induction false} CollectIdsPrefixFails(results: seq<Result<seq<Entry>, ResolveError>>, i: nat)
    requires i <= |results|
    requires CollectIds(results[..i]).Err?
    ensures CollectIds(results) == CollectIds(results[..i])
    decreases |results|
  {
    if i < |results| {
      var m := |results| - 1;
      assert results[..m][..i] == results[..i];
      CollectIdsPrefixFails(results[..m], i);
    } else {
      assert results[..i] == results;
    }
  }

  /** The ids found in the closures of all declared references, gathered in declaration order. */
  function TransitiveIds(cache: Cache, targetFramework: string, refs: seq<PackageReference>): (r: Result<set<string>, ResolveError>)
    ensures r.Ok? <==> forall k :: 0 <= k < |refs| ==> ReferenceClosure(cache, targetFramework, refs[k]).Ok?
  {
    CollectIdsSucceeds(Closures(cache, targetFramework, refs));
    CollectIds(Closures(cache, targetFramework, refs))
  }

  /** On success, the ids are exactly those found in some declared reference's closure. */
  lemma TransitiveIdsMembers(cache: Cache, targetFramework: string, refs: seq<PackageReference>, n: string)
    requires TransitiveIds(cache, targetFramework, refs).Ok?
    ensures n in TransitiveIds(cache, targetFramework, refs).value <==>
      exists k :: 0 <= k < |refs| && InClosureOf(cache, targetFramework, refs[k], n)
  {
    var results := Closures(cache, targetFramework, refs);
    CollectIdsMembers(results, n);
    if n in TransitiveIds(cache, targetFramework, refs).value {
      var k :| 0 <= k < |results| && results[k].Ok? && n in Ids(results[k].value);
      assert InClosureOf(cache, targetFramework, refs[k], n);
    } else {
      forall k | 0 <= k < |refs|
        ensures !InClosureOf(cache, targetFramework, refs[k], n)
      {
        assert results[k] == ReferenceClosure(cache, targetFramework, refs[k]);
      }
    }
  }

  /** On failure, the error is that of the first declared reference whose closure fails. */
  lemma TransitiveIdsFirstError(cache: Cache, targetFramework: string, refs: seq<PackageReference>)
    requires TransitiveIds(cache, targetFramework, refs).Err?
    ensures exists k :: (0 <= k < |refs| &&
      ReferenceClosure(cache, targetFramework, refs[k]) == Err(TransitiveIds(cache, targetFramework, refs).error) &&
      forall j :: 0 <= j < k ==> ReferenceClosure(cache, targetFramework, refs[j]).Ok?)
  {
    var results := Closures(cache, targetFramework, refs);
    CollectIdsFirstError(results);
    var k :| 0 <= k < |results| && results[k] == Err(CollectIds(results).error) &&
      forall j :: 0 <= j < k ==> results[j].Ok?;
    assert ReferenceClosure(cache, targetFramework, refs[k]) == Err(TransitiveIds(cache, targetFramework, refs).error);
  }

  /** The names to delete: those of marked references that the built assembly does not reference. */
  function RemovalNames(refs: seq<PackageReference>, transitive: set<string>, assemblies: seq<string>): (r: set<string>)
    ensures forall n :: n in r ==> n in transitive && n !in assemblies && exists x :: x in refs && x.name == n
  {
    set r | r in refs && r.name in transitive && r.name !in assemblies :: r.name
  }

  /** The references whose name is not in `names`, in their original order. */
  function Without(refs: seq<PackageReference>, names: set<string>): (r: seq<PackageReference>)
    ensures forall x :: x in r <==> x in refs && x.name !in names
  {
    if refs == [] then []
    else (if refs[0].name in names then [] else [refs[0]]) + Without(refs[1..], names)
  }

  /** Every copy of a reference with a deleted name goes; every other reference keeps all its copies. */
  lemma {:induction false} WithoutCounts(refs: seq<PackageReference>, names: set<string>, x: PackageReference)
    ensures multiset(Without(refs, names))[x] == if x.name in names then 0 else multiset(refs)[x]
  {
    if refs != [] {
      WithoutCounts(refs[1..], names, x);
      assert refs == [refs[0]] + refs[1..];
    }
  }

  /** The package references left in the project once the redundant ones are deleted. */
  function Prune(cache: Cache, targetFramework: string, refs: seq<PackageReference>, assemblies: seq<string>):
    (r: Result<seq<PackageReference>, ResolveError>)
    ensures r.Ok? ==> forall x :: x in r.value ==> x in refs
    ensures r.Err? <==> exists k :: 0 <= k < |refs| && ReferenceClosure(cache, targetFramework, refs[k]).Err?
  {
    match TransitiveIds(cache, targetFramework, refs)
    case Err(e) => Err(e)
    case Ok(transitive) => Ok(Without(refs, RemovalNames(refs, transitive, assemblies)))
  }

  /**
   * When every deleted name is carried by some reference, a name is deleted
   * exactly when some reference carried it and no reference left carries it.
   */
  lemma WithoutDeletesExactly(refs: seq<PackageReference>, names: set<string>)
    requires forall n :: n in names ==> exists x :: x in refs && x.name == n
    ensures forall n :: n in names <==>
      (exists x :: x in refs && x.name == n) && (forall x :: x in Without(refs, names) ==> x.name != n)
  {
    forall n | (exists x :: x in refs && x.name == n) && (forall x :: x in Without(refs, names) ==> x.name != n)
      ensures n in names
    {
      var x :| x in refs && x.name == n;
      assert x !in Without(refs, names);
    }
  }

  /** Deleting names that no reference carries changes nothing. */
  lemma {:induction false} WithoutNoMatch(refs: seq<PackageReference>, names: set<string>)
    requires forall x :: x in refs ==> x.name !in names
    ensures Without(refs, names) == refs
  {
    if refs != [] {
      WithoutNoMatch(refs[1..], names);
    }
  }

  /** Deletion keeps the order of what remains: it works piece by piece. */
  lemma {:induction false} WithoutAppend(a: seq<PackageReference>, b: seq<PackageReference>, names: set<string>)
    ensures Without(a + b, names) == Without(a, names) + Without(b, names)
  {
    if a == [] {
      assert a + b == b;
    } else {
      assert (a + b)[0] == a[0] && (a + b)[1..] == a[1..] + b;
      WithoutAppend(a[1..], b, names);
    }
  }

  /** Deleting one more name after a set of names is deleting both at once. */
  lemma {:induction false} WithoutOneMore(refs: seq<PackageReference>, names: set<string>, name: string)
    ensures Without(Without(refs, names), {name}) == Without(refs, names + {name})
  {
    if refs != [] {
      var rest := Without(refs[1..], names);
      WithoutOneMore(refs[1..], names, name);
      if refs[0].name in names {
        assert Without(refs, names) == rest;
      } else {
        var once := [refs[0]] + rest;
        assert Without(refs, names) == once;
        assert once[0] == refs[0] && once[1..] == rest;
      }
    }
  }

  /** Two sets of names that agree on the references' names delete the same references. */
  lemma {:induction false} WithoutAgreeing(refs: seq<PackageReference>, names: set<string>, others: set<string>)
    requires forall x :: x in refs ==> (x.name in names <==> x.name in others)
    ensures Without(refs, names) == Without(refs, others)
  {
    if refs != [] {
      WithoutAgreeing(refs[1..], names, others);
    }
  }

  /**
   * The decision: on success, a declared reference is deleted (every copy of
   * it) exactly when its name is found in the closure of some declared
   * reference and is not among the assembly references; every other
   * reference keeps all its copies.
   */
  lemma PruneDecides(cache: Cache, targetFramework: string, refs: seq<PackageReference>, assemblies: seq<string>,
                     x: PackageReference)
    requires Prune(cache, targetFramework, refs, assemblies).Ok?
    ensures multiset(Prune(cache, targetFramework, refs, assemblies).value)[x] ==
      if (exists k :: 0 <= k < |refs| && InClosureOf(cache, targetFramework, refs[k], x.name)) && x.name !in assemblies
      then 0 else multiset(refs)[x]
  {
    var transitive := TransitiveIds(cache, targetFramework, refs).value;
    TransitiveIdsMembers(cache, targetFramework, refs, x.name);
    var removal := RemovalNames(refs, transitive, assemblies);
    WithoutCounts(refs, removal, x);
    if x in refs {
      assert x.name in removal <==> x.name in transitive && x.name !in assemblies;
    } else {
      assert multiset(refs)[x] == 0;
    }
  }

  /** A reference whose name the built assembly references is never deleted. */
  lemma VetoedReferenceIsKept(cache: Cache, targetFramework: string, refs: seq<PackageReference>, assemblies: seq<string>,
                              x: PackageReference)
    requires Prune(cache, targetFramework, refs, assemblies).Ok?
    requires x.name in assemblies
    ensures multiset(Prune(cache, targetFramework, refs, assemblies).value)[x] == multiset(refs)[x]
  {
    PruneDecides(cache, targetFramework, refs, assemblies, x);
  }

  /** A reference whose name is found in no declared reference's closure is never deleted. */
  lemma UnreachableReferenceIsKept(cache: Cache, targetFramework: string, refs: seq<PackageReference>, assemblies: seq<string>,
                                   x: PackageReference)
    requires Prune(cache, targetFramework, refs, assemblies).Ok?
    requires forall k :: 0 <= k < |refs| ==> !InClosureOf(cache, targetFramework, refs[k], x.name)
    ensures multiset(Prune(cache, targetFramework, refs, assemblies).value)[x] == multiset(refs)[x]
  {
    PruneDecides(cache, targetFramework, refs, assemblies, x);
  }

  /**
   * When the closure of declared reference `refs[i]` has an entry naming
   * declared reference `refs[j]`, and the built assembly does not reference
   * that name, no reference of that name is left.
   */
  lemma RedundantReferenceIsRemoved(cache: Cache, targetFramework: string, refs: seq<PackageReference>, assemblies: seq<string>,
                                    i: nat, j: nat, e: Entry)
    requires Prune(cache, targetFramework, refs, assemblies).Ok?
    requires i < |refs| && j < |refs|
    requires ReferenceClosure(cache, targetFramework, refs[i]).Ok?
    requires e in ReferenceClosure(cache, targetFramework, refs[i]).value && e.dependency.id == refs[j].name
    requires refs[j].name !in assemblies
    ensures forall x :: x in Prune(cache, targetFramework, refs, assemblies).value ==> x.name != refs[j].name
  {
    forall x | x in Prune(cache, targetFramework, refs, assemblies).value
      ensures x.name != refs[j].name
    {
      if x.name == refs[j].name {
        PruneDecides(cache, targetFramework, refs, assemblies, x);
        assert InClosureOf(cache, targetFramework, refs[i], x.name);
      }
    }
  }

  /**
   * Pruning fails exactly when some declared reference's closure fails, and
   * then with the error of the first one in declaration order.
   */
  lemma PruneFails(cache: Cache, targetFramework: string, refs: seq<PackageReference>, assemblies: seq<string>)
    ensures Prune(cache, targetFramework, refs, assemblies).Err? <==>
      exists k :: 0 <= k < |refs| && ReferenceClosure(cache, targetFramework, refs[k]).Err?
    ensures Prune(cache, targetFramework, refs, assemblies).Err? ==>
      exists k :: (0 <= k < |refs| &&
        ReferenceClosure(cache, targetFramework, refs[k]) == Err(Prune(cache, targetFramework, refs, assemblies).error) &&
        forall j :: 0 <= j < k ==> ReferenceClosure(cache, targetFramework, refs[j]).Ok?)
  {
    if TransitiveIds(cache, targetFramework, refs).Err? {
      TransitiveIdsFirstError(cache, targetFramework, refs);
    }
  }

  /** Pruning the pruned references again deletes nothing more. */
  lemma PruneIsIdempotent(cache: Cache, targetFramework: string, refs: seq<PackageReference>, assemblies: seq<string>)
    requires Prune(cache, targetFramework, refs, assemblies).Ok?
    ensures Prune(cache, targetFramework, Prune(cache, targetFramework, refs, assemblies).value, assemblies) ==
            Prune(cache, targetFramework, refs, assemblies)
  {
    var kept := Prune(cache, targetFramework, refs, assemblies).value;
    var transitive := TransitiveIds(cache, targetFramework, refs).value;
    var removal := RemovalNames(refs, transitive, assemblies);
    assert kept == Without(refs, removal);
    forall k | 0 <= k < |kept|
      ensures ReferenceClosure(cache, targetFramework, kept[k]).Ok?
    {
      assert kept[k] in refs;
      var k' :| 0 <= k' < |refs| && refs[k'] == kept[k];
    }
    var again := TransitiveIds(cache, targetFramework, kept).value;
    forall x | x in kept
      ensures x.name in again ==> x.name in assemblies
    {
      if x.name in again {
        TransitiveIdsMembers(cache, targetFramework, kept, x.name);
        var k :| 0 <= k < |kept| && InClosureOf(cache, targetFramework, kept[k], x.name);
        assert kept[k] in refs;
        var k' :| 0 <= k' < |refs| && refs[k'] == kept[k];
        TransitiveIdsMembers(cache, targetFramework, refs, x.name);
        assert x in refs && x.name !in removal;
      }
    }
    WithoutNoMatch(kept, RemovalNames(kept, again, assemblies));
  }

  /** The cache of the scenario below: A 1.0 has one dependency set, listing B 1.0; B 1.0 has none. */
  predicate ScenarioCache(cache: Cache) {
    var v := Version(1, 0, 0, 0);
    "A" in cache && cache["A"] == [CachedVersion(v, [DependencySet(None, [], [Dependency("B", v)])])] &&
    "B" in cache && cache["B"] == [CachedVersion(v, [])]
  }

  /** In that cache, A's closure is B at level 0, and B's closure is empty, whatever the consumer. */
  lemma ScenarioClosures(cache: Cache, targetFramework: string)
    requires ScenarioCache(cache)
    ensures ReferenceClosure(cache, targetFramework, PackageReference("A", Version(1, 0, 0, 0))) ==
            Ok([Entry(Dependency("B", Version(1, 0, 0, 0)), 0)])
    ensures ReferenceClosure(cache, targetFramework, PackageReference("B", Version(1, 0, 0, 0))) == Ok([])
  {
    var v := Version(1, 0, 0, 0);
    var b := Dependency("B", v);
    var cachedA := CachedVersion(v, [DependencySet(None, [], [b])]);
    var cachedB := CachedVersion(v, []);
    assert ExactMatches([cachedB], v) == [cachedB];
    assert Resolve(cache, "B", v) == Ok(cachedB);
    var anc := {("A", v)};
    assert Closure(cache, targetFramework, "B", v, 1, anc) == Ok([]);
    assert Closure(cache, targetFramework, "B", v, 0, {}) == Ok([]);
    var empty: seq<Entry> := [];
    assert empty + empty == empty;
    assert [b][..0] == [] && [b][0] == b;
    assert DependenciesClosure(cache, targetFramework, [b][..0], 1, anc) == Ok([]);
    assert DependenciesClosure(cache, targetFramework, [b], 1, anc) ==
      match DependenciesClosure(cache, targetFramework, [b][..0], 1, anc)
      case Err(e) => Err(e)
      case Ok(prefix) =>
        match Closure(cache, targetFramework, b.id, b.minVersion, 1, anc)
        case Err(e) => Err(e)
        case Ok(es) => Ok(prefix + es);
    assert ExactMatches([cachedA], v) == [cachedA];
    assert Resolve(cache, "A", v) == Ok(cachedA);
    assert SelectDependencySet(cachedA.dependencySets, targetFramework) == Some(DependencySet(None, [], [b]));
    assert {} + {("A", v)} == anc;
    assert AtLevel([b], 0) + [] == [Entry(b, 0)];
  }

  /** In that cache, the closures of A and B together name B only. */
  lemma ScenarioTransitiveIds(cache: Cache, targetFramework: string)
    requires ScenarioCache(cache)
    ensures TransitiveIds(cache, targetFramework,
                          [PackageReference("A", Version(1, 0, 0, 0)), PackageReference("B", Version(1, 0, 0, 0))]) == Ok({"B"})
  {
    var v := Version(1, 0, 0, 0);
    var b := Dependency("B", v);
    var refs := [PackageReference("A", v), PackageReference("B", v)];
    ScenarioClosures(cache, targetFramework);
    assert Ids([Entry(b, 0)]) == {"B"};
    assert Ids([]) == {};
    var none: set<string> := {};
    assert none + {"B"} == {"B"} && {"B"} + none == {"B"};
    var results := Closures(cache, targetFramework, refs);
    assert results == [Ok([Entry(b, 0)]), Ok([])];
    assert results[..1][..0] == [] && results[..1][0] == results[0];
    assert CollectIds(results[..1]) == Ok(none + {"B"});
    assert results[..|results| - 1] == results[..1];
    assert CollectIds(results) == Ok({"B"} + none);
  }

  /**
   * A project declares A 1.0 and B 1.0 over that cache. B is deleted, unless
   * the built assembly references an assembly named "B", in which case both stay.
   */
  lemma TwoPackageScenario(cache: Cache, targetFramework: string)
    requires ScenarioCache(cache)
    ensures var refs := [PackageReference("A", Version(1, 0, 0, 0)), PackageReference("B", Version(1, 0, 0, 0))];
      Prune(cache, targetFramework, refs, []) == Ok([refs[0]]) &&
      Prune(cache, targetFramework, refs, ["B"]) == Ok(refs)
  {
    var v := Version(1, 0, 0, 0);
    var refs := [PackageReference("A", v), PackageReference("B", v)];
    ScenarioTransitiveIds(cache, targetFramework);
    assert refs[1] in refs && refs[1].name == "B";
    assert RemovalNames(refs, {"B"}, []) == {"B"};
    assert RemovalNames(refs, {"B"}, ["B"]) == {};
    assert refs[1..][1..] == [] && refs[1..][0] == refs[1];
    assert Without(refs[1..][1..], {"B"}) == [];
    assert Without(refs[1..], {"B"}) == [] + Without(refs[1..][1..], {"B"});
    assert Without(refs, {"B"}) == [refs[0]] + Without(refs[1..], {"B"});
    assert Without(refs, {"B"}) == [refs[0]];
    WithoutNoMatch(refs, {});
    assert Prune(cache, targetFramework, refs, []) == Ok(Without(refs, {"B"}));
  }
}
