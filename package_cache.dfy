/**
 * The local package cache (the user's `.nuget/packages` directory) as data,
 * and the choice of a cached version for a requested one.
 *
 * A package id maps to its cached versions in directory-listing order; each
 * cached version carries the dependency sets read from its package archive.
 */
module PackageCache {
  import opened Wrappers
  import opened Versions

  /** One dependency of a package: its id and the lower bound of its version range. */
  datatype Dependency = Dependency(id: string, minVersion: Version)

  /**
   * The dependencies a package declares for one family of consuming
   * frameworks. `targetFramework` is absent for an unscoped set;
   * `frameworkIdentifiers` are the identifiers of the frameworks it supports.
   */
  datatype DependencySet = DependencySet(
    targetFramework: Option<string>,
    frameworkIdentifiers: seq<string>,
    dependencies: seq<Dependency>)

  /** One version directory of a package in the cache, with its archive's dependency sets. */
  datatype CachedVersion = CachedVersion(version: Version, dependencySets: seq<DependencySet>)

  type Cache = map<string, seq<CachedVersion>>

  /**
   * Why a package could not be resolved against the cache. The last case is
   * an addition: ReadDependenciesRecursive in Parser.cs recurses without end
   * on cyclic metadata.
   */
  datatype ResolveError =
    | PackageNotFound(id: string)                      // no directory for the package: restore packages first
    | AmbiguousVersion(id: string, version: Version)   // several cached versions equal the requested one
    | VersionNotAvailable(id: string, version: Version) // no cached version is at least the requested one
    | CyclicDependency(id: string, version: Version)    // a package met again on its own expansion path

  /** The cached entries whose version equals `v`, in listing order. */
  function ExactMatches(listing: seq<CachedVersion>, v: Version): (r: seq<CachedVersion>)
    ensures |r| <= |listing|
  {
    if listing == [] then []
    else if listing[0].version == v then [listing[0]] + ExactMatches(listing[1..], v)
    else ExactMatches(listing[1..], v)
  }

  /** The exact matches are the cached entries of that version, and no other. */
  lemma {:induction false} ExactMatchesMembers(listing: seq<CachedVersion>, v: Version)
    ensures forall c :: c in ExactMatches(listing, v) <==> c in listing && c.version == v
  {
    if listing != [] {
      ExactMatchesMembers(listing[1..], v);
      assert listing == [listing[0]] + listing[1..];
    }
  }

  /** The position of the first cached version that is at least `v`, if any. */
  function FirstAtLeast(listing: seq<CachedVersion>, v: Version): (r: Option<nat>)
    ensures r.Some? ==> r.value < |listing|
  {
    if listing == [] then None
    else if Le(v, listing[0].version) then Some(0)
    else
      match FirstAtLeast(listing[1..], v)
      case None => None
      case Some(i) => Some(i + 1)
  }

  /** The position found holds a version at least `v`, and every earlier one is below `v`; none is found when all are below. */
  lemma {:induction false} FirstAtLeastIsFirst(listing: seq<CachedVersion>, v: Version)
    ensures var r := FirstAtLeast(listing, v);
      (r.Some? ==> Le(v, listing[r.value].version) && forall j :: 0 <= j < r.value ==> Lt(listing[j].version, v)) &&
      (r.None? ==> forall j :: 0 <= j < |listing| ==> Lt(listing[j].version, v))
  {
    if listing != [] && !Le(v, listing[0].version) {
      NotLeIsLt(listing[0].version, v);
      FirstAtLeastIsFirst(listing[1..], v);
      assert forall j :: 1 <= j < |listing| ==> listing[1..][j - 1] == listing[j];
    }
  }

  /**
   * The cached version used for `requested`: the single exact match if there
   * is one, failing if several entries equal it; otherwise the first entry in
   * listing order that is at least `requested`, failing if there is none.
   */
  function SelectVersion(id: string, listing: seq<CachedVersion>, requested: Version): (r: Result<CachedVersion, ResolveError>)
    ensures r.Ok? ==> r.value in listing
  {
    var exact := ExactMatches(listing, requested);
    if |exact| > 1 then Err(AmbiguousVersion(id, requested))
    else if |exact| == 1 then
      ExactMatchesMembers(listing, requested);
      assert exact[0] in exact;
      Ok(exact[0])
    else match FirstAtLeast(listing, requested)
      case None => Err(VersionNotAvailable(id, requested))
      case Some(i) => Ok(listing[i])
  }

  /**
   * What the selection promises: the version taken is cached and at least the
   * requested one; it is the requested one exactly when a single entry has
   * it; several entries with it are ambiguous; otherwise it is the first at
   * least the requested one, and there is none when all are below.
   */
  lemma SelectVersionSpec(id: string, listing: seq<CachedVersion>, requested: Version)
    ensures var r := SelectVersion(id, listing, requested);
      (r.Ok? ==> r.value in listing && Le(requested, r.value.version)) &&
      (r.Ok? && r.value.version == requested <==> |ExactMatches(listing, requested)| == 1) &&
      (r == Err(AmbiguousVersion(id, requested)) <==> |ExactMatches(listing, requested)| > 1) &&
      (r.Ok? && r.value.version != requested ==>
        exists i :: 0 <= i < |listing| && listing[i] == r.value &&
          forall j :: 0 <= j < i ==> Lt(listing[j].version, requested)) &&
      (r == Err(VersionNotAvailable(id, requested)) <==> forall c :: c in listing ==> Lt(c.version, requested)) &&
      (r.Err? ==> r.error in {AmbiguousVersion(id, requested), VersionNotAvailable(id, requested)})
  {
    var exact := ExactMatches(listing, requested);
    ExactMatchesMembers(listing, requested);
    FirstAtLeastIsFirst(listing, requested);
    LeIsTotalOrder();
    if |exact| > 1 {
      assert exact[0] in exact;
    } else if |exact| == 1 {
      assert exact[0] in exact;
    } else {
      var first := FirstAtLeast(listing, requested);
      if first.Some? {
        var i := first.value;
        assert listing[i] in listing;
        assert listing[i].version != requested;
      } else {
        forall c | c in listing
          ensures Lt(c.version, requested)
        {
          var k :| 0 <= k < |listing| && listing[k] == c;
        }
      }
    }
  }

  /** The cached version used for package `id` at `requested`; a package missing from the cache fails. */
  function Resolve(cache: Cache, id: string, requested: Version): (r: Result<CachedVersion, ResolveError>)
    ensures r == Err(PackageNotFound(id)) <==> id !in cache
    ensures r.Ok? ==> id in cache && r.value in cache[id]
  {
    if id !in cache then Err(PackageNotFound(id))
    else SelectVersion(id, cache[id], requested)
  }

  /** The version resolved for a package is cached and at least the requested one. */
  lemma ResolveIsAtLeastRequested(cache: Cache, id: string, requested: Version)
    requires Resolve(cache, id, requested).Ok?
    ensures Le(requested, Resolve(cache, id, requested).value.version)
  {
    SelectVersionSpec(id, cache[id], requested);
  }

  /** The versions of a listing are in ascending order. */
  predicate Ascending(listing: seq<CachedVersion>) {
    forall i, j :: 0 <= i < j < |listing| ==> Le(listing[i].version, listing[j].version)
  }

  /**
   * When the directory listing is in ascending version order, the version
   * taken is the smallest cached version that is at least the requested one.
   */
  lemma SelectVersionIsMinimalWhenAscending(id: string, listing: seq<CachedVersion>, requested: Version)
    requires Ascending(listing)
    ensures SelectVersion(id, listing, requested).Ok? ==>
      forall c :: c in listing && Le(requested, c.version) ==>
        Le(SelectVersion(id, listing, requested).value.version, c.version)
  {
    var r := SelectVersion(id, listing, requested);
    SelectVersionSpec(id, listing, requested);
    LeIsTotalOrder();
    if r.Ok? && r.value.version != requested {
      var i :| 0 <= i < |listing| && listing[i] == r.value &&
        forall j :: 0 <= j < i ==> Lt(listing[j].version, requested);
      forall c | c in listing && Le(requested, c.version)
        ensures Le(r.value.version, c.version)
      {
        var k :| 0 <= k < |listing| && listing[k] == c;
        assert i <= k;
      }
    }
  }
}
