/**
 * Package versions. Only the numeric part of a NuGet version is modelled:
 * four components compared one after the other, most significant first.
 */
module Versions {

  datatype Version = Version(major: nat, minor: nat, patch: nat, revision: nat)

  /** `a` is at most `b`: the first component in which they differ is smaller in `a`. */
  predicate Le(a: Version, b: Version) {
    if a.major != b.major then a.major < b.major
    else if a.minor != b.minor then a.minor < b.minor
    else if a.patch != b.patch then a.patch < b.patch
    else a.revision <= b.revision
  }

  predicate Lt(a: Version, b: Version) {
    Le(a, b) && a != b
  }

  /** The comparison is a total order, so "the first version at least v" is well defined. */
  lemma LeIsTotalOrder()
    ensures forall a :: Le(a, a)
    ensures forall a, b :: Le(a, b) && Le(b, a) ==> a == b
    ensures forall a, b, c :: Le(a, b) && Le(b, c) ==> Le(a, c)
    ensures forall a, b :: Le(a, b) || Le(b, a)
  {
  }

  /** Not at least `b` means strictly below `b`. */
  lemma NotLeIsLt(a: Version, b: Version)
    ensures !Le(b, a) <==> Lt(a, b)
  {
  }
}
