/**
 * Choosing which of a package's dependency sets applies to the consuming
 * project, from the project's target framework moniker (such as
 * "netcoreapp2.0", "netstandard2.0" or "net461").
 */
module Frameworks {
  import opened Wrappers
  import opened Strings
  import opened PackageCache

  /** What kind of dependency set a consumer looks for when a package offers several. */
  datatype Rule =
    | WantsStandard   // a "core" consumer takes a set supporting a "standard" framework
    | WantsCore       // a "standard" consumer takes a set supporting a "core" framework
    | WantsFramework  // anyone else takes an unscoped set or one supporting a "Framework"

  /** The rule for a consumer; the "core" test is made before the "standard" test. */
  function ConsumerRule(targetFramework: string): (rule: Rule)
    ensures rule == WantsStandard <==> Contains(targetFramework, "core")
    ensures rule == WantsCore <==> !Contains(targetFramework, "core") && Contains(targetFramework, "standard")
  {
    if Contains(targetFramework, "core") then WantsStandard
    else if Contains(targetFramework, "standard") then WantsCore
    else WantsFramework
  }

  /** Some supported framework identifier of `s` contains `marker` (ordinal, case-sensitive). */
  predicate SupportsFrameworkContaining(s: DependencySet, marker: string) {
    exists y :: y in s.frameworkIdentifiers && Contains(y, marker)
  }

  /** The rule accepts set `s`; only an unscoped set or one naming a supported framework is ever accepted. */
  predicate Accepts(rule: Rule, s: DependencySet)
    ensures Accepts(rule, s) ==> s.targetFramework.None? || |s.frameworkIdentifiers| > 0
  {
    match rule
    case WantsStandard => SupportsFrameworkContaining(s, "standard")
    case WantsCore => SupportsFrameworkContaining(s, "core")
    case WantsFramework => s.targetFramework.None? || SupportsFrameworkContaining(s, "Framework")
  }

  /** The position of the first set the rule accepts, if any. */
  function FirstAccepted(sets: seq<DependencySet>, rule: Rule): (r: Option<nat>)
    ensures r.Some? ==> r.value < |sets|
  {
    if sets == [] then None
    else if Accepts(rule, sets[0]) then Some(0)
    else match FirstAccepted(sets[1..], rule)
      case None => None
      case Some(i) => Some(i + 1)
  }

  /** The position found holds an accepted set and no earlier set is accepted; none is found when no set is. */
  lemma {:induction false} FirstAcceptedIsFirst(sets: seq<DependencySet>, rule: Rule)
    ensures var r := FirstAccepted(sets, rule);
      (r.Some? ==> Accepts(rule, sets[r.value]) && forall j :: 0 <= j < r.value ==> !Accepts(rule, sets[j])) &&
      (r.None? ==> forall j :: 0 <= j < |sets| ==> !Accepts(rule, sets[j]))
  {
    if sets != [] && !Accepts(rule, sets[0]) {
      FirstAcceptedIsFirst(sets[1..], rule);
      assert forall j :: 1 <= j < |sets| ==> sets[1..][j - 1] == sets[j];
    }
  }

  /**
   * The dependency set used for a package: its only set when it has exactly
   * one, whatever the consumer; otherwise the first set the consumer's rule
   * accepts, and none when no set is accepted (also when there are no sets).
   */
  function SelectDependencySet(sets: seq<DependencySet>, targetFramework: string): (r: Option<DependencySet>)
    ensures |sets| == 1 ==> r == Some(sets[0])
    ensures r.Some? ==> r.value in sets
  {
    if |sets| == 1 then Some(sets[0])
    else match FirstAccepted(sets, ConsumerRule(targetFramework))
      case None => None
      case Some(i) => Some(sets[i])
  }

  /**
   * With other than exactly one set, a set is chosen exactly when the
   * consumer's rule accepts one, and the chosen one is the first accepted.
   */
  lemma SelectDependencySetSpec(sets: seq<DependencySet>, targetFramework: string)
    requires |sets| != 1
    ensures var r := SelectDependencySet(sets, targetFramework);
      (r.Some? <==> exists i :: 0 <= i < |sets| && Accepts(ConsumerRule(targetFramework), sets[i])) &&
      (r.Some? ==>
        exists i :: 0 <= i < |sets| && r.value == sets[i] && Accepts(ConsumerRule(targetFramework), sets[i]) &&
          forall j :: 0 <= j < i ==> !Accepts(ConsumerRule(targetFramework), sets[j]))
  {
    FirstAcceptedIsFirst(sets, ConsumerRule(targetFramework));
  }

  /** A package without dependency sets contributes no set, for every consumer. */
  lemma NoSetsSelectNothing(targetFramework: string)
    ensures SelectDependencySet([], targetFramework) == None
  {
  }

  /**
   * A consumer whose moniker contains both markers follows the "core" rule:
   * it takes the first set supporting a "standard" framework, even when an
   * earlier set supports a "core" one.
   */
  lemma CoreTestComesFirst(core: DependencySet, standard: DependencySet, targetFramework: string)
    requires Contains(targetFramework, "core") && Contains(targetFramework, "standard")
    requires !SupportsFrameworkContaining(core, "standard") && SupportsFrameworkContaining(standard, "standard")
    ensures SelectDependencySet([core, standard], targetFramework) == Some(standard)
  {
    var sets := [core, standard];
    assert ConsumerRule(targetFramework) == WantsStandard;
    assert !Accepts(WantsStandard, sets[0]) && Accepts(WantsStandard, sets[1]);
    FirstAcceptedIsFirst(sets, WantsStandard);
  }

  /** A "netcoreapp" moniker follows the "core" rule. */
  lemma NetCoreAppRule()
    ensures ConsumerRule("netcoreapp2.0") == WantsStandard
  {
    assert OccursAt("netcoreapp2.0", "core", 3);
  }

  /** A "netstandard" moniker follows the "standard" rule. */
  lemma NetStandardRule()
    ensures ConsumerRule("netstandard2.0") == WantsCore
  {
    assert !Contains("netstandard2.0", "core") by {
      MissingFirstCharacter("netstandard2.0", "core");
    }
    assert Contains("netstandard2.0", "standard") by {
      assert OccursAt("netstandard2.0", "standard", 3);
    }
  }

  /** A full-framework moniker such as "net461" follows neither marker rule. */
  lemma NetFrameworkRule()
    ensures ConsumerRule("net461") == WantsFramework
  {
    MissingFirstCharacter("net461", "core");
    MissingFirstCharacter("net461", "standard");
  }

  /**
   * The marker tests are ordinal and case-sensitive, and NuGet names the
   * frameworks a set supports ".NETStandard", ".NETCoreApp" and
   * ".NETFramework". A "netcoreapp" consumer offered a ".NETStandard" set and
   * a ".NETFramework" set therefore takes neither: "standard" does not occur
   * in ".NETStandard".
   */
  lemma NetCoreAppConsumerMissesNetStandardSet(standard: DependencySet, full: DependencySet)
    requires standard.frameworkIdentifiers == [".NETStandard"]
    requires full.frameworkIdentifiers == [".NETFramework"]
    ensures SelectDependencySet([standard, full], "netcoreapp2.0") == None
  {
    NetCoreAppRule();
    MissingFirstCharacter(".NETStandard", "standard");
    MissingFirstCharacter(".NETFramework", "standard");
    assert !Accepts(WantsStandard, [standard, full][0]);
    assert !Accepts(WantsStandard, [standard, full][1]);
    FirstAcceptedIsFirst([standard, full], WantsStandard);
  }

  /**
   * Likewise a "netstandard" consumer offered a ".NETCoreApp" set and a
   * ".NETFramework" set takes neither: "core" does not occur in ".NETCoreApp".
   */
  lemma NetStandardConsumerMissesNetCoreAppSet(core: DependencySet, full: DependencySet)
    requires core.frameworkIdentifiers == [".NETCoreApp"]
    requires full.frameworkIdentifiers == [".NETFramework"]
    ensures SelectDependencySet([core, full], "netstandard2.0") == None
  {
    NetStandardRule();
    MissingFirstCharacter(".NETCoreApp", "core");
    MissingFirstCharacter(".NETFramework", "core");
    assert !Accepts(WantsCore, [core, full][0]);
    assert !Accepts(WantsCore, [core, full][1]);
    FirstAcceptedIsFirst([core, full], WantsCore);
  }

  /** A "net461" consumer offered the same two sets takes the full-framework one. */
  lemma FullFrameworkConsumerTakesFrameworkSet(standard: DependencySet, full: DependencySet)
    requires standard.targetFramework.Some? && standard.frameworkIdentifiers == [".NETStandard"]
    requires full.frameworkIdentifiers == [".NETFramework"]
    ensures SelectDependencySet([standard, full], "net461") == Some(full)
  {
    NetFrameworkRule();
    assert !Accepts(WantsFramework, [standard, full][0]) by {
      MissingFirstCharacter(".NETStandard", "Framework");
    }
    assert Accepts(WantsFramework, [standard, full][1]) by {
      assert OccursAt(".NETFramework", "Framework", 4);
      assert ".NETFramework" in full.frameworkIdentifiers;
    }
    FirstAcceptedIsFirst([standard, full], WantsFramework);
  }
}
