/** Access checks on a resolved ability set: which required abilities it
    lacks, and whether it lacks none. */
module AccessChecker {
  import opened AbleTypes

  /** `getMissingAbilities(abilities, requiredAbilities)`: the required
      abilities that are not among `abilities`, filtered in order. */
  function GetMissingAbilities(abilities: AbilitySet, required: AbilitySet): (r: AbilitySet)
    ensures forall x :: x in r <==> x in required && x !in abilities
    ensures |r| <= |required|
  {
    if required == [] then []
    else (if required[0] in abilities then [] else [required[0]]) + GetMissingAbilities(abilities, required[1..])
  }

  /** The filter keeps the order of `required`: the missing abilities of a
      concatenation are those of each part, one after the other. */
  lemma {:induction false} MissingConcat(abilities: AbilitySet, p: AbilitySet, q: AbilitySet)
    ensures GetMissingAbilities(abilities, p + q)
      == GetMissingAbilities(abilities, p) + GetMissingAbilities(abilities, q)
    decreases |p|
  {
    if p == [] {
      assert p + q == q;
    } else {
      assert (p + q)[0] == p[0] && (p + q)[1..] == p[1..] + q;
      MissingConcat(abilities, p[1..], q);
    }
  }

  /** The filter keeps every repetition of a missing ability and drops
      every occurrence of a present one. */
  lemma {:induction false} MissingCounts(abilities: AbilitySet, required: AbilitySet, x: string)
    ensures multiset(GetMissingAbilities(abilities, required))[x]
      == if x in abilities then 0 else multiset(required)[x]
    decreases |required|
  {
    if required != [] {
      MissingCounts(abilities, required[1..], x);
      MultisetCons(required);
    }
  }

  /** More abilities never make more abilities missing. */
  lemma MissingShrinks(a: AbilitySet, b: AbilitySet, required: AbilitySet)
    requires forall x :: x in a ==> x in b
    ensures forall x :: x in GetMissingAbilities(b, required) ==> x in GetMissingAbilities(a, required)
  {
  }

  /** `canAccess(appliedAbilities, requiredAbilities)`: nothing required
      is missing. */
  function CanAccess(applied: AbilitySet, required: AbilitySet): (b: bool)
    ensures b <==> forall x :: x in required ==> x in applied
  {
    var missing := GetMissingAbilities(applied, required);
    assert missing != [] ==> missing[0] in missing;
    |missing| == 0
  }

  /** Access to a concatenation of requirements is access to each part. */
  lemma CanAccessConcat(applied: AbilitySet, p: AbilitySet, q: AbilitySet)
    ensures CanAccess(applied, p + q) <==> CanAccess(applied, p) && CanAccess(applied, q)
  {
    MissingConcat(applied, p, q);
  }

  /** The first example of the test suite: every required ability is
      present. */
  lemma CanAccessExample()
    ensures CanAccess(["metabase:dashboard:4?district=1", "foo", "bar"], ["metabase:dashboard:4?district=1"])
  {
  }

  /** The second example: `baz` is required and absent. */
  lemma CannotAccessExample()
    ensures !CanAccess(["metabase:dashboard:4?district=1", "foo", "bar"], ["metabase:dashboard:4?district=1", "baz"])
    ensures GetMissingAbilities(["metabase:dashboard:4?district=1", "foo", "bar"],
                                ["metabase:dashboard:4?district=1", "baz"]) == ["baz"]
  {
    var applied := ["metabase:dashboard:4?district=1", "foo", "bar"];
    assert "baz" !in applied;
    assert "metabase:dashboard:4?district=1" in applied;
  }
}
