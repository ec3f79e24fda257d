/** Group expansion (`flatten`): a work list over a growing, ordered
    sequence that appends every member of every alias it walks over,
    unless the member is already present. */
module GroupExpander {
  import opened AbleTypes

  /** Every token that some alias of `d` expands to. Whatever `flatten`
      appends comes from here, which bounds the growth on cyclic
      definitions. */
  ghost function Universe(d: GroupDefinition): set<string>
  {
    set k, m | k in d && m in Members(d, k) :: m
  }

  /** From index `n` on, every element differs from all elements before it. */
  ghost predicate FreshFrom(r: seq<string>, n: nat)
  {
    forall p, q :: 0 <= p < q < |r| && n <= q ==> r[p] != r[q]
  }

  /** Every element's members are themselves elements. */
  ghost predicate IsClosed(d: GroupDefinition, r: seq<string>)
  {
    forall i :: 0 <= i < |r| ==> Elems(Members(d, r[i])) <= Elems(r)
  }

  /** Every element from index `n` on is a member of an element before it. */
  ghost predicate Reached(d: GroupDefinition, r: seq<string>, n: nat)
  {
    forall k :: n <= k < |r| ==> exists j :: 0 <= j < k && r[k] in Members(d, r[j])
  }

  /** The inner loop of `flatten`: each member of `ms`, in order, is pushed
      unless it is already present. */
  function AppendNew(r: seq<string>, ms: seq<string>): (a: seq<string>)
    ensures |r| <= |a| <= |r| + |ms|
    decreases ms
  {
    if ms == [] then r
    else AppendNew(if ms[0] in r then r else r + [ms[0]], ms[1..])
  }

  lemma ElemsSnoc(r: seq<string>, x: string)
    ensures Elems(r + [x]) == Elems(r) + {x}
  {
    assert forall y :: y in r + [x] <==> y in r || y == x;
  }

  lemma ElemsCons(ms: seq<string>)
    requires ms != []
    ensures Elems(ms) == {ms[0]} + Elems(ms[1..])
  {
    assert ms == [ms[0]] + ms[1..];
  }

  /** The inner loop keeps what was there and adds only members. */
  lemma {:induction false} AppendNewKeeps(r: seq<string>, ms: seq<string>)
    ensures var a := AppendNew(r, ms);
      && |r| <= |a| && a[..|r|] == r
      && (forall q :: |r| <= q < |a| ==> a[q] in ms)
    decreases ms
  {
    var a := AppendNew(r, ms);
    if ms != [] {
      var r' := if ms[0] in r then r else r + [ms[0]];
      var tail := ms[1..];
      AppendNewKeeps(r', tail);
      assert a[..|r|] == a[..|r'|][..|r|];
      forall q | |r| <= q < |a|
        ensures a[q] in ms
      {
        if q < |r'| {
          PrefixAt(a, r', q);
        } else {
          assert a[q] in tail;
        }
      }
    }
  }

  /** The inner loop adds exactly the members that are not yet present. */
  lemma {:induction false} AppendNewElems(r: seq<string>, ms: seq<string>)
    ensures Elems(AppendNew(r, ms)) == Elems(r) + Elems(ms)
    decreases ms
  {
    if ms != [] {
      var r' := if ms[0] in r then r else r + [ms[0]];
      ElemsCons(ms);
      ElemsSnoc(r, ms[0]);
      assert Elems(r') == Elems(r) + {ms[0]};
      AppendNewElems(r', ms[1..]);
    }
  }

  /** Pushing a token that is not present keeps the tail duplicate-free. */
  lemma FreshSnoc(r: seq<string>, x: string, n: nat)
    requires n <= |r| && FreshFrom(r, n) && x !in r
    ensures FreshFrom(r + [x], n)
  {
  }

  /** The inner loop never pushes a token that is already present. */
  lemma {:induction false} AppendNewFresh(r: seq<string>, ms: seq<string>, n: nat)
    requires n <= |r| && FreshFrom(r, n)
    ensures FreshFrom(AppendNew(r, ms), n)
    decreases ms
  {
    if ms != [] {
      if ms[0] !in r {
        FreshSnoc(r, ms[0], n);
      }
      AppendNewFresh(if ms[0] in r then r else r + [ms[0]], ms[1..], n);
    }
  }

  /** When every member is already present the inner loop changes nothing. */
  lemma {:induction false} AppendNewNoop(r: seq<string>, ms: seq<string>)
    requires Elems(ms) <= Elems(r)
    ensures AppendNew(r, ms) == r
    decreases ms
  {
    if ms != [] {
      ElemsCons(ms);
      assert ms[0] in Elems(r);
      AppendNewNoop(r, ms[1..]);
    }
  }

  /** The inner loop adds exactly the members not yet present, each once,
      and changes nothing iff every member was already present. */
  lemma AppendNewSpec(r: seq<string>, ms: seq<string>)
    ensures var a := AppendNew(r, ms);
      && |r| <= |a| && a[..|r|] == r
      && Elems(a) == Elems(r) + Elems(ms)
      && FreshFrom(a, |r|)
      && (a == r <==> Elems(ms) <= Elems(r))
  {
    AppendNewKeeps(r, ms);
    AppendNewElems(r, ms);
    AppendNewFresh(r, ms, |r|);
    if Elems(ms) <= Elems(r) {
      AppendNewNoop(r, ms);
    }
  }

  /** No two elements of `s` are equal. */
  ghost predicate Distinct(s: seq<string>)
  {
    forall i, j :: 0 <= i < j < |s| ==> s[i] != s[j]
  }

  /** When the members are distinct and none is present yet, the inner loop
      appends all of them, in order. The sequence itself may repeat tokens. */
  lemma {:induction false} AppendNewDistinct(r: seq<string>, ms: seq<string>)
    requires Distinct(ms)
    requires forall x :: x in ms ==> x !in r
    ensures AppendNew(r, ms) == r + ms
    decreases ms
  {
    if ms != [] {
      assert ms[0] in ms;
      var r' := r + [ms[0]];
      var tail := ms[1..];
      forall x | x in tail
        ensures x !in r'
      {
        var j :| 0 <= j < |tail| && tail[j] == x;
        assert ms[j + 1] == x;
      }
      forall i, j | 0 <= i < j < |tail|
        ensures tail[i] != tail[j]
      {
        assert tail[i] == ms[i + 1] && tail[j] == ms[j + 1];
      }
      AppendNewDistinct(r', tail);
      assert r' + tail == r + ms;
    }
  }

  /** A duplicate-free concatenation has a duplicate-free right part that
      shares nothing with the left part. */
  lemma DistinctSplit(r: seq<string>, ms: seq<string>)
    requires Distinct(r + ms)
    ensures Distinct(ms)
    ensures forall x :: x in ms ==> x !in r
  {
    forall i, j | 0 <= i < j < |ms|
      ensures ms[i] != ms[j]
    {
      assert (r + ms)[|r| + i] == ms[i] && (r + ms)[|r| + j] == ms[j];
    }
    forall x | x in ms
      ensures x !in r
    {
      var j :| 0 <= j < |ms| && ms[j] == x;
      forall i | 0 <= i < |r|
        ensures r[i] != x
      {
        assert (r + ms)[i] == r[i] && (r + ms)[|r| + j] == ms[j];
      }
    }
  }

  /** When no token from `i` on is an alias, the walk stops where it is. */
  lemma {:induction false} WalkLeaves(d: GroupDefinition, r: seq<string>, i: nat)
    requires i <= |r|
    requires forall j :: i <= j < |r| ==> r[j] !in d
    ensures Walk(d, r, i) == r
    decreases |r| - i
  {
    if i < |r| {
      WalkUndefined(d, r, i);
      WalkLeaves(d, r, i + 1);
    }
  }

  lemma DistinctPrefix(s: seq<string>, k: nat)
    requires Distinct(s) && k <= |s|
    ensures Distinct(s[..k])
  {
    assert forall i :: 0 <= i < k ==> s[..k][i] == s[i];
  }

  /** A step on an alias whose members are distinct and all new appends
      them all. */
  lemma WalkDistinct(d: GroupDefinition, r: seq<string>, i: nat)
    requires i < |r|
    requires Distinct(Members(d, r[i]))
    requires forall x :: x in Members(d, r[i]) ==> x !in r
    ensures Walk(d, r, i) == Walk(d, r + Members(d, r[i]), i + 1)
  {
    WalkStep(d, r, i);
    AppendNewDistinct(r, Members(d, r[i]));
  }

  /** The same step from a state that, with the members appended, is
      duplicate-free as a whole; `next` names that state. */
  lemma WalkGrows(d: GroupDefinition, r: seq<string>, i: nat, next: seq<string>)
    requires i < |r| && next == r + Members(d, r[i]) && Distinct(next)
    ensures Walk(d, r, i) == Walk(d, next, i + 1)
  {
    DistinctSplit(r, Members(d, r[i]));
    WalkDistinct(d, r, i);
  }

  /** One step of the outer loop either leaves the sequence as it is or adds
      a token of the universe that was not in it before. */
  lemma Shrinks(d: GroupDefinition, r: seq<string>, i: nat)
    requires i < |r|
    ensures var a := AppendNew(r, Members(d, r[i]));
      a == r || Universe(d) - Elems(a) < Universe(d) - Elems(r)
  {
    var ms := Members(d, r[i]);
    var a := AppendNew(r, ms);
    AppendNewElems(r, ms);
    if a != r {
      if Elems(ms) <= Elems(r) {
        AppendNewNoop(r, ms);
      }
      var m :| m in Elems(ms) && m !in Elems(r);
      assert r[i] in d;
      assert m in Universe(d);
    }
  }

  /** The outer loop of `flatten`, from index `i` of the sequence `r`. */
  function Walk(d: GroupDefinition, r: seq<string>, i: nat): (w: seq<string>)
    requires i <= |r|
    ensures |r| <= |w| && w[..|r|] == r
    decreases Universe(d) - Elems(r), |r| - i
  {
    if i == |r| then r
    else
      var a := AppendNew(r, Members(d, r[i]));
      AppendNewKeeps(r, Members(d, r[i]));
      Shrinks(d, r, i);
      var w := Walk(d, a, i + 1);
      assert w[..|r|] == w[..|a|][..|r|];
      w
  }

  /** One round of the outer loop. */
  lemma WalkStep(d: GroupDefinition, r: seq<string>, i: nat)
    requires i < |r|
    ensures Walk(d, r, i) == Walk(d, AppendNew(r, Members(d, r[i])), i + 1)
  {
  }

  /** What `flatten(definition, abilities)` returns: the input, followed by
      what the walk appends. */
  function Closure(d: GroupDefinition, abilities: AbilitySet): (r: AbilitySet)
    ensures |abilities| <= |r| && r[..|abilities|] == abilities
  {
    Walk(d, abilities, 0)
  }

  /** `flatten`: copies the input and walks the copy while it grows. */
  method Flatten(d: GroupDefinition, abilities: AbilitySet) returns (r: AbilitySet)
    ensures r == Closure(d, abilities)
    ensures |abilities| <= |r| && r[..|abilities|] == abilities
    ensures IsClosed(d, r)
    ensures FreshFrom(r, |abilities|)
  {
    r := abilities;
    var i := 0;
    while i < |r|
      invariant i <= |r|
      invariant Walk(d, r, i) == Closure(d, abilities)
      decreases Universe(d) - Elems(r), |r| - i
    {
      var members := Members(d, r[i]);
      ghost var before := r;
      var j := 0;
      while j < |members|
        invariant j <= |members|
        invariant AppendNew(r, members[j..]) == AppendNew(before, members)
      {
        assert members[j..][1..] == members[j + 1..];
        if members[j] !in r {
          r := r + [members[j]];
        }
        j := j + 1;
      }
      assert members[j..] == [];
      Shrinks(d, before, i);
      AppendNewKeeps(before, members);
      WalkStep(d, before, i);
      i := i + 1;
    }
    ClosureIsClosed(d, abilities);
    ClosureFresh(d, abilities);
  }

  /** One round keeps the first `i + 1` elements' members inside the
      sequence, given that the first `i` had theirs inside already. */
  lemma ClosedStep(d: GroupDefinition, r: seq<string>, i: nat)
    requires i < |r|
    requires forall j :: 0 <= j < i ==> Elems(Members(d, r[j])) <= Elems(r)
    ensures var a := AppendNew(r, Members(d, r[i]));
      forall j :: 0 <= j < i + 1 ==> Elems(Members(d, a[j])) <= Elems(a)
  {
    var a := AppendNew(r, Members(d, r[i]));
    AppendNewKeeps(r, Members(d, r[i]));
    AppendNewElems(r, Members(d, r[i]));
    forall j | 0 <= j < i + 1
      ensures Elems(Members(d, a[j])) <= Elems(a)
    {
      PrefixAt(a, r, j);
    }
  }

  lemma {:induction false} WalkClosed(d: GroupDefinition, r: seq<string>, i: nat)
    requires i <= |r|
    requires forall j :: 0 <= j < i ==> Elems(Members(d, r[j])) <= Elems(r)
    ensures IsClosed(d, Walk(d, r, i))
    decreases Universe(d) - Elems(r), |r| - i
  {
    if i < |r| {
      Shrinks(d, r, i);
      ClosedStep(d, r, i);
      WalkStep(d, r, i);
      WalkClosed(d, AppendNew(r, Members(d, r[i])), i + 1);
    }
  }

  /** The output of `flatten` is closed under the definition: for every
      element, every member of it is an element too. */
  lemma ClosureIsClosed(d: GroupDefinition, abilities: AbilitySet)
    ensures IsClosed(d, Closure(d, abilities))
  {
    WalkClosed(d, abilities, 0);
  }

  lemma {:induction false} WalkFresh(d: GroupDefinition, r: seq<string>, i: nat, n: nat)
    requires i <= |r| && n <= |r|
    requires FreshFrom(r, n)
    ensures FreshFrom(Walk(d, r, i), n)
    decreases Universe(d) - Elems(r), |r| - i
  {
    if i < |r| {
      Shrinks(d, r, i);
      AppendNewKeeps(r, Members(d, r[i]));
      AppendNewFresh(r, Members(d, r[i]), n);
      WalkStep(d, r, i);
      WalkFresh(d, AppendNew(r, Members(d, r[i])), i + 1, n);
    }
  }

  /** Only appended members are deduplicated: past the input, every element
      of the output differs from every element before it, input included. */
  lemma ClosureFresh(d: GroupDefinition, abilities: AbilitySet)
    ensures FreshFrom(Closure(d, abilities), |abilities|)
  {
    WalkFresh(d, abilities, 0, |abilities|);
  }

  /** One round keeps every element from `n` on reached from before it. */
  lemma ReachedStep(d: GroupDefinition, r: seq<string>, i: nat, n: nat)
    requires i < |r| && n <= |r|
    requires Reached(d, r, n)
    ensures Reached(d, AppendNew(r, Members(d, r[i])), n)
  {
    var ms := Members(d, r[i]);
    var a := AppendNew(r, ms);
    AppendNewKeeps(r, ms);
    PrefixAt(a, r, i);
    forall k | n <= k < |a|
      ensures exists j :: 0 <= j < k && a[k] in Members(d, a[j])
    {
      if k < |r| {
        var j :| 0 <= j < k && r[k] in Members(d, r[j]);
        PrefixAt(a, r, k);
        PrefixAt(a, r, j);
        assert 0 <= j < k && a[k] in Members(d, a[j]);
      } else {
        assert 0 <= i < k && a[k] in Members(d, a[i]);
      }
    }
  }

  lemma {:induction false} WalkReached(d: GroupDefinition, r: seq<string>, i: nat, n: nat)
    requires i <= |r| && n <= |r|
    requires Reached(d, r, n)
    ensures Reached(d, Walk(d, r, i), n)
    decreases Universe(d) - Elems(r), |r| - i
  {
    if i < |r| {
      Shrinks(d, r, i);
      AppendNewKeeps(r, Members(d, r[i]));
      ReachedStep(d, r, i, n);
      WalkStep(d, r, i);
      WalkReached(d, AppendNew(r, Members(d, r[i])), i + 1, n);
    }
  }

  lemma ReachedAt(d: GroupDefinition, c: seq<string>, n: nat, k: nat)
    requires Reached(d, c, n) && n <= k < |c|
    ensures exists j :: 0 <= j < k && c[k] in Members(d, c[j])
  {
    var t := c[k];
    assert exists j :: 0 <= j < k && t in Members(d, c[j]);
  }

  lemma {:induction false} ReachedWithin(d: GroupDefinition, c: seq<string>, n: nat, s: set<string>, k: nat)
    requires n <= |c| && k < |c|
    requires Reached(d, c, n)
    requires forall j :: 0 <= j < n ==> c[j] in s
    requires forall x :: x in s ==> Elems(Members(d, x)) <= s
    ensures c[k] in s
    decreases k
  {
    if n <= k {
      ReachedAt(d, c, n, k);
      var j :| 0 <= j < k && c[k] in Members(d, c[j]);
      ReachedWithin(d, c, n, s, j);
    }
  }

  /** `flatten` adds nothing it need not: its elements lie in every set that
      contains the input and is closed under the definition. With
      ClosureIsClosed, the output's elements are exactly the least such set. */
  lemma ClosureLeast(d: GroupDefinition, abilities: AbilitySet, s: set<string>)
    requires Elems(abilities) <= s
    requires forall x :: x in s ==> Elems(Members(d, x)) <= s
    ensures Elems(Closure(d, abilities)) <= s
  {
    var c := Closure(d, abilities);
    WalkReached(d, abilities, 0, |abilities|);
    forall j | 0 <= j < |abilities|
      ensures c[j] in s
    {
      assert c[j] == c[..|abilities|][j];
    }
    forall x | x in Elems(c)
      ensures x in s
    {
      var k :| 0 <= k < |c| && c[k] == x;
      ReachedWithin(d, c, |abilities|, s, k);
    }
  }

  lemma {:induction false} WalkOfClosed(d: GroupDefinition, r: seq<string>, i: nat)
    requires i <= |r|
    requires IsClosed(d, r)
    ensures Walk(d, r, i) == r
    decreases |r| - i
  {
    if i < |r| {
      AppendNewSpec(r, Members(d, r[i]));
      WalkOfClosed(d, r, i + 1);
    }
  }

  /** `flatten` on its own output returns that output unchanged. */
  lemma FlattenIdempotent(d: GroupDefinition, abilities: AbilitySet)
    ensures Closure(d, Closure(d, abilities)) == Closure(d, abilities)
  {
    ClosureIsClosed(d, abilities);
    WalkOfClosed(d, Closure(d, abilities), 0);
  }

  /** An empty definition expands nothing. */
  lemma FlattenEmptyDefinition(abilities: AbilitySet)
    ensures Closure(map[], abilities) == abilities
  {
    WalkOfClosed(map[], abilities, 0);
  }

  /** The documented example: `{foo: ["bar"]}` from `["foo", "bam"]`. */
  lemma FlattenDocExample()
    ensures Closure(map["foo" := Multiple(["bar"])], ["foo", "bam"]) == ["foo", "bam", "bar"]
  {
    var d := map["foo" := Multiple(["bar"])];
    assert AppendNew(["foo", "bam"], ["bar"]) == ["foo", "bam", "bar"];
    WalkOfClosed(d, ["foo", "bam", "bar"], 1);
  }

  /** Pushing a token that is absent, or skipping one that is present. */
  lemma AppendNewHead(r: seq<string>, ms: seq<string>)
    requires ms != []
    ensures ms[0] !in r ==> AppendNew(r, ms) == AppendNew(r + [ms[0]], ms[1..])
    ensures ms[0] in r ==> AppendNew(r, ms) == AppendNew(r, ms[1..])
  {
  }

  /** A round over an alias that is not defined changes nothing. */
  lemma WalkUndefined(d: GroupDefinition, r: seq<string>, i: nat)
    requires i < |r| && r[i] !in d
    ensures Walk(d, r, i) == Walk(d, r, i + 1)
  {
    WalkStep(d, r, i);
  }

  /** The first round of the cycle pushes both members of `foo`. */
  lemma CycleFirstRound(d: GroupDefinition, foo: string, bar: string, baz: string)
    requires foo != bar && foo != baz && bar != baz
    requires foo in d && d[foo] == Multiple([bar, baz])
    ensures Walk(d, [foo], 0) == Walk(d, [foo, bar, baz], 1)
  {
    WalkStep(d, [foo], 0);
    AppendNewHead([foo], [bar, baz]);
    assert [foo] + [bar] == [foo, bar];
    AppendNewHead([foo, bar], [baz]);
    assert [foo, bar] + [baz] == [foo, bar, baz];
  }

  /** The third round pushes `bam` and skips `foo`, which is present. */
  lemma CycleThirdRound(d: GroupDefinition, foo: string, bar: string, baz: string, bam: string)
    requires bam != foo && bam != bar && bam != baz
    requires baz in d && d[baz] == Multiple([bam, foo])
    ensures Walk(d, [foo, bar, baz], 2) == Walk(d, [foo, bar, baz, bam], 3)
  {
    var r := [foo, bar, baz];
    WalkStep(d, r, 2);
    AppendNewHead(r, [bam, foo]);
    assert r + [bam] == [foo, bar, baz, bam];
    AppendNewHead([foo, bar, baz, bam], [foo]);
  }

  /** Two aliases that name each other: `flatten` stops once every member
      is present, with four distinct elements. */
  lemma FlattenCycle(d: GroupDefinition, foo: string, bar: string, baz: string, bam: string)
    requires foo != bar && foo != baz && foo != bam && bar != baz && bar != bam && baz != bam
    requires foo in d && d[foo] == Multiple([bar, baz])
    requires baz in d && d[baz] == Multiple([bam, foo])
    requires bar !in d && bam !in d
    ensures Closure(d, [foo]) == [foo, bar, baz, bam]
  {
    CycleFirstRound(d, foo, bar, baz);
    WalkUndefined(d, [foo, bar, baz], 1);
    CycleThirdRound(d, foo, bar, baz, bam);
    WalkUndefined(d, [foo, bar, baz, bam], 3);
  }

  /** The cyclic example of the test suite. */
  lemma FlattenCycleExample()
    ensures
      var d := map["foo" := Multiple(["bar", "baz"]), "baz" := Multiple(["bam", "foo"])];
      Closure(d, ["foo"]) == ["foo", "bar", "baz", "bam"]
  {
    var d := map["foo" := Multiple(["bar", "baz"]), "baz" := Multiple(["bam", "foo"])];
    FlattenCycle(d, "foo", "bar", "baz", "bam");
  }

  /** Every token of the input is in the output. */
  lemma FlattenKeepsInput(d: GroupDefinition, abilities: AbilitySet)
    ensures forall t :: t in abilities ==> t in Closure(d, abilities)
  {
    var c := Closure(d, abilities);
    forall t | t in abilities
      ensures t in c
    {
      var i :| 0 <= i < |abilities| && abilities[i] == t;
      PrefixAt(c, abilities, i);
    }
  }

  /** The first test: with no definition, the output holds the token itself. */
  lemma FlattenOwnNameExample()
    ensures "foo" in Closure(map[], ["foo"])
  {
    FlattenKeepsInput(map[], ["foo"]);
  }

  /** The second test: the members of an alias are in the output, which is
      exactly the alias and its two members. */
  lemma FlattenMembersExample()
    ensures
      var c := Closure(map["foo" := Multiple(["bar", "baz"])], ["foo"]);
      c == ["foo", "bar", "baz"] && "bar" in c && "baz" in c
  {
    var d := map["foo" := Multiple(["bar", "baz"])];
    WalkGrows(d, ["foo"], 0, ["foo", "bar", "baz"]);
    WalkLeaves(d, ["foo", "bar", "baz"], 1);
  }

  /** The third test: members of members are in the output too. */
  lemma FlattenRecursiveExample()
    ensures
      var c := Closure(map["foo" := Multiple(["bar", "baz"]), "baz" := Multiple(["bam"])], ["foo"]);
      c == ["foo", "bar", "baz", "bam"] && "bar" in c && "baz" in c && "bam" in c
  {
    var d := map["foo" := Multiple(["bar", "baz"]), "baz" := Multiple(["bam"])];
    FlattenNested(d, "foo", "bar", "baz", "bam");
  }

  /** An alias of a leaf and of an alias whose one member is a leaf. */
  lemma FlattenNested(d: GroupDefinition, foo: string, bar: string, baz: string, bam: string)
    requires Distinct([foo, bar, baz, bam])
    requires Members(d, foo) == [bar, baz] && Members(d, baz) == [bam]
    requires bar !in d && bam !in d
    ensures Closure(d, [foo]) == [foo, bar, baz, bam]
  {
    DistinctPrefix([foo, bar, baz, bam], 3);
    assert [foo, bar, baz, bam][..3] == [foo, bar, baz];
    WalkGrows(d, [foo], 0, [foo, bar, baz]);
    WalkUndefined(d, [foo, bar, baz], 1);
    WalkGrows(d, [foo, bar, baz], 2, [foo, bar, baz, bam]);
    WalkLeaves(d, [foo, bar, baz, bam], 3);
  }

  /** A chain of two aliases: `foo` names `bar`, which names two leaves. */
  lemma FlattenChain(d: GroupDefinition, foo: string, bar: string, baz: string, bam: string)
    requires Distinct([foo, bar, baz, bam])
    requires Members(d, foo) == [bar] && Members(d, bar) == [baz, bam]
    requires baz !in d && bam !in d
    ensures Closure(d, [foo]) == [foo, bar, baz, bam]
  {
    WalkGrows(d, [foo], 0, [foo, bar]);
    WalkGrows(d, [foo, bar], 1, [foo, bar, baz, bam]);
    WalkLeaves(d, [foo, bar, baz, bam], 2);
  }

  /** The example of the group definition: `bar` is expanded through `foo`,
      and `xxx`, never reached, adds nothing. */
  lemma FlattenGroupDocExample()
    ensures
      var d := map["foo" := Multiple(["bar"]), "bar" := Multiple(["baz", "bam"]), "xxx" := Multiple(["yyy"])];
      Closure(d, ["foo"]) == ["foo", "bar", "baz", "bam"]
  {
    var d := map["foo" := Multiple(["bar"]), "bar" := Multiple(["baz", "bam"]), "xxx" := Multiple(["yyy"])];
    FlattenChain(d, "foo", "bar", "baz", "bam");
  }
}
