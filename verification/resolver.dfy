/** `resolve`: expands the aliases of an ability set, takes the value
    annotations out of the expansion and substitutes their values into the
    abilities that remain. */
module Resolver {
  import opened AbleTypes
  import opened GroupExpander
  import opened ValueExtractor
  import opened ValueApplier

  /** What `resolve(definition, abilities)` returns: the closure under the
      definition, with its annotations applied to its other tokens. */
  function Resolved(d: GroupDefinition, abilities: AbilitySet): AbilitySet
  {
    var (values, remainder) := Extracted(Closure(d, abilities));
    ApplyValues(remainder, values)
  }

  /** `resolve`: flatten, then extract, then apply. */
  method Resolve(d: GroupDefinition, abilities: AbilitySet) returns (r: AbilitySet)
    ensures r == Resolved(d, abilities)
  {
    var flattened := Flatten(d, abilities);
    var values, remainder := ExtractValues(flattened);
    r := ApplyValues(remainder, values);
  }

  // ----- What resolution keeps -----

  /** A token reached through the definition that is neither an annotation
      nor holds a placeholder is part of the resolved set. */
  lemma ResolvedKeepsPlain(d: GroupDefinition, abilities: AbilitySet, t: string)
    requires t in Closure(d, abilities)
    requires !IsAnnotation(t) && !HasPlaceholder(t, 0)
    ensures t in Resolved(d, abilities)
  {
    var c := Closure(d, abilities);
    ExtractedRemainder(c);
    PlainMembers(c);
    ApplyKeepsPlain(Extracted(c).1, t, Extracted(c).0);
  }

  /** In particular every such token of the input itself. */
  lemma ResolvedKeepsInput(d: GroupDefinition, abilities: AbilitySet, t: string)
    requires t in abilities
    requires !IsAnnotation(t) && !HasPlaceholder(t, 0)
    ensures t in Resolved(d, abilities)
  {
    var c := Closure(d, abilities);
    var i :| 0 <= i < |abilities| && abilities[i] == t;
    assert c[..|abilities|][i] == t;
    ResolvedKeepsPlain(d, abilities, t);
  }

  /** Without annotations and placeholders in the closure, resolving is
      flattening. */
  lemma ResolvedPlain(d: GroupDefinition, abilities: AbilitySet)
    requires forall t :: t in Closure(d, abilities) ==> !IsAnnotation(t) && !HasPlaceholder(t, 0)
    ensures Resolved(d, abilities) == Closure(d, abilities)
  {
    var c := Closure(d, abilities);
    assert forall i :: 0 <= i < |c| ==> c[i] in c;
    ExtractedNoAnnotation(c);
    ApplyIdentity(c, map[]);
  }

  // ----- The resolve example of the test suite -----

  /** Flattening a two-level definition: the alias, its members, then the
      members of each member in turn. */
  lemma ClosureTwoLevels(d: GroupDefinition, g: string, p: string, s: string, n: string,
                         t1: string, t2: string, a1: string, a2: string)
    requires Distinct([g, p, s, n, t1, t2, a1, a2])
    requires Members(d, g) == [p, s, n] && Members(d, p) == [t1, t2]
    requires Members(d, s) == [a1] && Members(d, n) == [a2]
    requires t1 !in d && t2 !in d && a1 !in d && a2 !in d
    ensures Closure(d, [g]) == [g, p, s, n, t1, t2, a1, a2]
  {
    var c := [g, p, s, n, t1, t2, a1, a2];
    DistinctPrefix(c, 4);
    DistinctPrefix(c, 6);
    assert c[..4] == [g, p, s, n] && c[..6] == [g, p, s, n, t1, t2];
    WalkGrows(d, [g], 0, [g, p, s, n]);
    WalkGrows(d, [g, p, s, n], 1, [g, p, s, n, t1, t2]);
    SecondLevel(d, g, p, s, n, t1, t2, a1, a2);
    WalkLeaves(d, c, 4);
  }

  /** The third and fourth steps of the walk above, which add the members
      of `s` and of `n`. */
  lemma SecondLevel(d: GroupDefinition, g: string, p: string, s: string, n: string,
                    t1: string, t2: string, a1: string, a2: string)
    requires Distinct([g, p, s, n, t1, t2, a1, a2])
    requires Members(d, s) == [a1] && Members(d, n) == [a2]
    ensures Walk(d, [g, p, s, n, t1, t2], 2) == Walk(d, [g, p, s, n, t1, t2, a1, a2], 4)
  {
    var c := [g, p, s, n, t1, t2, a1, a2];
    DistinctPrefix(c, 7);
    assert c[..7] == [g, p, s, n, t1, t2, a1];
    WalkGrows(d, [g, p, s, n, t1, t2], 2, [g, p, s, n, t1, t2, a1]);
    WalkGrows(d, [g, p, s, n, t1, t2, a1], 3, c);
  }

  /** Two array annotations of one key after six plain tokens. */
  lemma ExtractTwoAnnotations(g: string, p: string, s: string, n: string, t1: string, t2: string,
                              k: string, v1: string, v2: string)
    requires !IsAnnotation(g) && !IsAnnotation(p) && !IsAnnotation(s)
    requires !IsAnnotation(n) && !IsAnnotation(t1) && !IsAnnotation(t2)
    requires Encodable(k, Multiple([v1, v2]))
    ensures Extracted([g, p, s, n, t1, t2, ArrayToken(k, v1), ArrayToken(k, v2)])
      == (map[k := Multiple([v1, v2])], [g, p, s, n, t1, t2])
  {
    var plain := [g, p, s, n, t1, t2];
    var v := Multiple([v1, v2]);
    var tokens := [ArrayToken(k, v1), ArrayToken(k, v2)];
    assert forall i :: 0 <= i < |plain| ==> !IsAnnotation(plain[i]);
    ExtractedNoAnnotation(plain);
    TwoArrayTokens(k, v1, v2);
    EntryRoundTrip(plain, k, v);
    assert Extracted(plain + tokens) == (map[][k := v], plain);
    assert plain + tokens == [g, p, s, n, t1, t2, ArrayToken(k, v1), ArrayToken(k, v2)];
  }

  /** Four plain tokens pass through; a bound placeholder of two values
      doubles its token; an unbound one drops its token. */
  lemma ApplyAfterTwoLevels(vm: ValueMap, g: string, p: string, s: string, n: string,
                            u1: string, x1: string, u2: string, x2: string, v1: string, v2: string)
    requires NoOpen(g) && NoOpen(p) && NoOpen(s) && NoOpen(n) && NoOpen(u1) && NoOpen(u2) && NoOpen("")
    requires IsName(x1) && IsName(x2)
    requires Vals(vm, x1) == [v1, v2] && x2 !in vm
    ensures ApplyValues([g, p, s, n, u1 + Placeholder(x1) + "", u2 + Placeholder(x2) + ""], vm)
      == [g, p, s, n, u1 + v1 + "", u1 + v2 + ""]
  {
    var t1, t2 := u1 + Placeholder(x1) + "", u2 + Placeholder(x2) + "";
    assert [g, p, s, n, t1, t2] == [g, p, s, n] + [t1, t2];
    ApplyConcat([g, p, s, n], [t1, t2], vm);
    NoOpenPlain(g);
    NoOpenPlain(p);
    NoOpenPlain(s);
    NoOpenPlain(n);
    ApplyIdentity([g, p, s, n], vm);
    DocShape(vm, u1, x1, "", u2, x2, "", v1, v2);
  }

  /** The three stages on abstract names: the closure, the extraction and
      the application. */
  lemma ResolveTwoLevels(d: GroupDefinition, g: string, p: string, s: string, n: string,
                         u1: string, x1: string, u2: string, x2: string, v1: string, v2: string)
    requires Distinct([g, p, s, n, u1 + Placeholder(x1) + "", u2 + Placeholder(x2) + "",
                       ArrayToken(x1, v1), ArrayToken(x1, v2)])
    requires Members(d, g) == [p, s, n]
    requires Members(d, p) == [u1 + Placeholder(x1) + "", u2 + Placeholder(x2) + ""]
    requires Members(d, s) == [ArrayToken(x1, v1)] && Members(d, n) == [ArrayToken(x1, v2)]
    requires u1 + Placeholder(x1) + "" !in d && u2 + Placeholder(x2) + "" !in d
    requires ArrayToken(x1, v1) !in d && ArrayToken(x1, v2) !in d
    requires NoOpen(g) && NoOpen(p) && NoOpen(s) && NoOpen(n) && NoOpen(u1) && NoOpen(u2) && NoOpen("")
    requires !IsAnnotation(g) && !IsAnnotation(p) && !IsAnnotation(s) && !IsAnnotation(n)
    requires !IsAnnotation(u1 + Placeholder(x1) + "") && !IsAnnotation(u2 + Placeholder(x2) + "")
    requires IsName(x1) && IsName(x2) && x1 != x2
    requires Encodable(x1, Multiple([v1, v2]))
    ensures Resolved(d, [g]) == [g, p, s, n, u1 + v1 + "", u1 + v2 + ""]
  {
    var t1, t2 := u1 + Placeholder(x1) + "", u2 + Placeholder(x2) + "";
    ClosureTwoLevels(d, g, p, s, n, t1, t2, ArrayToken(x1, v1), ArrayToken(x1, v2));
    ExtractTwoAnnotations(g, p, s, n, t1, t2, x1, v1, v2);
    var vm := map[x1 := Multiple([v1, v2])];
    assert Vals(vm, x1) == [v1, v2];
    ApplyAfterTwoLevels(vm, g, p, s, n, u1, x1, u2, x2, v1, v2);
  }

  /** The tokens of the example, written as the shapes above use them. */
  lemma ResolvePlaceholders()
    ensures "metabase:dashboard:5?districtId=" + Placeholder("districtId") + ""
      == "metabase:dashboard:5?districtId={districtId}"
    ensures "unknown:" + Placeholder("unknown") + "" == "unknown:{unknown}"
  {
  }

  lemma ResolveAnnotations()
    ensures ArrayToken("districtId", "SW") == "?districtId[]=SW"
    ensures ArrayToken("districtId", "NW") == "?districtId[]=NW"
    ensures Encodable("districtId", Multiple(["SW", "NW"]))
  {
  }

  lemma ResolveResults()
    ensures "metabase:dashboard:5?districtId=" + "SW" + "" == "metabase:dashboard:5?districtId=SW"
    ensures "metabase:dashboard:5?districtId=" + "NW" + "" == "metabase:dashboard:5?districtId=NW"
  {
  }

  lemma ResolveNoOpen()
    ensures NoOpen("westDistrictManager") && NoOpen("districtManager")
    ensures NoOpen("southWest") && NoOpen("northWest") && NoOpen("")
    ensures NoOpen("metabase:dashboard:5?districtId=") && NoOpen("unknown:")
  {
  }

  lemma ResolveNames()
    ensures IsName("districtId") && IsName("unknown")
    ensures !IsAnnotation("metabase:dashboard:5?districtId={districtId}")
    ensures !IsAnnotation("unknown:{unknown}")
  {
    assert "metabase:dashboard:5?districtId={districtId}"[0] == 'm';
  }

  lemma ResolveDistinct()
    ensures Distinct(["westDistrictManager", "districtManager", "southWest", "northWest",
                      "metabase:dashboard:5?districtId={districtId}", "unknown:{unknown}",
                      "?districtId[]=SW", "?districtId[]=NW"])
  {
  }

  /** The resolve example of the test suite: the alias, its members and
      the dashboard ability once per district, in this order; the ability
      whose value is unknown is gone. */
  lemma ResolveTestExample(d: GroupDefinition)
    requires d == map[
      "districtManager" := Multiple(["metabase:dashboard:5?districtId={districtId}", "unknown:{unknown}"]),
      "southWest" := Multiple(["?districtId[]=SW"]),
      "northWest" := Multiple(["?districtId[]=NW"]),
      "westDistrictManager" := Multiple(["districtManager", "southWest", "northWest"])]
    ensures Resolved(d, ["westDistrictManager"]) == [
      "westDistrictManager", "districtManager", "southWest", "northWest",
      "metabase:dashboard:5?districtId=SW", "metabase:dashboard:5?districtId=NW"]
  {
    ResolvePlaceholders();
    ResolveAnnotations();
    ResolveResults();
    ResolveNoOpen();
    ResolveNames();
    ResolveDistinct();
    ResolveTwoLevels(d, "westDistrictManager", "districtManager", "southWest", "northWest",
                     "metabase:dashboard:5?districtId=", "districtId", "unknown:", "unknown", "SW", "NW");
  }
  // ----- The resolve example of the documentation -----

  /** An alias with one templated member, and the value of its placeholder
      annotated in the input itself. */
  lemma ResolveOneTemplate(d: GroupDefinition, g: string, u: string, x: string, w: string, v: string)
    requires Distinct([g, ArrayToken(x, v), u + Placeholder(x) + w])
    requires Members(d, g) == [u + Placeholder(x) + w]
    requires ArrayToken(x, v) !in d && u + Placeholder(x) + w !in d
    requires !IsAnnotation(g) && !IsAnnotation(u + Placeholder(x) + w)
    requires NoOpen(g) && NoOpen(u) && IsName(x) && NoOpen(w)
    requires Encodable(x, Multiple([v]))
    ensures Resolved(d, [g, ArrayToken(x, v)]) == [g, u + v + w]
  {
    var a, t := ArrayToken(x, v), u + Placeholder(x) + w;
    WalkGrows(d, [g, a], 0, [g, a, t]);
    WalkLeaves(d, [g, a, t], 1);
    assert Closure(d, [g, a]) == [g, a, t];
    ExtractOneTemplate(g, a, t, x, v);
    ApplyOneTemplate(map[x := Multiple([v])], g, u, x, w, v);
  }

  lemma ExtractOneTemplate(g: string, a: string, t: string, x: string, v: string)
    requires !IsAnnotation(g) && !IsAnnotation(t) && a == ArrayToken(x, v)
    requires Encodable(x, Multiple([v]))
    ensures Extracted([g, a, t]) == (map[x := Multiple([v])], [g, t])
  {
    var s1 := [g];
    var s2 := s1 + [a];
    var s3 := s2 + [t];
    var m: ValueMap := map[x := Multiple([v])];
    PlainOne(g);
    ArrayAfter(s1, x, v, map[], [g]);
    assert map[][x := Multiple([v])] == m;
    PlainAfter(s2, t, m, [g]);
    assert s3 == [g, a, t] && [g] + [t] == [g, t];
  }

  lemma PlainOne(g: string)
    requires !IsAnnotation(g)
    ensures Extracted([g]) == (map[], [g])
  {
    assert Extracted([]) == (map[], []);
    PlainAfter([], g, map[], []);
    assert [] + [g] == [g];
  }

  lemma ApplyOneTemplate(vm: ValueMap, g: string, u: string, x: string, w: string, v: string)
    requires NoOpen(g) && NoOpen(u) && IsName(x) && NoOpen(w)
    requires Vals(vm, x) == [v]
    ensures ApplyValues([g, u + Placeholder(x) + w], vm) == [g, u + v + w]
  {
    var t := u + Placeholder(x) + w;
    NoOpenPlain(g);
    ApplyIdentity([g], vm);
    assert [g, t] == [g] + [t];
    ApplyConcat([g], [t], vm);
    ApplyOne(t, vm);
    ExpandOne(vm, u, x, w);
    Row1(u, v, w);
  }

  lemma ResolveDocPieces()
    ensures ArrayToken("articleId", "4") == "?articleId[]=4"
    ensures "article:" + Placeholder("articleId") + ":write" == "article:{articleId}:write"
  {
  }

  lemma ResolveDocResult()
    ensures "article:" + "4" + ":write" == "article:4:write"
    ensures Encodable("articleId", Multiple(["4"]))
  {
  }

  lemma ResolveDocTokens()
    ensures Distinct(["writer", "?articleId[]=4", "article:{articleId}:write"])
    ensures NoOpen("writer") && NoOpen("article:") && NoOpen(":write") && IsName("articleId")
    ensures !IsAnnotation("writer") && !IsAnnotation("article:{articleId}:write")
  {
  }

  /** The example of the documentation of `resolve`: the writer alias
      expands to a template, whose placeholder takes the value annotated in
      the input; the annotation itself is gone. */
  lemma ResolveDocExample(d: GroupDefinition, abilities: AbilitySet)
    requires d == map["writer" := Multiple(["article:{articleId}:write"])]
    requires |abilities| == 2 && abilities[0] == "writer" && abilities[1] == "?articleId[]=4"
    ensures Resolved(d, abilities) == ["writer", "article:4:write"]
  {
    ResolveDocPieces();
    ResolveDocResult();
    ResolveDocTokens();
    assert abilities == ["writer", ArrayToken("articleId", "4")];
    ResolveOneTemplate(d, "writer", "article:", "articleId", ":write", "4");
  }
}
