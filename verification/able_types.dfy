/** Shared vocabulary of the ability resolver: ability sets, group
    definitions, value maps, and the normalisation of a stored entry
    into a list of strings. */
module AbleTypes {

  datatype Option<+T> = None | Some(value: T)

  /** An ordered list of ability tokens; duplicates are possible. */
  type AbilitySet = seq<string>

  /** What a group definition or a value map stores under a key: a single
      string or a list of strings. */
  datatype Value = Single(s: string) | Multiple(items: seq<string>)

  /** Alias token to its members. A `null` or `undefined` entry behaves
      exactly as a missing key, so both are modelled by absence. */
  type GroupDefinition = map<string, Value>

  /** Value key to the value(s) extracted from annotation tokens. */
  type ValueMap = map<string, Value>

  function Lookup(m: map<string, Value>, k: string): (r: Option<Value>)
    ensures r.Some? <==> k in m
    ensures r.Some? ==> r.value == m[k]
  {
    if k in m then Some(m[k]) else None
  }

  /** Normalises a possibly missing entry into a list: nothing gives the
      empty list, a single string `s` (the empty string included) gives
      `[s]`, and a list is returned as it is. */
  function Arr(v: Option<Value>): (r: seq<string>)
    ensures r == [] <==> v == None || v == Some(Multiple([]))
    ensures v.Some? && v.value.Single? ==> |r| == 1 && r[0] == v.value.s
    ensures v.Some? && v.value.Multiple? ==> r == v.value.items
  {
    match v
    case None => []
    case Some(Single(s)) => [s]
    case Some(Multiple(items)) => items
  }

  /** The members an alias expands to (`arr(definition[ability])`). */
  function Members(d: GroupDefinition, ability: string): seq<string>
  {
    Arr(Lookup(d, ability))
  }

  /** The first index at or after `from` where `s` holds `c`, if any. */
  function IndexOf(s: string, c: char, from: nat): Option<nat>
    decreases |s| - from
  {
    if from >= |s| then None
    else if s[from] == c then Some(from)
    else IndexOf(s, c, from + 1)
  }

  /** The index found holds `c` and no index before it from `from` on does;
      when none is found, `c` does not occur from `from` on. */
  lemma {:induction false} IndexOfSpec(s: string, c: char, from: nat)
    ensures var r := IndexOf(s, c, from);
      && (r.Some? ==> from <= r.value < |s| && s[r.value] == c)
      && (r.Some? ==> forall j :: from <= j < r.value ==> s[j] != c)
      && (r.None? ==> forall j :: from <= j < |s| ==> s[j] != c)
    decreases |s| - from
  {
    if from < |s| && s[from] != c {
      IndexOfSpec(s, c, from + 1);
    }
  }

  /** The elements of a sequence, as a set. */
  function Elems(s: seq<string>): set<string>
  {
    set x | x in s
  }

  // ----- Sequence facts shared by the modules -----

  /** An index inside a prefix reads the same in the longer sequence. */
  lemma PrefixAt<T>(a: seq<T>, r: seq<T>, k: nat)
    requires |r| <= |a| && a[..|r|] == r && k < |r|
    ensures a[k] == r[k]
  {
    assert a[k] == a[..|r|][k];
  }

  lemma ConcatAssoc<T>(x: seq<T>, y: seq<T>, z: seq<T>)
    ensures (x + y) + z == x + (y + z)
  {
  }

  /** A non-empty sequence is its front followed by its last element. */
  lemma InitLast<T>(s: seq<T>)
    requires s != []
    ensures s[..|s| - 1] + [s[|s| - 1]] == s
  {
  }

  lemma AppendLast<T>(p: seq<T>, q: seq<T>)
    requires q != []
    ensures p + q == (p + q[..|q| - 1]) + [q[|q| - 1]]
  {
  }

  lemma InitOfConcat<T>(a: seq<T>, b: seq<T>)
    requires b != []
    ensures (a + b)[..|a + b| - 1] == a + b[..|b| - 1]
    ensures (a + b)[|a + b| - 1] == b[|b| - 1]
  {
  }

  /** `s[..k + 1]` extends `s[..k]` by `s[k]`. */
  lemma TakeSnoc<T>(s: seq<T>, k: nat)
    requires k < |s|
    ensures s[..k + 1] == s[..k] + [s[k]]
  {
  }

  lemma TakeAll<T>(s: seq<T>)
    ensures s[..|s|] == s
  {
  }

  lemma MultisetCons<T>(s: seq<T>)
    requires s != []
    ensures multiset(s) == multiset([s[0]]) + multiset(s[1..])
  {
    assert s == [s[0]] + s[1..];
  }
}
