/** Value application (`applyValues`): every `{name}` placeholder of a
    token is replaced by each value bound to `name`, giving the cartesian
    product over the placeholders of the token; a token with a placeholder
    that has no value is dropped. */
module ValueApplier {
  import opened AbleTypes

  /** The values a placeholder named `k` takes (`arr(values[k])`). */
  function Vals(vm: ValueMap, k: string): seq<string>
  {
    Arr(Lookup(vm, k))
  }

  /** The literal text `{k}` that the substitution for `k` looks for. */
  function Placeholder(k: string): string
  {
    "{" + k + "}"
  }

  // ----- The placeholder pattern `\{([^}]+)\}`, matched globally -----

  /** `s[i..j + 1]` is a match of the pattern: an opening brace, at least one
      character that is not a closing brace, and a closing brace. */
  ghost predicate PlaceholderAt(s: string, i: nat, j: nat)
  {
    i + 1 < j < |s| && s[i] == '{' && s[j] == '}'
    && forall m :: i < m < j ==> s[m] != '}'
  }

  /** Some match of the pattern starts at or after `p`. */
  ghost predicate HasPlaceholder(s: string, p: nat)
  {
    exists i, j :: p <= i && PlaceholderAt(s, i, j)
  }

  /** The names inside the matches from `p` on, left to right, as a global
      match yields them with their braces stripped. A match runs from an
      opening brace to the next closing brace; an opening brace followed
      directly by a closing one, or by none at all, starts no match. */
  function Scan(s: string, p: nat): seq<string>
    decreases |s| - p
  {
    if p >= |s| then []
    else if s[p] == '{' then
      IndexOfSpec(s, '}', p + 1);
      match IndexOf(s, '}', p + 1)
      case Some(q) =>
        if q > p + 1 then [s[p + 1..q]] + Scan(s, q + 1) else Scan(s, p + 1)
      case None => Scan(s, p + 1)
    else Scan(s, p + 1)
  }

  /** The scan finds nothing exactly when the pattern does not occur. */
  lemma {:induction false} ScanEmpty(s: string, p: nat)
    ensures Scan(s, p) == [] <==> !HasPlaceholder(s, p)
    decreases |s| - p
  {
    if p < |s| {
      ScanEmpty(s, p + 1);
      if s[p] == '{' {
        IndexOfSpec(s, '}', p + 1);
        match IndexOf(s, '}', p + 1)
        case Some(q) =>
          if q > p + 1 {
            assert PlaceholderAt(s, p, q);
          } else {
            NoneAt(s, p);
          }
        case None =>
          NoneAt(s, p);
      } else {
        NoneAt(s, p);
      }
    }
  }

  /** When no match starts at `p`, the matches from `p` on start after it. */
  lemma NoneAt(s: string, p: nat)
    requires p < |s|
    requires s[p] != '{' || (p + 1 < |s| && s[p + 1] == '}')
      || (forall m :: p + 1 <= m < |s| ==> s[m] != '}')
    ensures HasPlaceholder(s, p) <==> HasPlaceholder(s, p + 1)
  {
    if HasPlaceholder(s, p) {
      var i: nat, j: nat :| p <= i && PlaceholderAt(s, i, j);
      assert p + 1 <= i && PlaceholderAt(s, i, j);
    }
  }

  /** Every name found is the inside of a match of the pattern. */
  lemma {:induction false} ScanSound(s: string, p: nat)
    ensures forall n :: n in Scan(s, p) ==>
      exists i: nat, j: nat :: p <= i && PlaceholderAt(s, i, j) && n == s[i + 1..j]
    decreases |s| - p
  {
    if p < |s| {
      ScanSound(s, p + 1);
      if s[p] == '{' {
        IndexOfSpec(s, '}', p + 1);
        match IndexOf(s, '}', p + 1)
        case Some(q) =>
          if q > p + 1 {
            ScanSound(s, q + 1);
            assert PlaceholderAt(s, p, q);
          }
        case None =>
      }
    }
  }

  // ----- `String.prototype.replace` with a string pattern -----

  /** `pat` occurs in `s` at index `i`. */
  predicate Occurs(s: string, pat: string, i: nat)
  {
    i + |pat| <= |s| && s[i..i + |pat|] == pat
  }

  /** The first index at or after `from` where `pat` occurs. */
  function Find(s: string, pat: string, from: nat): (r: Option<nat>)
    ensures r.Some? ==> from <= r.value && Occurs(s, pat, r.value)
    decreases |s| - from
  {
    if from + |pat| > |s| then None
    else if s[from..from + |pat|] == pat then Some(from)
    else Find(s, pat, from + 1)
  }

  /** The index found is the first occurrence from `from` on, and nothing is
      found only when there is no occurrence. */
  lemma {:induction false} FindFirst(s: string, pat: string, from: nat)
    ensures Find(s, pat, from).Some? ==>
      forall j :: from <= j < Find(s, pat, from).value ==> !Occurs(s, pat, j)
    ensures Find(s, pat, from).None? ==> forall j :: from <= j ==> !Occurs(s, pat, j)
    decreases |s| - from
  {
    if from + |pat| <= |s| && s[from..from + |pat|] != pat {
      FindFirst(s, pat, from + 1);
    }
  }

  /** `s.replace(pat, v)`: the first occurrence of `pat`, if any, is
      replaced by `v`; without an occurrence `s` is returned unchanged. */
  function ReplaceFirst(s: string, pat: string, v: string): string
  {
    match Find(s, pat, 0)
    case None => s
    case Some(i) => s[..i] + v + s[i + |pat|..]
  }

  /** Replacing where the first occurrence is at `i`. */
  lemma ReplaceAt(s: string, pat: string, v: string, i: nat)
    requires Occurs(s, pat, i)
    requires forall j :: 0 <= j < i ==> !Occurs(s, pat, j)
    ensures ReplaceFirst(s, pat, v) == s[..i] + v + s[i + |pat|..]
  {
    FindFirst(s, pat, 0);
  }

  /** Replacing a pattern that does not occur changes nothing. */
  lemma ReplaceAbsent(s: string, pat: string, v: string)
    requires forall j :: !Occurs(s, pat, j)
    ensures ReplaceFirst(s, pat, v) == s
  {
  }

  // ----- The nested reductions of `applyValues` -----

  /** Each value of `vs`, in order, put in place of the first `{k}` of `a`
      (the innermost `map`). */
  function Substitutions(a: string, k: string, vs: seq<string>): (r: seq<string>)
    ensures |r| == |vs|
  {
    if vs == [] then [] else [ReplaceFirst(a, Placeholder(k), vs[0])] + Substitutions(a, k, vs[1..])
  }

  /** One placeholder over all partial results: the substitutions of each
      partial result, concatenated in order (the middle `reduce`). */
  function Step(acc: seq<string>, k: string, vs: seq<string>): (r: seq<string>)
    ensures |r| == |acc| * |vs|
  {
    if acc == [] then []
    else
      var r := Substitutions(acc[0], k, vs) + Step(acc[1..], k, vs);
      assert |acc| * |vs| == |vs| + (|acc| - 1) * |vs|;
      r
  }

  /** The placeholder names in order, starting from the partial results
      `acc` (the `reduce` over the matches, seeded with `[ability]`). */
  function FoldNames(vm: ValueMap, acc: seq<string>, names: seq<string>): seq<string>
    decreases names
  {
    if names == [] then acc
    else FoldNames(vm, Step(acc, names[0], Vals(vm, names[0])), names[1..])
  }

  /** What one token contributes: itself when it holds no placeholder,
      otherwise the fold over its placeholder names. */
  function ExpandToken(vm: ValueMap, t: string): seq<string>
  {
    var names := Scan(t, 0);
    if names == [] then [t] else FoldNames(vm, [t], names)
  }

  /** `applyValues(abilities, values)`: the outer `reduce`, which appends
      each token's contribution in order. */
  function ApplyValues(abilities: AbilitySet, vm: ValueMap): AbilitySet
  {
    if abilities == [] then []
    else ApplyValues(abilities[..|abilities| - 1], vm) + ExpandToken(vm, abilities[|abilities| - 1])
  }

  // ----- Size of a token's block -----

  /** The product, over the names, of the number of values each takes. */
  function Count(vm: ValueMap, names: seq<string>): nat
  {
    if names == [] then 1 else |Vals(vm, names[0])| * Count(vm, names[1..])
  }

  lemma {:induction false} FoldCount(vm: ValueMap, acc: seq<string>, names: seq<string>)
    ensures |FoldNames(vm, acc, names)| == |acc| * Count(vm, names)
    decreases names
  {
    if names != [] {
      var vs := Vals(vm, names[0]);
      FoldCount(vm, Step(acc, names[0], vs), names[1..]);
      MulAssoc(|acc|, |vs|, Count(vm, names[1..]));
    }
  }

  lemma MulAssoc(a: nat, b: nat, c: nat)
    ensures a * b * c == a * (b * c)
  {
  }

  /** A token yields as many results as the product, over its matches
      (repeats included), of the number of values of each. */
  lemma ExpandCount(vm: ValueMap, t: string)
    ensures |ExpandToken(vm, t)| == Count(vm, Scan(t, 0))
  {
    FoldCount(vm, [t], Scan(t, 0));
  }

  lemma {:induction false} CountZero(vm: ValueMap, names: seq<string>)
    ensures Count(vm, names) == 0 <==> exists k :: k in names && Vals(vm, k) == []
    decreases names
  {
    if names != [] {
      CountZero(vm, names[1..]);
      assert names == [names[0]] + names[1..];
    }
  }

  /** A token is dropped exactly when one of its placeholder names is
      missing from the values or bound to the empty list. */
  lemma ExpandDropped(vm: ValueMap, t: string)
    ensures ExpandToken(vm, t) == [] <==>
      exists k :: k in Scan(t, 0) && (k !in vm || vm[k] == Multiple([]))
  {
    ExpandCount(vm, t);
    CountZero(vm, Scan(t, 0));
  }

  /** A token without a match of the pattern passes through unchanged. */
  lemma ExpandPlain(vm: ValueMap, t: string)
    requires !HasPlaceholder(t, 0)
    ensures ExpandToken(vm, t) == [t]
  {
    ScanEmpty(t, 0);
  }

  // ----- Order of a token's block -----

  /** Reference order: for each value of the first name, in order, every
      expansion of the remaining names; the first placeholder is the
      outermost loop. */
  function Expand(vm: ValueMap, a: string, names: seq<string>): seq<string>
    decreases |names|, 0
  {
    if names == [] then [a]
    else ExpandWith(vm, a, names[0], Vals(vm, names[0]), names[1..])
  }

  function ExpandWith(vm: ValueMap, a: string, k: string, vs: seq<string>, rest: seq<string>): seq<string>
    decreases |rest|, |vs| + 1
  {
    if vs == [] then []
    else Expand(vm, ReplaceFirst(a, Placeholder(k), vs[0]), rest) + ExpandWith(vm, a, k, vs[1..], rest)
  }

  /** The reference expansions of several partial results, in order. */
  function ExpandAll(vm: ValueMap, acc: seq<string>, names: seq<string>): seq<string>
  {
    if acc == [] then [] else Expand(vm, acc[0], names) + ExpandAll(vm, acc[1..], names)
  }

  lemma {:induction false} ExpandAllConcat(vm: ValueMap, x: seq<string>, y: seq<string>, names: seq<string>)
    ensures ExpandAll(vm, x + y, names) == ExpandAll(vm, x, names) + ExpandAll(vm, y, names)
    decreases x
  {
    if x == [] {
      assert x + y == y;
    } else {
      assert (x + y)[0] == x[0] && (x + y)[1..] == x[1..] + y;
      ExpandAllConcat(vm, x[1..], y, names);
    }
  }

  lemma {:induction false} ExpandAllSubstitutions(vm: ValueMap, a: string, k: string, vs: seq<string>, rest: seq<string>)
    ensures ExpandAll(vm, Substitutions(a, k, vs), rest) == ExpandWith(vm, a, k, vs, rest)
    decreases vs
  {
    if vs != [] {
      ExpandAllSubstitutions(vm, a, k, vs[1..], rest);
    }
  }

  lemma {:induction false} ExpandAllStep(vm: ValueMap, acc: seq<string>, names: seq<string>)
    requires names != []
    ensures ExpandAll(vm, Step(acc, names[0], Vals(vm, names[0])), names[1..]) == ExpandAll(vm, acc, names)
    decreases acc
  {
    if acc != [] {
      var vs := Vals(vm, names[0]);
      ExpandAllConcat(vm, Substitutions(acc[0], names[0], vs), Step(acc[1..], names[0], vs), names[1..]);
      ExpandAllSubstitutions(vm, acc[0], names[0], vs, names[1..]);
      ExpandAllStep(vm, acc[1..], names);
    }
  }

  lemma {:induction false} FoldExpand(vm: ValueMap, acc: seq<string>, names: seq<string>)
    ensures FoldNames(vm, acc, names) == ExpandAll(vm, acc, names)
    decreases names
  {
    if names == [] {
      ExpandAllSame(vm, acc);
    } else {
      FoldExpand(vm, Step(acc, names[0], Vals(vm, names[0])), names[1..]);
      ExpandAllStep(vm, acc, names);
    }
  }

  lemma {:induction false} ExpandAllSame(vm: ValueMap, acc: seq<string>)
    ensures ExpandAll(vm, acc, []) == acc
    decreases acc
  {
    if acc != [] {
      ExpandAllSame(vm, acc[1..]);
      assert acc == [acc[0]] + acc[1..];
    }
  }

  /** A token's block lists, for each value of its first placeholder in
      order, the expansions of the remaining placeholders. */
  lemma ExpandOrder(vm: ValueMap, t: string)
    ensures ExpandToken(vm, t) == Expand(vm, t, Scan(t, 0))
  {
    FoldExpand(vm, [t], Scan(t, 0));
  }

  // ----- The whole list -----

  lemma {:induction false} ApplyConcat(a: AbilitySet, b: AbilitySet, vm: ValueMap)
    ensures ApplyValues(a + b, vm) == ApplyValues(a, vm) + ApplyValues(b, vm)
    decreases |b|
  {
    if b == [] {
      assert a + b == a;
    } else {
      var init, last := b[..|b| - 1], b[|b| - 1];
      InitOfConcat(a, b);
      ApplyConcat(a, init, vm);
      calc {
        ApplyValues(a + b, vm);
        ApplyValues(a + init, vm) + ExpandToken(vm, last);
        (ApplyValues(a, vm) + ApplyValues(init, vm)) + ExpandToken(vm, last);
        { ConcatAssoc(ApplyValues(a, vm), ApplyValues(init, vm), ExpandToken(vm, last)); }
        ApplyValues(a, vm) + (ApplyValues(init, vm) + ExpandToken(vm, last));
        ApplyValues(a, vm) + ApplyValues(b, vm);
      }
    }
  }

  /** Each token's results form one block, in the position of the token. */
  lemma ApplyBlock(p: AbilitySet, t: string, q: AbilitySet, vm: ValueMap)
    ensures ApplyValues(p + [t] + q, vm) == ApplyValues(p, vm) + ExpandToken(vm, t) + ApplyValues(q, vm)
  {
    ApplyConcat(p + [t], q, vm);
    ApplyConcat(p, [t], vm);
    assert [t][..0] == [];
  }

  /** A token without placeholder survives the application. */
  lemma ApplyKeepsPlain(s: AbilitySet, t: string, vm: ValueMap)
    requires t in s && !HasPlaceholder(t, 0)
    ensures t in ApplyValues(s, vm)
  {
    var i :| 0 <= i < |s| && s[i] == t;
    assert s == s[..i] + [t] + s[i + 1..];
    ApplyBlock(s[..i], t, s[i + 1..], vm);
    ExpandPlain(vm, t);
  }

  /** Without any placeholder the list passes through unchanged. */
  lemma {:induction false} ApplyIdentity(s: AbilitySet, vm: ValueMap)
    requires forall t :: t in s ==> !HasPlaceholder(t, 0)
    ensures ApplyValues(s, vm) == s
    decreases |s|
  {
    if s != [] {
      var init, last := s[..|s| - 1], s[|s| - 1];
      assert forall t :: t in init ==> t in s;
      ApplyIdentity(init, vm);
      ExpandPlain(vm, last);
      InitLast(s);
    }
  }

  // ----- Tokens built from plain text and placeholders -----

  /** `s` holds no opening brace, so no match of the pattern starts in it. */
  predicate NoOpen(s: string)
  {
    forall i :: 0 <= i < |s| ==> s[i] != '{'
  }

  /** A name that the pattern can match whole: not empty, no closing brace. */
  predicate IsName(x: string)
  {
    |x| > 0 && forall i :: 0 <= i < |x| ==> x[i] != '}'
  }

  lemma {:induction false} IndexOfAt(s: string, c: char, from: nat, q: nat)
    requires from <= q < |s| && s[q] == c
    requires forall j :: from <= j < q ==> s[j] != c
    ensures IndexOf(s, c, from) == Some(q)
    decreases q - from
  {
    if from < q {
      IndexOfAt(s, c, from + 1, q);
    }
  }

  lemma {:induction false} IndexOfShift(a: string, b: string, c: char, p: nat)
    ensures IndexOf(a + b, c, |a| + p) ==
      match IndexOf(b, c, p) case None => None case Some(q) => Some(|a| + q)
    decreases |b| - p
  {
    if p < |b| && b[p] != c {
      IndexOfShift(a, b, c, p + 1);
    }
  }

  /** The scan of a suffix does not depend on what precedes it. */
  lemma {:induction false} ScanShift(a: string, b: string, p: nat)
    ensures Scan(a + b, |a| + p) == Scan(b, p)
    decreases |b| - p
  {
    if p < |b| {
      ScanShift(a, b, p + 1);
      if b[p] != '{' {
        ShiftPlain(a, b, p);
      } else {
        IndexOfSpec(b, '}', p + 1);
        var found := IndexOf(b, '}', p + 1);
        if found.Some? && found.value > p + 1 {
          ScanShift(a, b, found.value + 1);
          ShiftMatch(a, b, p, found.value);
        } else {
          ShiftNoMatch(a, b, p);
        }
      }
    }
  }

  lemma ShiftMatch(a: string, b: string, p: nat, q: nat)
    requires p + 1 < q < |b| && b[p] == '{' && IndexOf(b, '}', p + 1) == Some(q)
    requires Scan(a + b, |a| + q + 1) == Scan(b, q + 1)
    ensures Scan(a + b, |a| + p) == Scan(b, p)
  {
    var s := a + b;
    IndexOfShift(a, b, '}', p + 1);
    SliceShift(a, b, p, p + 1, q);
    assert s[|a| + p] == '{' && IndexOf(s, '}', |a| + p + 1) == Some(|a| + q);
    calc {
      Scan(s, |a| + p);
      { ScanMatchAt(s, |a| + p, |a| + q); }
      [s[|a| + p + 1..|a| + q]] + Scan(s, |a| + q + 1);
      [b[p + 1..q]] + Scan(b, q + 1);
      { ScanMatchAt(b, p, q); }
      Scan(b, p);
    }
  }

  /** Unfolding the scan at a match from `p` to `q`. */
  lemma ScanMatchAt(s: string, p: nat, q: nat)
    requires p + 1 < q < |s| && s[p] == '{' && IndexOf(s, '}', p + 1) == Some(q)
    ensures Scan(s, p) == [s[p + 1..q]] + Scan(s, q + 1)
  {
  }

  lemma SliceShift<T>(a: seq<T>, b: seq<T>, p: nat, i: nat, j: nat)
    requires p < |b| && i <= j <= |b|
    ensures (a + b)[|a| + p] == b[p]
    ensures (a + b)[|a| + i..|a| + j] == b[i..j]
  {
  }

  lemma ShiftPlain(a: string, b: string, p: nat)
    requires p < |b| && b[p] != '{'
    requires Scan(a + b, |a| + p + 1) == Scan(b, p + 1)
    ensures Scan(a + b, |a| + p) == Scan(b, p)
  {
    assert (a + b)[|a| + p] == b[p];
  }

  lemma ShiftNoMatch(a: string, b: string, p: nat)
    requires p < |b| && b[p] == '{'
    requires IndexOf(b, '}', p + 1) == None || IndexOf(b, '}', p + 1) == Some(p + 1)
    requires Scan(a + b, |a| + p + 1) == Scan(b, p + 1)
    ensures Scan(a + b, |a| + p) == Scan(b, p)
  {
    IndexOfShift(a, b, '}', p + 1);
  }

  /** Text without an opening brace is skipped. */
  lemma {:induction false} ScanSkip(s: string, p: nat, e: nat)
    requires p <= e <= |s|
    requires forall i :: p <= i < e ==> s[i] != '{'
    ensures Scan(s, p) == Scan(s, e)
    decreases e - p
  {
    if p < e {
      ScanSkip(s, p + 1, e);
    }
  }

  /** Text without an opening brace holds no placeholder. */
  lemma ScanNoOpen(s: string)
    requires NoOpen(s)
    ensures Scan(s, 0) == []
  {
    ScanSkip(s, 0, |s|);
  }

  /** Text without an opening brace holds no match of the pattern. */
  lemma NoOpenPlain(s: string)
    requires NoOpen(s)
    ensures !HasPlaceholder(s, 0)
  {
    ScanNoOpen(s);
    ScanEmpty(s, 0);
  }

  /** Plain text, a placeholder, then the rest: the name comes first. */
  lemma ScanPlaceholder(u: string, x: string, w: string)
    requires NoOpen(u) && IsName(x)
    ensures Scan(u + Placeholder(x) + w, 0) == [x] + Scan(w, 0)
  {
    var s := u + Placeholder(x) + w;
    var p, q := |u|, |u| + |x| + 1;
    ScanSkip(s, 0, p);
    assert s[p] == '{' && s[q] == '}' && s[p + 1..q] == x;
    IndexOfAt(s, '}', p + 1, q);
    assert s == (u + Placeholder(x)) + w;
    ScanShift(u + Placeholder(x), w, 0);
  }

  /** Replacing the placeholder of `x` in plain text, a placeholder, then
      the rest. */
  lemma ReplaceIn(u: string, x: string, w: string, v: string)
    requires NoOpen(u)
    ensures ReplaceFirst(u + Placeholder(x) + w, Placeholder(x), v) == u + v + w
  {
    var s := u + Placeholder(x) + w;
    var pat := Placeholder(x);
    assert s[|u|..|u| + |pat|] == pat;
    forall j | 0 <= j < |u|
      ensures !Occurs(s, pat, j)
    {
      assert s[j] == u[j] != '{' == pat[0];
    }
    ReplaceAt(s, pat, v, |u|);
    assert s[..|u|] == u && s[|u| + |pat|..] == w;
  }

  lemma StepSingle(a: string, k: string, vs: seq<string>)
    ensures Step([a], k, vs) == Substitutions(a, k, vs)
  {
    assert [a][1..] == [];
  }

  lemma NoOpenConcat(a: string, b: string)
    requires NoOpen(a) && NoOpen(b)
    ensures NoOpen(a + b)
  {
  }

  lemma FoldOne(vm: ValueMap, acc: seq<string>, x: string)
    ensures FoldNames(vm, acc, [x]) == Step(acc, x, Vals(vm, x))
  {
    assert [x][0] == x && [x][1..] == [];
  }

  lemma FoldTwo(vm: ValueMap, acc: seq<string>, x: string, y: string)
    ensures FoldNames(vm, acc, [x, y]) == Step(Step(acc, x, Vals(vm, x)), y, Vals(vm, y))
  {
    assert [x, y][0] == x && [x, y][1..] == [y];
    FoldOne(vm, Step(acc, x, Vals(vm, x)), y);
  }

  /** `u + v + w` for each `v` of `vs`, in order. */
  function Row(u: string, vs: seq<string>, w: string): (r: seq<string>)
    ensures |r| == |vs|
  {
    if vs == [] then [] else [u + vs[0] + w] + Row(u, vs[1..], w)
  }

  /** `u + a + m + b + w` for each `a` of `xs` and `b` of `ys`, with `xs`
      the outer loop: one row per value of `xs`. */
  function Product(u: string, xs: seq<string>, m: string, ys: seq<string>, w: string): (r: seq<string>)
    ensures |r| == |xs| * |ys|
  {
    if xs == [] then []
    else
      var r := Row(u + xs[0] + m, ys, w) + Product(u, xs[1..], m, ys, w);
      assert |xs| * |ys| == |ys| + (|xs| - 1) * |ys|;
      r
  }

  /** Substituting each value into plain text, a placeholder, then plain
      text. */
  lemma {:induction false} SubstitutionsRow(u: string, x: string, w: string, vs: seq<string>)
    requires NoOpen(u)
    ensures Substitutions(u + Placeholder(x) + w, x, vs) == Row(u, vs, w)
    decreases vs
  {
    if vs != [] {
      ReplaceIn(u, x, w, vs[0]);
      SubstitutionsRow(u, x, w, vs[1..]);
    }
  }

  /** A token with one placeholder between plain texts yields one result
      per value, in order, with that value in place of the placeholder. */
  lemma ExpandOne(vm: ValueMap, u: string, x: string, w: string)
    requires NoOpen(u) && IsName(x) && NoOpen(w)
    ensures ExpandToken(vm, u + Placeholder(x) + w) == Row(u, Vals(vm, x), w)
  {
    var t := u + Placeholder(x) + w;
    ScanPlaceholder(u, x, w);
    ScanNoOpen(w);
    assert Scan(t, 0) == [x];
    FoldOne(vm, [t], x);
    StepSingle(t, x, Vals(vm, x));
    SubstitutionsRow(u, x, w, Vals(vm, x));
  }

  /** The scan of a token with two placeholders between plain texts. */
  lemma ScanTwo(u: string, x: string, m: string, y: string, w: string)
    requires NoOpen(u) && NoOpen(m) && NoOpen(w) && IsName(x) && IsName(y)
    ensures Scan(u + Placeholder(x) + m + Placeholder(y) + w, 0) == [x, y]
  {
    var rest := m + Placeholder(y) + w;
    assert u + Placeholder(x) + m + Placeholder(y) + w == u + Placeholder(x) + rest;
    ScanPlaceholder(u, x, rest);
    ScanPlaceholder(m, y, w);
    ScanNoOpen(w);
  }

  /** Putting value `v` in place of the first of two placeholders. */
  lemma ReplaceFirstOfTwo(u: string, x: string, m: string, y: string, w: string, v: string)
    requires NoOpen(u) && NoOpen(m) && NoOpen(v)
    ensures ReplaceFirst(u + Placeholder(x) + m + Placeholder(y) + w, Placeholder(x), v)
      == (u + v + m) + Placeholder(y) + w
  {
    var rest := m + Placeholder(y) + w;
    ConcatAssoc(u + Placeholder(x), m + Placeholder(y), w);
    ConcatAssoc(u + Placeholder(x), m, Placeholder(y));
    ReplaceIn(u, x, rest, v);
    ConcatAssoc(u + v, m + Placeholder(y), w);
    ConcatAssoc(u + v, m, Placeholder(y));
  }

  lemma StepCons(a: string, rest: seq<string>, k: string, vs: seq<string>)
    ensures Step([a] + rest, k, vs) == Substitutions(a, k, vs) + Step(rest, k, vs)
  {
    assert ([a] + rest)[0] == a && ([a] + rest)[1..] == rest;
  }

  /** The second step over the first step's results gives the rows. */
  lemma {:induction false} TwoSteps(u: string, x: string, m: string, y: string, w: string, xs: seq<string>, ys: seq<string>)
    requires NoOpen(u) && NoOpen(m)
    requires forall v :: v in xs ==> NoOpen(v)
    ensures Step(Substitutions(u + Placeholder(x) + m + Placeholder(y) + w, x, xs), y, ys)
      == Product(u, xs, m, ys, w)
    decreases xs
  {
    if xs != [] {
      var t := u + Placeholder(x) + m + Placeholder(y) + w;
      ReplaceFirstOfTwo(u, x, m, y, w, xs[0]);
      NoOpenConcat(u, xs[0]);
      NoOpenConcat(u + xs[0], m);
      StepCons(ReplaceFirst(t, Placeholder(x), xs[0]), Substitutions(t, x, xs[1..]), y, ys);
      SubstitutionsRow(u + xs[0] + m, y, w, ys);
      assert forall v :: v in xs[1..] ==> v in xs;
      TwoSteps(u, x, m, y, w, xs[1..], ys);
    }
  }

  /** A token with two placeholders between plain texts yields the product
      of their values, the first placeholder being the outer loop. */
  lemma ExpandTwo(vm: ValueMap, u: string, x: string, m: string, y: string, w: string)
    requires NoOpen(u) && NoOpen(m) && NoOpen(w) && IsName(x) && IsName(y)
    requires forall v :: v in Vals(vm, x) ==> NoOpen(v)
    ensures ExpandToken(vm, u + Placeholder(x) + m + Placeholder(y) + w)
      == Product(u, Vals(vm, x), m, Vals(vm, y), w)
  {
    var t := u + Placeholder(x) + m + Placeholder(y) + w;
    ScanTwo(u, x, m, y, w);
    FoldTwo(vm, [t], x, y);
    StepSingle(t, x, Vals(vm, x));
    TwoSteps(u, x, m, y, w, Vals(vm, x), Vals(vm, y));
  }

  // ----- Examples -----

  lemma ApplyOne(t: string, vm: ValueMap)
    ensures ApplyValues([t], vm) == ExpandToken(vm, t)
  {
    assert [t][..0] == [];
  }

  lemma ApplyPair(t1: string, t2: string, vm: ValueMap)
    ensures ApplyValues([t1, t2], vm) == ExpandToken(vm, t1) + ExpandToken(vm, t2)
  {
    assert [t1, t2] == [t1] + [t2];
    ApplyConcat([t1], [t2], vm);
    ApplyOne(t1, vm);
    ApplyOne(t2, vm);
  }

  /** Two tokens with one placeholder each, the first bound to two values
      and the second to none. */
  lemma DocShape(vm: ValueMap, u1: string, x1: string, w1: string, u2: string, x2: string, w2: string,
                 v1: string, v2: string)
    requires NoOpen(u1) && IsName(x1) && NoOpen(w1) && NoOpen(u2) && IsName(x2) && NoOpen(w2)
    requires Vals(vm, x1) == [v1, v2] && x2 !in vm
    ensures ApplyValues([u1 + Placeholder(x1) + w1, u2 + Placeholder(x2) + w2], vm)
      == [u1 + v1 + w1, u1 + v2 + w1]
  {
    ApplyPair(u1 + Placeholder(x1) + w1, u2 + Placeholder(x2) + w2, vm);
    ExpandOne(vm, u1, x1, w1);
    ExpandOne(vm, u2, x2, w2);
    assert [v1, v2][1..] == [v2];
  }

  /** How the tokens of the documented example are built. */
  lemma DocPieces()
    ensures "article:" + Placeholder("articleId") + ":read" == "article:{articleId}:read"
    ensures "post:" + Placeholder("postId") + ":read" == "post:{postId}:read"
    ensures NoOpen("article:") && NoOpen(":read") && NoOpen("post:")
    ensures IsName("articleId") && IsName("postId")
  {
  }

  lemma DocResults()
    ensures "article:" + "1" + ":read" == "article:1:read"
    ensures "article:" + "2" + ":read" == "article:2:read"
  {
  }

  /** The documented example: the token whose placeholder has no value is
      dropped, the other yields one token per value. */
  lemma ApplyDocExample(s: AbilitySet, vm: ValueMap)
    requires |s| == 2 && s[0] == "article:{articleId}:read" && s[1] == "post:{postId}:read"
    requires vm == map["articleId" := Multiple(["1", "2"])]
    ensures ApplyValues(s, vm) == ["article:1:read", "article:2:read"]
  {
    DocPieces();
    DocResults();
    assert s == [s[0], s[1]];
    assert Vals(vm, "articleId") == ["1", "2"];
    DocShape(vm, "article:", "articleId", ":read", "post:", "postId", ":read", "1", "2");
  }

  lemma Row2(u: string, a: string, b: string, w: string)
    ensures Row(u, [a, b], w) == [u + a + w, u + b + w]
  {
    assert [a, b][1..] == [b] && [b][1..] == [];
  }

  lemma Product2(u: string, a: string, b: string, m: string, c: string, d: string, w: string)
    ensures Product(u, [a, b], m, [c, d], w)
      == [u + a + m + c + w, u + a + m + d + w, u + b + m + c + w, u + b + m + d + w]
  {
    Row2(u + a + m, c, d, w);
    Row2(u + b + m, c, d, w);
    assert [a, b][1..] == [b] && [b][1..] == [];
  }

  lemma EmptyAround(a: string, b: string)
    ensures "" + a + "" + b + "" == a + b
  {
  }

  /** A repeated placeholder is an independent factor of the product, and
      each step replaces the first occurrence still present. */
  lemma RepeatShape(vm: ValueMap, x: string, a: string, b: string)
    requires IsName(x) && Vals(vm, x) == [a, b] && NoOpen(a) && NoOpen(b)
    ensures ExpandToken(vm, Placeholder(x) + Placeholder(x)) == [a + a, a + b, b + a, b + b]
  {
    EmptyAround(Placeholder(x), Placeholder(x));
    assert NoOpen("");
    ExpandTwo(vm, "", x, "", x, "");
    Product2("", a, b, "", a, b, "");
    EmptyAround(a, a);
    EmptyAround(a, b);
    EmptyAround(b, a);
    EmptyAround(b, b);
  }

  lemma RepeatPieces()
    ensures Placeholder("x") + Placeholder("x") == "{x}{x}"
    ensures "a" + "a" == "aa" && "a" + "b" == "ab" && "b" + "a" == "ba" && "b" + "b" == "bb"
    ensures IsName("x") && NoOpen("a") && NoOpen("b")
  {
  }

  lemma RepeatExample(vm: ValueMap)
    requires vm == map["x" := Multiple(["a", "b"])]
    ensures ExpandToken(vm, "{x}{x}") == ["aa", "ab", "ba", "bb"]
  {
    RepeatPieces();
    assert Vals(vm, "x") == ["a", "b"];
    RepeatShape(vm, "x", "a", "b");
  }

  lemma ApplyTriple(t1: string, t2: string, t3: string, vm: ValueMap)
    ensures ApplyValues([t1, t2, t3], vm) == ExpandToken(vm, t1) + ExpandToken(vm, t2) + ExpandToken(vm, t3)
  {
    assert [t1, t2, t3][..2] == [t1, t2];
    ApplyPair(t1, t2, vm);
  }

  lemma Row1(u: string, v: string, w: string)
    ensures Row(u, [v], w) == [u + v + w]
  {
    assert [v][1..] == [];
  }

  /** A token with a single value, a token whose name is unbound and a
      token with two placeholders of two values each. */
  lemma TestShape(vm: ValueMap, u1: string, x1: string, u2: string, x2: string,
                  u3: string, x3: string, m3: string, y3: string,
                  v: string, a: string, b: string, c: string, d: string)
    requires NoOpen(u1) && NoOpen(u2) && NoOpen(u3) && NoOpen(m3) && NoOpen("")
    requires IsName(x1) && IsName(x2) && IsName(x3) && IsName(y3)
    requires Vals(vm, x1) == [v] && x2 !in vm
    requires Vals(vm, x3) == [a, b] && Vals(vm, y3) == [c, d] && NoOpen(a) && NoOpen(b)
    ensures ApplyValues([u1 + Placeholder(x1) + "", u2 + Placeholder(x2) + "",
                         u3 + Placeholder(x3) + m3 + Placeholder(y3) + ""], vm)
      == [u1 + v + "", u3 + a + m3 + c + "", u3 + a + m3 + d + "", u3 + b + m3 + c + "", u3 + b + m3 + d + ""]
  {
    ApplyTriple(u1 + Placeholder(x1) + "", u2 + Placeholder(x2) + "",
                u3 + Placeholder(x3) + m3 + Placeholder(y3) + "", vm);
    ExpandOne(vm, u1, x1, "");
    Row1(u1, v, "");
    ExpandOne(vm, u2, x2, "");
    ExpandTwo(vm, u3, x3, m3, y3, "");
    Product2(u3, a, b, m3, c, d, "");
  }

  lemma TestTokens()
    ensures "metabase:dashboard:4?district=" + Placeholder("districtId") + ""
      == "metabase:dashboard:4?district={districtId}"
    ensures "foo:" + Placeholder("bar") + "" == "foo:{bar}"
    ensures "arr:" + Placeholder("x") + ":" + Placeholder("y") + "" == "arr:{x}:{y}"
  {
  }

  lemma TestNames()
    ensures NoOpen("metabase:dashboard:4?district=") && NoOpen("foo:") && NoOpen("arr:")
    ensures NoOpen(":") && NoOpen("") && NoOpen("a") && NoOpen("b")
    ensures IsName("districtId") && IsName("bar") && IsName("x") && IsName("y")
  {
  }

  lemma TestResults()
    ensures "metabase:dashboard:4?district=" + "1" + "" == "metabase:dashboard:4?district=1"
    ensures "arr:" + "a" + ":" + "c" + "" == "arr:a:c"
    ensures "arr:" + "a" + ":" + "d" + "" == "arr:a:d"
    ensures "arr:" + "b" + ":" + "c" + "" == "arr:b:c"
    ensures "arr:" + "b" + ":" + "d" + "" == "arr:b:d"
  {
  }

  /** The example of the test suite, in the order the fold produces. */
  lemma ApplyTestExample(s: AbilitySet, vm: ValueMap)
    requires |s| == 3 && s[0] == "metabase:dashboard:4?district={districtId}"
    requires s[1] == "foo:{bar}" && s[2] == "arr:{x}:{y}"
    requires vm == map["districtId" := Single("1"), "x" := Multiple(["a", "b"]), "y" := Multiple(["c", "d"])]
    ensures ApplyValues(s, vm)
      == ["metabase:dashboard:4?district=1", "arr:a:c", "arr:a:d", "arr:b:c", "arr:b:d"]
  {
    TestTokens();
    TestNames();
    TestResults();
    assert s == [s[0], s[1], s[2]];
    assert Vals(vm, "districtId") == ["1"];
    assert Vals(vm, "x") == ["a", "b"] && Vals(vm, "y") == ["c", "d"];
    assert "bar" !in vm;
    TestShape(vm, "metabase:dashboard:4?district=", "districtId", "foo:", "bar",
              "arr:", "x", ":", "y", "1", "a", "b", "c", "d");
  }
}
