/** Value extraction (`extractValues`): annotation tokens `?key=value` and
    `?key[]=value` are parsed into a value map; every other token is kept,
    in order, as the remainder. */
module ValueExtractor {
  import opened AbleTypes

  /** `ability[0] === "?"`; the empty token has no first character and is
      therefore not an annotation. */
  predicate IsAnnotation(t: string)
  {
    |t| > 0 && t[0] == '?'
  }

  /** `body.split("=", 2)`: the key is the text before the first `=`; the
      value is the text between the first and the second `=` (or the end),
      and is absent when there is no `=` at all. */
  function Split(body: string): (string, Option<string>)
  {
    match IndexOf(body, '=', 0)
    case None => (body, None)
    case Some(i) =>
      IndexOfSpec(body, '=', 0);
      var rest := body[i + 1..];
      match IndexOf(rest, '=', 0)
      case None => (body[..i], Some(rest))
      case Some(j) =>
        IndexOfSpec(rest, '=', 0);
        (body[..i], Some(rest[..j]))
  }

  /** What the split means: the key holds no `=`; there is a value iff the
      body holds a `=`; and then the body starts with key, `=`, value, and
      the value stops at the end or at the second `=`. */
  lemma SplitSpec(body: string)
    ensures var (key, value) := Split(body);
      && '=' !in key
      && (value.None? <==> '=' !in body)
      && (value.None? ==> key == body)
      && (value.Some? ==> '=' !in value.value)
      && (value.Some? ==>
            var n := |key| + 1 + |value.value|;
            n <= |body| && body[..n] == key + "=" + value.value && (n == |body| || body[n] == '='))
  {
    IndexOfSpec(body, '=', 0);
    match IndexOf(body, '=', 0)
    case None =>
    case Some(i) =>
      var rest := body[i + 1..];
      IndexOfSpec(rest, '=', 0);
      match IndexOf(rest, '=', 0)
      case None =>
        assert body == body[..i] + "=" + rest;
      case Some(j) =>
        assert body[..i + 1 + j] == body[..i] + "=" + rest[..j];
  }

  /** A key written with the two-character suffix `[]`. */
  predicate IsArrayKey(key: string)
  {
    |key| >= 2 && key[|key| - 2] == '[' && key[|key| - 1] == ']'
  }

  /** The key an annotation token writes to: its key without a `[]` suffix. */
  function BaseKey(t: string): string
    requires IsAnnotation(t)
  {
    var key := Split(t[1..]).0;
    if IsArrayKey(key) then key[..|key| - 2] else key
  }

  /** The annotation `t` writes to key `k`. */
  predicate Touches(t: string, k: string)
  {
    IsAnnotation(t) && BaseKey(t) == k
  }

  /** The annotation `t` stores a scalar under key `k`. */
  predicate ScalarFor(t: string, k: string)
  {
    Touches(t, k) && !IsArrayKey(Split(t[1..]).0)
  }

  /** The scalar an annotation stores: its value, or `""` without `=`. */
  function ScalarValue(t: string): string
    requires IsAnnotation(t)
  {
    var value := Split(t[1..]).1;
    if value.Some? then value.value else ""
  }

  /** The effect of one annotation token on the value map. An array key
      replaces anything under its base key that is not already a list with
      the empty list, then appends the value if there is one; a scalar key
      overwrites. */
  function Absorb(values: ValueMap, t: string): ValueMap
    requires IsAnnotation(t)
  {
    var (key, value) := Split(t[1..]);
    if IsArrayKey(key) then
      var base := key[..|key| - 2];
      var items := if base in values && values[base].Multiple? then values[base].items else [];
      values[base := Multiple(if value.Some? then items + [value.value] else items)]
    else
      values[key := Single(if value.Some? then value.value else "")]
  }

  /** What `extractValues(abilities)` returns: the value map and the
      remainder, built token by token from the left. */
  function Extracted(s: AbilitySet): (ValueMap, AbilitySet)
  {
    if s == [] then (map[], [])
    else
      var (values, remainder) := Extracted(s[..|s| - 1]);
      var t := s[|s| - 1];
      if IsAnnotation(t) then (Absorb(values, t), remainder)
      else (values, remainder + [t])
  }

  /** The tokens that are not annotations, in input order. */
  function Plain(s: AbilitySet): AbilitySet
  {
    if s == [] then []
    else (if IsAnnotation(s[0]) then [] else [s[0]]) + Plain(s[1..])
  }

  /** The value a `?k[]=v` token appends to the list under `k`, if any. */
  function TokenItems(t: string, k: string): seq<string>
  {
    if Touches(t, k) && !ScalarFor(t, k) && Split(t[1..]).1.Some? then [Split(t[1..]).1.value] else []
  }

  /** The values of the `?k[]=v` tokens of `s`, in order. */
  function ArrayItems(s: AbilitySet, k: string): seq<string>
  {
    if s == [] then [] else ArrayItems(s[..|s| - 1], k) + TokenItems(s[|s| - 1], k)
  }

  /** `extractValues`: one pass over the tokens that updates the value map
      and pushes onto the remainder. */
  method ExtractValues(abilities: AbilitySet) returns (values: ValueMap, remainder: AbilitySet)
    ensures (values, remainder) == Extracted(abilities)
    ensures remainder == Plain(abilities)
  {
    values, remainder := map[], [];
    var i := 0;
    while i < |abilities|
      invariant i <= |abilities|
      invariant (values, remainder) == Extracted(abilities[..i])
    {
      var ability := abilities[i];
      assert abilities[..i + 1] == abilities[..i] + [ability];
      if |ability| > 0 && ability[0] == '?' {
        ExtractedAnnotation(abilities[..i], ability);
        values := StoreAnnotation(values, ability);
      } else {
        ExtractedPlainToken(abilities[..i], ability);
        remainder := remainder + [ability];
      }
      i := i + 1;
    }
    assert abilities[..i] == abilities;
    ExtractedRemainder(abilities);
  }

  /** The body of the loop for one annotation token: split it, then either
      make sure a list is stored under the base key and push the value onto
      it, or store the scalar. */
  method StoreAnnotation(values: ValueMap, ability: string) returns (updated: ValueMap)
    requires IsAnnotation(ability)
    ensures updated == Absorb(values, ability)
  {
    updated := values;
    var (key, value) := Split(ability[1..]);
    if |key| >= 2 && key[|key| - 2] == '[' && key[|key| - 1] == ']' {
      var arrKey := key[..|key| - 2];
      if !(arrKey in updated && updated[arrKey].Multiple?) {
        updated := updated[arrKey := Multiple([])];
      }
      if value.Some? {
        updated := updated[arrKey := Multiple(updated[arrKey].items + [value.value])];
      }
    } else {
      updated := updated[key := Single(if value.Some? then value.value else "")];
    }
  }

  lemma {:induction false} PlainSnoc(s: AbilitySet, t: string)
    ensures Plain(s + [t]) == Plain(s) + (if IsAnnotation(t) then [] else [t])
    decreases |s|
  {
    if s != [] {
      assert (s + [t])[1..] == s[1..] + [t];
      PlainSnoc(s[1..], t);
    } else {
      assert (s + [t])[1..] == [];
    }
  }

  /** The tokens kept are exactly the tokens of `s` that are not annotations. */
  lemma {:induction false} PlainMembers(s: AbilitySet)
    ensures forall t :: t in Plain(s) <==> t in s && !IsAnnotation(t)
    ensures |Plain(s)| <= |s|
    decreases |s|
  {
    if s != [] {
      PlainMembers(s[1..]);
      assert s == [s[0]] + s[1..];
    }
  }

  /** The remainder is exactly the tokens that are not annotations, in input
      order: no annotation survives and every other token does. */
  lemma {:induction false} ExtractedRemainder(s: AbilitySet)
    ensures Extracted(s).1 == Plain(s)
    decreases |s|
  {
    if s != [] {
      var init := s[..|s| - 1];
      ExtractedRemainder(init);
      PlainSnoc(init, s[|s| - 1]);
      assert init + [s[|s| - 1]] == s;
    }
  }

  lemma ExtractedSnoc(s: AbilitySet, t: string)
    ensures Extracted(s + [t]) ==
      var (values, remainder) := Extracted(s);
      if IsAnnotation(t) then (Absorb(values, t), remainder) else (values, remainder + [t])
  {
    assert (s + [t])[..|s|] == s;
  }

  lemma ExtractedAnnotation(s: AbilitySet, t: string)
    requires IsAnnotation(t)
    ensures Extracted(s + [t]) == (Absorb(Extracted(s).0, t), Extracted(s).1)
  {
    ExtractedSnoc(s, t);
  }

  lemma ExtractedPlainToken(s: AbilitySet, t: string)
    requires !IsAnnotation(t)
    ensures Extracted(s + [t]) == (Extracted(s).0, Extracted(s).1 + [t])
  {
    ExtractedSnoc(s, t);
  }

  /** Without annotations nothing is extracted and every token is kept. */
  lemma {:induction false} ExtractedNoAnnotation(s: AbilitySet)
    requires forall i :: 0 <= i < |s| ==> !IsAnnotation(s[i])
    ensures Extracted(s) == (map[], s)
    decreases |s|
  {
    if s != [] {
      var init := s[..|s| - 1];
      ExtractedNoAnnotation(init);
      ExtractedPlainToken(init, s[|s| - 1]);
      assert init + [s[|s| - 1]] == s;
    }
  }

  /** An annotation changes only the entry under its own base key. */
  lemma AbsorbFrame(values: ValueMap, t: string, k: string)
    requires IsAnnotation(t) && !Touches(t, k)
    ensures k in Absorb(values, t) <==> k in values
    ensures k in values ==> Absorb(values, t)[k] == values[k]
  {
  }

  /** Tokens that do not write to `k` leave the entry under `k` as it was. */
  lemma {:induction false} UntouchedKeeps(s: AbilitySet, q: AbilitySet, k: string)
    requires forall i :: 0 <= i < |q| ==> !Touches(q[i], k)
    ensures k in Extracted(s + q).0 <==> k in Extracted(s).0
    ensures k in Extracted(s).0 ==> Extracted(s + q).0[k] == Extracted(s).0[k]
    decreases |q|
  {
    if q != [] {
      var init := q[..|q| - 1];
      var t := q[|q| - 1];
      assert forall i :: 0 <= i < |init| ==> init[i] == q[i];
      assert !Touches(t, k);
      UntouchedKeeps(s, init, k);
      assert s + q == (s + init) + [t];
      ExtractedSnoc(s + init, t);
      if IsAnnotation(t) {
        AbsorbFrame(Extracted(s + init).0, t, k);
      }
    } else {
      assert s + q == s;
    }
  }

  /** Only annotation tokens contribute keys, and every annotation token
      contributes its base key. */
  lemma {:induction false} ExtractedKeys(s: AbilitySet, k: string)
    ensures k in Extracted(s).0 <==> exists i :: 0 <= i < |s| && Touches(s[i], k)
    decreases |s|
  {
    if s != [] {
      var init := s[..|s| - 1];
      var t := s[|s| - 1];
      ExtractedKeys(init, k);
      assert init + [t] == s;
      ExtractedSnoc(init, t);
      if IsAnnotation(t) && !Touches(t, k) {
        AbsorbFrame(Extracted(init).0, t, k);
      }
      if exists i :: 0 <= i < |s| && Touches(s[i], k) {
        var i :| 0 <= i < |s| && Touches(s[i], k);
        if i < |s| - 1 {
          assert init[i] == s[i];
        }
      }
    }
  }

  /** Last write wins: after a scalar annotation for `k`, no later token
      that leaves `k` alone changes the value it stored. */
  lemma ScalarLastWins(p: AbilitySet, t: string, q: AbilitySet, k: string)
    requires ScalarFor(t, k)
    requires forall i :: 0 <= i < |q| ==> !Touches(q[i], k)
    ensures k in Extracted(p + [t] + q).0
    ensures Extracted(p + [t] + q).0[k] == Single(ScalarValue(t))
  {
    ExtractedSnoc(p, t);
    UntouchedKeeps(p + [t], q, k);
  }

  /** The list an array annotation for `k` starts from: the list already
      stored under `k`, or the empty list if `k` holds a scalar or nothing. */
  function PriorItems(values: ValueMap, k: string): seq<string>
  {
    if k in values && values[k].Multiple? then values[k].items else []
  }

  /** No token of `q` is a scalar annotation for `k`. */
  predicate NoScalarFor(q: AbilitySet, k: string)
    decreases |q|
  {
    q != [] ==> NoScalarFor(q[..|q| - 1], k) && !ScalarFor(q[|q| - 1], k)
  }

  /** Some token of `q` writes to `k`. */
  predicate SomeTouch(q: AbilitySet, k: string)
    decreases |q|
  {
    q != [] && (SomeTouch(q[..|q| - 1], k) || Touches(q[|q| - 1], k))
  }

  lemma {:induction false} NoScalarForAll(q: AbilitySet, k: string)
    requires forall i :: 0 <= i < |q| ==> !ScalarFor(q[i], k)
    ensures NoScalarFor(q, k)
    decreases |q|
  {
    if q != [] {
      var init := q[..|q| - 1];
      assert forall i :: 0 <= i < |init| ==> init[i] == q[i];
      NoScalarForAll(init, k);
    }
  }

  lemma {:induction false} SomeTouchExists(q: AbilitySet, k: string, i: nat)
    requires i < |q| && Touches(q[i], k)
    ensures SomeTouch(q, k)
    decreases |q|
  {
    if i < |q| - 1 {
      assert q[..|q| - 1][i] == q[i];
      SomeTouchExists(q[..|q| - 1], k, i);
    }
  }

  /** One annotation that is not a scalar for `k` extends the list an array
      annotation for `k` would start from by its own value, if any. */
  lemma AbsorbPrior(values: ValueMap, t: string, k: string)
    requires IsAnnotation(t) && !ScalarFor(t, k)
    ensures PriorItems(Absorb(values, t), k) == PriorItems(values, k) + TokenItems(t, k)
    ensures Touches(t, k) ==> k in Absorb(values, t) && Absorb(values, t)[k].Multiple?
  {
    if !Touches(t, k) {
      AbsorbFrame(values, t, k);
      assert PriorItems(values, k) + [] == PriorItems(values, k);
    } else {
      var (key, value) := Split(t[1..]);
      assert IsArrayKey(key);
      assert PriorItems(values, k) + [] == PriorItems(values, k);
    }
  }

  lemma PriorStep(s: AbilitySet, t: string, k: string)
    requires !ScalarFor(t, k)
    ensures PriorItems(Extracted(s + [t]).0, k) == PriorItems(Extracted(s).0, k) + TokenItems(t, k)
    ensures Touches(t, k) ==> k in Extracted(s + [t]).0 && Extracted(s + [t]).0[k].Multiple?
    ensures !Touches(t, k) ==> (k in Extracted(s + [t]).0 <==> k in Extracted(s).0)
    ensures !Touches(t, k) && k in Extracted(s).0 ==> Extracted(s + [t]).0[k] == Extracted(s).0[k]
  {
    ExtractedSnoc(s, t);
    if IsAnnotation(t) {
      AbsorbPrior(Extracted(s).0, t, k);
      if !Touches(t, k) {
        AbsorbFrame(Extracted(s).0, t, k);
      }
    } else {
      assert PriorItems(Extracted(s).0, k) + [] == PriorItems(Extracted(s).0, k);
    }
  }

  /** Without scalars for `k`, the list under `k` grows by the values of the
      array annotations for `k`, in order. */
  lemma {:induction false} PriorGrows(p: AbilitySet, q: AbilitySet, k: string)
    requires NoScalarFor(q, k)
    ensures PriorItems(Extracted(p + q).0, k) == PriorItems(Extracted(p).0, k) + ArrayItems(q, k)
    decreases |q|
  {
    if q == [] {
      assert p + q == p;
    } else {
      var init := q[..|q| - 1];
      assert p + q == (p + init) + [q[|q| - 1]];
      PriorGrows(p, init, k);
      PriorStep(p + init, q[|q| - 1], k);
    }
  }

  /** Once an array annotation for `k` has run, and no scalar for `k` follows,
      a list is stored under `k`. */
  lemma {:induction false} ListStays(p: AbilitySet, q: AbilitySet, k: string)
    requires NoScalarFor(q, k) && SomeTouch(q, k)
    ensures k in Extracted(p + q).0 && Extracted(p + q).0[k].Multiple?
    decreases |q|
  {
    var init := q[..|q| - 1];
    assert p + q == (p + init) + [q[|q| - 1]];
    PriorStep(p + init, q[|q| - 1], k);
    if !Touches(q[|q| - 1], k) {
      ListStays(p, init, k);
    }
  }

  /** Array annotations accumulate: when no token of `q` is a scalar for `k`
      and some token of `q` writes to `k`, the entry under `k` is the list it
      started from followed by the values of `q`'s `?k[]=v` tokens in order. */
  lemma ArraysAccumulate(p: AbilitySet, q: AbilitySet, k: string)
    requires forall i :: 0 <= i < |q| ==> !ScalarFor(q[i], k)
    requires exists i :: 0 <= i < |q| && Touches(q[i], k)
    ensures k in Extracted(p + q).0
    ensures Extracted(p + q).0[k] == Multiple(PriorItems(Extracted(p).0, k) + ArrayItems(q, k))
  {
    var i :| 0 <= i < |q| && Touches(q[i], k);
    SomeTouchExists(q, k, i);
    NoScalarForAll(q, k);
    ListStays(p, q, k);
    PriorGrows(p, q, k);
  }

  /** Splitting undoes writing a key and a value around one `=`. */
  lemma SplitRoundTrip(key: string, value: string)
    requires '=' !in key && '=' !in value
    ensures Split(key + "=" + value) == (key, Some(value))
  {
    var body := key + "=" + value;
    IndexOfSpec(body, '=', 0);
    assert body[|key|] == '=';
    assert forall j :: 0 <= j < |key| ==> body[j] == key[j];
    assert IndexOf(body, '=', 0) == Some(|key|);
    assert body[|key| + 1..] == value;
    assert body[..|key|] == key;
    IndexOfSpec(value, '=', 0);
  }

  /** A body without `=` is all key and no value. */
  lemma SplitBare(key: string)
    requires '=' !in key
    ensures Split(key) == (key, None)
  {
    SplitSpec(key);
  }

  /** A scalar annotation `?key=v` stores `v` under `key`, and `?key` with
      no `=` stores `""`, replacing whatever was there. */
  lemma ExtractedScalarStep(s: AbilitySet, t: string, key: string, value: Option<string>)
    requires IsAnnotation(t) && Split(t[1..]) == (key, value) && !IsArrayKey(key)
    ensures Extracted(s + [t]).1 == Extracted(s).1
    ensures Extracted(s + [t]).0 ==
      Extracted(s).0[key := Single(if value.Some? then value.value else "")]
  {
    ExtractedSnoc(s, t);
  }

  /** An array annotation `?base[]=v` appends `v` to the list under `base`
      (starting a new list if `base` held a scalar or nothing); `?base[]`
      with no `=` only makes sure a list is there. */
  lemma ExtractedArrayStep(s: AbilitySet, t: string, base: string, value: Option<string>)
    requires IsAnnotation(t) && Split(t[1..]) == (base + "[]", value)
    ensures Extracted(s + [t]).1 == Extracted(s).1
    ensures Extracted(s + [t]).0 ==
      Extracted(s).0[base := Multiple(PriorItems(Extracted(s).0, base)
                                      + if value.Some? then [value.value] else [])]
  {
    ExtractedSnoc(s, t);
    var key := base + "[]";
    assert IsArrayKey(key) && key[..|key| - 2] == base;
    var values := Extracted(s).0;
    var items := PriorItems(values, base);
    assert Absorb(values, t) == values[base := Multiple(if value.Some? then items + [value.value] else items)];
    assert items + [] == items;
    assert Extracted(s + [t]) == (Absorb(values, t), Extracted(s).1);
  }

  /** The annotation tokens that stand for one value-map entry: `?k=v` for
      a scalar, one `?k[]=v` per list item in order, and a bare `?k[]` for
      the empty list. */
  function EncodeEntry(k: string, v: Value): AbilitySet
  {
    match v
    case Single(s) => [ScalarToken(k, s)]
    case Multiple(items) => if items == [] then [BareArrayToken(k)] else ArrayTokens(k, items)
  }

  function ScalarToken(k: string, x: string): string
  {
    "?" + k + "=" + x
  }

  function BareArrayToken(k: string): string
  {
    "?" + k + "[]"
  }

  function ArrayTokens(k: string, items: seq<string>): AbilitySet
  {
    if items == [] then []
    else ArrayTokens(k, items[..|items| - 1]) + [ArrayToken(k, items[|items| - 1])]
  }

  function ArrayToken(k: string, x: string): string
  {
    "?" + k + "[]=" + x
  }

  /** Keys and values that survive being written into a token. */
  predicate Encodable(k: string, v: Value)
  {
    && '=' !in k && !IsArrayKey(k)
    && (v.Single? ==> '=' !in v.s)
    && (v.Multiple? ==> forall x :: x in v.items ==> '=' !in x)
  }

  /** `t` is an annotation `?k[]=x`. */
  predicate AppendsTo(t: string, k: string, x: string)
  {
    IsAnnotation(t) && Split(t[1..]) == (k + "[]", Some(x))
  }

  lemma ArrayTokenAppends(k: string, x: string)
    requires '=' !in k && '=' !in x
    ensures AppendsTo(ArrayToken(k, x), k, x)
  {
    var t := ArrayToken(k, x);
    assert t[1..] == (k + "[]") + "=" + x;
    assert '=' !in k + "[]";
    SplitRoundTrip(k + "[]", x);
  }

  /** `q` is a run of `?k[]=x` tokens, one per item, in order. */
  predicate ArrayRun(q: AbilitySet, k: string, items: seq<string>)
    decreases |q|
  {
    |q| == |items| &&
    (q != [] ==> ArrayRun(q[..|q| - 1], k, items[..|q| - 1]) && AppendsTo(q[|q| - 1], k, items[|q| - 1]))
  }

  lemma {:induction false} ArrayTokensAppend(k: string, items: seq<string>)
    requires '=' !in k
    requires forall x :: x in items ==> '=' !in x
    ensures ArrayRun(ArrayTokens(k, items), k, items)
    decreases |items|
  {
    if items != [] {
      var init := items[..|items| - 1];
      ArrayTokensAppend(k, init);
      ArrayTokenAppends(k, items[|items| - 1]);
      assert ArrayTokens(k, items)[..|items| - 1] == ArrayTokens(k, init);
    }
  }

  lemma AppendStep(before: AbilitySet, t: string, k: string, x: string, m: ValueMap, r: AbilitySet, prior: seq<string>)
    requires AppendsTo(t, k, x)
    requires Extracted(before) == (m, r) && PriorItems(m, k) == prior
    ensures Extracted(before + [t]) == (m[k := Multiple(prior + [x])], r)
  {
    ExtractedArrayStep(before, t, k, Some(x));
  }

  /** A run of `?k[]=x` tokens, one per item, leaves the list of items under `k`
      when `k` held nothing before. */
  lemma {:induction false} ArrayRunRoundTrip(p: AbilitySet, k: string, q: AbilitySet, items: seq<string>)
    requires q != [] && ArrayRun(q, k, items)
    requires k !in Extracted(p).0
    ensures Extracted(p + q) == (Extracted(p).0[k := Multiple(items)], Extracted(p).1)
    decreases |q|
  {
    if |q| == 1 {
      ArrayRunFirst(p, k, q, items);
    } else {
      var n := |q| - 1;
      ArrayRunRoundTrip(p, k, q[..n], items[..n]);
      ArrayRunNext(p + q[..n], q[n], k, items[n], items[..n], Extracted(p).0, Extracted(p).1);
      AppendLast(p, q);
      InitLast(items);
    }
  }

  lemma ArrayRunFirst(p: AbilitySet, k: string, q: AbilitySet, items: seq<string>)
    requires |q| == 1 && ArrayRun(q, k, items)
    requires k !in Extracted(p).0
    ensures Extracted(p + q) == (Extracted(p).0[k := Multiple(items)], Extracted(p).1)
  {
    assert q[..0] == [] && items[..0] == [];
    AppendStep(p, q[0], k, items[0], Extracted(p).0, Extracted(p).1, []);
    assert p + q == p + [q[0]] && [] + [items[0]] == items;
  }

  lemma ArrayRunNext(before: AbilitySet, t: string, k: string, x: string, init: seq<string>, m: ValueMap, r: AbilitySet)
    requires AppendsTo(t, k, x)
    requires Extracted(before) == (m[k := Multiple(init)], r)
    ensures Extracted(before + [t]) == (m[k := Multiple(init + [x])], r)
  {
    AppendStep(before, t, k, x, m[k := Multiple(init)], r, init);
    UpdateTwice(m, k, Multiple(init), Multiple(init + [x]));
  }

  lemma UpdateTwice(m: ValueMap, k: string, a: Value, b: Value)
    ensures m[k := a][k := b] == m[k := b]
  {
  }

  /** One `?k=v` token stores `v` under `k`. */
  lemma ScalarTokenStep(s: AbilitySet, k: string, v: string)
    requires '=' !in k && !IsArrayKey(k) && '=' !in v
    ensures Extracted(s + [ScalarToken(k, v)]) == (Extracted(s).0[k := Single(v)], Extracted(s).1)
  {
    ScalarTokenParses(k, v);
    ExtractedScalarStep(s, ScalarToken(k, v), k, Some(v));
  }

  lemma ScalarTokenParses(k: string, v: string)
    requires '=' !in k && '=' !in v
    ensures IsAnnotation(ScalarToken(k, v)) && Split(ScalarToken(k, v)[1..]) == (k, Some(v))
  {
    var t := ScalarToken(k, v);
    assert t[1..] == k + "=" + v;
    SplitRoundTrip(k, v);
  }

  /** Writing an entry as annotation tokens and extracting them again gives
      the entry back, and adds nothing to the remainder. */
  lemma EntryRoundTrip(p: AbilitySet, k: string, v: Value)
    requires Encodable(k, v)
    requires k !in Extracted(p).0
    ensures Extracted(p + EncodeEntry(k, v)) == (Extracted(p).0[k := v], Extracted(p).1)
  {
    match v
    case Single(x) =>
      ScalarTokenStep(p, k, x);
    case Multiple(items) =>
      if items == [] {
        BareArrayTokenStep(p, k);
      } else {
        ArrayTokensAppend(k, items);
        ArrayRunRoundTrip(p, k, ArrayTokens(k, items), items);
      }
  }

  /** The value map that a list of entries describes, later entries last. */
  function EntriesMap(es: seq<(string, Value)>): ValueMap
  {
    if es == [] then map[] else EntriesMap(es[..|es| - 1])[es[|es| - 1].0 := es[|es| - 1].1]
  }

  /** All entries of `es`, written as annotation tokens one after the other. */
  function EncodeEntries(es: seq<(string, Value)>): AbilitySet
  {
    if es == [] then [] else EncodeEntries(es[..|es| - 1]) + EncodeEntry(es[|es| - 1].0, es[|es| - 1].1)
  }

  /** Every entry can be written as tokens, and no key is repeated. */
  predicate DistinctEncodable(es: seq<(string, Value)>)
    decreases |es|
  {
    es != [] ==>
      var (k, v) := es[|es| - 1];
      DistinctEncodable(es[..|es| - 1]) && Encodable(k, v) && k !in EntriesMap(es[..|es| - 1])
  }

  /** Extracting the tokens written for a list of distinct entries gives back
      exactly the value map of those entries, and no remainder. */
  lemma {:induction false} EncodeRoundTrip(es: seq<(string, Value)>)
    requires DistinctEncodable(es)
    ensures Extracted(EncodeEntries(es)) == (EntriesMap(es), [])
    decreases |es|
  {
    if es != [] {
      var init := es[..|es| - 1];
      var (k, v) := es[|es| - 1];
      EncodeRoundTrip(init);
      EntryRoundTrip(EncodeEntries(init), k, v);
    }
  }

  /** A bare `?k[]` token with no `=` leaves an empty list under a key that
      held nothing. */
  lemma BareArrayTokenStep(p: AbilitySet, k: string)
    requires '=' !in k
    requires k !in Extracted(p).0
    ensures Extracted(p + [BareArrayToken(k)]) == (Extracted(p).0[k := Multiple([])], Extracted(p).1)
  {
    BareArrayTokenParses(k);
    ExtractedArrayStep(p, BareArrayToken(k), k, None);
  }

  lemma BareArrayTokenParses(k: string)
    requires '=' !in k
    ensures IsAnnotation(BareArrayToken(k)) && Split(BareArrayToken(k)[1..]) == (k + "[]", None)
  {
    var t := BareArrayToken(k);
    assert t[1..] == k + "[]";
    assert '=' !in k + "[]";
    SplitBare(k + "[]");
  }

  /** A scalar annotation on top of a known state. */
  lemma ScalarAfter(before: AbilitySet, t: string, key: string, value: Option<string>, m: ValueMap, r: AbilitySet)
    requires IsAnnotation(t) && Split(t[1..]) == (key, value) && !IsArrayKey(key)
    requires Extracted(before) == (m, r)
    ensures Extracted(before + [t]) == (m[key := Single(if value.Some? then value.value else "")], r)
  {
    ExtractedScalarStep(before, t, key, value);
  }

  lemma ExampleOther(s: AbilitySet)
    requires |s| == 1 && s[0] == "other"
    ensures Extracted(s) == (map[], ["other"])
  {
    assert s == [] + [s[0]];
    ExtractedPlainToken([], s[0]);
  }

  lemma ExampleFoo0(before: AbilitySet, t: string)
    requires Extracted(before) == (map[], ["other"]) && t == "?foo=0"
    ensures Extracted(before + [t]) == (map["foo" := Single("0")], ["other"])
  {
    SplitRoundTrip("foo", "0");
    assert t[1..] == "foo" + "=" + "0";
    ScalarAfter(before, t, "foo", Some("0"), map[], ["other"]);
  }

  lemma ExampleNoEqualSign(before: AbilitySet, t: string)
    requires Extracted(before) == (map["foo" := Single("0")], ["other"]) && t == "?noEqualSign"
    ensures Extracted(before + [t]) == (map["foo" := Single("0"), "noEqualSign" := Single("")], ["other"])
  {
    SplitBare("noEqualSign");
    assert t[1..] == "noEqualSign";
    ScalarAfter(before, t, "noEqualSign", None, map["foo" := Single("0")], ["other"]);
  }

  lemma ExampleBlankValue(before: AbilitySet, t: string)
    requires Extracted(before) == (map["foo" := Single("0"), "noEqualSign" := Single("")], ["other"])
    requires t == "?blankValue="
    ensures Extracted(before + [t])
      == (map["foo" := Single("0"), "noEqualSign" := Single(""), "blankValue" := Single("")], ["other"])
  {
    SplitRoundTrip("blankValue", "");
    assert t[1..] == "blankValue" + "=" + "";
    ScalarAfter(before, t, "blankValue", Some(""), map["foo" := Single("0"), "noEqualSign" := Single("")], ["other"]);
  }

  lemma ExampleFoo1(before: AbilitySet, t: string)
    requires Extracted(before)
      == (map["foo" := Single("0"), "noEqualSign" := Single(""), "blankValue" := Single("")], ["other"])
    requires t == "?foo=1"
    ensures Extracted(before + [t])
      == (map["foo" := Single("1"), "noEqualSign" := Single(""), "blankValue" := Single("")], ["other"])
  {
    var m := map["foo" := Single("0"), "noEqualSign" := Single(""), "blankValue" := Single("")];
    SplitRoundTrip("foo", "1");
    assert t[1..] == "foo" + "=" + "1";
    ScalarAfter(before, t, "foo", Some("1"), m, ["other"]);
    assert m["foo" := Single("1")]
      == map["foo" := Single("1"), "noEqualSign" := Single(""), "blankValue" := Single("")];
  }

  lemma ExampleArrA(before: AbilitySet, t: string)
    requires Extracted(before)
      == (map["foo" := Single("1"), "noEqualSign" := Single(""), "blankValue" := Single("")], ["other"])
    requires t == "?arr[]=a"
    ensures Extracted(before + [t])
      == (map["foo" := Single("1"), "noEqualSign" := Single(""), "blankValue" := Single(""),
              "arr" := Multiple(["a"])], ["other"])
  {
    var m := map["foo" := Single("1"), "noEqualSign" := Single(""), "blankValue" := Single("")];
    assert t == ArrayToken("arr", "a");
    ArrayTokenAppends("arr", "a");
    AppendStep(before, t, "arr", "a", m, ["other"], []);
    assert [] + ["a"] == ["a"];
  }

  lemma ExampleArrB(before: AbilitySet, t: string)
    requires Extracted(before)
      == (map["foo" := Single("1"), "noEqualSign" := Single(""), "blankValue" := Single(""),
              "arr" := Multiple(["a"])], ["other"])
    requires t == "?arr[]=b"
    ensures Extracted(before + [t])
      == (map["foo" := Single("1"), "noEqualSign" := Single(""), "blankValue" := Single(""),
              "arr" := Multiple(["a", "b"])], ["other"])
  {
    var m := map["foo" := Single("1"), "noEqualSign" := Single(""), "blankValue" := Single("")];
    assert m["arr" := Multiple(["a"])] == map["foo" := Single("1"), "noEqualSign" := Single(""),
      "blankValue" := Single(""), "arr" := Multiple(["a"])];
    assert t == ArrayToken("arr", "b");
    ArrayTokenAppends("arr", "b");
    ArrayRunNext(before, t, "arr", "b", ["a"], m, ["other"]);
    assert ["a"] + ["b"] == ["a", "b"];
  }

  /** The example of the test suite: the later scalar wins, a missing `=` and
      an empty value both store `""`, and array values accumulate. */
  lemma ExtractExample(s: AbilitySet)
    requires |s| == 7 && s[0] == "other" && s[1] == "?foo=0" && s[2] == "?noEqualSign"
    requires s[3] == "?blankValue=" && s[4] == "?foo=1" && s[5] == "?arr[]=a" && s[6] == "?arr[]=b"
    ensures Extracted(s)
      == (map["foo" := Single("1"), "noEqualSign" := Single(""), "blankValue" := Single(""),
              "arr" := Multiple(["a", "b"])], ["other"])
  {
    ExampleOther(s[..1]);
    TakeSnoc(s, 1);
    ExampleFoo0(s[..1], s[1]);
    TakeSnoc(s, 2);
    ExampleNoEqualSign(s[..2], s[2]);
    TakeSnoc(s, 3);
    ExampleBlankValue(s[..3], s[3]);
    TakeSnoc(s, 4);
    ExampleFoo1(s[..4], s[4]);
    TakeSnoc(s, 5);
    ExampleArrA(s[..5], s[5]);
    TakeSnoc(s, 6);
    ExampleArrB(s[..6], s[6]);
    TakeAll(s);
  }
  /** Two plain tokens, a scalar annotation and an array annotation of
      another key. */
  lemma ExtractDocShape(a: string, b: string, k1: string, v1: string, k2: string, v2: string)
    requires !IsAnnotation(a) && !IsAnnotation(b)
    requires Encodable(k1, Single(v1)) && Encodable(k2, Multiple([v2])) && k1 != k2
    ensures Extracted([a, b, ScalarToken(k1, v1), ArrayToken(k2, v2)])
      == (map[k1 := Single(v1), k2 := Multiple([v2])], [a, b])
  {
    var plain := [a, b];
    var scalar := plain + [ScalarToken(k1, v1)];
    PlainPair(a, b);
    ScalarTokenStep(plain, k1, v1);
    var m: ValueMap := map[k1 := Single(v1)];
    assert Extracted(scalar) == (m, plain);
    ArrayAfter(scalar, k2, v2, m, plain);
    assert m[k2 := Multiple([v2])] == map[k1 := Single(v1), k2 := Multiple([v2])];
    assert scalar + [ArrayToken(k2, v2)] == [a, b, ScalarToken(k1, v1), ArrayToken(k2, v2)];
  }

  /** One plain token after an abstract prior state. */
  lemma PlainAfter(before: AbilitySet, t: string, m: ValueMap, r: AbilitySet)
    requires Extracted(before) == (m, r) && !IsAnnotation(t)
    ensures Extracted(before + [t]) == (m, r + [t])
  {
    ExtractedPlainToken(before, t);
  }

  /** One array token of a key not yet in the map. */
  lemma ArrayAfter(before: AbilitySet, k: string, v: string, m: ValueMap, r: AbilitySet)
    requires Extracted(before) == (m, r) && k !in m
    requires Encodable(k, Multiple([v]))
    ensures Extracted(before + [ArrayToken(k, v)]) == (m[k := Multiple([v])], r)
  {
    OneArrayToken(k, v);
    EntryRoundTrip(before, k, Multiple([v]));
  }

  lemma PlainPair(a: string, b: string)
    requires !IsAnnotation(a) && !IsAnnotation(b)
    ensures Extracted([a, b]) == (map[], [a, b])
  {
    assert forall i :: 0 <= i < |[a, b]| ==> !IsAnnotation([a, b][i]);
    ExtractedNoAnnotation([a, b]);
  }

  lemma OneArrayToken(k: string, v: string)
    ensures EncodeEntry(k, Multiple([v])) == [ArrayToken(k, v)]
  {
    assert [v][..0] == [];
    assert ArrayTokens(k, [v]) == [ArrayToken(k, v)];
  }

  lemma ExtractDocPieces()
    ensures ScalarToken("foo", "1") == "?foo=1" && ArrayToken("x", "3") == "?x[]=3"
    ensures Encodable("foo", Single("1")) && Encodable("x", Multiple(["3"]))
    ensures !IsAnnotation("foo") && !IsAnnotation("bam")
  {
  }

  /** The example of the documentation of `extractValues`: the annotations
      fill the map, the other tokens remain in order. */
  lemma ExtractDocExample(s: AbilitySet)
    requires |s| == 4 && s[0] == "foo" && s[1] == "bam" && s[2] == "?foo=1" && s[3] == "?x[]=3"
    ensures Extracted(s) == (map["foo" := Single("1"), "x" := Multiple(["3"])], ["foo", "bam"])
  {
    ExtractDocPieces();
    ExtractDocShape("foo", "bam", "foo", "1", "x", "3");
    assert s == ["foo", "bam", ScalarToken("foo", "1"), ArrayToken("x", "3")];
  }

  /** A two-item list is written as two `?k[]=x` tokens, in order. */
  lemma TwoArrayTokens(k: string, v1: string, v2: string)
    ensures EncodeEntry(k, Multiple([v1, v2])) == [ArrayToken(k, v1), ArrayToken(k, v2)]
  {
    assert [v1, v2][..1] == [v1] && [v1][..0] == [];
    assert ArrayTokens(k, [v1]) == [ArrayToken(k, v1)];
  }

  /** A scalar entry and a two-item list, written as tokens, extract back
      to their map. */
  lemma ValueMapShape(k1: string, v1: string, k2: string, x: string, y: string)
    requires Encodable(k1, Single(v1)) && Encodable(k2, Multiple([x, y])) && k1 != k2
    ensures Extracted([ScalarToken(k1, v1), ArrayToken(k2, x), ArrayToken(k2, y)])
      == (map[k1 := Single(v1), k2 := Multiple([x, y])], [])
  {
    var first: AbilitySet := [ScalarToken(k1, v1)];
    var m: ValueMap := map[k1 := Single(v1)];
    ScalarTokenStep([], k1, v1);
    assert [] + [ScalarToken(k1, v1)] == first;
    assert Extracted(first) == (m, []);
    TwoArrayTokens(k2, x, y);
    EntryRoundTrip(first, k2, Multiple([x, y]));
    assert first + [ArrayToken(k2, x), ArrayToken(k2, y)] == [ScalarToken(k1, v1), ArrayToken(k2, x), ArrayToken(k2, y)];
    assert m[k2 := Multiple([x, y])] == map[k1 := Single(v1), k2 := Multiple([x, y])];
  }

  /** The example of the value map: `{foo: "bar", baz: ["1", "2"]}` is what
      `["?foo=bar", "?baz[]=1", "?baz[]=2"]` extracts to. */
  lemma ValueMapDocExample(s: AbilitySet)
    requires |s| == 3 && s[0] == "?foo=bar" && s[1] == "?baz[]=1" && s[2] == "?baz[]=2"
    ensures Extracted(s) == (map["foo" := Single("bar"), "baz" := Multiple(["1", "2"])], [])
  {
    assert s[0] == ScalarToken("foo", "bar");
    assert s[1] == ArrayToken("baz", "1") && s[2] == ArrayToken("baz", "2");
    assert s == [ScalarToken("foo", "bar"), ArrayToken("baz", "1"), ArrayToken("baz", "2")];
    assert !IsArrayKey("foo") && !IsArrayKey("baz");
    ValueMapShape("foo", "bar", "baz", "1", "2");
  }
}
