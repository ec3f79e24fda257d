# Able ability resolver, modelled in Dafny

This project models the `Able` namespace of `src/Able.ts`. It is a string-based access-control engine:

- An **ability set** is an ordered list of tokens.
- A **group definition** maps alias tokens to their members.
- A token starting with `?` is a **value annotation**, written `?key=value` or `?key[]=value`.
- A token may hold **placeholders** `{name}`.

The engine has four stages and a check:

1. `flatten` expands aliases to a fixpoint. Cyclic definitions are allowed.
2. `extractValues` parses annotations into a value map and keeps the other tokens.
3. `applyValues` substitutes every value of every placeholder. A token whose placeholder has no value is dropped.
4. `resolve` chains the three stages.
5. `getMissingAbilities` and `canAccess` compare a resolved set with a required set.

Modules, leaves first:

- `AbleTypes` (`able_types.dfy`): tokens, definitions, value maps and the helper `arr`.
- `GroupExpander` (`group_expander.dfy`): `flatten`. It is a method with the source's two nested loops, proved equal to the function `Closure`. Its closure, freshness, minimality and idempotence are proved about `Closure`.
- `ValueExtractor` (`value_extractor.dfy`): `extractValues`. It is a method with the source's loop, proved equal to the function `Extracted`. The parsing rules and an encode/extract round trip are proved about `Extracted`.
- `ValueApplier` (`value_applier.dfy`): `applyValues` as functions: a left-to-right scanner for the pattern `\{([^}]+)\}`, first-occurrence `replace`, and the nested folds.
  - A token's block size is proved to be the product of its names' value counts.
  - The block's order is proved equal to an independent nested-loop reference, with the first placeholder as the outer loop.
- `Resolver` (`resolver.dfy`): `resolve`. The method calls the `Flatten` and `ExtractValues` methods and is proved equal to the function `Resolved`.
- `AccessChecker` (`access_checker.dfy`): `getMissingAbilities` as an order-preserving filter, and `canAccess` as its emptiness test.

Every example of the doc comments and every test of `test/Able.spec.ts` is stated as a lemma. Most of them, and all the `applyValues`, `extractValues` and `resolve` examples, are proved through a lemma over abstract strings that the concrete example instantiates. `FlattenDocExample`, `FlattenMembersExample`, `CanAccessExample` and `CannotAccessExample` are proved directly on their literals. The `applyValues` test compares sorted lists; `ApplyTestExample` states the exact order.

Four behaviours of the code that the model keeps:

- `split("=", 2)` cuts the value at a second `=`: `?k=a=b` stores `a` (src/Able.ts:77).
- A placeholder that occurs twice in a token is two independent factors of the product, because `replace` substitutes only the first occurrence. With `x = ["a","b"]`, `"{x}{x}"` gives `aa, ab, ba, bb` (src/Able.ts:119-123).
- A scalar `""` is one substitution value, not zero, because `arr("")` is `[""]` (src/Able.ts:172-173).
- The input of `flatten` is not deduplicated; only appended members are (src/Able.ts:46-51).

## Model

| member | source | states |
|---|---|---|
| AbleTypes.Arr | src/Able.ts:171-181 | The list is empty exactly for a missing entry or an empty array. A single string `s`, `""` included, gives `[s]`. An array is returned as it is. |
| GroupExpander.AppendNew | src/Able.ts:49-53 | The inner loop grows the sequence by at most the number of members. Its full meaning is AppendNewSpec. |
| GroupExpander.AppendNewSpec | src/Able.ts:49-53 | The inner loop keeps the sequence as a prefix and adds exactly the members. Appended elements are fresh. The sequence is unchanged iff every member was present. |
| GroupExpander.AppendNewDistinct | src/Able.ts:49-53 | When the members are distinct and none is present, they are all appended, in order, whether or not the sequence itself repeats tokens. |
| GroupExpander.Shrinks | src/Able.ts:47-54 | Each outer step either adds nothing or strictly shrinks the set of definable members not yet present. This is why cyclic definitions terminate. |
| GroupExpander.Walk | src/Able.ts:47-54 | The walk over the growing sequence keeps what it started with as a prefix. |
| GroupExpander.Closure | src/Able.ts:45-56 | The output starts with the input unchanged. Its closure, freshness, minimality and idempotence are ClosureIsClosed, ClosureFresh, ClosureLeast and FlattenIdempotent. |
| GroupExpander.Flatten | src/Able.ts:45-56 | The result equals `Closure`. It begins with the input unchanged, is closed under the definition, and no element after the input repeats an earlier one. |
| GroupExpander.ClosureIsClosed | src/Able.ts:47-54 | Every member of every element of the result is an element of the result. |
| GroupExpander.ClosureFresh | src/Able.ts:50-51 | No appended element equals any element before it, input included. |
| GroupExpander.WalkReached | src/Able.ts:49-51 | Every element after the input is a member of some earlier element. |
| GroupExpander.ClosureLeast | src/Able.ts:45-56 | The result lies inside every set that contains the input and is closed under the definition. With ClosureIsClosed, it is the least such set. |
| GroupExpander.WalkOfClosed | src/Able.ts:47-54 | On a sequence already closed under the definition, the walk changes nothing. |
| GroupExpander.WalkLeaves | src/Able.ts:47-48 | Tokens without a definition entry add nothing. |
| GroupExpander.WalkDistinct | src/Able.ts:48-53 | A step whose members are distinct and none present appends them all. |
| GroupExpander.WalkGrows | src/Able.ts:48-53 | The same step, from a state that stays duplicate-free with the members appended. |
| GroupExpander.FlattenIdempotent | test/Able.spec.ts:38-46 | Flattening a flattened set returns it unchanged. |
| GroupExpander.FlattenEmptyDefinition | test/Able.spec.ts:4-6 | With an empty definition, the result is the input. |
| GroupExpander.FlattenKeepsInput | src/Able.ts:46 | Every token of the input is in the output. |
| GroupExpander.FlattenOwnNameExample | test/Able.spec.ts:4-6 | `flatten({}, ["foo"])` contains `foo`. |
| GroupExpander.FlattenMembersExample | test/Able.spec.ts:8-12 | `{foo: ["bar", "baz"]}` on `["foo"]` gives exactly `["foo", "bar", "baz"]`, so it contains `bar` and `baz`. |
| GroupExpander.FlattenRecursiveExample | test/Able.spec.ts:14-23 | `{foo: ["bar", "baz"], baz: ["bam"]}` on `["foo"]` gives exactly `["foo", "bar", "baz", "bam"]`, so it contains `bar`, `baz` and `bam`. |
| GroupExpander.FlattenNested | test/Able.spec.ts:14-23 | Over distinct names, an alias of a leaf and of an alias of one leaf expands to the four tokens in walk order. |
| GroupExpander.FlattenChain | src/Able.ts:11-18 | Over distinct names, an alias whose one member is an alias of two leaves expands to the four tokens in walk order. |
| GroupExpander.FlattenGroupDocExample | src/Able.ts:11-18 | `{foo: ["bar"], bar: ["baz", "bam"], xxx: ["yyy"]}` on `["foo"]` gives `["foo", "bar", "baz", "bam"]`. |
| GroupExpander.FlattenDocExample | src/Able.ts:36-39 | `{foo: ["bar"]}` on `["foo", "bam"]` gives `["foo", "bam", "bar"]`. |
| GroupExpander.FlattenCycle | test/Able.spec.ts:25-36 | A two-alias cycle over distinct names expands to exactly four tokens, in walk order. |
| GroupExpander.FlattenCycleExample | test/Able.spec.ts:25-36 | `{foo: [bar, baz], baz: [bam, foo]}` on `["foo"]` gives `["foo", "bar", "baz", "bam"]`. |
| ValueExtractor.IsAnnotation | src/Able.ts:76 | A token is an annotation iff its first character is `?`; the empty token is not one. Its effect on extraction is PlainMembers and ExtractedKeys. |
| ValueExtractor.Split | src/Able.ts:77 | `split("=", 2)` on the body after `?`. Its meaning is SplitSpec, SplitRoundTrip and SplitBare. |
| ValueExtractor.SplitSpec | src/Able.ts:77 | The key has no `=`. A value exists iff the body has a `=`. The body starts with key, `=`, value, and the value stops at the end or at the second `=`. |
| ValueExtractor.SplitRoundTrip | src/Able.ts:77 | `key=value` splits back into key and value when neither holds `=`. |
| ValueExtractor.SplitBare | src/Able.ts:77 | A body without `=` is all key, with no value. |
| ValueExtractor.ExtractValues | src/Able.ts:72-94 | The loop returns exactly `Extracted(abilities)`, and its remainder is the non-annotation tokens in order. |
| ValueExtractor.StoreAnnotation | src/Able.ts:77-88 | One annotation updates the map as `Absorb`: an array key resets a non-list entry to `[]` and then appends; a scalar key overwrites. |
| ValueExtractor.Absorb | src/Able.ts:77-88 | The map after one annotation. Its meaning is ExtractedScalarStep, ExtractedArrayStep, BareArrayTokenStep and AbsorbFrame. |
| ValueExtractor.Extracted | src/Able.ts:72-94 | What `extractValues` returns. Its meaning is ExtractedRemainder, ExtractedKeys, ScalarLastWins, ArraysAccumulate and EncodeRoundTrip. |
| ValueExtractor.ExtractedRemainder | src/Able.ts:89-91 | The remainder is exactly `Plain`, the tokens not starting with `?`, in input order. |
| ValueExtractor.PlainMembers | src/Able.ts:76 | A token is in the remainder iff it is in the input and is not an annotation. The empty token counts as not an annotation. |
| ValueExtractor.ExtractedNoAnnotation | src/Able.ts:89-91 | Without annotations, the map is empty and the remainder is the input. |
| ValueExtractor.ExtractedKeys | src/Able.ts:75-88 | A key is in the map iff some annotation token writes to it. |
| ValueExtractor.AbsorbFrame | src/Able.ts:77-88 | An annotation for another key leaves a key's presence and entry unchanged. |
| ValueExtractor.UntouchedKeeps | src/Able.ts:75-92 | Tokens that do not write to a key leave that key's presence and entry unchanged. |
| ValueExtractor.ScalarLastWins | src/Able.ts:86-88 | After the last scalar annotation of a key, the key holds that annotation's value, or `""` without `=`. |
| ValueExtractor.ArraysAccumulate | src/Able.ts:78-85 | After array annotations with no later scalar, the key holds its earlier list (empty when it held a scalar or nothing) followed by their values in encounter order. |
| ValueExtractor.ExtractedScalarStep | src/Able.ts:86-88 | A scalar annotation stores its value, or `""` when there is no `=`, and leaves the remainder alone. |
| ValueExtractor.ExtractedArrayStep | src/Able.ts:78-85 | An array annotation appends its value, if any, to the list under the base key. A scalar there becomes `[]` first. |
| ValueExtractor.BareArrayTokenStep | src/Able.ts:80-84 | A bare `?k[]` registers `k` with an empty list. |
| ValueExtractor.EntryRoundTrip | src/Able.ts:22-27 | Writing one entry as annotation tokens and extracting them adds exactly that entry to the map. |
| ValueExtractor.EncodeRoundTrip | src/Able.ts:22-27 | Extracting the tokens of a list of distinct, encodable entries gives back exactly their map, with an empty remainder. |
| ValueExtractor.ValueMapShape | src/Able.ts:22-27 | A scalar entry and a two-item list of another key, written as `?k=v` and `?k[]=x` tokens, extract back to exactly their map, with no remainder. |
| ValueExtractor.ValueMapDocExample | src/Able.ts:22-27 | `["?foo=bar", "?baz[]=1", "?baz[]=2"]` extracts to `{foo: "bar", baz: ["1", "2"]}`. |
| ValueExtractor.ExtractExample | test/Able.spec.ts:48-52 | The test input gives `{foo: "1", noEqualSign: "", blankValue: "", arr: ["a", "b"]}` and remainder `["other"]`. |
| ValueExtractor.ExtractDocExample | src/Able.ts:65-67 | `["foo", "bam", "?foo=1", "?x[]=3"]` gives `{foo: "1", x: ["3"]}` and `["foo", "bam"]`. |
| ValueApplier.Scan | src/Able.ts:113-120 | The names of the global matches of `\{([^}]+)\}`, braces stripped. Its meaning is ScanEmpty, ScanSound, ScanPlaceholder and ScanTwo. |
| ValueApplier.ScanEmpty | src/Able.ts:113-118 | The scan finds no name iff the token holds no match of `\{([^}]+)\}`. |
| ValueApplier.ScanSound | src/Able.ts:113-120 | Every name found is the inside of a match: an opening brace, one or more characters other than `}`, and a closing brace. |
| ValueApplier.ScanPlaceholder | src/Able.ts:113-120 | In brace-free text followed by `{x}`, the first name found is `x`. |
| ValueApplier.ScanTwo | src/Able.ts:113-120 | A token of two placeholders between brace-free texts yields their two names, in order. |
| ValueApplier.Find | src/Able.ts:123 | A position found holds the pattern, at or after the start. |
| ValueApplier.FindFirst | src/Able.ts:123 | No occurrence of the pattern lies before the position found, and none at all when nothing is found. |
| ValueApplier.ReplaceFirst | src/Able.ts:123 | `replace` with a string pattern. Its meaning is ReplaceAt, ReplaceAbsent and ReplaceIn. |
| ValueApplier.ReplaceAt | src/Able.ts:123 | `replace` substitutes the first occurrence only. |
| ValueApplier.ReplaceAbsent | src/Able.ts:123 | Without an occurrence, `replace` returns the string unchanged. |
| ValueApplier.ReplaceIn | src/Able.ts:123 | Replacing `{x}` in brace-free text before `{x}` puts the value exactly there. |
| ValueApplier.Substitutions | src/Able.ts:123 | One partial result gives one string per value. |
| ValueApplier.Step | src/Able.ts:122-123 | One name multiplies the number of partial results by its number of values. |
| ValueApplier.FoldNames | src/Able.ts:121-123 | The reduce over the names. Its meaning is FoldCount and FoldExpand. |
| ValueApplier.FoldCount | src/Able.ts:121-123 | The fold over the names yields the partial results times the product of the value counts. |
| ValueApplier.ExpandToken | src/Able.ts:115-123 | One token's block. Its meaning is ExpandCount, ExpandDropped, ExpandPlain and ExpandOrder. |
| ValueApplier.ExpandCount | src/Able.ts:119-123 | A token's block has as many tokens as the product, over its matches, of the values each name takes. |
| ValueApplier.CountZero | src/Able.ts:171-180 | The product is zero iff some name has no values. |
| ValueApplier.ExpandDropped | src/Able.ts:119-123 | A token is dropped iff one of its names is missing or bound to an empty list. |
| ValueApplier.ExpandPlain | src/Able.ts:116-117 | A token without a match passes through as itself. |
| ValueApplier.FoldExpand | src/Able.ts:121-123 | The reduce over the names equals the reference nested-loop expansion of every partial result, in order. |
| ValueApplier.ExpandOrder | src/Able.ts:119-123 | A token's block equals the reference nested loop, with the first placeholder outermost. |
| ValueApplier.ApplyValues | src/Able.ts:112-125 | What `applyValues` returns. Its meaning is ApplyConcat, ApplyBlock, ApplyKeepsPlain, ApplyIdentity and the token-level lemmas. |
| ValueApplier.ApplyConcat | src/Able.ts:114-124 | Applying values to a concatenation gives the two results one after the other. |
| ValueApplier.ApplyBlock | src/Able.ts:114-124 | Each token's expansion stands contiguously where the token stood. |
| ValueApplier.ApplyKeepsPlain | src/Able.ts:116-117 | A token without a placeholder survives application. |
| ValueApplier.ApplyIdentity | src/Able.ts:116-117 | When no token has a placeholder, application returns the list unchanged. |
| ValueApplier.SubstitutionsRow | src/Able.ts:123 | When the text before `{x}` holds no `{`, the substitutions of `{x}` are one row: that text, the value, then the rest, one string per value, in value order. |
| ValueApplier.ExpandOne | src/Able.ts:119-123 | A token with one placeholder expands to one string per value, in order. |
| ValueApplier.ExpandTwo | src/Able.ts:119-123 | A token with two placeholders expands to their product, with the first placeholder outermost. |
| ValueApplier.ApplyDocExample | src/Able.ts:103-106 | The doc input gives `["article:1:read", "article:2:read"]`; the unbound `post:{postId}:read` is dropped. |
| ValueApplier.RepeatExample | src/Able.ts:119-123 | `"{x}{x}"` with `x = ["a", "b"]` gives `aa, ab, ba, bb`: every match is its own factor. |
| ValueApplier.ApplyTestExample | test/Able.spec.ts:54-59 | The test input gives the dashboard token with `1`, then `arr:a:c, arr:a:d, arr:b:c, arr:b:d`; `foo:{bar}` is dropped. |
| AccessChecker.GetMissingAbilities | src/Able.ts:154-156 | An ability is missing iff it is required and absent, and the list is no longer than the requirements. |
| AccessChecker.MissingConcat | src/Able.ts:155 | The filter keeps `required`'s order: missing abilities of a concatenation are those of each part, in turn. |
| AccessChecker.MissingCounts | src/Able.ts:155 | Each absent requirement is kept as often as it is required, and each present one is dropped. |
| AccessChecker.MissingShrinks | src/Able.ts:155 | More abilities never make more requirements missing. |
| AccessChecker.CanAccess | src/Able.ts:166-168 | Access is granted iff every required ability is present. |
| AccessChecker.CanAccessConcat | src/Able.ts:166-168 | Access to a concatenation of requirements is access to each part. |
| AccessChecker.CanAccessExample | test/Able.spec.ts:61-65 | The applied abilities satisfy the one requirement. |
| AccessChecker.CannotAccessExample | test/Able.spec.ts:67-71 | Requiring `baz` denies access, and `["baz"]` is exactly what is missing. |
| Resolver.Resolved | src/Able.ts:140-144 | What `resolve` returns. Its meaning is ResolvedKeepsPlain, ResolvedKeepsInput and ResolvedPlain. |
| Resolver.Resolve | src/Able.ts:140-144 | Flatten, then extract, then apply, returns `Resolved`: the closure's remainder with its own annotations applied. |
| Resolver.ResolvedKeepsPlain | src/Able.ts:140-144 | A reached token that is neither an annotation nor holds a placeholder is in the result. |
| Resolver.ResolvedKeepsInput | src/Able.ts:140-144 | Such a token of the input itself is in the result. |
| Resolver.ResolvedPlain | src/Able.ts:140-144 | When the closure has no annotation and no placeholder, resolving equals flattening. |
| Resolver.ResolveTwoLevels | test/Able.spec.ts:73-83 | Over distinct names, with brace-free aliases that are not annotations, a two-level definition whose leaves are a template, an unbound template and two array annotations resolves so that the result is the aliases followed by the template once per value. |
| Resolver.ResolveTestExample | test/Able.spec.ts:73-83 | The test definition on `["westDistrictManager"]` gives the four aliases, then the dashboard token for `SW`, then for `NW`. |
| Resolver.ResolveOneTemplate | src/Able.ts:131-134 | Over distinct names, with a brace-free alias that is not an annotation and brace-free text around the placeholder, an alias with one templated member, with its value annotated in the input, resolves to the alias and the substituted template. |
| Resolver.ResolveDocExample | src/Able.ts:131-134 | `{writer: ["article:{articleId}:write"]}` on `["writer", "?articleId[]=4"]` gives `["writer", "article:4:write"]`. |

## Left out

- `$` patterns in replacement strings (src/Able.ts:123) are not modelled. `ReplaceFirst` inserts the value literally, as the source does for values without `$`.
- Keys that name a property of `Object.prototype`, such as `constructor` (src/Able.ts:48, :123), are not modelled. Maps hold only the keys put into them.
- The `this` binding in `canAccess` (src/Able.ts:167) is not modelled. `CanAccess` calls `GetMissingAbilities` directly.
- Shapes that the types exclude are not modelled, for example a number inside a definition. `null` and `undefined` entries are modelled as absent keys.
- The regular expression engine is not modelled. `Scan` is an explicit left-to-right scanner that returns the names with their braces already stripped, as `match(...).map(k => k.substr(1, k.length - 2))` does.
- `src/Sso.ts` and `test-build.js` are not part of this model. The first builds a sign-in URL; the second loads the compiled bundle.
- ValueApplier.ScanSound: states only that every name found is a match. That no match is missed is stated only for the no-match case (`ScanEmpty`), and for one- and two-placeholder tokens whose text around the placeholders is brace-free (`ScanPlaceholder`, `ScanTwo`).
- ValueApplier.ExpandTwo: the closed form covers tokens with at most two placeholders. It requires brace-free text around the placeholders and brace-free values for the first name. The general order for any token is `ExpandOrder`.
- ValueApplier.ScanTwo: requires brace-free text before, between and after the two placeholders. A token such as `"{}{a}{b}"`, whose extra brace starts no match, is not covered by this lemma.
- ValueApplier.SubstitutionsRow: requires the text before `{x}` to hold no `{`. When that text itself holds `{x}`, the first-occurrence `replace` substitutes there instead, and the row shape does not apply.
- ValueApplier.ExpandOne: requires brace-free text around the placeholder, so that the first `{x}` is the one matched.
- ValueExtractor.EncodeRoundTrip: holds for entries whose key has no `=` and no `[]` suffix and whose values have no `=`. Other entries cannot be written as annotation tokens at all.
- ValueExtractor.EntryRoundTrip: same restriction as EncodeRoundTrip, and the key must not already be in the map.
- Most concrete examples are proved through lemmas over abstract strings. Each such concrete lemma takes its input token by token or as a literal map.
- The loop body of `extractValues` for one annotation is a method of its own, `StoreAnnotation`, which `ExtractValues` calls.
